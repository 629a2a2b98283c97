/**
 * The front matter of a post as gray-matter hands it over: a JavaScript
 * object of YAML values, and the body that follows it. Parsing and
 * serialising the YAML are parameters (`Codec`); what the model fixes is
 * how the code reads fields, tests them for truthiness and assigns them.
 */
module Frontmatter {
  import opened Common

  /** A YAML value as it appears in JavaScript. */
  datatype Value =
    | Undefined
    | Null
    | Bool(b: bool)
    | Num(n: int)
    | Str(s: string)
    | Date(time: int)
    | List(items: seq<Value>)
    | Object(fields: seq<(string, Value)>)

  /** JavaScript truthiness: `undefined`, `null`, `false`, `0` and the empty
      string are falsy; every object, an empty array included, is truthy. */
  predicate Truthy(v: Value) {
    match v
    case Undefined => false
    case Null => false
    case Bool(b) => b
    case Num(n) => n != 0
    case Str(s) => s != []
    case _ => true
  }

  function Keys(fields: seq<(string, Value)>): (r: seq<string>)
    ensures |r| == |fields| && forall i :: 0 <= i < |fields| ==> r[i] == fields[i].0
  {
    if fields == [] then [] else [fields[0].0] + Keys(fields[1..])
  }

  predicate DistinctKeys(fields: seq<(string, Value)>) {
    forall i, j :: 0 <= i < j < |fields| ==> fields[i].0 != fields[j].0
  }

  /** An object's own properties in enumeration order, each key once. */
  type Record = fields: seq<(string, Value)> | DistinctKeys(fields) witness []

  /** Property access `o[key]`: `undefined` for a missing key. */
  function Get(fields: seq<(string, Value)>, key: string): (v: Value)
    ensures key !in Keys(fields) ==> v == Undefined
  {
    if fields == [] then Undefined
    else if fields[0].0 == key then fields[0].1
    else Get(fields[1..], key)
  }

  /** In an object, the value read back for a key is the one stored under it. */
  lemma {:induction false} GetAt(fields: Record, i: nat)
    requires i < |fields|
    ensures Get(fields, fields[i].0) == fields[i].1
  {
    if i > 0 {
      GetAt(fields[1..], i - 1);
    }
  }

  lemma {:induction false} GetAppend(fields: seq<(string, Value)>, key: string, value: Value, k: string)
    ensures Get(fields + [(key, value)], k) ==
      if k in Keys(fields) then Get(fields, k) else if k == key then value else Undefined
  {
    if fields != [] {
      assert (fields + [(key, value)])[1..] == fields[1..] + [(key, value)];
      GetAppend(fields[1..], key, value, k);
    }
  }

  /** Property assignment `o[key] = value`: a present key keeps its place
      and takes the new value; a new key goes last. */
  function Assign(fields: Record, key: string, value: Value): (r: Record)
    ensures key in Keys(fields) ==> Keys(r) == Keys(fields)
    ensures key !in Keys(fields) ==> r == fields + [(key, value)]
    ensures forall k :: k in Keys(r) <==> k in Keys(fields) || k == key
    ensures Get(r, key) == value
    ensures forall k :: k != key ==> Get(r, k) == Get(fields, k)
  {
    if key !in Keys(fields) then
      var r := fields + [(key, value)];
      assert Keys(r) == Keys(fields) + [key];
      forall k ensures Get(r, k) == if k in Keys(fields) then Get(fields, k) else if k == key then value else Undefined {
        GetAppend(fields, key, value, k);
      }
      r
    else
      var i :| 0 <= i < |fields| && fields[i].0 == key;
      var r := fields[i := (key, value)];
      AssignAt(fields, i, value);
      r
  }

  lemma {:induction false} AssignAt(fields: Record, i: nat, value: Value)
    requires i < |fields|
    ensures DistinctKeys(fields[i := (fields[i].0, value)])
    ensures Keys(fields[i := (fields[i].0, value)]) == Keys(fields)
    ensures Get(fields[i := (fields[i].0, value)], fields[i].0) == value
    ensures forall k :: k != fields[i].0 ==> Get(fields[i := (fields[i].0, value)], k) == Get(fields, k)
  {
    var r := fields[i := (fields[i].0, value)];
    assert Keys(r) == Keys(fields);
    if i == 0 {
      assert r[1..] == fields[1..];
    } else {
      assert r[1..] == fields[1..][i - 1 := (fields[i].0, value)];
      AssignAt(fields[1..], i - 1, value);
    }
  }

  /** A file as gray-matter splits it: the front matter and the body. */
  datatype Doc = Doc(data: Record, content: string)

  /** `matter(text)` (`None` where it throws) and `matter.stringify(body,
      data)` (`None` where it throws). */
  datatype Codec = Codec(parse: string -> Option<Doc>, stringify: (string, Record) -> Option<string>)
}
