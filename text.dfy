/**
 * String helpers shared by the blog pipeline model. They give JavaScript's
 * string primitives the meaning the ECMAScript library gives them:
 * the `\s` character class, `trim`, a global `replace` with a literal
 * pattern, `startsWith`, `split` on a one-character separator and `join`.
 */
module Text {
  import opened Seqs

  /** JavaScript's `\s` class, which is also the set `trim` removes:
      the WhiteSpace and LineTerminator code points of ECMAScript. */
  predicate IsSpace(c: char) {
    c == '\t' || c == '\n' || c == '\U{000B}' || c == '\U{000C}' || c == '\r' || c == ' '
    || c == '\U{00A0}' || c == '\U{1680}' || ('\U{2000}' <= c <= '\U{200A}')
    || c == '\U{2028}' || c == '\U{2029}' || c == '\U{202F}' || c == '\U{205F}'
    || c == '\U{3000}' || c == '\U{FEFF}'
  }

  /** JavaScript's `\d` without the `u` flag: ASCII digits only. */
  predicate IsDigit(c: char) {
    '0' <= c <= '9'
  }

  predicate AllDigits(s: string) {
    forall i :: 0 <= i < |s| ==> IsDigit(s[i])
  }

  predicate StartsWith(s: string, prefix: string) {
    |prefix| <= |s| && s[..|prefix|] == prefix
  }

  predicate EndsWith(s: string, suffix: string) {
    |suffix| <= |s| && s[|s| - |suffix|..] == suffix
  }

  lemma ConcatEnds(a: string, b: string)
    ensures StartsWith(a + b, a) && EndsWith(a + b, b)
  {
    assert (a + b)[..|a|] == a;
    assert (a + b)[|a + b| - |b|..] == b;
  }

  /** `pat` occurs somewhere in `s`. */
  predicate Contains(s: string, pat: string)
    decreases |s|
  {
    StartsWith(s, pat) || (s != [] && Contains(s[1..], pat))
  }

  /** A match found at index `i` is an occurrence. */
  lemma {:induction false} ContainsFromIndex(s: string, pat: string, i: nat)
    requires i <= |s| && StartsWith(s[i..], pat)
    ensures Contains(s, pat)
    decreases i
  {
    if i > 0 {
      assert s[1..][i - 1..] == s[i..];
      ContainsFromIndex(s[1..], pat, i - 1);
    }
  }

  /** Without an occurrence, no index starts one. */
  lemma NotContainsAt(s: string, pat: string, i: nat)
    requires i <= |s| && !Contains(s, pat)
    ensures !StartsWith(s[i..], pat)
  {
    if StartsWith(s[i..], pat) { ContainsFromIndex(s, pat, i); }
  }

  /** A pattern whose first character does not occur in `s` does not occur in it. */
  lemma {:induction false} NotContainsFirst(s: string, pat: string)
    requires pat != [] && pat[0] !in s
    ensures !Contains(s, pat)
    decreases |s|
  {
    if s != [] {
      NotContainsFirst(s[1..], pat);
    }
  }

  /** A string occurs in any string it is a middle part of. */
  lemma ContainsMiddle(a: string, b: string, c: string)
    ensures Contains(a + b + c, b)
  {
    assert (a + b + c)[|a|..][..|b|] == b;
    ContainsFromIndex(a + b + c, b, |a|);
  }

  /** The text before the first `q`. */
  function UpTo(s: string, q: char): (r: string)
    requires q in s
    ensures |r| < |s| && s[..|r|] == r && s[|r|] == q && q !in r
  {
    if s[0] == q then [] else [s[0]] + UpTo(s[1..], q)
  }

  lemma {:induction false} UpToFirst(e: string, q: char, tail: string)
    requires q !in e
    ensures UpTo(e + [q] + tail, q) == e
  {
    if e != [] {
      assert (e + [q] + tail)[1..] == e[1..] + [q] + tail;
      UpToFirst(e[1..], q, tail);
    }
  }

  /** The text before a stop character that starts `t`. */
  lemma UpToBefore(e: string, q: char, t: string)
    requires q !in e && t != [] && t[0] == q
    ensures q in e + t && UpTo(e + t, q) == e
  {
    assert e + t == e + [q] + t[1..];
    assert (e + t)[|e|] == q;
    UpToFirst(e, q, t[1..]);
  }

  /** The pieces of `o + e + c + rest`, cut where they meet. */
  lemma Framed<T>(o: seq<T>, e: seq<T>, c: seq<T>, rest: seq<T>)
    ensures var s := o + e + c + rest;
      && s[..|o|] == o && s[|o|..] == e + (c + rest)
      && s[|o| + |e|..] == c + rest
  {
  }

  /** An occurrence in a suffix is an occurrence in the whole. */
  lemma {:induction false} ContainsInSuffix(a: string, b: string, pat: string)
    requires Contains(b, pat)
    ensures Contains(a + b, pat)
    decreases |a|
  {
    if a == [] {
      assert a + b == b;
    } else {
      assert (a + b)[1..] == a[1..] + b;
      ContainsInSuffix(a[1..], b, pat);
    }
  }

  /** Every piece of a concatenation occurs in it. */
  lemma {:induction false} ConcatHasPart(parts: seq<string>, i: nat)
    requires i < |parts|
    ensures Contains(Concat(parts), parts[i])
    decreases i
  {
    if i == 0 {
      assert Concat(parts) == [] + parts[0] + Concat(parts[1..]);
      ContainsMiddle([], parts[0], Concat(parts[1..]));
    } else {
      ConcatHasPart(parts[1..], i - 1);
      ContainsInSuffix(parts[0], Concat(parts[1..]), parts[i]);
    }
  }

  /** A concatenation starts with its first piece. */
  lemma ConcatStartsWithFirst(parts: seq<string>)
    requires parts != []
    ensures StartsWith(Concat(parts), parts[0])
  {
    ConcatEnds(parts[0], Concat(parts[1..]));
  }

  /** A concatenation ends with its last piece. */
  lemma ConcatEndsWithLast(parts: seq<string>)
    requires parts != []
    ensures EndsWith(Concat(parts), parts[|parts| - 1])
  {
    var n := |parts|;
    var last := parts[n - 1];
    InitLast(parts);
    ConcatAppend(parts[..n - 1], [last]);
    ConcatOne(last);
    ConcatEnds(Concat(parts[..n - 1]), last);
  }

  /** No leading and no trailing `\s` character. */
  predicate Trimmed(s: string) {
    s == [] || (!IsSpace(s[0]) && !IsSpace(s[|s| - 1]))
  }

  function TrimStart(s: string): (r: string)
    ensures |r| <= |s| && r == s[|s| - |r|..]
    ensures r == [] || !IsSpace(r[0])
    ensures forall i :: 0 <= i < |s| - |r| ==> IsSpace(s[i])
  {
    if s != [] && IsSpace(s[0]) then TrimStart(s[1..]) else s
  }

  function TrimEnd(s: string): (r: string)
    ensures |r| <= |s| && r == s[..|r|]
    ensures r == [] || !IsSpace(r[|r| - 1])
    ensures forall i :: |r| <= i < |s| ==> IsSpace(s[i])
  {
    if s != [] && IsSpace(s[|s| - 1]) then TrimEnd(s[..|s| - 1]) else s
  }

  /** `String.prototype.trim`. */
  function Trim(s: string): (r: string)
    ensures Trimmed(r)
  {
    var t := TrimStart(s);
    var r := TrimEnd(t);
    TrimmedPrefix(t, r);
    r
  }

  /** A prefix of a string that starts with no white space, itself ending
      with no white space, is trimmed. */
  lemma TrimmedPrefix(t: string, r: string)
    requires t == [] || !IsSpace(t[0])
    requires |r| <= |t| && r == t[..|r|]
    requires r == [] || !IsSpace(r[|r| - 1])
    ensures Trimmed(r)
  {
    if r != [] {
      assert r[0] == t[0];
    }
  }

  /** `trim` leaves a string without surrounding white space as it is. */
  lemma TrimOfTrimmed(s: string)
    requires Trimmed(s)
    ensures Trim(s) == s
  {
  }

  lemma TrimIdempotent(s: string)
    ensures Trim(Trim(s)) == Trim(s)
  {
    TrimOfTrimmed(Trim(s));
  }

  /** `s.replace(/pat/g, rep)` for a pattern without metacharacters: the
      leftmost occurrence is replaced first and the scan resumes after it. */
  function ReplaceAll(s: string, pat: string, rep: string): string
    requires |pat| > 0
    decreases |s|
  {
    if |s| < |pat| then s
    else if s[..|pat|] == pat then rep + ReplaceAll(s[|pat|..], pat, rep)
    else [s[0]] + ReplaceAll(s[1..], pat, rep)
  }

  /** With a one-character pattern the replacement works character by character. */
  lemma {:induction false} ReplaceCharAppend(a: string, b: string, c: char, rep: string)
    ensures ReplaceAll(a + b, [c], rep) == ReplaceAll(a, [c], rep) + ReplaceAll(b, [c], rep)
    decreases |a|
  {
    if a == [] {
      assert a + b == b;
    } else {
      assert (a + b)[1..] == a[1..] + b;
      assert (a + b)[..1] == a[..1];
      ReplaceCharAppend(a[1..], b, c, rep);
    }
  }

  lemma {:induction false} ReplaceCharAbsent(s: string, c: char, rep: string)
    requires c !in s
    ensures ReplaceAll(s, [c], rep) == s
    decreases |s|
  {
    if s != [] {
      assert s[..1] == [s[0]];
      ReplaceCharAbsent(s[1..], c, rep);
    }
  }

  lemma ReplaceCharSingle(x: char, c: char, rep: string)
    ensures ReplaceAll([x], [c], rep) == if x == c then rep else [x]
  {
    assert [x][..1] == [x];
    assert [x][1..] == [];
  }

  /** `parts.join("")`. */
  function Concat(parts: seq<string>): (r: string)
    ensures parts == [] ==> r == []
  {
    if parts == [] then [] else parts[0] + Concat(parts[1..])
  }

  lemma ConcatOne(x: string)
    ensures Concat([x]) == x
  {
    assert [x][1..] == [];
  }

  lemma ConcatCons(x: string, rest: seq<string>)
    ensures Concat([x] + rest) == x + Concat(rest)
  {
    assert ([x] + rest)[1..] == rest;
  }

  /** Gluing `h` to the front of the first piece glues it to the front of
      the whole. */
  lemma ConcatHeadTail(h: string, rest: seq<string>)
    requires rest != []
    ensures Concat([h + rest[0]] + rest[1..]) == h + Concat(rest)
  {
    ConcatCons(h + rest[0], rest[1..]);
    HeadTail(rest);
    ConcatCons(rest[0], rest[1..]);
  }

  lemma {:induction false} ConcatAppend(a: seq<string>, b: seq<string>)
    ensures Concat(a + b) == Concat(a) + Concat(b)
  {
    if a == [] {
      assert a + b == b;
    } else {
      assert (a + b)[1..] == a[1..] + b;
      ConcatAppend(a[1..], b);
    }
  }

  /** `parts.join(sep)`. */
  function Join(parts: seq<string>, sep: string): string {
    if parts == [] then []
    else if |parts| == 1 then parts[0]
    else parts[0] + sep + Join(parts[1..], sep)
  }

  /** `s.split(sep)` for a one-character separator: always at least one piece. */
  function Split(s: string, sep: char): (r: seq<string>)
    ensures |r| >= 1
    ensures forall k :: 0 <= k < |r| ==> sep !in r[k]
  {
    if s == [] then [[]]
    else
      var rest := Split(s[1..], sep);
      if s[0] == sep then [[]] + rest else [[s[0]] + rest[0]] + rest[1..]
  }

  /** Joining the pieces with the separator gives the string back. */
  lemma {:induction false} JoinSplit(s: string, sep: char)
    ensures Join(Split(s, sep), [sep]) == s
  {
    if s != [] {
      var rest := Split(s[1..], sep);
      JoinSplit(s[1..], sep);
      if s[0] == sep {
        assert Split(s, sep) == [[]] + rest;
      } else {
        var r := Split(s, sep);
        assert r == [[s[0]] + rest[0]] + rest[1..];
        if |rest| > 1 {
          assert r[1..] == rest[1..];
          assert Join(rest, [sep]) == rest[0] + [sep] + Join(rest[1..], [sep]);
        }
      }
    }
  }

  /** Splitting pieces that were joined with the separator gives them back. */
  lemma {:induction false} SplitJoin(parts: seq<string>, sep: char)
    requires |parts| >= 1
    requires forall k :: 0 <= k < |parts| ==> sep !in parts[k]
    ensures Split(Join(parts, [sep]), sep) == parts
    decreases |parts|, |parts[0]|
  {
    var p := parts[0];
    if p == [] {
      if |parts| > 1 {
        SplitJoin(parts[1..], sep);
        SplitJoinEmptyStep(parts, sep);
      }
    } else {
      var tail := [p[1..]] + parts[1..];
      TailNoSep(parts, sep);
      SplitJoin(tail, sep);
      SplitJoinCharStep(parts, sep);
    }
  }

  lemma TailNoSep(parts: seq<string>, sep: char)
    requires |parts| >= 1 && parts[0] != []
    requires forall k :: 0 <= k < |parts| ==> sep !in parts[k]
    ensures var tail := [parts[0][1..]] + parts[1..];
      forall k :: 0 <= k < |tail| ==> sep !in tail[k]
  {
    var p := parts[0];
    var tail := [p[1..]] + parts[1..];
    forall k | 0 <= k < |tail| ensures sep !in tail[k] {
      if k == 0 {
        assert forall x :: x in p[1..] ==> x in p;
      } else {
        assert tail[k] == parts[k];
      }
    }
  }

  /** An empty first piece: the joined text starts with the separator. */
  lemma SplitJoinEmptyStep(parts: seq<string>, sep: char)
    requires |parts| > 1 && parts[0] == []
    requires Split(Join(parts[1..], [sep]), sep) == parts[1..]
    ensures Split(Join(parts, [sep]), sep) == parts
  {
    var j := Join(parts, [sep]);
    assert j == [sep] + Join(parts[1..], [sep]);
    assert j[1..] == Join(parts[1..], [sep]);
    assert parts == [[]] + parts[1..];
  }

  /** A non-empty first piece: the joined text starts with its first
      character, which is not the separator. */
  lemma SplitJoinCharStep(parts: seq<string>, sep: char)
    requires |parts| >= 1 && parts[0] != [] && parts[0][0] != sep
    requires Split(Join([parts[0][1..]] + parts[1..], [sep]), sep) == [parts[0][1..]] + parts[1..]
    ensures Split(Join(parts, [sep]), sep) == parts
  {
    var p := parts[0];
    var tail := [p[1..]] + parts[1..];
    assert tail[1..] == parts[1..];
    var j := Join(parts, [sep]);
    if |parts| == 1 {
      assert j == p && j[1..] == Join(tail, [sep]);
    } else {
      assert j == p + [sep] + Join(parts[1..], [sep]);
      assert Join(tail, [sep]) == p[1..] + [sep] + Join(parts[1..], [sep]);
      assert j[1..] == Join(tail, [sep]);
    }
    assert j[0] == p[0];
    assert [p[0]] + p[1..] == p;
    assert parts == [p] + parts[1..];
  }

  /** `String(n)` for a whole number: its decimal digits. */
  function Decimal(n: nat): (r: string)
    ensures r != [] && AllDigits(r)
  {
    if n < 10 then [('0' as int + n) as char]
    else Decimal(n / 10) + [('0' as int + n % 10) as char]
  }

  /** JavaScript's `toLowerCase` restricted to ASCII letters. */
  function LowerChar(c: char): char {
    if 'A' <= c <= 'Z' then (c as int + 32) as char else c
  }

  function LowerAscii(s: string): (r: string)
    ensures |r| == |s|
    ensures forall i :: 0 <= i < |s| ==> r[i] == LowerChar(s[i])
  {
    if s == [] then [] else [LowerChar(s[0])] + LowerAscii(s[1..])
  }
}
