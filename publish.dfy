/**
 * scripts/publish-blog-drafts.ts: every `.mdx` file in the drafts folder is
 * parsed, the user picks some, and each picked draft that has a title and a
 * summary and no namesake among the published files is written to
 * `src/content/blog/<name>` with ordered front matter and a publication
 * date, through a temporary file and a rename; the draft is deleted last.
 *
 * What the model takes as given: the user's choice, the clock, and the
 * file-system calls that fail (one `Attempt` per picked name).
 */
module Publish {
  import opened Text
  import opened Common
  import opened FileTree
  import opened Frontmatter

  /** A listed draft: its file name and the front matter read when the
      script started. */
  datatype Draft = Draft(filename: string, frontmatter: Record)

  /** The call of the `try` block that throws, if any. */
  datatype Fault =
    | NoFault
    | ReadFails
    | WriteFails(partial: Option<string>)  // `Some` leaves a temporary file with that text
    | RenameFails
    | DeleteFails

  /** One pass of the publish loop: `new Date().toISOString()`,
      `Date.now()`, the call that throws and whether the clean-up `unlinkSync`
      throws. */
  datatype Attempt = Attempt(now: string, millis: nat, fault: Fault, cleanupFails: bool)

  datatype SkipReason = MissingTitle | MissingSummary | AlreadyExists

  /** How one picked draft ends: `published++`, an error counted before the
      `try`, or an error counted in the `catch`. */
  datatype Outcome = Published | Skipped(reason: SkipReason) | Failed

  /** How the script ends. */
  datatype Exit =
    | NoDraftsFolder
    | NoDraftFiles
    | NothingSelected
    | Crashed                              // an exception outside the `try`
    | Finished(published: nat, errors: nat)

  function DraftPath(name: string): Path {
    DraftsDir + [name]
  }

  function TargetPath(name: string): Path {
    ContentRoot + [name]
  }

  /** `${targetPath}.tmp.${Date.now()}`. */
  function TempPath(name: string, millis: nat): Path {
    ContentRoot + [name + ".tmp." + Decimal(millis)]
  }

  /** A temporary file never takes the place of an `.mdx` file. */
  lemma TempNotMdx(name: string, millis: nat, other: string)
    requires EndsWith(other, ".mdx")
    ensures TempPath(name, millis) != TargetPath(other)
  {
    var d := Decimal(millis);
    var t := name + ".tmp." + d;
    assert t[|t| - 1] == d[|d| - 1];
    assert IsDigit(t[|t| - 1]);
    assert other[|other| - 4..][3] == 'x';
    assert t != other;
    assert (ContentRoot + [t])[3] == t;
  }

  /** The three paths of a pass are distinct, and each is the path of
      its own name only. */
  lemma PathsDiffer(name: string, millis: nat, other: string)
    ensures TempPath(name, millis) != DraftPath(other) && TargetPath(name) != DraftPath(other)
    ensures TempPath(name, millis) != TargetPath(name)
    ensures DraftPath(other) == DraftPath(name) ==> other == name
    ensures TargetPath(other) == TargetPath(name) ==> other == name
  {
    var t := name + ".tmp." + Decimal(millis);
    assert |t| > |name|;
    assert TempPath(name, millis)[3] == t && TargetPath(name)[3] == name;
    assert DraftPath(other)[4] == other && TargetPath(other)[3] == other;
    assert DraftPath(name)[4] == name;
  }

  predicate Same(a: Fs, b: Fs, q: Path) {
    (q in a <==> q in b) && (q in a ==> a[q] == b[q])
  }

  /** Only the paths in `paths` may differ between `a` and `b`. */
  ghost predicate Frame(a: Fs, b: Fs, paths: set<Path>) {
    forall q :: q !in paths ==> Same(a, b, q)
  }

  lemma FrameUpdate(fs: Fs, p: Path, e: Entry)
    ensures Frame(fs, fs[p := e], {p})
  {
  }

  lemma FrameRemove(fs: Fs, p: Path)
    ensures Frame(fs, fs - {p}, {p})
  {
  }

  lemma FrameMove(fs: Fs, from: Path, to: Path)
    requires IsFile(fs, from) && from != to
    ensures Frame(fs, MoveFile(fs, from, to), {from, to})
  {
  }

  lemma FrameTrans(a: Fs, b: Fs, c: Fs, s1: set<Path>, s2: set<Path>, s: set<Path>)
    requires Frame(a, b, s1) && Frame(b, c, s2) && s1 <= s && s2 <= s
    ensures Frame(a, c, s)
  {
  }

  /** `file.endsWith(".mdx") && file !== ".gitkeep"`. */
  predicate IsDraftName(name: string) {
    EndsWith(name, ".mdx") && name != ".gitkeep"
  }

  /** The `.gitkeep` test never decides anything. */
  lemma GitkeepTestRedundant(name: string)
    ensures IsDraftName(name) <==> EndsWith(name, ".mdx")
  {
    if name == ".gitkeep" {
      assert name[|name| - 1] == 'p';
    }
  }

  function FilterDrafts(names: seq<string>): (r: seq<string>)
    ensures forall x :: x in r <==> x in names && IsDraftName(x)
    ensures (forall i, j :: 0 <= i < j < |names| ==> names[i] != names[j]) ==>
      forall i, j :: 0 <= i < j < |r| ==> r[i] != r[j]
  {
    if names == [] then []
    else
      var rest := FilterDrafts(names[1..]);
      if IsDraftName(names[0]) then [names[0]] + rest else rest
  }

  /** `draftFiles`: the `.mdx` names in the drafts folder, in listing order,
      each once. */
  function DraftFiles(fs: Fs): (r: seq<string>)
    ensures forall x :: x in r <==> DraftsDir + [x] in fs && IsDraftName(x)
    ensures forall i, j :: 0 <= i < j < |r| ==> r[i] != r[j]
  {
    var names := ReadDir(fs, DraftsDir);
    AscendingDistinct(names);
    FilterDrafts(names)
  }

  /** The draft reads and parses without throwing. */
  predicate Parses(fs: Fs, codec: Codec, name: string) {
    IsFile(fs, DraftPath(name)) && codec.parse(fs[DraftPath(name)].content).Some?
  }

  function DataOf(fs: Fs, codec: Codec, name: string): Record {
    if Parses(fs, codec, name) then codec.parse(fs[DraftPath(name)].content).value.data else []
  }

  /** The drafts the script lists, with their front matter. */
  function Drafts(fs: Fs, codec: Codec, names: seq<string>): (r: seq<Draft>)
    ensures |r| == |names| && forall i :: 0 <= i < |names| ==> r[i] == Draft(names[i], DataOf(fs, codec, names[i]))
  {
    if names == [] then [] else [Draft(names[0], DataOf(fs, codec, names[0]))] + Drafts(fs, codec, names[1..])
  }

  /** The loop that reads every draft: it throws at the first draft that
      cannot be read or parsed. */
  method CollectDrafts(fs: Fs, codec: Codec, names: seq<string>) returns (r: Option<seq<Draft>>)
    ensures r.Some? <==> forall i :: 0 <= i < |names| ==> Parses(fs, codec, names[i])
    ensures r.Some? ==> r.value == Drafts(fs, codec, names)
  {
    var drafts: seq<Draft> := [];
    for i := 0 to |names|
      invariant forall k :: 0 <= k < i ==> Parses(fs, codec, names[k])
      invariant drafts == Drafts(fs, codec, names[..i])
    {
      var path := DraftPath(names[i]);
      if !IsFile(fs, path) {
        return None;
      }
      var doc := codec.parse(fs[path].content);
      if doc.None? {
        return None;
      }
      DraftsSnoc(fs, codec, names, i);
      drafts := drafts + [Draft(names[i], doc.value.data)];
    }
    assert names[..|names|] == names;
    r := Some(drafts);
  }

  lemma DraftsSnoc(fs: Fs, codec: Codec, names: seq<string>, i: nat)
    requires i < |names|
    ensures Drafts(fs, codec, names[..i + 1]) == Drafts(fs, codec, names[..i]) + [Draft(names[i], DataOf(fs, codec, names[i]))]
  {
    var a := Drafts(fs, codec, names[..i + 1]);
    var b := Drafts(fs, codec, names[..i]) + [Draft(names[i], DataOf(fs, codec, names[i]))];
    assert |a| == |b|;
    forall k | 0 <= k < |a| ensures a[k] == b[k] {
    }
  }

  /** `drafts.find((d) => d.filename === filename)`. */
  function Find(drafts: seq<Draft>, name: string): (r: Option<Draft>)
    ensures r.Some? ==> r.value in drafts && r.value.filename == name
    ensures r.None? ==> forall i :: 0 <= i < |drafts| ==> drafts[i].filename != name
  {
    if drafts == [] then None
    else if drafts[0].filename == name then Some(drafts[0])
    else Find(drafts[1..], name)
  }

  /** The keys the script places itself. */
  predicate Handled(key: string) {
    key == "title" || key == "publishedAt" || key == "updatedAt" || key == "summary" || key == "tags"
  }

  /** The draft's other properties, in their order. */
  function Others(data: seq<(string, Value)>): (r: seq<(string, Value)>)
    ensures forall i :: 0 <= i < |r| ==> r[i] in data && !Handled(r[i].0)
    decreases |data|
  {
    if data == [] then []
    else
      var init := data[..|data| - 1];
      var last := data[|data| - 1];
      assert data == init + [last];
      var rest := Others(init);
      if Handled(last.0) then rest else rest + [last]
  }

  lemma {:induction false} OthersDistinct(data: Record)
    ensures DistinctKeys(Others(data))
    decreases |data|
  {
    if data != [] {
      var init := data[..|data| - 1];
      var last := data[|data| - 1];
      assert DistinctKeys(init);
      OthersDistinct(init);
      var rest := Others(init);
      forall i | 0 <= i < |rest| ensures rest[i].0 != last.0 {
        var k :| 0 <= k < |init| && init[k] == rest[i];
        assert data[k] == rest[i];
      }
    }
  }

  /** The five keys differ from one another (they differ in length). */
  lemma HandledKeysDiffer()
    ensures "title" != "publishedAt" && "title" != "updatedAt" && "title" != "summary" && "title" != "tags"
    ensures "publishedAt" != "updatedAt" && "publishedAt" != "summary" && "publishedAt" != "tags"
    ensures "updatedAt" != "summary" && "updatedAt" != "tags" && "summary" != "tags"
  {
    assert |"title"| == 5 && |"publishedAt"| == 11 && |"updatedAt"| == 9 && |"summary"| == 7 && |"tags"| == 4;
  }

  lemma AssignHandled(fields: Record, key: string, value: Value)
    requires forall k :: k in Keys(fields) ==> Handled(k)
    requires Handled(key)
    ensures forall k :: k in Keys(Assign(fields, key, value)) ==> Handled(k)
  {
  }

  /** `{ title }` followed by the date assignments: the draft's own
      `publishedAt` and `updatedAt` set to now when the draft has a truthy
      `publishedAt`, `publishedAt` set to now otherwise. */
  function Dated(data: Record, now: string): (r: Record)
    ensures forall k :: k in Keys(r) ==> Handled(k)
  {
    var dated := Get(data, "publishedAt");
    var titled := [("title", Get(data, "title"))];
    assert Keys(titled) == ["title"];
    AssignHandled(titled, "publishedAt", if Truthy(dated) then dated else Str(now));
    var published := Assign(titled, "publishedAt", if Truthy(dated) then dated else Str(now));
    AssignHandled(published, "updatedAt", Str(now));
    if Truthy(dated) then Assign(published, "updatedAt", Str(now)) else published
  }

  /** The front matter's properties before the others: the title, the
      date(s), the summary and, when truthy, the tags, assigned in that
      order. */
  function Leading(data: Record, now: string): (r: Record)
    ensures forall k :: k in Keys(r) ==> Handled(k)
  {
    var tags := Get(data, "tags");
    var dates := Dated(data, now);
    AssignHandled(dates, "summary", Get(data, "summary"));
    var summarised := Assign(dates, "summary", Get(data, "summary"));
    AssignHandled(summarised, "tags", tags);
    if Truthy(tags) then Assign(summarised, "tags", tags) else summarised
  }

  /** The front matter the published file is written with. */
  function OrderedData(data: Record, now: string): (r: Record) {
    var lead := Leading(data, now);
    var rest := Others(data);
    OthersDistinct(data);
    DistinctConcat(lead, rest);
    lead + rest
  }

  /** Two objects whose keys are handled and unhandled respectively
      concatenate into an object. */
  lemma DistinctConcat(lead: Record, rest: Record)
    requires forall k :: k in Keys(lead) ==> Handled(k)
    requires forall i :: 0 <= i < |rest| ==> !Handled(rest[i].0)
    ensures DistinctKeys(lead + rest)
  {
    forall i, j | 0 <= i < j < |lead + rest| ensures (lead + rest)[i].0 != (lead + rest)[j].0 {
      if j >= |lead| && i < |lead| {
        assert (lead + rest)[j] == rest[j - |lead|];
        assert Keys(lead)[i] == lead[i].0;
      } else if i >= |lead| {
        assert (lead + rest)[j] == rest[j - |lead|];
      }
    }
  }

  lemma {:induction false} GetConcat(a: seq<(string, Value)>, b: seq<(string, Value)>, k: string)
    ensures Get(a + b, k) == if k in Keys(a) then Get(a, k) else Get(b, k)
    decreases |a|
  {
    if a != [] {
      assert (a + b)[1..] == a[1..] + b;
      GetConcat(a[1..], b, k);
    } else {
      assert a + b == b;
    }
  }

  lemma KeysAppend(a: seq<(string, Value)>, x: (string, Value), k: string)
    ensures k in Keys(a + [x]) <==> k in Keys(a) || k == x.0
  {
    assert Keys(a + [x]) == Keys(a) + [x.0];
  }

  lemma {:induction false} OthersKeys(data: seq<(string, Value)>, k: string)
    requires !Handled(k)
    ensures k in Keys(Others(data)) <==> k in Keys(data)
    decreases |data|
  {
    if data != [] {
      var init := data[..|data| - 1];
      var last := data[|data| - 1];
      assert data == init + [last];
      OthersKeys(init, k);
      KeysAppend(init, last, k);
      if !Handled(last.0) {
        KeysAppend(Others(init), last, k);
      }
    }
  }

  lemma GetLast(a: seq<(string, Value)>, x: (string, Value), k: string)
    ensures Get(a + [x], k) == if k in Keys(a) then Get(a, k) else if k == x.0 then x.1 else Undefined
  {
    GetConcat(a, [x], k);
    assert Keys([x]) == [x.0];
  }

  lemma {:induction false} GetOthers(data: Record, k: string)
    requires !Handled(k)
    ensures Get(Others(data), k) == Get(data, k)
    decreases |data|
  {
    if data != [] {
      var init := data[..|data| - 1];
      var last := data[|data| - 1];
      assert data == init + [last];
      assert DistinctKeys(init);
      GetOthers(init, k);
      GetLast(init, last, k);
      OthersKeys(init, k);
      if !Handled(last.0) {
        GetLast(Others(init), last, k);
      }
    }
  }

  lemma KeysConcat(a: seq<(string, Value)>, b: seq<(string, Value)>)
    ensures Keys(a + b) == Keys(a) + Keys(b)
  {
  }

  /** The date assignments add new keys after the title. */
  lemma DatedShape(data: Record, now: string)
    ensures var dated := Get(data, "publishedAt");
      Dated(data, now) ==
      [("title", Get(data, "title"))]
      + [("publishedAt", if Truthy(dated) then dated else Str(now))]
      + (if Truthy(dated) then [("updatedAt", Str(now))] else [])
  {
    HandledKeysDiffer();
    var dated := Get(data, "publishedAt");
    var titled := [("title", Get(data, "title"))];
    assert Keys(titled) == ["title"];
    var published := Assign(titled, "publishedAt", if Truthy(dated) then dated else Str(now));
    assert published == titled + [("publishedAt", if Truthy(dated) then dated else Str(now))];
    assert "updatedAt" !in Keys(published);
  }

  /** Every assignment before the others adds a new key, so the leading
      properties come out in the order they are assigned. */
  lemma LeadingShape(data: Record, now: string)
    ensures var dated := Get(data, "publishedAt"); var tags := Get(data, "tags");
      Leading(data, now) ==
      [("title", Get(data, "title"))]
      + [("publishedAt", if Truthy(dated) then dated else Str(now))]
      + (if Truthy(dated) then [("updatedAt", Str(now))] else [])
      + [("summary", Get(data, "summary"))]
      + (if Truthy(tags) then [("tags", tags)] else [])
  {
    HandledKeysDiffer();
    DatedFields(data, now);
    DatedShape(data, now);
    var dates := Dated(data, now);
    var summarised := Assign(dates, "summary", Get(data, "summary"));
    assert "tags" !in Keys(summarised);
    if !Truthy(Get(data, "tags")) {
      assert summarised + [] == summarised;
    }
  }

  /** What the title and date assignments leave in the title and dates. */
  lemma DatedFields(data: Record, now: string)
    ensures var r := Dated(data, now); var dated := Get(data, "publishedAt");
      && Get(r, "title") == Get(data, "title")
      && Get(r, "publishedAt") == (if Truthy(dated) then dated else Str(now))
      && Get(r, "updatedAt") == (if Truthy(dated) then Str(now) else Undefined)
      && "summary" !in Keys(r) && "tags" !in Keys(r)
  {
    HandledKeysDiffer();
    DatedShape(data, now);
    var dated := Get(data, "publishedAt");
    var p := if Truthy(dated) then dated else Str(now);
    ListedGets("title", "publishedAt", "updatedAt", Get(data, "title"), p, Str(now), Truthy(dated), "summary");
    ListedGets("title", "publishedAt", "updatedAt", Get(data, "title"), p, Str(now), Truthy(dated), "tags");
  }

  /** Reading back two or three properties with distinct keys. */
  lemma ListedGets(kt: string, kp: string, ku: string, t: Value, p: Value, u: Value, withU: bool, k: string)
    requires kt != kp && kt != ku && kp != ku
    ensures var r := [(kt, t)] + [(kp, p)] + (if withU then [(ku, u)] else []);
      && Get(r, kt) == t && Get(r, kp) == p && Get(r, ku) == (if withU then u else Undefined)
      && (k != kt && k != kp && k != ku ==> k !in Keys(r))
  {
    var last: seq<(string, Value)> := if withU then [(ku, u)] else [];
    var r := [(kt, t)] + [(kp, p)] + last;
    assert r[1..] == [(kp, p)] + last && r[1..][1..] == last;
    assert Get(last, ku) == (if withU then u else Undefined);
    assert Get(r[1..], ku) == Get(last, ku);
    assert Keys(r) == [kt, kp] + Keys(last);
  }

  /** What the leading assignments leave in each of the five keys. */
  lemma LeadingFields(data: Record, now: string)
    ensures var lead := Leading(data, now); var dated := Get(data, "publishedAt"); var tags := Get(data, "tags");
      && Get(lead, "title") == Get(data, "title")
      && Get(lead, "publishedAt") == (if Truthy(dated) then dated else Str(now))
      && Get(lead, "updatedAt") == (if Truthy(dated) then Str(now) else Undefined)
      && Get(lead, "summary") == Get(data, "summary")
      && Get(lead, "tags") == (if Truthy(tags) then tags else Undefined)
  {
    HandledKeysDiffer();
    DatedFields(data, now);
    var dates := Dated(data, now);
    var summarised := Assign(dates, "summary", Get(data, "summary"));
    assert "tags" !in Keys(summarised);
  }

  /** The five keys read the same in the written front matter as in the
      leading assignments. */
  lemma HandledFromLeading(data: Record, now: string, key: string)
    requires Handled(key)
    ensures Get(OrderedData(data, now), key) == Get(Leading(data, now), key)
  {
    var lead := Leading(data, now);
    GetConcat(lead, Others(data), key);
    assert key !in Keys(Others(data));
  }

  /** The published front matter: the title first, then the draft's own
      `publishedAt` with `updatedAt` set to now when the draft has a truthy
      `publishedAt`, or `publishedAt` set to now otherwise; then the
      summary, the tags when truthy, and every other property of the draft
      unchanged. A falsy `tags` and the draft's own `updatedAt` are dropped. */
  lemma OrderedDataFields(data: Record, now: string, k: string)
    ensures var r := OrderedData(data, now);
      var republish := Truthy(Get(data, "publishedAt"));
      Get(r, "title") == Get(data, "title")
      && Get(r, "publishedAt") == (if republish then Get(data, "publishedAt") else Str(now))
      && Get(r, "updatedAt") == (if republish then Str(now) else Undefined)
      && Get(r, "summary") == Get(data, "summary")
      && Get(r, "tags") == (if Truthy(Get(data, "tags")) then Get(data, "tags") else Undefined)
      && (!Handled(k) ==> Get(r, k) == Get(data, k))
      && r[0].0 == "title" && r[1].0 == "publishedAt"
  {
    var lead := Leading(data, now);
    LeadingFields(data, now);
    LeadingShape(data, now);
    assert lead[0].0 == "title" && lead[1].0 == "publishedAt";
    HandledFromLeading(data, now, "title");
    HandledFromLeading(data, now, "publishedAt");
    HandledFromLeading(data, now, "updatedAt");
    HandledFromLeading(data, now, "summary");
    HandledFromLeading(data, now, "tags");
    assert OrderedData(data, now) == lead + Others(data);
    if !Handled(k) {
      GetConcat(lead, Others(data), k);
      GetOthers(data, k);
    }
  }

  /** The next property of the loop is not yet in `orderedData`. */
  lemma NotYetAssigned(data: Record, lead: Record, i: nat)
    requires i < |data| && !Handled(data[i].0)
    requires forall k :: k in Keys(lead) ==> Handled(k)
    ensures data[i].0 !in Keys(lead + Others(data[..i]))
  {
    var key := data[i].0;
    KeysConcat(lead, Others(data[..i]));
    OthersKeys(data[..i], key);
    assert key !in Keys(data[..i]);
  }

  /** One more property of the draft extends its other properties by it
      exactly when it is not one of the five. */
  lemma OthersStep(data: seq<(string, Value)>, i: nat)
    requires i < |data|
    ensures Others(data[..i + 1]) == Others(data[..i]) + (if Handled(data[i].0) then [] else [data[i]])
  {
    assert data[..i + 1][..i] == data[..i];
  }

  /** The assignments before the loop, in the order the script makes them. */
  method AssignLeading(data: Record, now: string) returns (r: Record)
    ensures r == Leading(data, now)
  {
    r := [("title", Get(data, "title"))];
    if Truthy(Get(data, "publishedAt")) {
      r := Assign(r, "publishedAt", Get(data, "publishedAt"));
      r := Assign(r, "updatedAt", Str(now));
    } else {
      r := Assign(r, "publishedAt", Str(now));
    }
    r := Assign(r, "summary", Get(data, "summary"));
    if Truthy(Get(data, "tags")) {
      r := Assign(r, "tags", Get(data, "tags"));
    }
  }

  /** The loop that copies every other property of the draft, in order. */
  method AssignOthers(data: Record, lead: Record) returns (r: Record)
    requires forall k :: k in Keys(lead) ==> Handled(k)
    ensures r == lead + Others(data)
  {
    r := lead;
    for i := 0 to |data|
      invariant r == lead + Others(data[..i])
    {
      OthersStep(data, i);
      var (key, value) := data[i];
      if !Handled(key) {
        NotYetAssigned(data, lead, i);
        r := Assign(r, key, value);
      }
    }
    assert data[..|data|] == data;
  }

  /** `orderedData` as the script fills it. */
  method BuildOrderedData(data: Record, now: string) returns (r: Record)
    ensures r == OrderedData(data, now)
  {
    var lead := AssignLeading(data, now);
    r := AssignOthers(data, lead);
  }

  /** The text of the published file, when nothing in making it throws. */
  function PublishedText(fs: Fs, codec: Codec, name: string, now: string): Option<string> {
    if !Parses(fs, codec, name) then None
    else
      var doc := codec.parse(fs[DraftPath(name)].content).value;
      codec.stringify(doc.content, OrderedData(doc.data, now))
  }

  /** Deleting the temporary file in the `catch`: it goes when it exists
      and the `unlinkSync` succeeds. */
  function Cleanup(fs: Fs, temp: Path, fails: bool): (r: Fs)
    ensures temp in r ==> fails && temp in fs
    ensures Frame(fs, r, {temp})
  {
    if temp in fs && !fails then fs - {temp} else fs
  }

  /** The draft passes validation: a truthy title and summary in the front
      matter read at start-up. */
  predicate Valid(draft: Draft) {
    Truthy(Get(draft.frontmatter, "title")) && Truthy(Get(draft.frontmatter, "summary"))
  }

  /** One pass of the publish loop for a listed draft. */
  method PublishOne(fs: Fs, codec: Codec, draft: Draft, at: Attempt) returns (fs': Fs, outcome: Outcome)
    ensures outcome == Skipped(MissingTitle) <==> !Truthy(Get(draft.frontmatter, "title"))
    ensures outcome == Skipped(MissingSummary) <==>
      Truthy(Get(draft.frontmatter, "title")) && !Truthy(Get(draft.frontmatter, "summary"))
    ensures outcome == Skipped(AlreadyExists) <==> Valid(draft) && TargetPath(draft.filename) in fs
    ensures outcome.Skipped? || TargetPath(draft.filename) in fs ==> fs' == fs
    ensures outcome == Published <==>
      Valid(draft) && TargetPath(draft.filename) !in fs && at.fault == NoFault
      && PublishedText(fs, codec, draft.filename, at.now).Some?
      && !IsDir(fs, TempPath(draft.filename, at.millis))
    ensures outcome == Published ==>
      DraftPath(draft.filename) !in fs' && TargetPath(draft.filename) in fs'
      && fs'[TargetPath(draft.filename)] == File(PublishedText(fs, codec, draft.filename, at.now).value)
    ensures DraftPath(draft.filename) in fs && DraftPath(draft.filename) !in fs' ==> outcome == Published
    ensures outcome == Published ==> DraftPath(draft.filename) in fs
    ensures outcome != Published ==> Same(fs, fs', DraftPath(draft.filename))
    ensures outcome == Failed && at.fault != DeleteFails ==> Same(fs, fs', TargetPath(draft.filename))
    ensures TargetPath(draft.filename) !in fs && TargetPath(draft.filename) in fs' ==>
      PublishedText(fs, codec, draft.filename, at.now).Some?
      && fs'[TargetPath(draft.filename)] == File(PublishedText(fs, codec, draft.filename, at.now).value)
    ensures TempPath(draft.filename, at.millis) in fs' ==>
      at.cleanupFails || Same(fs, fs', TempPath(draft.filename, at.millis))
    ensures Frame(fs, fs', {DraftPath(draft.filename), TargetPath(draft.filename), TempPath(draft.filename, at.millis)})
  {
    var name := draft.filename;
    if !Truthy(Get(draft.frontmatter, "title")) {
      return fs, Skipped(MissingTitle);
    }
    if !Truthy(Get(draft.frontmatter, "summary")) {
      return fs, Skipped(MissingSummary);
    }
    var target := TargetPath(name);
    if target in fs {
      return fs, Skipped(AlreadyExists);
    }
    var source := DraftPath(name);
    var temp := TempPath(name, at.millis);
    PathsDiffer(name, at.millis, name);
    if at.fault == ReadFails || !IsFile(fs, source) {
      return fs, Failed;
    }
    var parsed := codec.parse(fs[source].content);
    if parsed.None? {
      return fs, Failed;
    }
    var ordered := BuildOrderedData(parsed.value.data, at.now);
    var text := codec.stringify(parsed.value.content, ordered);
    if text.None? {
      return fs, Failed;
    }
    if IsDir(fs, temp) {
      // writing to a directory throws, and so does unlinking it
      return fs, Failed;
    }
    var touched := {source, target, temp};
    if at.fault.WriteFails? {
      var written := fs;
      if at.fault.partial.Some? {
        written := fs[temp := File(at.fault.partial.value)];
        FrameUpdate(fs, temp, File(at.fault.partial.value));
      }
      fs' := Cleanup(written, temp, at.cleanupFails);
      FrameTrans(fs, written, fs', {temp}, {temp}, touched);
      assert Same(written, fs', source) && Same(fs, written, source);
      return fs', Failed;
    }
    var written := fs[temp := File(text.value)];
    FrameUpdate(fs, temp, File(text.value));
    if at.fault == RenameFails {
      fs' := Cleanup(written, temp, at.cleanupFails);
      FrameTrans(fs, written, fs', {temp}, {temp}, touched);
      assert Same(written, fs', source);
      return fs', Failed;
    }
    var moved := MoveFile(written, temp, target);
    FrameMove(written, temp, target);
    FrameTrans(fs, written, moved, {temp}, {temp, target}, touched);
    if at.fault == DeleteFails {
      assert Same(written, moved, source);
      return moved, Failed;
    }
    fs' := moved - {source};
    FrameRemove(moved, source);
    FrameTrans(fs, moved, fs', touched, {source}, touched);
    outcome := Published;
  }

  /** The paths the passes up to `n` may touch: each picked name's draft,
      its target and its temporary file. */
  function Touched(selected: seq<string>, attempts: nat -> Attempt, n: nat): set<Path>
    requires n <= |selected|
  {
    if n == 0 then {}
    else
      var name := selected[n - 1];
      Touched(selected, attempts, n - 1) + {DraftPath(name), TargetPath(name), TempPath(name, attempts(n - 1).millis)}
  }

  /** The number of picked names that are listed drafts. */
  function Listed(selected: seq<string>, names: seq<string>): nat {
    if selected == [] then 0
    else Listed(selected[..|selected| - 1], names) + (if selected[|selected| - 1] in names then 1 else 0)
  }

  /** The picked names whose draft was there before and is gone after:
      the drafts that were published. */
  ghost function Gone(fs: Fs, fs': Fs, selected: seq<string>): set<string> {
    set n | n in selected && DraftPath(n) in fs && DraftPath(n) !in fs'
  }

  /** One pass adds its name to the published drafts exactly when it
      published it, and never brings a draft back. */
  lemma GoneStep(fs: Fs, before: Fs, after: Fs, selected: seq<string>, i: nat, millis: nat, published: bool)
    requires i < |selected|
    requires Frame(before, after, {DraftPath(selected[i]), TargetPath(selected[i]), TempPath(selected[i], millis)})
    requires published ==> DraftPath(selected[i]) in before && DraftPath(selected[i]) !in after
    requires !published ==> Same(before, after, DraftPath(selected[i]))
    requires forall n :: DraftPath(n) in before ==> DraftPath(n) in fs
    requires forall n :: DraftPath(n) in fs && DraftPath(n) !in before ==> n in selected[..i]
    ensures forall n :: DraftPath(n) in after ==> DraftPath(n) in fs
    ensures forall n :: DraftPath(n) in fs && DraftPath(n) !in after ==> n in selected[..i + 1]
    ensures |Gone(fs, after, selected[..i + 1])| == |Gone(fs, before, selected[..i])| + (if published then 1 else 0)
  {
    var x := selected[i];
    forall n | n != x
      ensures Same(before, after, DraftPath(n))
    {
      PathsDiffer(x, millis, n);
    }
    assert selected[..i + 1] == selected[..i] + [x];
    var g, g' := Gone(fs, before, selected[..i]), Gone(fs, after, selected[..i + 1]);
    if published {
      assert x !in g;
      assert g' == g + {x};
    } else {
      assert g' == g;
    }
  }

  /** The published text is read from the draft's own entry alone. */
  lemma PublishedTextLocal(a: Fs, b: Fs, codec: Codec, name: string, now: string)
    requires Same(a, b, DraftPath(name))
    ensures PublishedText(a, codec, name, now) == PublishedText(b, codec, name, now)
  {
  }

  /** Every `.mdx` post that the first `k` passes created holds the text
      published from its draft by one of those passes, at that pass's
      time. */
  ghost predicate NewPostsPublished(fs: Fs, codec: Codec, fs': Fs, selected: seq<string>, attempts: nat -> Attempt, k: nat)
    requires k <= |selected|
  {
    forall n :: EndsWith(n, ".mdx") && TargetPath(n) !in fs && TargetPath(n) in fs' ==>
      exists i ::
        && 0 <= i < k && selected[i] == n
        && PublishedText(fs, codec, n, attempts(i).now).Some?
        && fs'[TargetPath(n)] == File(PublishedText(fs, codec, n, attempts(i).now).value)
  }

  /** One pass keeps every remaining draft as it was at the start, and
      whatever post it creates holds the published text of its draft. */
  lemma CreatedStep(fs: Fs, codec: Codec, before: Fs, after: Fs, selected: seq<string>, attempts: nat -> Attempt, i: nat)
    requires i < |selected|
    requires Frame(before, after, {DraftPath(selected[i]), TargetPath(selected[i]), TempPath(selected[i], attempts(i).millis)})
    requires TargetPath(selected[i]) in before ==> after == before
    requires TargetPath(selected[i]) !in before && TargetPath(selected[i]) in after ==>
      PublishedText(before, codec, selected[i], attempts(i).now).Some?
      && after[TargetPath(selected[i])] == File(PublishedText(before, codec, selected[i], attempts(i).now).value)
    requires DraftPath(selected[i]) in after ==> Same(before, after, DraftPath(selected[i]))
    requires forall n :: DraftPath(n) in before ==> Same(fs, before, DraftPath(n))
    requires NewPostsPublished(fs, codec, before, selected, attempts, i)
    ensures forall n :: DraftPath(n) in after ==> Same(fs, after, DraftPath(n))
    ensures NewPostsPublished(fs, codec, after, selected, attempts, i + 1)
  {
    var x, at := selected[i], attempts(i);
    forall n | n != x
      ensures Same(before, after, DraftPath(n))
      ensures EndsWith(n, ".mdx") ==> Same(before, after, TargetPath(n))
    {
      PathsDiffer(x, at.millis, n);
      PathsDiffer(n, at.millis, x);
      if EndsWith(n, ".mdx") {
        TempNotMdx(x, at.millis, n);
      }
    }
    forall n | EndsWith(n, ".mdx") && TargetPath(n) !in fs && TargetPath(n) in after
      ensures exists j ::
        && 0 <= j < i + 1 && selected[j] == n
        && PublishedText(fs, codec, n, attempts(j).now).Some?
        && after[TargetPath(n)] == File(PublishedText(fs, codec, n, attempts(j).now).value)
    {
      if n == x && TargetPath(x) !in before {
        PublishedTextLocal(fs, before, codec, x, at.now);
        assert selected[i] == n;
      } else {
        assert Same(before, after, TargetPath(n));
        var j :| 0 <= j < i && selected[j] == n
          && PublishedText(fs, codec, n, attempts(j).now).Some?
          && before[TargetPath(n)] == File(PublishedText(fs, codec, n, attempts(j).now).value);
        assert selected[j] == n;
      }
    }
  }

  /** Every `.mdx` file that was in the blog folder is still there,
      unchanged: publishing never overwrites a post. */
  ghost predicate KeptPosts(fs: Fs, fs': Fs) {
    forall n :: EndsWith(n, ".mdx") && TargetPath(n) in fs ==> Same(fs, fs', TargetPath(n))
  }

  /** A draft is gone only when its post was created in its place. */
  ghost predicate DraftsAccounted(fs: Fs, fs': Fs) {
    forall n :: DraftPath(n) in fs && DraftPath(n) !in fs' ==>
      EndsWith(n, ".mdx") && TargetPath(n) !in fs && TargetPath(n) in fs'
  }

  lemma ListedStep(selected: seq<string>, names: seq<string>, i: nat)
    requires i < |selected|
    ensures Listed(selected[..i + 1], names) == Listed(selected[..i], names) + (if selected[i] in names then 1 else 0)
  {
    assert selected[..i + 1][..i] == selected[..i];
  }

  /** A picked name is found among the drafts exactly when it is listed. */
  lemma FindListed(fs: Fs, codec: Codec, names: seq<string>, x: string)
    ensures Find(Drafts(fs, codec, names), x).Some? <==> x in names
  {
    var drafts := Drafts(fs, codec, names);
    if x in names {
      var k :| 0 <= k < |names| && names[k] == x;
      assert drafts[k].filename == x;
    }
  }

  /** What holds after the first `i` passes of the publish loop, starting
      from `fs` and reaching `cur` with the two counters. */
  ghost predicate RunSoFar(fs: Fs, codec: Codec, names: seq<string>, selected: seq<string>, attempts: nat -> Attempt,
                           i: nat, cur: Fs, published: nat, errors: nat)
    requires i <= |selected|
  {
    && published + errors == Listed(selected[..i], names)
    && published == |Gone(fs, cur, selected[..i])|
    && Frame(fs, cur, Touched(selected, attempts, i))
    && KeptPosts(fs, cur) && DraftsAccounted(fs, cur)
    && NewPostsPublished(fs, codec, cur, selected, attempts, i)
    && (forall n :: DraftPath(n) in cur ==> DraftPath(n) in fs)
    && (forall n :: DraftPath(n) in cur ==> Same(fs, cur, DraftPath(n)))
    && (forall n :: DraftPath(n) in fs && DraftPath(n) !in cur ==> n in selected[..i])
  }

  /** What one pass contributes: a name that is not a listed draft
      changes nothing; a listed one changes only its three paths, counts
      as published exactly when its draft goes, and a post it creates
      holds the published text of its draft. */
  lemma PassStep(fs: Fs, codec: Codec, names: seq<string>, selected: seq<string>, attempts: nat -> Attempt,
                 i: nat, cur: Fs, published: nat, errors: nat, next: Fs, published': nat, errors': nat, pub: bool)
    requires forall n :: n in names ==> EndsWith(n, ".mdx")
    requires i < |selected|
    requires RunSoFar(fs, codec, names, selected, attempts, i, cur, published, errors)
    requires selected[i] !in names ==> next == cur && !pub && published' == published && errors' == errors
    requires selected[i] in names ==>
      && published' == published + (if pub then 1 else 0) && errors' == errors + (if pub then 0 else 1)
      && Frame(cur, next, {DraftPath(selected[i]), TargetPath(selected[i]), TempPath(selected[i], attempts(i).millis)})
      && (TargetPath(selected[i]) in cur ==> next == cur)
      && (pub ==> DraftPath(selected[i]) in cur && DraftPath(selected[i]) !in next && TargetPath(selected[i]) !in cur && TargetPath(selected[i]) in next)
      && (!pub ==> Same(cur, next, DraftPath(selected[i])))
      && (TargetPath(selected[i]) !in cur && TargetPath(selected[i]) in next ==>
            PublishedText(cur, codec, selected[i], attempts(i).now).Some?
            && next[TargetPath(selected[i])] == File(PublishedText(cur, codec, selected[i], attempts(i).now).value))
    ensures RunSoFar(fs, codec, names, selected, attempts, i + 1, next, published', errors')
  {
    var x, millis := selected[i], attempts(i).millis;
    ListedStep(selected, names, i);
    var paths := {DraftPath(x), TargetPath(x), TempPath(x, millis)};
    if x !in names {
      assert Frame(cur, next, paths);
    }
    FrameTrans(fs, cur, next, Touched(selected, attempts, i), paths, Touched(selected, attempts, i + 1));
    if x in names {
      PassKeeps(fs, cur, next, x, millis);
    }
    GoneStep(fs, cur, next, selected, i, millis, pub);
    CreatedStep(fs, codec, cur, next, selected, attempts, i);
  }

  /** One pass of the publish loop: a picked name that is not a listed
      draft is passed over; a listed one is published or counted as an
      error. */
  method PublishPass(fs: Fs, codec: Codec, names: seq<string>, selected: seq<string>, attempts: nat -> Attempt,
                     i: nat, cur: Fs, published: nat, errors: nat)
    returns (next: Fs, published': nat, errors': nat)
    requires forall n :: n in names ==> EndsWith(n, ".mdx")
    requires i < |selected|
    requires RunSoFar(fs, codec, names, selected, attempts, i, cur, published, errors)
    ensures RunSoFar(fs, codec, names, selected, attempts, i + 1, next, published', errors')
  {
    FindListed(fs, codec, names, selected[i]);
    var found := Find(Drafts(fs, codec, names), selected[i]);
    if found.None? {
      PassStep(fs, codec, names, selected, attempts, i, cur, published, errors, cur, published, errors, false);
      return cur, published, errors;
    }
    var outcome;
    next, outcome := PublishOne(cur, codec, found.value, attempts(i));
    if outcome == Published {
      published', errors' := published + 1, errors;
    } else {
      published', errors' := published, errors + 1;
    }
    PassStep(fs, codec, names, selected, attempts, i, cur, published, errors, next, published', errors', outcome == Published);
  }

  /** The publish loop over the picked names, `for (const filename of
      selected)`: names that are not listed drafts are passed over, every
      other one is counted as published or as an error. */
  method PublishSelected(fs: Fs, codec: Codec, names: seq<string>, selected: seq<string>, attempts: nat -> Attempt)
    returns (fs': Fs, published: nat, errors: nat)
    requires forall n :: n in names ==> EndsWith(n, ".mdx")
    ensures published + errors == Listed(selected, names)
    ensures published == |Gone(fs, fs', selected)|
    ensures NewPostsPublished(fs, codec, fs', selected, attempts, |selected|)
    ensures Frame(fs, fs', Touched(selected, attempts, |selected|))
    ensures KeptPosts(fs, fs') && DraftsAccounted(fs, fs')
  {
    published, errors := 0, 0;
    fs' := fs;
    assert Gone(fs, fs, selected[..0]) == {};
    for i := 0 to |selected|
      invariant RunSoFar(fs, codec, names, selected, attempts, i, fs', published, errors)
    {
      fs', published, errors := PublishPass(fs, codec, names, selected, attempts, i, fs', published, errors);
    }
    assert selected[..|selected|] == selected;
  }

  /** The script. The user's choice is `choose` of the listed drafts. */
  method PublishDrafts(fs: Fs, codec: Codec, choose: seq<Draft> -> seq<string>, attempts: nat -> Attempt)
    returns (fs': Fs, exit: Exit)
    ensures !exit.Finished? ==> fs' == fs
    ensures DraftsDir !in fs <==> exit == NoDraftsFolder
    ensures IsFile(fs, DraftsDir) ==> exit == Crashed
    ensures IsDir(fs, DraftsDir) && DraftFiles(fs) == [] ==> exit == NoDraftFiles
    ensures IsDir(fs, DraftsDir) && DraftFiles(fs) != [] ==>
      (exit == Crashed <==> exists n :: n in DraftFiles(fs) && !Parses(fs, codec, n))
    ensures exit.Finished? ==>
      var selected := choose(Drafts(fs, codec, DraftFiles(fs)));
      exit.published + exit.errors == Listed(selected, DraftFiles(fs))
      && exit.published == |Gone(fs, fs', selected)|
      && NewPostsPublished(fs, codec, fs', selected, attempts, |selected|)
      && Frame(fs, fs', Touched(selected, attempts, |selected|))
    ensures IsDir(fs, DraftsDir) && DraftFiles(fs) != [] && (forall n :: n in DraftFiles(fs) ==> Parses(fs, codec, n)) ==>
      (exit == NothingSelected <==> choose(Drafts(fs, codec, DraftFiles(fs))) == [])
    ensures KeptPosts(fs, fs') && DraftsAccounted(fs, fs')
  {
    if DraftsDir !in fs {
      return fs, NoDraftsFolder;
    }
    if !IsDir(fs, DraftsDir) {
      return fs, Crashed;
    }
    var names := DraftFiles(fs);
    if names == [] {
      return fs, NoDraftFiles;
    }
    var collected := CollectDrafts(fs, codec, names);
    if collected.None? {
      return fs, Crashed;
    }
    var selected := choose(collected.value);
    if selected == [] {
      return fs, NothingSelected;
    }
    var published, errors;
    fs', published, errors := PublishSelected(fs, codec, names, selected, attempts);
    exit := Finished(published, errors);
  }

  /** One pass keeps the loop's guarantees about existing posts and
      deleted drafts. */
  lemma PassKeeps(fs: Fs, before: Fs, after: Fs, name: string, millis: nat)
    requires EndsWith(name, ".mdx")
    requires Frame(before, after, {DraftPath(name), TargetPath(name), TempPath(name, millis)})
    requires TargetPath(name) in before ==> after == before
    requires DraftPath(name) in before && DraftPath(name) !in after ==> TargetPath(name) !in before && TargetPath(name) in after
    requires KeptPosts(fs, before) && DraftsAccounted(fs, before)
    ensures KeptPosts(fs, after) && DraftsAccounted(fs, after)
  {
    forall n | n != name
      ensures Same(before, after, DraftPath(n))
      ensures EndsWith(n, ".mdx") ==> Same(before, after, TargetPath(n))
    {
      PathsDiffer(name, millis, n);
      PathsDiffer(n, millis, name);
      if EndsWith(n, ".mdx") {
        TempNotMdx(name, millis, n);
      }
    }
    if TargetPath(name) in fs {
      assert TargetPath(name) in before;
    }
  }
}
