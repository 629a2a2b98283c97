/**
 * The tweet id of the `Tweet` component (src/components/mdx/tweet.tsx):
 * `extractTweetId`, a search for `twitter.com/<user>/status/<digits>` or
 * `x.com/<user>/status/<digits>`, and the choice between the `url` and `id`
 * properties.
 */
module Tweet {
  import opened Seqs
  import opened Text
  import opened Common

  /** The longest prefix without a `/`. */
  function Segment(s: string): (r: string)
    ensures |r| <= |s| && s[..|r|] == r && '/' !in r
    ensures |r| < |s| ==> s[|r|] == '/'
  {
    if s == [] || s[0] == '/' then [] else [s[0]] + Segment(s[1..])
  }

  /** The longest prefix of ASCII digits. */
  function DigitRun(s: string): (r: string)
    ensures |r| <= |s| && s[..|r|] == r && AllDigits(r)
    ensures |r| < |s| ==> !IsDigit(s[|r|])
  {
    if s == [] || !IsDigit(s[0]) then [] else [s[0]] + DigitRun(s[1..])
  }

  /** `[^/]+\/status\/(\d+)` at the start of `s`, the text after the host's `/`. */
  function StatusId(s: string): (r: Option<string>)
    ensures r.Some? ==> r.value != [] && AllDigits(r.value)
  {
    var user := Segment(s);
    var after := s[|user|..];
    if user != [] && StartsWith(after, "/status/") && DigitRun(after[8..]) != [] then
      Some(DigitRun(after[8..]))
    else None
  }

  /** The length of the host and its `/` at the start of `s`, 0 for none. */
  function HostLength(s: string): (n: nat)
    ensures n == 0 || n == 6 || n == 12
    ensures n <= |s|
  {
    if StartsWith(s, "twitter.com/") then 12
    else if StartsWith(s, "x.com/") then 6
    else 0
  }

  /** The whole pattern tried at index `i`: the host alternatives in order. */
  function TweetAt(s: string, i: nat): (r: Option<string>)
    requires i <= |s|
    ensures r.Some? ==> r.value != [] && AllDigits(r.value)
  {
    var n := HostLength(s[i..]);
    if n == 0 then None else StatusId(s[i + n..])
  }

  /** The leftmost index from `i` on where the pattern matches. */
  function FirstTweetIndex(s: string, i: nat): (r: Option<nat>)
    requires i <= |s|
    ensures r.None? ==> forall j :: i <= j <= |s| ==> TweetAt(s, j).None?
    ensures r.Some? ==> i <= r.value <= |s| && TweetAt(s, r.value).Some?
    decreases |s| - i
  {
    if TweetAt(s, i).Some? then Some(i)
    else if i == |s| then None
    else
      var r := FirstTweetIndex(s, i + 1);
      NoneFrom(s, i, r.None?);
      r
  }

  lemma NoneFrom(s: string, i: nat, later: bool)
    requires i < |s| && TweetAt(s, i).None?
    requires later ==> forall j :: i + 1 <= j <= |s| ==> TweetAt(s, j).None?
    ensures later ==> forall j :: i <= j <= |s| ==> TweetAt(s, j).None?
  {
  }

  /** `extractTweetId`: the digits of the leftmost match, `None` for `null`. */
  function ExtractTweetId(url: string): (r: Option<string>)
    ensures r.Some? ==> r.value != [] && AllDigits(r.value)
    ensures r.Some? ==> Contains(url, "/status/" + r.value)
  {
    match FirstTweetIndex(url, 0)
    case None => None
    case Some(j) =>
      StatusContained(url, j + HostLength(url[j..]));
      TweetAt(url, j)
  }

  /** The digits read after a host are preceded by `/status/` in the url. */
  lemma StatusContained(url: string, i: nat)
    requires i <= |url| && StatusId(url[i..]).Some?
    ensures Contains(url, "/status/" + StatusId(url[i..]).value)
  {
    var s := url[i..];
    StatusStarts(s);
    DropDrop(url, i, |Segment(s)|);
    ContainsFromIndex(url, "/status/" + StatusId(s).value, i + |Segment(s)|);
  }

  /** A status id is read right after `/status/`, past the user segment. */
  lemma StatusStarts(s: string)
    requires StatusId(s).Some?
    ensures StartsWith(s[|Segment(s)|..], "/status/" + StatusId(s).value)
  {
    StatusPrefix(s[|Segment(s)|..]);
  }

  /** A status link starts with `/status/` and the digits read from it. */
  lemma StatusPrefix(after: string)
    requires StartsWith(after, "/status/")
    ensures StartsWith(after, "/status/" + DigitRun(after[8..]))
  {
    var d := DigitRun(after[8..]);
    assert after[8..][..|d|] == d;
    assert after[..8 + |d|] == after[..8] + after[8..][..|d|];
  }

  /** Reading a status link that starts at `s`. */
  lemma StatusIdOf(user: string, id: string, tail: string)
    requires user != [] && '/' !in user
    requires id != [] && AllDigits(id)
    requires tail == [] || !IsDigit(tail[0])
    ensures StatusId(user + "/status/" + id + tail) == Some(id)
  {
    var s := user + "/status/" + id + tail;
    Framed(user, "/status/", id, tail);
    TakeDrop(s, |user|);
    SegmentOf(user, "/status/" + (id + tail));
    TakeAppend("/status/", id + tail);
    DropDrop(s, |user|, 8);
    DigitRunOf(id, tail);
  }

  lemma {:induction false} SegmentOf(a: string, rest: string)
    requires '/' !in a && rest != [] && rest[0] == '/'
    ensures Segment(a + rest) == a
  {
    if a != [] {
      ConsTail(a, rest);
      SegmentOf(a[1..], rest);
    } else {
      assert a + rest == rest;
    }
  }

  lemma {:induction false} DigitRunOf(d: string, tail: string)
    requires AllDigits(d) && (tail == [] || !IsDigit(tail[0]))
    ensures DigitRun(d + tail) == d
  {
    if d != [] {
      ConsTail(d, tail);
      DigitRunOf(d[1..], tail);
    } else {
      assert d + tail == tail;
    }
  }

  /** The address of a status on either host is read back to its id. */
  lemma ExtractFromStatusUrl(host: string, user: string, id: string, tail: string)
    requires host == "twitter.com" || host == "x.com"
    requires user != [] && '/' !in user
    requires id != [] && AllDigits(id)
    requires tail == [] || !IsDigit(tail[0])
    ensures ExtractTweetId("https://" + host + "/" + user + "/status/" + id + tail) == Some(id)
  {
    var rest := user + "/status/" + id + tail;
    var url := "https://" + (host + "/" + rest);
    StatusIdOf(user, id, tail);
    NoTweetInScheme(host + "/" + rest);
    HostAfterScheme(host, rest);
    FirstTweetAt(url, 0, 8);
    UrlShape(host, user, id, tail);
  }

  lemma UrlShape(host: string, user: string, id: string, tail: string)
    ensures "https://" + host + "/" + user + "/status/" + id + tail
      == "https://" + (host + "/" + (user + "/status/" + id + tail))
  {
  }

  /** Right after `https://`, the host is recognised and the pattern goes
      on with the text after its `/`. */
  lemma HostAfterScheme(host: string, rest: string)
    requires host == "twitter.com" || host == "x.com"
    ensures var url := "https://" + (host + "/" + rest);
      TweetAt(url, 8) == StatusId(rest)
  {
    var url := "https://" + (host + "/" + rest);
    var at := url[8..];
    assert at == host + "/" + rest;
    if host == "twitter.com" {
      assert at[..12] == "twitter.com/" && at[12..] == rest;
    } else {
      assert at[..6] == "x.com/" && at[6..] == rest;
      NotTwitter(at);
    }
  }

  /** No host starts at a character other than `t` or `x`, nor at a `t`
      not followed by `w`. */
  lemma NoHostAt(s: string)
    requires s != [] && s[0] != 'x' && (s[0] != 't' || (|s| >= 2 && s[1] != 'w'))
    ensures !StartsWith(s, "twitter.com/") && !StartsWith(s, "x.com/")
  {
    NotTwitter(s);
    if |s| >= 6 {
      assert s[..6][0] == s[0];
    }
  }

  lemma NotTwitter(s: string)
    requires s != [] && (s[0] != 't' || (|s| >= 2 && s[1] != 'w'))
    ensures !StartsWith(s, "twitter.com/")
  {
    if |s| >= 12 {
      assert s[..12][0] == s[0] && s[..12][1] == s[1];
    }
  }

  /** No match starts inside `https://`. */
  lemma NoTweetInScheme(rest: string)
    ensures forall k :: 0 <= k < 8 ==> TweetAt("https://" + rest, k).None?
  {
    forall k | 0 <= k < 8 ensures TweetAt("https://" + rest, k).None? {
      NoHostInScheme(rest, k);
    }
  }

  /** No host starts inside `https://`. */
  lemma NoHostInScheme(rest: string, k: nat)
    requires k < 8
    ensures var url := "https://" + rest; TweetAt(url, k).None?
  {
    var url := "https://" + rest;
    var s := url[k..];
    assert s[0] == "https://"[k];
    if k == 1 || k == 2 {
      assert s[1] == "https://"[k + 1];
    }
    NoHostAt(s);
  }

  lemma {:induction false} FirstTweetAt(s: string, i: nat, j: nat)
    requires i <= j <= |s|
    requires forall k :: i <= k < j ==> TweetAt(s, k).None?
    requires TweetAt(s, j).Some?
    ensures FirstTweetIndex(s, i) == Some(j)
    decreases j - i
  {
    if i < j {
      FirstTweetAt(s, i + 1, j);
    }
  }

  /** The id the component renders: from a non-empty `url` alone when one
      is given, from a non-empty `id` otherwise, none at all without both. */
  function SelectTweetId(id: Option<string>, url: Option<string>): (r: Option<string>)
    ensures Present(url) ==> r == ExtractTweetId(url.value)
    ensures !Present(url) && Present(id) ==> r == id
    ensures !Present(url) && !Present(id) ==> r.None?
  {
    if Present(url) then ExtractTweetId(url.value)
    else if Present(id) then id
    else None
  }

  /** The component renders an embed exactly when a non-empty id was
      selected; otherwise it renders nothing. */
  predicate Renders(id: Option<string>, url: Option<string>) {
    Present(SelectTweetId(id, url))
  }

  /** A non-empty `url` alone decides, whatever `id` holds: a url that does
      not parse renders nothing even beside a valid `id`. */
  lemma UrlDecides(id1: Option<string>, id2: Option<string>, url: Option<string>)
    requires Present(url)
    ensures SelectTweetId(id1, url) == SelectTweetId(id2, url)
    ensures Renders(id1, url) <==> ExtractTweetId(url.value).Some?
  {
  }
}
