/**
 What the pattern accepts and captures, stated without the regex engine.

 A URL normally holds no line break; on such a single-line string `^`
 and `$` are the start and the end of the string, and the
 pattern accepts exactly the URLs that begin with one of the two heads.
 The capture is then the first path segment after `/video/`, with any
 query string or fragment left in it.
 */
module VideoUrls {
  import opened BilibiliRegex

  predicate SingleLine(s: string) {
    '\n' !in s
  }

  /** The URL begins with `http://www.bilibili.com/video/` or `https://www.bilibili.com/video/`. */
  predicate IsVideoPageUrl(url: string) {
    HttpPrefix <= url || HttpsPrefix <= url
  }

  /** What follows `/video/` in a video page URL. */
  function Remainder(url: string): (rest: string)
    requires IsVideoPageUrl(url)
    ensures HttpsPrefix + rest == url || HttpPrefix + rest == url
  {
    if HttpsPrefix <= url then url[|HttpsPrefix|..] else url[|HttpPrefix|..]
  }

  /** `id` is the part of `rest` before its first `/`, or all of `rest` when it has none. */
  predicate IsIdOf(rest: string, id: string) {
    id <= rest && '/' !in id && (rest == id || rest[|id|] == '/')
  }

  /** A reference definition of the id: the characters of `rest` up to its first `/`. */
  function FirstSegment(rest: string): (id: string)
    ensures IsIdOf(rest, id)
  {
    if rest == [] || rest[0] == '/' then []
    else [rest[0]] + FirstSegment(rest[1..])
  }

  /** Either the whole remainder is the id, or the id is followed by a `/`; the two cases are told apart by `/`. */
  lemma IdOfCases(rest: string, id: string)
    requires IsIdOf(rest, id)
    ensures '/' !in rest <==> id == rest
    ensures '/' in rest ==> id + "/" <= rest
  {
    if rest != id {
      assert rest[|id|] in rest;
      assert (id + "/") == rest[..|id| + 1];
    }
  }

  lemma IdOfUnique(rest: string, a: string, b: string)
    requires IsIdOf(rest, a) && IsIdOf(rest, b)
    ensures a == b
  {
  }

  /** In a single-line string the only line start is index 0. */
  lemma SingleLineStart(s: string, p: nat)
    requires SingleLine(s)
    ensures AtLineStart(s, p) <==> p == 0
  {
    if 0 < p < |s| {
      assert s[p - 1] in s;
    }
  }

  lemma LiteralAtZero(s: string, lit: string)
    ensures LiteralAt(s, 0, lit) <==> lit <= s
  {
  }

  /** A single-line URL matches exactly when it begins with one of the two heads; any tail is accepted. */
  lemma MatchesIffVideoPage(url: string)
    requires SingleLine(url)
    ensures Matches(url) <==> IsVideoPageUrl(url)
  {
    LiteralAtZero(url, HttpPrefix);
    LiteralAtZero(url, HttpsPrefix);
    SingleLineStart(url, 0);
    if Matches(url) {
      SingleLineStart(url, RegexMatch(url).value.start);
    }
  }

  /**
   On a single-line video page URL the capture is the first segment of the
   remainder; on any other single-line URL there is no match.
   */
  lemma ExtractIdCharacterisation(url: string)
    requires SingleLine(url)
    ensures IsVideoPageUrl(url) ==> ExtractId(url) == Some(FirstSegment(Remainder(url)))
    ensures !IsVideoPageUrl(url) ==> ExtractId(url) == None
  {
    MatchesIffVideoPage(url);
    if IsVideoPageUrl(url) {
      var m := RegexMatch(url).value;
      SingleLineStart(url, m.start);
      LiteralAtZero(url, HttpPrefix);
      LiteralAtZero(url, HttpsPrefix);
      HeadsExclusive(url, 0);
      var rest := Remainder(url);
      assert rest == url[m.captureStart..];
      var id := m.capture;
      assert id == rest[..|id|];
      if m.stop < |url| {
        assert url[m.stop] in url;
        assert rest[|id|] == url[m.stop] == '/';
      }
      assert IsIdOf(rest, id);
      IdOfUnique(rest, id, FirstSegment(rest));
    }
  }

  /** The match the pattern makes on a URL built from a head, an id and a tail starting at a stop character. */
  lemma BuiltUrlMatch(prefix: string, id: string, tail: string)
    requires prefix == HttpPrefix || prefix == HttpsPrefix
    requires '/' !in id && '\n' !in id
    requires tail == [] || IsStop(tail[0])
    ensures IsMatchAt(prefix + id + tail, MatchData(0, |prefix|, |prefix| + |id|, id))
  {
    var s := prefix + id + tail;
    var q := |prefix|;
    assert s[..q] == prefix;
    forall k | q <= k < q + |id|
      ensures !IsStop(s[k])
    {
      assert s[k] == id[k - q];
      assert id[k - q] in id;
    }
    assert s[q..q + |id|] == id;
    HeadsExclusive(s, 0);
  }

  /**
   Building a URL from either head, an id free of `/` and line breaks and a
   tail that starts at a stop character (or is empty) gives back that id,
   whatever the tail holds.
   */
  lemma ExtractFromBuiltUrl(prefix: string, id: string, tail: string)
    requires prefix == HttpPrefix || prefix == HttpsPrefix
    requires '/' !in id && '\n' !in id
    requires tail == [] || IsStop(tail[0])
    ensures ExtractId(prefix + id + tail) == Some(id)
    ensures tail == [] ==> ExtractId(prefix + id) == Some(id)
  {
    var s := prefix + id + tail;
    BuiltUrlMatch(prefix, id, tail);
    LeftmostMatch(s, 0, MatchData(0, |prefix|, |prefix| + |id|, id));
    assert tail == [] ==> s == prefix + id;
  }

  /** A head cannot straddle a line break, so a first line that does not begin with a head does not match at 0. */
  lemma NoHeadAcrossBreak(first: string, rest: string, head: string)
    requires head == HttpPrefix || head == HttpsPrefix
    requires !(head <= first)
    ensures !LiteralAt(first + "\n" + rest, 0, head)
  {
    var s := first + "\n" + rest;
    if |head| <= |s| {
      if |head| <= |first| {
        assert s[..|head|] == first[..|head|];
      } else {
        assert s[..|head|][|first|] == '\n';
        assert head[|first|] != '\n';
      }
    }
  }

  /** No match can start on a single first line that is not a video page URL. */
  lemma NoStartOnFirstLine(first: string, rest: string)
    requires SingleLine(first) && !IsVideoPageUrl(first)
    ensures forall k: nat :: k <= |first| ==> !CanStartAt(first + "\n" + rest, k)
  {
    var s := first + "\n" + rest;
    NoHeadAcrossBreak(first, rest, HttpPrefix);
    NoHeadAcrossBreak(first, rest, HttpsPrefix);
    forall k: nat | 0 < k <= |first|
      ensures !AtLineStart(s, k)
    {
      assert s[k - 1] == first[k - 1];
      assert first[k - 1] in first;
    }
  }

  lemma SliceOfConcat(w: string, u: string, i: nat, j: nat)
    requires i <= j <= |u|
    ensures (w + u)[|w| + i..|w| + j] == u[i..j]
  {
    assert forall k :: 0 <= k < j - i ==> (w + u)[|w| + i..|w| + j][k] == u[i..j][k];
  }

  /** A match anchored at the start of `u` is still a match after a prefix `w` that ends a line. */
  lemma ShiftedMatch(w: string, u: string, m: MatchData)
    requires |w| > 0 && w[|w| - 1] == '\n'
    requires IsMatchAt(u, m) && m.start == 0
    ensures IsMatchAt(w + u, MatchData(|w|, |w| + m.captureStart, |w| + m.stop, m.capture))
  {
    var s := w + u;
    var n := |w|;
    assert s[n - 1] == '\n';
    SliceOfConcat(w, u, 0, m.captureStart);
    SliceOfConcat(w, u, m.captureStart, m.stop);
    forall k | n + m.captureStart <= k < n + m.stop
      ensures !IsStop(s[k])
    {
      assert m.captureStart <= k - n < m.stop;
      assert !IsStop(u[k - n]);
      assert s[k] == u[k - n];
    }
    assert n + m.stop < |s| ==> s[n + m.stop] == u[m.stop];
  }

  /**
   `^` also holds after a line break: when the first line of a string is not
   a video page URL and the next line is, the match is taken from the next
   line and its capture stops at that line's end at the latest.
   */
  lemma ExtractOnLaterLine(first: string, prefix: string, id: string, tail: string)
    requires SingleLine(first) && !IsVideoPageUrl(first)
    requires prefix == HttpPrefix || prefix == HttpsPrefix
    requires '/' !in id && '\n' !in id
    requires tail == [] || IsStop(tail[0])
    ensures ExtractId(first + "\n" + (prefix + id + tail)) == Some(id)
  {
    var u := prefix + id + tail;
    var w := first + "\n";
    var s := w + u;
    var n := |w|;
    BuiltUrlMatch(prefix, id, tail);
    assert w[n - 1] == '\n';
    ShiftedMatch(w, u, MatchData(0, |prefix|, |prefix| + |id|, id));
    NoStartOnFirstLine(first, u);
    LeftmostMatch(s, n, MatchData(n, n + |prefix|, n + |prefix| + |id|, id));
  }

  /** Rebuilding a URL from an extracted id, with either scheme, extracts the same id again. */
  lemma RoundTrip(url: string, id: string)
    requires ExtractId(url) == Some(id)
    ensures ExtractId(HttpsPrefix + id) == Some(id)
    ensures ExtractId(HttpPrefix + id) == Some(id)
  {
    ExtractFromBuiltUrl(HttpsPrefix, id, []);
    ExtractFromBuiltUrl(HttpPrefix, id, []);
  }

  /** A query string free of `/` stays in the id unless a `/` comes before it. */
  lemma QueryKept(prefix: string, id: string, query: string)
    requires prefix == HttpPrefix || prefix == HttpsPrefix
    requires '/' !in id && '\n' !in id && '/' !in query && '\n' !in query
    ensures ExtractId(prefix + (id + "?" + query)) == Some(id + "?" + query)
    ensures ExtractId(prefix + id + ("/?" + query)) == Some(id)
  {
    ExtractFromBuiltUrl(prefix, id + "?" + query, []);
    ExtractFromBuiltUrl(prefix, id, "/?" + query);
  }

  /**
   The id ends at the first `/` wherever it stands, a `/` inside the query
   included: `…/video/BV1ab?from=/x` gives `BV1ab?from=`.
   */
  lemma SlashInQueryEndsId(prefix: string, id: string, query: string, rest: string)
    requires prefix == HttpPrefix || prefix == HttpsPrefix
    requires '/' !in id && '\n' !in id && '/' !in query && '\n' !in query
    ensures ExtractId(prefix + (id + "?" + query) + ("/" + rest)) == Some(id + "?" + query)
  {
    ExtractFromBuiltUrl(prefix, id + "?" + query, "/" + rest);
  }

  /** A fragment free of `/` stays in the id too. */
  lemma FragmentKept(prefix: string, id: string, fragment: string)
    requires prefix == HttpPrefix || prefix == HttpsPrefix
    requires '/' !in id && '\n' !in id && '/' !in fragment && '\n' !in fragment
    ensures ExtractId(prefix + (id + "#" + fragment)) == Some(id + "#" + fragment)
  {
    ExtractFromBuiltUrl(prefix, id + "#" + fragment, []);
  }

  /** Nothing requires the id to be non-empty: a bare head, or a head followed by `/`, gives the empty id. */
  lemma EmptyIdAccepted(prefix: string, tail: string)
    requires prefix == HttpPrefix || prefix == HttpsPrefix
    ensures ExtractId(prefix) == Some("")
    ensures ExtractId(prefix + ("/" + tail)) == Some("")
  {
    ExtractFromBuiltUrl(prefix, "", []);
    assert prefix + "" + [] == prefix;
    ExtractFromBuiltUrl(prefix, "", "/" + tail);
    assert prefix + "" + ("/" + tail) == prefix + ("/" + tail);
  }

  /**
   Lookalike starts of a URL, each with an index at which it differs from
   both heads: no scheme, another subdomain, other characters where the
   escaped dots are, another path, another scheme, an upper-case scheme and
   a leading space.
   */
  const Lookalikes: seq<(string, nat)> := [
    ("bilibili.com/video/", 0),
    ("https://m.bilibili.com/video/", 8),
    ("https://wwwXbilibiliYcom/video/", 11),
    ("https://www.bilibili.com/v/", 26),
    ("ftp://www.bilibili.com/video/", 0),
    ("HTTPS://www.bilibili.com/video/", 0),
    (" https://www.bilibili.com/video/", 0)
  ]

  /**
   Scheme, host and path head are matched exactly and case-sensitively, and
   the match must start the line: whatever single-line text follows a
   lookalike start, the engine does not claim the URL.
   */
  lemma LookalikeRejected(i: nat, rest: string)
    requires i < |Lookalikes| && SingleLine(rest)
    ensures !Matches(Lookalikes[i].0 + rest)
  {
    LookalikeDiffers(i);
    NotVideoPage(Lookalikes[i].0, rest, Lookalikes[i].1);
  }

  /** Each lookalike start is a single line and differs from both heads at its recorded index. */
  lemma LookalikeDiffers(i: nat)
    requires i < |Lookalikes|
    ensures var (head, k) := Lookalikes[i];
      && SingleLine(head) && k < |HttpPrefix| && k < |head|
      && head[k] != HttpPrefix[k] && head[k] != HttpsPrefix[k]
  {
  }

  /** A single-line URL whose start `head` differs from both heads at index `k` is not matched. */
  lemma NotVideoPage(head: string, rest: string, k: nat)
    requires SingleLine(head) && SingleLine(rest)
    requires k < |HttpPrefix| && k < |head|
    requires head[k] != HttpPrefix[k]
    requires head[k] != HttpsPrefix[k]
    ensures !Matches(head + rest)
  {
    var url := head + rest;
    assert SingleLine(url) by {
      assert forall c :: c in url ==> c in head || c in rest;
    }
    MatchesIffVideoPage(url);
    assert url[k] == head[k];
    if |HttpPrefix| <= |url| {
      assert url[..|HttpPrefix|][k] == url[k];
    }
    if |HttpsPrefix| <= |url| {
      assert url[..|HttpsPrefix|][k] == url[k];
    }
  }
}
