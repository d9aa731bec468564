/**
 The Bilibili onebox's URL pattern

     ^https?:\/\/www\.bilibili\.com\/video\/(.*?)(?=\/|$)

 written out as the Ruby (Onigmo) regex engine evaluates it on one string:
 - `^` holds at the start of the string and right after a `\n` that is not
   the last character;
 - `https?` tries the `s` first (greedy) and falls back to no `s`;
 - every other character of the head is a literal (the dots are escaped);
 - `(.*?)` is lazy: it first tries the empty capture and grows it one
   character at a time, `.` matching anything but `\n`;
 - `(?=\/|$)` looks ahead for a `/` or the end of a line (a `\n` or the end
   of the string) without consuming it;
 - `String#match` reports the match that starts at the leftmost position.
 */
module BilibiliRegex {

  datatype Option<+T> = None | Some(value: T)

  /** What `String#match` returns: `[0]` is `s[start..stop]`, `[1]` is `capture`. */
  datatype MatchData = MatchData(start: nat, captureStart: nat, stop: nat, capture: string)

  /** The two literal heads the pattern accepts before the capture group: `s?` present or absent. */
  const HttpPrefix: string := "http://www.bilibili.com/video/"
  const HttpsPrefix: string := "https://www.bilibili.com/video/"

  /** `lit` occurs in `s` starting at index `p`. */
  predicate LiteralAt(s: string, p: nat, lit: string) {
    p + |lit| <= |s| && s[p..p + |lit|] == lit
  }

  predicate AtLineStart(s: string, p: nat) {
    p == 0 || (0 < p < |s| && s[p - 1] == '\n')
  }

  predicate AtLineEnd(s: string, i: nat) {
    i == |s| || (i < |s| && s[i] == '\n')
  }

  /** The lookahead `(?=\/|$)` holds at index `i`. */
  predicate LookaheadAt(s: string, i: nat) {
    (i < |s| && s[i] == '/') || AtLineEnd(s, i)
  }

  /** A character at which the capture must stop. */
  predicate IsStop(c: char) {
    c == '/' || c == '\n'
  }

  /** The pattern can begin a match at `p`: a line start followed by either head. */
  predicate CanStartAt(s: string, p: nat) {
    AtLineStart(s, p) && (LiteralAt(s, p, HttpsPrefix) || LiteralAt(s, p, HttpPrefix))
  }

  /** `m` is a match of the whole pattern in `s`, anchored at `m.start`. */
  predicate IsMatchAt(s: string, m: MatchData) {
    && m.start <= m.captureStart <= m.stop <= |s|
    && AtLineStart(s, m.start)
    && ((LiteralAt(s, m.start, HttpsPrefix) && m.captureStart == m.start + |HttpsPrefix|)
        || (LiteralAt(s, m.start, HttpPrefix) && m.captureStart == m.start + |HttpPrefix|))
    && (forall k :: m.captureStart <= k < m.stop ==> !IsStop(s[k]))
    && LookaheadAt(s, m.stop)
    && m.capture == s[m.captureStart..m.stop]
  }

  /** The two heads differ at index 4 (`s` against `:`), so at most one occurs at a position. */
  lemma HeadsExclusive(s: string, p: nat)
    ensures !(LiteralAt(s, p, HttpsPrefix) && LiteralAt(s, p, HttpPrefix))
  {
    if LiteralAt(s, p, HttpsPrefix) && p + |HttpPrefix| <= |s| {
      assert s[p + 4] == s[p..p + |HttpsPrefix|][4] == 's';
      assert s[p..p + |HttpPrefix|][4] == 's' != HttpPrefix[4];
    }
  }

  /**
   The head `https?:\/\/www\.bilibili\.com\/video\/` tried at `p`: the greedy
   `s?` first takes the `s`, and backtracks to the head without it when the
   rest of the head fails to match. The result is the index just after the head.
   */
  function HeadAt(s: string, p: nat): (r: Option<nat>)
    ensures r.Some? <==> LiteralAt(s, p, HttpsPrefix) || LiteralAt(s, p, HttpPrefix)
    ensures LiteralAt(s, p, HttpsPrefix) ==> r == Some(p + |HttpsPrefix|)
    ensures LiteralAt(s, p, HttpPrefix) ==> r == Some(p + |HttpPrefix|)
  {
    HeadsExclusive(s, p);
    if LiteralAt(s, p, HttpsPrefix) then Some(p + |HttpsPrefix|)
    else if LiteralAt(s, p, HttpPrefix) then Some(p + |HttpPrefix|)
    else None
  }

  /**
   The lazy group `(.*?)` followed by the lookahead, starting at `i`: the
   lookahead is tried first and, where it fails, `.` consumes one character.
   Where the lookahead fails the character is neither `/` nor `\n` nor the
   end of the string, so `.` always succeeds and the group never fails.
   The result is the index where the capture ends.
   */
  function LazyCapture(s: string, i: nat): (e: nat)
    requires i <= |s|
    ensures i <= e <= |s|
    ensures LookaheadAt(s, e)
    ensures forall k :: i <= k < e ==> !IsStop(s[k])
    decreases |s| - i
  {
    if LookaheadAt(s, i) then i
    else LazyCapture(s, i + 1)
  }

  /** One attempt of the whole pattern anchored at `p`. */
  function MatchAt(s: string, p: nat): (r: Option<MatchData>)
    requires p <= |s|
    ensures r.Some? <==> CanStartAt(s, p)
    ensures r.Some? ==> r.value.start == p && IsMatchAt(s, r.value)
  {
    if !AtLineStart(s, p) then None
    else match HeadAt(s, p)
      case None => None
      case Some(q) =>
        var e := LazyCapture(s, q);
        Some(MatchData(p, q, e, s[q..e]))
  }

  /** The engine's scan: attempts at `p`, `p + 1`, ..., `|s|`, returning the first success. */
  function Search(s: string, p: nat): (r: Option<MatchData>)
    requires p <= |s| + 1
    ensures r.Some? ==> p <= r.value.start && IsMatchAt(s, r.value)
    ensures r.Some? ==> forall k :: p <= k < r.value.start ==> !CanStartAt(s, k)
    ensures r.None? ==> forall k :: p <= k <= |s| ==> !CanStartAt(s, k)
    decreases |s| + 1 - p
  {
    if p > |s| then None
    else match MatchAt(s, p)
      case Some(m) => Some(m)
      case None => Search(s, p + 1)
  }

  /** `s.match(REGEX)`: the leftmost match, or `nil`. */
  function RegexMatch(s: string): (r: Option<MatchData>)
    ensures r.Some? <==> exists p: nat :: p <= |s| && CanStartAt(s, p)
    ensures r.Some? ==> IsMatchAt(s, r.value)
    ensures r.Some? ==> forall k: nat :: k < r.value.start ==> !CanStartAt(s, k)
  {
    var r := Search(s, 0);
    if r.Some? then assert CanStartAt(s, r.value.start); r else r
  }

  /** Whether the onebox engine claims the URL (`matches_regexp REGEX`). */
  predicate Matches(url: string)
    ensures Matches(url) <==> exists p: nat :: p <= |url| && AtLineStart(url, p) && HeadAt(url, p).Some?
  {
    var r := RegexMatch(url);
    assert r.Some? ==> HeadAt(url, r.value.start).Some?;
    assert forall p: nat :: HeadAt(url, p).Some? ==> CanStartAt(url, p) || !AtLineStart(url, p);
    r.Some?
  }

  /** `@url.match(REGEX)[1]`; `None` where the match is `nil`. */
  function ExtractId(url: string): (r: Option<string>)
    ensures r.Some? <==> Matches(url)
    ensures r.Some? ==> '/' !in r.value && '\n' !in r.value
  {
    match RegexMatch(url)
    case None => None
    case Some(m) =>
      assert forall j :: 0 <= j < |m.capture| ==> m.capture[j] == url[m.captureStart + j];
      Some(m.capture)
  }

  /** The match starts at the first position where the pattern can start, and is the match anchored there. */
  lemma LeftmostMatch(s: string, n: nat, m: MatchData)
    requires IsMatchAt(s, m) && m.start == n
    requires forall k: nat :: k < n ==> !CanStartAt(s, k)
    ensures RegexMatch(s) == Some(m)
  {
    assert CanStartAt(s, n);
    var r := RegexMatch(s).value;
    assert CanStartAt(s, r.start);
    assert r.start == n;
    MatchUnique(s, r, m);
  }

  /** Two matches anchored at the same position are the same match: the pattern is deterministic. */
  lemma MatchUnique(s: string, m1: MatchData, m2: MatchData)
    requires IsMatchAt(s, m1) && IsMatchAt(s, m2) && m1.start == m2.start
    ensures m1 == m2
  {
    HeadsExclusive(s, m1.start);
  }
}
