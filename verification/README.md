# Bilibili onebox engine, modelled in Dafny

`discourse-bilibili-onebox` adds one onebox engine to Discourse. The engine
claims a link when it matches one regular expression,

    ^https?:\/\/www\.bilibili\.com\/video\/(.*?)(?=\/|$)

and `to_html` renders the claimed link as an `<iframe>` for Bilibili's
embedded player. The video id (the capture group) is spliced into the
player URL without escaping.

The project has three modules:

- `BilibiliRegex` (`regex.dfy`) writes the pattern out the way Ruby's
  regex engine evaluates it on one string. `^` holds at the start of the
  string and after a `\n` that is not the last character. `s?` is greedy,
  the dots are literal, and `(.*?)` is lazy with `.` not matching `\n`.
  The lookahead accepts a `/`, a `\n` or the end of the string.
  `String#match` returns the leftmost match. `ExtractId` is
  `@url.match(REGEX)[1]`, and it is `None` where the match is `nil`.
- `VideoUrls` (`urls.dfy`) describes what the pattern accepts and captures
  without reference to the engine, and proves the two descriptions agree.
  On a single-line URL, the URL matches exactly when it begins with
  `http://www.bilibili.com/video/` or `https://www.bilibili.com/video/`.
  The id is then everything after `/video/` up to the first `/`, query
  string and fragment included, and it may be empty.
- `BilibiliOnebox` (`onebox.dfy`) holds the iframe template and `to_html`.
  It also has an inverse that reads the id back out of the markup.

Strings are `seq<char>`. Nothing in this core does I/O.

## Model

| member | source | states |
|---|---|---|
| BilibiliRegex.HeadsExclusive | plugin.rb:14 | The two alternatives of `https?` never both match at one position, because they differ at index 4 (`s` against `:`). |
| BilibiliRegex.HeadAt | plugin.rb:14 | The head `https?:\/\/www\.bilibili\.com\/video\/` matches at `p` exactly when one of the two literal heads occurs there. The result is the index just after that head. |
| BilibiliRegex.LazyCapture | plugin.rb:14 | The lazy group followed by the lookahead always succeeds. It ends at the first `/`, `\n` or end of string, and everything it consumed is free of both stop characters. |
| BilibiliRegex.MatchAt | plugin.rb:14 | An attempt at `p` succeeds exactly when `p` starts a line and a head follows. Its result is a match of the whole pattern anchored at `p`. |
| BilibiliRegex.Search | plugin.rb:14 | Scanning from `p` returns a match at the first position where the pattern can start, and no position before it can start one. It returns nothing only when no position from `p` to the end can. |
| BilibiliRegex.RegexMatch | plugin.rb:14 | `url.match(REGEX)` succeeds exactly when some position can start the pattern. The match starts at the leftmost such position. |
| BilibiliRegex.Matches | plugin.rb:14-15 | The engine claims a URL exactly when at some position a line start is followed by one of the two heads. |
| BilibiliRegex.ExtractId | plugin.rb:18 | The id exists exactly when the URL matches, and it never contains `/` or `\n`. |
| BilibiliRegex.LeftmostMatch | plugin.rb:14 | A match anchored at the first position that can start the pattern is the match `String#match` returns. |
| BilibiliRegex.MatchUnique | plugin.rb:14 | The pattern is deterministic: two matches anchored at the same position are identical. |
| VideoUrls.Remainder | plugin.rb:14 | The remainder is what follows one of the two heads in the URL. |
| VideoUrls.FirstSegment | plugin.rb:14 | Reference definition of the id: the part of the remainder before its first `/`, or all of it when it has none. |
| VideoUrls.IdOfCases | plugin.rb:14 | The id equals the remainder exactly when the remainder has no `/`. Otherwise the remainder begins with the id followed by `/`. |
| VideoUrls.SingleLineStart | plugin.rb:14 | On a single-line string `^` holds only at index 0. |
| VideoUrls.MatchesIffVideoPage | plugin.rb:14 | A single-line URL matches if and only if it begins with `http://www.bilibili.com/video/` or `https://www.bilibili.com/video/`. Any tail is accepted. |
| VideoUrls.ExtractIdCharacterisation | plugin.rb:14-18 | On a single-line URL the extracted id is the first segment of the remainder after `/video/`. A single-line URL that does not begin with a head has no id. |
| VideoUrls.BuiltUrlMatch | plugin.rb:14 | Take a head, then an id free of `/` and `\n`, then an empty tail or one starting with `/` or `\n`. The pattern matches this string at 0 and captures exactly the id. |
| VideoUrls.ExtractFromBuiltUrl | plugin.rb:14-18 | Extraction from such a built URL returns the id, whatever the tail holds, even later lines. |
| VideoUrls.NoHeadAcrossBreak | plugin.rb:14 | A head cannot span a line break. A first line that does not begin with a head cannot start a match at index 0. |
| VideoUrls.NoStartOnFirstLine | plugin.rb:14 | No match starts within a single first line that does not begin with a head. |
| VideoUrls.ShiftedMatch | plugin.rb:14 | After text ending in `\n`, a match at the start of the rest is still a match, shifted by the length of that text (`^` after a line break). |
| VideoUrls.ExtractOnLaterLine | plugin.rb:14-18 | If the first line is not a video page and the next line is, the id comes from the next line. |
| VideoUrls.RoundTrip | plugin.rb:14-18 | Rebuild a URL from an extracted id with either scheme: extracting from it returns the same id. |
| VideoUrls.QueryKept | plugin.rb:14 | A query string free of `/` right after the id stays in the id. After `/?` it is dropped (`BV1ab/?p=2` gives `BV1ab`). |
| VideoUrls.SlashInQueryEndsId | plugin.rb:14 | The id ends at the first `/`, even one inside the query: `BV1ab?from=/x` gives `BV1ab?from=`. |
| VideoUrls.FragmentKept | plugin.rb:14 | A fragment free of `/` right after the id stays in the id. |
| VideoUrls.EmptyIdAccepted | plugin.rb:14-18 | A bare head, or a head followed by `/`, matches with the empty id. |
| VideoUrls.LookalikeRejected | plugin.rb:14 | None of these lookalike starts is claimed, whatever single-line text follows: `bilibili.com/video/` (no scheme), `https://m.bilibili.com/video/`, `https://wwwXbilibiliYcom/video/` (the dots are escaped), `https://www.bilibili.com/v/`, `ftp://…`, `HTTPS://…` (case-sensitive) and a leading space (`^`). |
| VideoUrls.NotVideoPage | plugin.rb:14 | A single-line URL that differs from both heads at some index within them is rejected. |
| BilibiliOnebox.Embed | plugin.rb:19 | The markup is the fixed player prefix, then the id character for character, then the fixed suffix, and nothing else. |
| BilibiliOnebox.EmbeddedId | plugin.rb:19 | Reading an id out of markup succeeds only on markup that the template produces from that id. |
| BilibiliOnebox.EmbedRoundTrip | plugin.rb:19 | The template keeps its input: the id can be read back out of the markup. |
| BilibiliOnebox.EmbedInjective | plugin.rb:19 | Two ids give the same markup if and only if they are equal. |
| BilibiliOnebox.ToHtml | plugin.rb:17-19 | `to_html` returns markup exactly when the URL matches. The id read back from that markup is the extracted id. |
| BilibiliOnebox.ToHtmlCharacterisation | plugin.rb:14-19 | On a single-line URL, `to_html` is the template applied to the first segment after `/video/`. It is nothing for a URL that does not begin with a head. |
| BilibiliOnebox.HtmlDependsOnlyOnId | plugin.rb:17-19 | Two URLs with the same id that differ only in scheme or after the `/` following the id produce identical markup. |
| BilibiliOnebox.IdNotEscaped | plugin.rb:19 | The id appears in the markup character for character, quotes and angle brackets included. |

## Left out

- `after_initialize`, `include Onebox::Engine` and the `matches_regexp` registration (plugin.rb:8, 12, 15) are not modelled. They hook the engine into Discourse's onebox framework, and that framework is not part of this model. `Matches` stands for the test the framework performs with the registered pattern.
- The `NoMethodError` that `to_html` raises when the URL does not match (indexing a `nil` match) is not modelled as an exception. `ToHtml` returns `None` in that case.
- Rendering or parsing of the iframe is not modelled, and neither is any claim that the markup is safe. The model only states that the id is spliced in unescaped.
- Regex semantics beyond this one pattern are not modelled. The pattern is written out as a hand-made matcher, not as a general regex engine.
- The following are not modelled because none of them appears in plugin.rb: short-link redirect following, the resolution cache and its expiry, live-room lookup, rewriting short links in post text, and rewriting anchors in rendered posts. All of these need network access or shared mutable state.
- The id is not validated. It may be empty and need not be alphanumeric. A trailing query string or fragment is not stripped: the id runs up to the first `/`, even one inside the query (`EmptyIdAccepted`, `QueryKept`, `SlashInQueryEndsId`, `FragmentKept`).
- Strings are modelled as sequences of Unicode characters, so only well-formed strings are covered. A URL whose bytes are invalid in its encoding makes `String#match` raise `ArgumentError` (plugin.rb:18, and the test the registration performs). A `seq<char>` cannot represent such a string, so the model has no case for it.
- LookalikeRejected: stated for single-line tails only. With a line break in the tail, a later line could still start a match (`ExtractOnLaterLine`).
