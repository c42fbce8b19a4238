# Suggestion endpoint reply handling

A Dafny model of the reply handling in the message-suggestion endpoint of
Confidential Feedback (`POST` in `src/app/api/suggest-messages/route.ts`).
The endpoint asks a chat-completion provider for three questions. The model
covers what the endpoint does with the provider's answer:

- it takes the text at `choices[0].message.content`, or `""` when any link
  of that chain is missing or the text is empty (`SuggestMessages.ExtractContent`);
- it strips the first fenced code block with the non-global
  `replace(/```[\s\S]*?\n([\s\S]*?)```/, '$1')` (`Fence.StripFirstFence`),
  then applies `trim()` (`Whitespace.Trim`); `SuggestMessages.Clean` is the two
  together;
- it answers 200 with the cleaned text when the provider's status is ok
  (200 to 299, as `Response.ok` in the Fetch standard defines it), and
  otherwise passes on the provider's status with the serialised payload
  (`SuggestMessages.Respond`).

The regular expression is given two definitions. `Fence.RegexMatch` says
declaratively which match ECMAScript's leftmost, lazy, backtracking semantics
reports: the leftmost start where any match exists, then the shortest info
string (up to a line feed) that still allows a closing fence, then the
shortest body. `Fence.FirstMatch` follows the engine instead. It tries each
"```" in turn. From each one it goes to the nearest line feed and then to the
nearest closing "```". The contracts prove that the two agree, and that the
match is unique. The discarded part between the opening backticks and the
first line feed is the info string of a CommonMark fenced code block
(section 4.5 of the CommonMark specification). What is removed is decided by
the regular expression, not by CommonMark.

`Whitespace.IsWhite` is the set of characters that ECMAScript's `trim`
removes. These are the WhiteSpace and LineTerminator code points of ECMA-262:
TAB, VT, FF, ZWNBSP, LF, CR, LS, PS and the Unicode space separators.

Files: `wrappers.dfy` (Option), `whitespace.dfy` (trim), `fence.dfy` (the
regular-expression replace), `suggest.dfy` (the endpoint's reply handling).

## Model

| member | source | states |
|---|---|---|
| SuggestMessages.ExtractContent | src/app/api/suggest-messages/route.ts:32 | the result is non-empty exactly when `choices`, its first element, `message` and `content` are all present and `content` is non-empty, and then it is that content |
| Whitespace.Trim | src/app/api/suggest-messages/route.ts:35 | the result has no white character at either end and is a slice of the input with only white characters before and after it |
| Whitespace.LeadingWhite | src/app/api/suggest-messages/route.ts:35 | counts the longest white prefix: every character before it is white and the next one is not |
| Whitespace.TrailingWhite | src/app/api/suggest-messages/route.ts:35 | counts the longest white suffix: every character after the cut is white and the one before it is not |
| Whitespace.TrimUnique | src/app/api/suggest-messages/route.ts:35 | any split of a string into white prefix, trimmed core and white suffix has the core as the string's trim |
| Whitespace.TrimIdempotent | src/app/api/suggest-messages/route.ts:35 | trimming twice gives the same as trimming once |
| Whitespace.TrimAllWhite | src/app/api/suggest-messages/route.ts:35 | an all-white string trims to the empty string |
| Fence.IndexOf | src/app/api/suggest-messages/route.ts:35 | finds the first occurrence of a pattern at or after a position, or proves there is none |
| Fence.MatchFrom | src/app/api/suggest-messages/route.ts:35 | the pattern anchored at one "```" matches exactly when some line feed and closing "```" follow, and then the match found uses the shortest info string and the shortest body |
| Fence.SearchFrom | src/app/api/suggest-messages/route.ts:35 | scanning the "```" occurrences in turn finds the leftmost matchable start with its lazy line feed and closing fence, or proves no start from there can match |
| Fence.FirstMatch | src/app/api/suggest-messages/route.ts:35 | the match found is the one ECMAScript's leftmost lazy semantics reports, and none is found exactly when no start can match |
| Fence.RegexMatchUnique | src/app/api/suggest-messages/route.ts:35 | leftmost start plus lazy info string plus lazy body pick at most one match |
| Fence.StripFirstFence | src/app/api/suggest-messages/route.ts:35 | when the pattern matches, the result is the text before the opening fence, then the body, then everything after the closing fence; with no match it is the input |
| Fence.StripIdentityIffNoMatch | src/app/api/suggest-messages/route.ts:35 | the replace leaves the text unchanged if and only if the pattern matches nowhere |
| Fence.StripWithoutBackticks | src/app/api/suggest-messages/route.ts:35 | text with no "```" is left unchanged |
| Fence.EarlierBackticksMatchable | src/app/api/suggest-messages/route.ts:35 | a "```" before a matchable start is itself matchable |
| Fence.RegexMatchOpensAtFirstBackticks | src/app/api/suggest-messages/route.ts:35 | a match always opens at the first "```" of the text |
| Fence.RegexMatchIsShortest | src/app/api/suggest-messages/route.ts:35 | the discarded info string holds no line feed and the kept body holds no "```" |
| Fence.FencedLeftmost | src/app/api/suggest-messages/route.ts:35 | no match opens in text before a fenced block when that text has no "```" and does not end in a backtick |
| Fence.FencedLazyInfo | src/app/api/suggest-messages/route.ts:35 | in a fenced block, the info string ends at the line feed after the info text |
| Fence.FencedLazyBody | src/app/api/suggest-messages/route.ts:35 | in a fenced block, the body ends at the closing fence after the body text |
| Fence.FencedRegexMatch | src/app/api/suggest-messages/route.ts:35 | the first well-formed fenced block is the regular expression's match |
| Fence.StripFencedBlock | src/app/api/suggest-messages/route.ts:34-35 | the first well-formed fenced block is replaced by its body; the text before it and after it, a second fenced block included, is kept verbatim |
| SuggestMessages.Clean | src/app/api/suggest-messages/route.ts:35 | the cleaned text has no white character at either end, is no longer than the input, and is the trim of the input with the matched block replaced by its body |
| SuggestMessages.CleanWithoutBackticks | src/app/api/suggest-messages/route.ts:35 | text with no "```" cleans to its trim |
| SuggestMessages.CleanWithoutMatch | src/app/api/suggest-messages/route.ts:35 | when no "```" is followed by a line feed that is followed by "```", the text cleans to its trim |
| SuggestMessages.CleanFencedBlock | src/app/api/suggest-messages/route.ts:34-35 | a text with a well-formed first fenced block cleans to the trim of the text before it, its body and the text after it |
| SuggestMessages.CleanPlaintextExample | src/app/api/suggest-messages/route.ts:34-35 | a "plaintext" fenced block around the three questions A, B and C joined by double bars cleans to just those joined questions, without the trailing line feed |
| SuggestMessages.CleanIsTrimFixpoint | src/app/api/suggest-messages/route.ts:35 | trimming the cleaned text again changes nothing |
| SuggestMessages.Respond | src/app/api/suggest-messages/route.ts:31-42 | an ok provider status gives status 200 with a body that has no white character at either end; it gives an empty body when the content is missing or empty, and otherwise the cleaned content; a non-ok status gives that status with the serialised payload and no fence stripping |

## Left out

- The request to the provider is not modelled: the prompt text, the URL, the headers, the API key from the environment, the model name and `runtime = 'edge'` (route.ts:3-26). The provider's status and parsed payload are parameters of `Respond`.
- `response.json()` is not modelled: the payload is a `Reply` value. A reply that is not JSON makes the code throw. A JSON `null` top level throws only when the status is ok, at `data.choices` (route.ts:32). On a non-ok status any JSON payload, `null` included, is serialised and passed through (route.ts:41), and `Respond` covers that through `serialise`.
- `JSON.stringify` is the opaque parameter `serialise`. The fields of the payload other than `choices` are the type parameter `X`.
- A `content` that is truthy but not a string makes `.replace` throw. The model types `content` as a string, so it leaves this out.
- `new Response` throws for a status outside 200 to 599. This is not modelled, because a fetched response's status is already in that range.
- The `console.error` and `console.log` calls are logging only.
- JavaScript strings are UTF-16 code units, but the model's strings are Unicode scalar values. A lone surrogate cannot be represented. The fence, the line feed and every white character are single code units, so the model behaves the same on all other text.
- `Whitespace.IsWhite` lists the Unicode space separators (category Zs) of current Unicode versions. A JavaScript engine built on a different Unicode version may differ on them.
- Splitting on `||`, the three-question check and the fallback set are not in the endpoint's code, so they are not modelled. The same goes for timeouts, username availability checks and message submission.
- The navigation bar and the pages (sign-in, sign-up, the public profile page, the home page) are user-interface code with no logic of their own to verify.
