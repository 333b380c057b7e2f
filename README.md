# Text-to-SQL gateway: extraction and sanitizing

The service has two HTTP endpoints.
- `/generate_sql` sends a prompt to a chat-completion API. From the reply it answers with the SQL in the first fenced code block.
- `/execute_sql` runs client SQL on PostgreSQL after deleting every line that, past its indentation and in any case, starts with `use`. This is meant for `USE` statements, which PostgreSQL does not have.

This project models the two pure string transformations inside those handlers and proves what they do:

- **Extraction** (`server.js:49-61`, module `Extractor`).
  - The handler reads `choices[0].message.content` from the decoded completion.
  - Without that content, or with empty content, it answers `No SQL returned.`.
  - Otherwise it matches `/```(?:sql)?\s*([\s\S]*?)\s*```/i`. It answers with the trimmed group when the group is non-empty, and with the whole content trimmed when it is not.
  - The regular expression is modelled as an explicit first-match search:
    - the match starts at the leftmost fence;
    - the `sql` tag is taken greedily in any case, then the run of white space;
    - the lazy group ends at the first fence at or after that point;
    - the trailing white space goes to the closing `\s*`.
- **Sanitizing** (`server.js:75-77`, module `Sanitizer`). The query is split at `'\n'`, and the lines whose `trim().toUpperCase()` starts with `USE` are dropped. The rest are joined with `'\n'`.
- **ASCII primitives** (module `Ascii`): white space, `trim`, `toUpperCase` and `startsWith`. White space is the six ASCII characters space, `\t`, `\n`, `\r`, `\v` and `\f`, and upper-casing maps only a-z to A-Z.
- **Worked cases** (module `Scenarios`): concrete replies and a concrete query, whose answers are derived from the general lemmas.

Two consequences of the code that are easy to miss:
- A fenced block whose interior is empty or only white space does not give its interior. `match[1]` is then falsy, so the whole reply is answered, trimmed.
- The `USE` test trims both ends of the line. Since `USE` is three non-space letters, this decides the same lines as trimming only the start (`UseLineSpec`).

## Model

| member | source | states |
|---|---|---|
| Ascii.SpaceEnd | server.js:54 | `\s*` from a position: every character it passes is white space, and it stops at a non-space or at the end |
| Ascii.SpaceStart | server.js:54 | the white-space run ending at a position: everything from the result up to there is white space, and the character before it is not |
| Ascii.SpaceEndIs | server.js:54 | any position that closes a run of white space is the one `SpaceEnd` finds |
| Ascii.SpaceStartIs | server.js:54 | any position that opens a trailing run of white space is the one `SpaceStart` finds |
| Ascii.Trim | server.js:57-59 | `trim()` gives text with no white space at either end, never longer than its input |
| Ascii.TrimUnique | server.js:57-59 | white space, then a trimmed middle, then white space: trimming gives that middle |
| Ascii.TrimBetween | server.js:57-59 | the same uniqueness stated by positions inside a larger string |
| Ascii.TrimKeeps | server.js:57-59 | text with no white space at either end is its own trim |
| Ascii.TrimIdempotent | server.js:57-59 | trimming twice is trimming once |
| Ascii.Upper | server.js:76 | `toUpperCase` on a character maps a-z to A-Z and keeps every other character |
| Ascii.UpperStr | server.js:76 | `toUpperCase` keeps the length and upper-cases every character in place |
| Sanitizer.Split | server.js:75 | `split('\n')` gives at least one piece, and no piece holds the separator |
| Sanitizer.JoinSplit | server.js:75-77 | joining the pieces of a split gives back the text that was split |
| Sanitizer.SplitPrefix | server.js:75 | separator-free text in front of a string is glued to that string's first piece |
| Sanitizer.SplitJoin | server.js:75-77 | splitting a join of one or more separator-free lines gives those lines back |
| Sanitizer.Filter | server.js:76 | `filter` keeps only elements that pass the test, all taken from the input, never more of them |
| Sanitizer.FilterAppend | server.js:76 | filtering a concatenation filters each part |
| Sanitizer.FilterCount | server.js:76 | a passing element keeps its number of occurrences, and a failing one is gone |
| Sanitizer.FilterIsSubsequence | server.js:76 | the filter result is the input with elements deleted, order kept |
| Sanitizer.FilterUnchanged | server.js:76 | the filter changes nothing exactly when every element passes |
| Sanitizer.FilterIdempotent | server.js:76 | filtering twice is filtering once |
| Sanitizer.StartsWithUse | server.js:76 | `startsWith("USE")` holds exactly when the first three characters are U, S, E |
| Sanitizer.UseLineSpec | server.js:76 | a line is dropped exactly when its first three characters after the leading white space spell `use` in any case |
| Sanitizer.UseLineIgnoresIndent | server.js:76 | leading white space does not change whether a line is dropped |
| Sanitizer.UseLineIgnoresCase | server.js:76 | upper-casing a line does not change whether it is dropped |
| Sanitizer.UseLineAt | server.js:76 | white space, then `use` in any case, gives a dropped line, whatever follows |
| Sanitizer.KeepLineOf | server.js:76 | a line starting with neither white space nor `u`/`U` is kept |
| Sanitizer.DropsIndentedLowerCase | server.js:76 | `"  use x;"` is dropped |
| Sanitizer.DropsMixedCase | server.js:76 | `"Use x"` is dropped |
| Sanitizer.DropsUsersColumn | server.js:76 | `"users.id = 1"` is dropped, since the test is a raw prefix and not a keyword |
| Sanitizer.DropsUserPrefix | server.js:76 | `"USER..."` is dropped |
| Sanitizer.KeepsLaterUse | server.js:76 | `"SELECT 1; USE x"` is kept, since only the start of a line is tested |
| Sanitizer.KeepsSelect | server.js:76 | `"SELECT * FROM t;"` is kept |
| Sanitizer.DropsUseMydb | server.js:76 | `"USE mydb;"` is dropped |
| Sanitizer.SanitizeLines | server.js:75-77 | the output's lines are exactly the kept input lines in order, and the output is empty when none is kept |
| Sanitizer.SanitizeDropsAll | server.js:75-77 | no line of the output is a `USE` line |
| Sanitizer.SanitizeKeepsEveryCopy | server.js:75-77 | every kept line occurs in the output as often as in the input |
| Sanitizer.SanitizeIsSubsequence | server.js:75-77 | whenever some line is kept, the output lines are the input lines with some deleted, never edited, reordered or added |
| Sanitizer.SanitizeUnchanged | server.js:75-77 | input without a `USE` line comes back unchanged |
| Sanitizer.SanitizeIdempotent | server.js:75-77 | sanitizing sanitized text changes nothing |
| Sanitizer.SanitizeDropsUseLine | server.js:75-77 | a `USE` line and its line feed are removed together, and the rest is sanitized as on its own |
| Sanitizer.SanitizeDropsLeadingUse | server.js:75-77 | a `USE` line in front of a kept one-line query leaves exactly that query |
| Extractor.Content | server.js:50-52 | the guard yields content only when every link of `choices[0].message.content` exists and the content is non-empty |
| Extractor.FindFence | server.js:54 | the search finds the first fence at or after a position, or reports that there is none |
| Extractor.FenceMatch | server.js:54-55 | a match has its group start after the opening fence and its closing fence inside the text |
| Extractor.MatchIsFirst | server.js:54-55 | a match opens at the leftmost fence and closes at the first fence after the tag and white space, which `\s*` skips completely |
| Extractor.MatchIffTwoFences | server.js:54-56 | there is no match exactly when no two fences lie three or more characters apart |
| Extractor.Extract | server.js:54-60 | the answer for a given content has no white space at either end |
| Extractor.GenerateSql | server.js:49-61 | the handler's answer has no white space at either end |
| Extractor.NoContentGivesSentinel | server.js:49-51 | no `choices`, empty `choices`, no `message`, or absent or empty `content` give `No SQL returned.` |
| Extractor.ContentIsExtracted | server.js:50-60 | non-empty content is always run through the extraction, never replaced by the fixed sentence |
| Extractor.SliceFenceFree | server.js:57 | a range of the text without a fence start is, cut out, free of fences |
| Extractor.FencedAnswer | server.js:54-57 | with a non-empty group, the answer is the group itself: a slice of the content up to the white space before the closing fence, with no fence inside it |
| Extractor.FindFenceIs | server.js:54 | a fence with no fence between the start of the search and it is the one found |
| Extractor.SpaceEndInSlice | server.js:54 | `\s*` after the tag stops where it stops inside the text before the closing fence |
| Extractor.FencedBlockSpan | server.js:54-55 | given the leftmost fence and the first fence after its tag, the match lies exactly there |
| Extractor.GroupOf | server.js:55-56 | the group of a match is its body up to the trailing white space |
| Extractor.FencedBlockGroup | server.js:54-56 | the group of a fenced block is the text between the tag and the closing fence, trimmed |
| Extractor.GroupOfInterior | server.js:54-56 | a match starting past the white space of a text up to the closing fence has that text, trimmed, as its group |
| Extractor.InteriorIsTrim | server.js:54 | from past the leading white space to before the trailing white space lies the trimmed interior |
| Extractor.FencedBlockAnswer | server.js:54-60 | a fenced block answers with its interior trimmed, or with the whole content trimmed when that interior is only white space |
| Extractor.AnswerOfGroup | server.js:56-60 | the answer is the trimmed group when it is non-empty, else the whole content trimmed |
| Extractor.UnfencedAnswer | server.js:55-59 | without two separate fences there is no group, and the answer is the whole content trimmed |
| Extractor.NoBacktickAnswer | server.js:55-59 | content without a backtick is answered with itself, trimmed |
| Scenarios.ChattyFences | server.js:54 | in `"Sure! ```sql\nSELECT * FROM users;\n```"` the fences start at 6 and 34, and the tag ends at 12 |
| Scenarios.ChattyNoEarlierFence | server.js:54 | that reply has no fence before position 6 |
| Scenarios.ChattyNoInnerFence | server.js:54 | and none between the tag and position 34 |
| Scenarios.ChattyQuery | server.js:54 | that reply holds `SELECT * FROM users;` between positions 13 and 33 |
| Scenarios.ChattyInner | server.js:57 | its interior, trimmed, is `SELECT * FROM users;` |
| Scenarios.ChattyAnswer | server.js:49-61 | the handler answers that reply with `SELECT * FROM users;` |
| Scenarios.ChattyReply | server.js:49-61 | the handler answers the constant chatty reply with `SELECT * FROM users;` |
| Scenarios.SqliteFences | server.js:54 | in `"```sqlite\nSELECT 1\n```"` the tag `sql` ends at 6 and the closing fence is at 19 |
| Scenarios.SqliteQuery | server.js:54 | that reply holds `ite\nSELECT 1` between positions 6 and 18 |
| Scenarios.SqliteAnswer | server.js:49-61 | the handler answers it with `ite\nSELECT 1`, because the tag is matched as three literal letters |
| Scenarios.SqliteReply | server.js:49-61 | the handler answers the constant `sqlite` reply with `ite\nSELECT 1` |
| Scenarios.EmptySqlFences | server.js:54 | in "```sql```" the closing fence directly follows the tag |
| Scenarios.EmptySqlAnswer | server.js:49-61 | "```sql```" has an empty group and is answered with itself |
| Scenarios.EmptySqlReply | server.js:49-61 | the handler answers "```sql```" with "```sql```" |
| Scenarios.BlankFences | server.js:54 | in "```   ```" the interior is three spaces |
| Scenarios.BlankAnswer | server.js:49-61 | "```   ```" has an empty group and is answered with itself |
| Scenarios.BlankFencesReply | server.js:49-61 | the handler answers "```   ```" with "```   ```" |
| Scenarios.BareAnswer | server.js:49-61 | `"SELECT 1;"` is answered as it is |
| Scenarios.BareReply | server.js:49-61 | the handler answers `"SELECT 1;"` with `"SELECT 1;"` |
| Scenarios.BlankReply | server.js:49-61 | a reply of white space only passes the guard and is answered with the empty text, not the fixed sentence |
| Scenarios.UseMydbSplit | server.js:75 | `"USE mydb;\nSELECT * FROM t;"` is two separator-free lines joined by a line feed |
| Scenarios.UseMydbSanitized | server.js:75-77 | `"USE mydb;\nSELECT * FROM t;"` is sent to the database as `"SELECT * FROM t;"` |
| Scenarios.UseMydbQuery | server.js:75-77 | the sanitizer turns `"USE mydb;\nSELECT * FROM t;"` into `"SELECT * FROM t;"` |

## Left out

- The HTTP framework: application setup, body parsing, static files and port binding. These are framework I/O.
- The call to the completion API: the headers, the request body, the credential from the environment and the JSON decode. This is a network call. The decoded reply becomes the `Completion` datatype, a parameter of `GenerateSql`.
- The PostgreSQL pool and the execution of the sanitized query. This is an external driver. `Sanitize` returns the text that would be passed to it.
- The mapping of failures to HTTP 500 and the console logging. These are glue with no logic.
- The interleaving of concurrent requests. Concurrency belongs to the runtime and the pool.
- The type error when the request carries no `query`. This is a JavaScript runtime failure, not modelled logic. `Sanitize` takes a string.
- Content that is not a string is not modelled: `Message.content` is a string or absent. Nor is a `choices` value that is not an array, nor a `null` first choice.
- JavaScript's Unicode white space and Unicode upper-casing. Only the six ASCII white-space characters and the letters a-z are modelled: `Ascii.IsSpace`, `Ascii.Upper`.
- The regular-expression engine's backtracking is not modelled step by step. The first-match search takes its place, because giving back tag letters or white space cannot reveal an earlier closing fence.
