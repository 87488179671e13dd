# qw-reports-watcher: the message-to-batch pipeline

A Discord bot watches the `#reports` channel for links to QuakeWorld hub games
(`https://hub.quakeworld.nu/games/?gameId=<digits>`). For each new message the
`messageCreate` handler of `index.js` does four things:

1. It skips the message if the author is a bot, and otherwise skips it if the channel is not `reports`.
2. It scans the text for game links with a global regular expression.
3. It keeps each link once, in order of first appearance, and at most ten of them.
4. It posts the batch as `{ urls }` to a webhook. Any error is caught and logged.

This project models that handler as pure functions and proves what it does.

- `url_scanner.dfy` (module `UrlScanner`) models the regular expression of
  `index.js:29` and `String.prototype.match` with the `g` flag. `ScanFrom` is the
  engine's left-to-right scan. `LeftmostGreedy` is an independent, declarative
  definition of a global match:
  - every reported span is the prefix followed by a maximal run of ASCII digits;
  - the spans are ordered and do not overlap;
  - every position where the pattern matches is a span start or lies inside a span.

  The scan meets this definition (`ScanFromIsLeftmostGreedy`), and only one span
  sequence can meet it (`LeftmostGreedyUnique`).
- `dedup.dfy` (module `Dedup`) models `Array.from(new Set(matches)).slice(0, 10)`
  (`index.js:47`). `Distinct` adds the elements to an insertion-ordered set one
  at a time, and `Take` is `slice(0, n)`.
- `handler.dfy` (module `ReportsHandler`) models the handler. `Decide` is the
  decision before any network traffic. `Handle` is one whole run: the webhook's
  answer is a parameter, and the result records the posts made and whether an
  error was logged.

A message without an author gets through the `message.author?.bot` check at
`index.js:39`. If it is in `#reports` and contains links, the log line at
`index.js:49` reads `message.author.tag` and throws. The `catch` at `index.js:59`
logs the error, so nothing is posted. The model keeps this path as
`Decision.ThrowsBeforePost`.

`index.js` turns missing or empty content into `''`, which has no matches. It
has no handler for edited messages and adds no reactions to messages.

## Model

| member | source | states |
|---|---|---|
| UrlScanner.DigitRun | index.js:29 | `\d+` is greedy: the run it measures is all digits and is followed by the end of the text or a non-digit |
| UrlScanner.MatchEnd | index.js:29 | a match that starts at a position where the pattern matches is a greedy match: prefix, at least one digit, and a maximal digit run |
| UrlScanner.ScanFrom | index.js:43 | the global scan returns greedy matches at or after the start position, in order and without overlap |
| UrlScanner.Matches | index.js:43 | every extracted URL has the form prefix + one or more ASCII digits and occurs as a substring of the message text |
| UrlScanner.GreedyMatchIsGameUrl | index.js:29 | the text of a greedy match is a game URL of the exact pattern form |
| UrlScanner.GreedyMatchEndUnique | index.js:29 | a greedy match is determined by its start: two greedy matches at one position end at the same place |
| UrlScanner.ScanFromIsLeftmostGreedy | index.js:29 | the scan meets the declarative definition of a leftmost, greedy, non-overlapping global match: no match position is skipped |
| UrlScanner.LeftmostGreedyUnique | index.js:29 | at most one span sequence meets that definition, so it pins down the scan's result completely |
| UrlScanner.MatchesCharacterised | index.js:43 | any span sequence that meets the definition gives exactly the texts that `text.match` returns |
| UrlScanner.NoPrefixNoMatches | index.js:43-44 | a text in which the pattern matches nowhere from position `i` on scans to no spans |
| UrlScanner.EmptyTextHasNoMatches | index.js:42-44 | the empty text (missing or empty content) yields no matches |
| Dedup.Distinct | index.js:47 | `Array.from(new Set(xs))` has no duplicates, and its members are exactly the members of `xs` |
| Dedup.Take | index.js:47 | `slice(0, n)` is the prefix of length min(n, length) |
| Dedup.Batch | index.js:47 | the batch has at most 10 entries, no duplicates, only values from the matches, and is non-empty when there are matches |
| Dedup.DistinctFirstAppearanceOrder | index.js:47 | `Distinct` lists values in the order of their first occurrence in the input |
| Dedup.DistinctCount | index.js:47 | `Distinct` has exactly as many entries as the input has distinct values |
| Dedup.DistinctOfNoDuplicates | index.js:47 | an input without duplicates passes through `Distinct` unchanged |
| Dedup.DistinctIgnoresRepeats | index.js:47 | appending values that were already seen does not change `Distinct` |
| Dedup.BatchLength | index.js:47 | the batch length is min(10, number of distinct matches) |
| Dedup.BatchOrder | index.js:47 | the batch is the first entries of `Distinct`, in order of first appearance in the matches |
| Dedup.BatchIdempotent | index.js:47 | deduplicating and capping a batch again returns the same batch |
| Dedup.TwelveMatchesThreeDistinct | index.js:47 | twelve matches of three distinct URLs give exactly those three, in order |
| ReportsHandler.Text | index.js:42 | missing content becomes `''`: present content (empty included) is the text, and absent content is the empty text |
| ReportsHandler.MatchOrNull | index.js:43-44 | `text.match` gives `null` exactly when there is no match, and otherwise the list of matches |
| ReportsHandler.Decide | index.js:39-49 | a forward decision carries 1 to 10 distinct game URLs, each occurring in the message text |
| ReportsHandler.Handle | index.js:37-62 | one run makes at most one post, and a posted payload holds 1 to 10 distinct game URLs of the exact pattern form |
| ReportsHandler.BotMessageNeverPosted | index.js:39 | a bot's message is skipped with no post and no log, whatever its channel or content |
| ReportsHandler.OtherChannelNeverPosted | index.js:40 | a human's message outside `reports` is skipped with no post, even if it contains game links |
| ReportsHandler.NoContentNeverPosted | index.js:42-44 | absent or empty content is never posted, and an otherwise eligible message with it is skipped for lack of matches |
| ReportsHandler.PostsExactlyWhenEligible | index.js:39-56 | a post happens iff the author is present and human, the channel is `reports` and the text has matches, and then the post carries `Batch(matches)` |
| ReportsHandler.ErrorLoggedExactlyWhenFailed | index.js:49-61 | an error is logged iff the message gets past the filters and has matches, and then either the author is missing or the webhook rejected the post |
| ReportsHandler.PostsIndependentOfDelivery | index.js:53-61 | the webhook's answer changes only the error log, never what is posted |
| ReportsHandler.SingleLinkInText | index.js:42-56 | `check <game link 123> please` from a human in `reports` posts exactly that one link |

## Left out

- The Discord client, its intents and partials, the `ready` log, and `client.login` with its `process.exit` (index.js:2, 18-26, 31-34, 64-68). These are library plumbing.
- The environment variables and the startup check that exits when they are missing (index.js:7-16). The channel name is the constant of index.js:9.
- The HTTP transport of `axios.post`: its headers, its 10-second timeout and the network (index.js:53-56). The model takes the post's outcome as the `PostResult` parameter. A timeout, a network error and an error status all become `Rejected`.
- The text of the log lines (index.js:49, 58, 60). The model records only whether an error was logged.
- The Express keep-alive server (index.js:70-79).
- The scheduling of concurrent `messageCreate` events. Each run is modelled on its own. The only state runs share is the `lastIndex` of the global `URL_REGEX` (index.js:29), which `text.match` at index.js:43 writes. `String.prototype.match` with a global regex resets `lastIndex` to 0 first and runs synchronously, with no `await` before it returns, so no run observes another's `lastIndex`.
- JavaScript strings are UTF-16 code units, and the model uses Dafny `char`. The pattern is pure ASCII and `\d` is `[0-9]`, so this changes no match.
- Author, channel and content objects whose fields are not strings or booleans are not modelled. The model takes `bot` as a boolean and the channel name and content as optional strings.
