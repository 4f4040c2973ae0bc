# x-copilot visit history, modelled in Dafny

x-copilot is a browser extension that keeps a local history of the tweets
(posts on x.com / twitter.com) the user has opened. This project models the
pure logic of its visit-history pipeline:

- **recording** (`checkAndRecordTweet`, entrypoints/background.ts). It does four things:
  - It decides whether a URL is a tweet page: the host must be exactly
    `x.com` or `twitter.com`, and the path must contain `/<segment>/status/<digits>`.
  - It takes the tweet id from that path.
  - It parses the author and text out of the tab title with the regular
    expression `^(.+?)\s+on\s+X:\s+"(.+?)"`, and shortens the text to a
    30-unit summary.
  - It puts the new record at the head of the stored history unless a
    record with the same tweet id is already there. Only then does it
    write the history and send a `TWEET_HISTORY_UPDATED` message.
- **retention** (`cleanupHistory`, entrypoints/util/cleanup.ts). It removes
  every record at or before `now - period`, for a configured period of one
  week, one month, three months or one year. With `never`, or with no
  configuration, it does nothing.
- **title search** (`search`, entrypoints/popup/search.ts). It returns the
  stored records whose title contains the query.
- **navigation tree** (`TweetManager`, entrypoints/util/tweetManager.ts). It
  is a one-level forest of visits: a visit whose origin is a root is added
  below that root; any other visit becomes a new root.

Every operation is a pure function. Storage reads, the tab query and the
clock are inputs. Storage writes and the message are part of the result.

## Layout

| file | module | contents |
|---|---|---|
| wrappers.dfy | `Wrappers` | `Option` |
| utf16.dfy | `Utf16` | strings as UTF-16 code units; the ECMAScript `\d`, `\s` and line-terminator classes |
| seqs.dfy | `Seqs` | `Filter` (the model of `Array.prototype.filter`), subsequences, suffixes, a left fold, a bounded leftmost search |
| history.dfy | `History` | the stored record and the update message (types/index.ts) |
| status_path.dfy | `StatusPath` | host test and the path pattern `/\/([^\/]+)\/status\/(\d+)/` |
| title_grammar.dfy | `TitleGrammar` | the title pattern `^(.+?)\s+on\s+X:\s+"(.+?)"` |
| background.dfy | `Background` | `checkAndRecordTweet`, the summary, the dedup insert, replay of many visits |
| cleanup.dfy | `Cleanup` | `CLEANUP_PERIODS` and `cleanupHistory` |
| search.dfy | `Search` | `search` |
| tweet_manager.dfy | `TweetManager` | the `TweetManager` class |
| store.dfy | `Store` | the stored history under both writers: any interleaving of visits and sweeps |
| scenarios.dfy | `Scenarios` | worked examples on concrete titles, paths and timestamps |

### Strings and regular expressions

JavaScript strings are sequences of UTF-16 code units. `.length` and
`.slice` at background.ts:25 count code units. So a string is modelled as
`seq<Unit>`, where `Unit` is `0 .. 0xFFFF`.

The character classes follow the ECMAScript standard (ECMA-262):

- `\d` is `0`-`9`.
- `\s` is WhiteSpace plus LineTerminator. WhiteSpace includes U+FEFF and the Unicode space separators.
- `.` is any unit except a line terminator: U+000A, U+000D, U+2028, U+2029.

Each regular expression is modelled twice:

- as a scanner, which is what the code runs;
- as an index-based predicate, which says what a match is.

Lemmas connect the two: every scanner result is a match, and every match is
found. For the path pattern, the match taken is the leftmost one and its
digit run is maximal. For the title pattern, the author is the shortest one
that lets the rest match (lazy `+?`), and the content ends at the first
closing quote.

### Recording

`Background.CheckAndRecordTweet` returns an `Effect`:

- `Unchanged`: no store write and no message.
- `Inserted(history, message)`: the history to write back and the message to send.

The code writes and sends in the same branch (background.ts:40-55), so the
two always go together.

The record keeps the first visit to a tweet. A later visit with the same
id, even with a different author or title, changes nothing.

## Model

| member | source | states |
|---|---|---|
| StatusPath.IsTweetHost | entrypoints/background.ts:11 | the host is exactly `x.com` or `twitter.com` |
| StatusPath.SubdomainIsNotTweetHost | entrypoints/background.ts:11 | a subdomain such as `www.x.com` is never a tweet host |
| StatusPath.SegmentEnd | entrypoints/background.ts:12 | the greedy `[^\/]+`: every unit it passes is not `/`, and it stops at the next `/` or the end |
| StatusPath.DigitRunEnd | entrypoints/background.ts:12 | the greedy `\d+`: every unit it passes is a digit, and it stops at the first non-digit or the end |
| StatusPath.MatchAt | entrypoints/background.ts:12 | the matcher at one start position returns a non-empty run of digits |
| StatusPath.LeftmostMatch | entrypoints/background.ts:12 | the first start position at which the matcher succeeds; none succeeds before it |
| StatusPath.ExtractTweetId | entrypoints/background.ts:12-15 | the tweet id, when present, is non-empty and all digits |
| StatusPath.MatchAtSound | entrypoints/background.ts:12 | a matcher result is a match of the path pattern, with a maximal digit run |
| StatusPath.MatchAtComplete | entrypoints/background.ts:12 | every match of the path pattern at a position is found by the matcher there |
| StatusPath.ExtractTweetIdIffMatch | entrypoints/background.ts:12-14 | an id is extracted exactly when the path pattern matches somewhere in the path |
| StatusPath.NoMatchBefore | entrypoints/background.ts:12 | where the matcher fails, the path pattern has no match |
| StatusPath.ExtractTweetIdIsLeftmost | entrypoints/background.ts:12-15 | the id is the whole digit run after the leftmost `/<segment>/status/` |
| TitleGrammar.DotRunEnd | entrypoints/background.ts:21 | how far `.` reaches from a position: no unit before the returned end is a line terminator, and the end is the end of the title or a line terminator; this bounds the lazy author group |
| TitleGrammar.SpaceRunEnd | entrypoints/background.ts:21 | the greedy `\s+` run: all spaces, followed by a non-space or the end |
| TitleGrammar.ClosingQuote | entrypoints/background.ts:21 | the first quote with no line terminator before it; no quote if a line terminator comes first |
| TitleGrammar.LazyContent | entrypoints/background.ts:21 | the lazy content group is non-empty and contains no line terminator |
| TitleGrammar.OpenQuoteAt | entrypoints/background.ts:21 | the matcher for `\s+on\s+X:\s+"` from a position: when it succeeds, the position of an opening quote after that position (OpenQuoteAtComplete shows it is the one every match uses) |
| TitleGrammar.TailAt | entrypoints/background.ts:21 | the matcher for `\s+on\s+X:\s+"(.+?)"` from a position: when it succeeds, non-empty content without a line terminator |
| TitleGrammar.AuthorEnd | entrypoints/background.ts:21 | the shortest author length after which the rest of the pattern matches |
| TitleGrammar.ParseTitle | entrypoints/background.ts:21-24 | the author and content are non-empty and contain no line terminator; the title starts with the author |
| TitleGrammar.TailAtSound | entrypoints/background.ts:21 | what the tail matcher returns is a match of `\s+on\s+X:\s+"(.+?)"` |
| TitleGrammar.OpenQuoteAtComplete | entrypoints/background.ts:21 | the greedy whitespace runs end where any match puts `on`, `X:` and the opening quote |
| TitleGrammar.LazyContentComplete | entrypoints/background.ts:21 | the content is found and ends no later than any closing quote a match may use |
| TitleGrammar.TailAtComplete | entrypoints/background.ts:21 | every match of the tail is found, with the shortest content |
| TitleGrammar.ParseTitleSound | entrypoints/background.ts:21-24 | a parsed title is a match of the whole pattern with that author and content |
| TitleGrammar.ParseTitleCompleteAndLazy | entrypoints/background.ts:21-24 | every matching title is parsed; the author is the shortest possible, and for it the content is the shortest |
| TitleGrammar.ParseTitleIffMatch | entrypoints/background.ts:21-22 | a title is parsed exactly when the pattern matches it |
| Wrappers.OrEmpty | entrypoints/background.ts:37 | the empty-list default for a missing stored list, as also for a missing tab title (line 19), at cleanup.ts:17-18 and at search.ts:37: a present value is used as is, and the result is empty exactly when the value is missing or empty |
| History.HasId | entrypoints/background.ts:40 | `some` by tweet id: true exactly when some record has that id |
| Background.Summarize | entrypoints/background.ts:25 | content of at most 30 units is kept as is; longer content becomes its first 30 units then `...` (33 units) |
| Background.SummarizeIdempotent | entrypoints/background.ts:25 | summarizing a summary changes nothing |
| Background.InsertIfAbsent | entrypoints/background.ts:40-42 | no insert exactly when the id is present; otherwise the item goes to the head, the old list follows unchanged, ids stay unique |
| Background.CheckAndRecordTweet | entrypoints/background.ts:8-62 | a bad URL, a foreign host, no path match, an unparsed title or a known id changes nothing; otherwise the record (path id, input URL, `now`, the author parsed from the title, summary) goes to the head and is the message's data |
| Background.MissingTitleNeverRecords | entrypoints/background.ts:19-22 | a missing or empty tab title never produces a record |
| Background.Step | entrypoints/background.ts:36-44 | one visit grows the history by at most one record at the front and keeps ids unique |
| Background.ReplayKeepsIdsUnique | entrypoints/background.ts:36-44 | over any sequence of visits, a history with one record per tweet id keeps that property |
| Background.ReplayKeepsFirstRecords | entrypoints/background.ts:36-44 | over any sequence of visits, the records already stored stay, unchanged and in order, at the tail |
| Cleanup.PeriodMillis | entrypoints/util/cleanup.ts:4-9 | each period is a whole number of days, between one day and 365 days |
| Cleanup.PeriodTable | entrypoints/util/cleanup.ts:4-9 | the periods are 7, 30, 90 and 365 days in milliseconds, in increasing order |
| Cleanup.Cutoff | entrypoints/util/cleanup.ts:16 | the cutoff lies strictly before `now` |
| Cleanup.SweepAt | entrypoints/util/cleanup.ts:19-25 | removes exactly when some record is at or before the cutoff; the kept list is the in-order subsequence of records after the cutoff, each kept as often as stored; a history with one record per tweet id keeps that property; otherwise every record is after the cutoff |
| Cleanup.CleanupHistory | entrypoints/util/cleanup.ts:11-26 | skipped exactly for no config or `never`; removes exactly when some record is at or before the cutoff; the kept list is the in-order subsequence of records after the cutoff, each kept as often as stored, and one record per tweet id in the stored list stays one per id in the kept list |
| Cleanup.SubsequenceKeepsUnique | entrypoints/util/cleanup.ts:19-22 | dropping records, as the sweep's filter does, never leaves two records with the same tweet id when the stored list had none |
| Store.Apply | entrypoints/util/cleanup.ts:19-23 | one event, a visit recorded as in background.ts or a sweep, keeps one record per tweet id and adds at most one record |
| Store.RunKeepsIdsUnique | entrypoints/util/cleanup.ts:19-23 | over any interleaving of visits and sweeps, each applied whole, a history with one record per tweet id keeps that property |
| Cleanup.RecordAtCutoffIsRemoved | entrypoints/util/cleanup.ts:19 | a record exactly at the cutoff is removed: the comparison is strict |
| Cleanup.NeverSweepsNothing | entrypoints/util/cleanup.ts:12-13 | with `never` or no configuration nothing happens, whatever the record ages |
| Cleanup.MissingHistorySweepsNothing | entrypoints/util/cleanup.ts:17-18 | a missing history reads as empty, from which nothing is removed |
| Cleanup.SweepIdempotent | entrypoints/util/cleanup.ts:19-25 | a second sweep at the same clock value removes nothing |
| Search.IncludesFrom | entrypoints/popup/search.ts:38 | `includes` from a position holds exactly when the query occurs at or after it |
| Search.Includes | entrypoints/popup/search.ts:38 | `includes` holds exactly when the query occurs somewhere in the string |
| Search.TitleMatches | entrypoints/popup/search.ts:38 | a record matches exactly when it has a title and the query occurs in it |
| Seqs.FilterKeepsAllIff | entrypoints/util/cleanup.ts:21 | the filtered list equals the input exactly when every element passes, is never longer, and has the input's length only when it is the input; so the length test means some record failed the filter |
| Seqs.Filter | entrypoints/popup/search.ts:38 | `Array.prototype.filter`: an in-order subsequence of the input holding every element that passes, as often as it occurs, and no other |
| Search.SearchHistory | entrypoints/popup/search.ts:28-40 | the result is an in-order subsequence of the stored list; each result has a title containing the query; each such record is kept as often as stored; a missing store gives nothing |
| Search.EmptyQueryReturnsTitled | entrypoints/popup/search.ts:38 | the empty query returns exactly the records that have a title |
| Search.SearchIgnoresAuthor | entrypoints/popup/search.ts:38 | the author plays no part in which records are returned |
| TweetManager.NewManager | entrypoints/util/tweetManager.ts:14-16 | the constructor starts with no roots |
| TweetManager.GetTweetHistory | entrypoints/util/tweetManager.ts:31-33 | returns the manager's root list itself |
| TweetManager.Clear | entrypoints/util/tweetManager.ts:35-37 | after `clear()` the manager is the same as a new one, whatever it held |
| TweetManager.FindRoot | entrypoints/util/tweetManager.ts:23 | the first root with the given id, or none when no root has it |
| TweetManager.AddTweet | entrypoints/util/tweetManager.ts:22-29 | with no origin or no matching root, the target is a new last root with no children; otherwise it is appended to the first matching root's children and every other root is unchanged |
| TweetManager.NewAndClearAreEmpty | entrypoints/util/tweetManager.ts:14-16 | a new manager and a cleared one hold no visits |
| TweetManager.SizeAppend | entrypoints/util/tweetManager.ts:25 | a new root adds itself and its children to the visit count |
| TweetManager.SizeUpdate | entrypoints/util/tweetManager.ts:28 | replacing a root changes the visit count by the change in its children |
| TweetManager.AddTweetGrowsByOne | entrypoints/util/tweetManager.ts:22-29 | every `addTweet` records exactly one more visit, with no dedup |
| TweetManager.ChildOriginStartsNewRoot | entrypoints/util/tweetManager.ts:18-25 | an origin found only among children does not link: the target becomes a new root |
| Scenarios.AlicePathId | entrypoints/background.ts:12-15 | the path `/alice/status/42` gives tweet id `42` |
| Scenarios.AliceTitleParts | entrypoints/background.ts:21-24 | the title `Alice on X: "Hello world"` gives author `Alice` and content `Hello world` |
| Scenarios.AliceVisitIsRecorded | entrypoints/background.ts:8-62 | a first visit to that tweet stores one record and announces it |
| Scenarios.TitleWithoutOnUnparsed | entrypoints/background.ts:21-22 | a title that never has `o` followed by `n` is not parsed |
| Scenarios.PlainTitleIsSkipped | entrypoints/background.ts:21-22 | the title `random unrelated text` stores nothing, even on a tweet page |
| Scenarios.WeekSweep | entrypoints/util/cleanup.ts:15-23 | with a one-week period on day 10, a record from day 1 is removed and one from day 9 is kept |

## Left out

- Listener registration, `browser.tabs.query`, `storage.getItem`/`setItem`
  and `runtime.sendMessage` are browser I/O. Their data are the functions'
  inputs and results. A failing storage call is not modelled. A rejected
  `browser.tabs.query` (background.ts:18) is caught at background.ts:59
  and changes nothing, which the model leaves out for the same reason.
- entrypoints/content.ts: it only sends `CHECK_URL` once at start and on every DOM mutation, which is messaging with no logic to model.
- `new URL(url)` is the WHATWG URL parser, an external library. The model
  takes the parsed `hostname` and `pathname` as input. `None` stands for
  the parse error that the surrounding `catch` swallows.
- `Date.now()` becomes the `now` parameter. Timestamps are unbounded integers. JavaScript numbers are exact at these magnitudes.
- Concurrency. Recording and the sweep each read and then write the whole
  list asynchronously, so an interleaving can lose an update. Two
  recordings can also overlap: content.ts:9 asks for a check on every DOM
  mutation and `tabs.onUpdated` (background.ts:72) asks too. Both can pass the `some` test at
  background.ts:40 before either writes; then one record is stored but two
  messages are sent for the same tweet, or a record with another id is
  lost. Each operation is modelled as atomic.
- The Orama index in search.ts (`init`, `add`) and the LLM code are
  external libraries or network calls. The `search` function in search.ts does
  not consult the index.
- TweetManager.AddTweet: JavaScript shares objects, so the stored child is
  the same object as the caller's `targetTweet`, and a later push into it
  is visible through the tree. Likewise `getTweetHistory()`
  (tweetManager.ts:31-33) returns the manager's own array, so a caller
  that pushes into or edits it changes the manager. Values here are
  immutable, so the model hands out and stores copies and does not model
  this aliasing.
- TweetManager.AddTweet: with an absent origin the code still runs `find`
  with `originalTweet?.tweetId`, but the `!originalTweet` test
  (tweetManager.ts:24) then takes the new-root branch whatever `find`
  returned. The model goes to that branch without the lookup, which gives
  the same result.
- Search.SearchHistory: the query is a string, as its TypeScript type says.
  A non-string argument, which `includes` converts to a string or rejects
  with a TypeError for a RegExp, is not modelled.
- The code has no debounce or throttle of navigation checks
  (content.ts sends a check once at start and on every DOM mutation), no sweep timer and no
  notification after a sweep: `cleanupHistory` only returns its result.
  None of these is modelled.
- The only message type is `TWEET_HISTORY_UPDATED` (types/index.ts:9-12),
  sent only after an insert.
- The record type (types/index.ts:1-7) has `tweetId`, `url`, `timestamp`
  and the optional `author` and `title`, and nothing else.
- `cleanupHistory` has three outcomes: `undefined` when skipped, `null`
  when nothing expired, and the kept list. The model keeps all three as
  `Skipped`, `NothingRemoved` and `Removed`.
