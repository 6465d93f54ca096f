# human-aoc core, modelled in Dafny

human-aoc is a web front end to Advent of Code that times its users. Opening a
puzzle starts a timer for the next unsolved star. The next fetch of the puzzle text
after a star is solved stops that star's timer (src/server/trpc/router/aoc.ts:72-84).
The site then ranks users by how long each star's timer ran. It also lets users
publish their solutions, like them and comment on them.

This project models the logic behind those features as pure functions over
immutable values. The timer table, the user directory, the solutions and the likes
are sequences and sets passed in and returned. Pages fetched from the upstream site,
the clock and database-generated ids are parameters.

Modules, one per concern:

- `Outcomes`: `Option` and `Result`, the error path of every endpoint that can fail.
- `Seqs`: `Filter`, the `Array.prototype.filter` / `where` selection the scoring, sorting, home and share modules use, and its counting lemmas.
- `Sorting`: a stable insertion sort by an integer key. JavaScript's `sort` is stable, so both `sort` calls of the scoring router are this function.
- `Timers`: the timer record, keyed by (user, day, year, star), with an optional stop time.
- `Scoring`: the scoring router. It covers the per-day timer query and durations, the per-star points and medals, the year-wide accumulation over 25 days × 2 stars, the final leaderboard, the day leaderboard and `userInfo`.
- `JsStrings`: `indexOf`, `includes`, `substring` (clamping and swapping) and `replace` with a literal pattern. Indices count characters (Unicode scalar values); JavaScript counts UTF-16 code units.
- `Aoc`: the `text` endpoint, i.e. the `<main>` slice, the "Please" check and the timer step, and the `answer` endpoint's article classification.
- `Home`: the home page's `validCookie` rule (hex decoding and the `Salted__` header) and its list of year buttons.
- `Share`: the share router's `get`, `list`, `publish` (an upsert) and `toggleLike`, together with the `liked` flag.

## Model

| member | source | states |
|---|---|---|
| `Scoring.TimersForDay` | src/server/trpc/router/scoring.ts:98-116 | Returns exactly the store's timers of that year and day (and star, when one is given) that have a stop time, in store order. Each comes with duration = stop time − init time. |
| `Scoring.Leaderboard` | src/server/trpc/router/scoring.ts:65-74 | The day leaderboard lists exactly the completed timers of that year and day, both stars, unsorted, with their durations. |
| `Scoring.FindUser` | src/server/trpc/router/scoring.ts:84-85 | Finds a user with the requested id. Returns nothing exactly when no user has that id. |
| `Scoring.UserInfo` | src/server/trpc/router/scoring.ts:76-95 | Fails with the message "NotFound" exactly when no user has the id. Otherwise returns that user with their completed timers of the year, in store order and each once: every one listed is theirs, of that year and completed, and every such timer of the store is listed. |
| `Scoring.Board` | src/server/trpc/router/scoring.ts:24-32 | A per-star board is a permutation of that star's completed timers, with non-decreasing durations. |
| `Scoring.BoardFastestFirst` | src/server/trpc/router/scoring.ts:31-32 | On a per-star board, timers with equal durations stay in store order. |
| `Scoring.AwardsFromLength` | src/server/trpc/router/scoring.ts:33-45 | Gives one award per remaining board position. Position i's award is the award for rank i. |
| `Scoring.AwardsShape` | src/server/trpc/router/scoring.ts:33-45 | Gives one award per board position, to that position's user. Each award is sound: at least one point, at most one medal. |
| `Scoring.PointsFrom` | src/server/trpc/router/scoring.ts:34-35 | Ranks i..N−1 of an N-timer board earn (N−i)(N−i+1)/2 points between them. |
| `Scoring.AwardsPointsSum` | src/server/trpc/router/scoring.ts:34-35 | A board of N timers hands out N, N−1, …, 1 points, N(N+1)/2 in total. |
| `Scoring.MedalsFrom` | src/server/trpc/router/scoring.ts:42-44 | From rank i on, a board hands out a gold only if rank 0 is included, a silver only if rank 1 is, and a bronze only if rank 2 is. |
| `Scoring.AwardsMedalTotals` | src/server/trpc/router/scoring.ts:42-44 | A board hands out one gold once it has a timer, one silver once it has two and one bronze once it has three, and no more. |
| `Scoring.SlotsFrom` | src/server/trpc/router/scoring.ts:22-23 | From a given day on, the nested loops visit (day, 1), (day, 2), (day+1, 1), … up to (25, 2). |
| `Scoring.SlotsCover` | src/server/trpc/router/scoring.ts:22-23 | A slot is visited exactly when its day is 1..25 and its star is 1..2. |
| `Scoring.SlotsDistinct` | src/server/trpc/router/scoring.ts:22-23 | No slot is visited twice. |
| `Scoring.DirectoryRows` | src/server/trpc/router/scoring.ts:50-60 | Builds one row per directory user, in directory order. |
| `Scoring.Ranking` | src/server/trpc/router/scoring.ts:61 | The ranking is a permutation of the rows with non-increasing scores. For every score, the rows with that score appear in the same relative order as in the input (the sort is stable). |
| `Scoring.GlobalLeaderboard` | src/server/trpc/router/scoring.ts:50-61 | Has one row per directory user. Every row belongs to a directory user and carries that user's accumulated stats (0 for a user never credited), and every directory user's row is present. Scores are non-increasing. For every score, the users with that score appear in directory order. |
| `Scoring.SortedRowsKeepDirectory` | src/server/trpc/router/scoring.ts:50-61 | Any reordering of the directory rows still holds every user's row and nothing else. |
| `Scoring.GlobalLeaderboardListsEachUserOnce` | src/server/trpc/router/scoring.ts:50-61 | With distinct user ids, no user id appears in two rows. |
| `Scoring.Credit` | src/server/trpc/router/scoring.ts:34-45 | Crediting an award adds its points, one star and its medals to its user's stats, starting from zero for a user not yet credited. No other user's stats change, and no other key is added. |
| `Scoring.ApplyAwardsTotals` | src/server/trpc/router/scoring.ts:33-45 | Crediting a board's awards raises a user's score by the points of the awards to that user, their stars by the number of those awards, and each medal count by those awards' medals. |
| `Scoring.AccumulateAppliesSlotAwards` | src/server/trpc/router/scoring.ts:22-48 | The loop over days and stars credits the awards of every visited board, one board after the other in visiting order. |
| `Scoring.AccumulateTotals` | src/server/trpc/router/scoring.ts:22-48 | Starting from no stats, a user's accumulated score, stars and medals are the totals of the awards that user won on the visited boards. |
| `Scoring.FinalStatsTotals` | src/server/trpc/router/scoring.ts:22-48 | A user's final score, stars and medals are the totals of the awards they won on the year's fifty boards. |
| `Scoring.BoardPoints` | src/server/trpc/router/scoring.ts:34-35 | A user holding exactly one position k of a board of N finishers earns N − k points from it. |
| `Scoring.MedalFrom` | src/server/trpc/router/scoring.ts:42-44 | From rank i on, a board gives a user one medal of colour k (0 gold, 1 silver, 2 bronze) exactly when rank k is included and held by that user. |
| `Scoring.SlotMedals` | src/server/trpc/router/scoring.ts:22-48 | Over some boards, a user's medals of colour k count the boards on which they hold position k. |
| `Scoring.FinalMedals` | src/server/trpc/router/scoring.ts:22-48 | A user's final golds, silvers and bronzes count the year's boards on which they finished first, second and third. |
| `Scoring.PositionOf` | src/server/trpc/router/scoring.ts:34-35 | The index of the user's first entry on a board, or its length when the user has none: every earlier entry belongs to someone else. |
| `Scoring.BoardPointsOnce` | src/server/trpc/router/scoring.ts:34-35 | A user with at most one entry on a board of N finishers earns N minus their position from it, and nothing when absent. |
| `Scoring.BoardOncePerUser` | src/server/trpc/router/scoring.ts:24-32 | With one timer per key, a user appears at most once on each per-star board. |
| `Scoring.SlotPoints` | src/server/trpc/router/scoring.ts:22-48 | With one timer per key, the points a user wins over some boards sum N minus their position over the boards they finished. |
| `Scoring.FinalPoints` | src/server/trpc/router/scoring.ts:22-48 | With one timer per key, a user's final score is the sum, over the year's boards they finished, of the number of finishers minus their position. |
| `Scoring.AwardsFromUsers` | src/server/trpc/router/scoring.ts:33-45 | The awards to a user from rank i on are as many as that user's board entries from rank i on. |
| `Scoring.TimersForDayUsers` | src/server/trpc/router/scoring.ts:106-116 | A user's entries in a star's selection are as many as that user's completed timers of that slot. |
| `Scoring.BoardStars` | src/server/trpc/router/scoring.ts:24-45 | One slot's board gives a user as many awards as they have completed timers in that slot. |
| `Scoring.AccumulateStars` | src/server/trpc/router/scoring.ts:22-48 | Over distinct slots, a user gains one star per completed timer of theirs in those slots. |
| `Scoring.SlotsSelectCountedTimers` | src/server/trpc/router/scoring.ts:22-23 | The timers a user completed in the visited slots are exactly their completed timers of the year with day 1..25 and star 1..2. |
| `Scoring.StarsCountCompletedTimers` | src/server/trpc/router/scoring.ts:22-48 | A user's final star count equals the number of their completed timers of the year with day 1..25 and star 1..2. |
| `Scoring.ApplyAwardsSound` | src/server/trpc/router/scoring.ts:37-45 | Crediting sound awards keeps every credited user's stats sound: score ≥ stars ≥ 1 and medals ≤ stars. |
| `Scoring.AccumulateSound` | src/server/trpc/router/scoring.ts:22-48 | The whole loop keeps every credited user's stats sound. |
| `Scoring.OneTimerPerSlot` | src/server/trpc/router/scoring.ts:22-48 | With one timer per (user, day, year, star), a user has at most one completed timer per slot. |
| `Scoring.StarsPerSlot` | src/server/trpc/router/scoring.ts:22-48 | With one timer per key, a user's completed timers over some slots are at most as many as the slots. |
| `Scoring.UserStats` | src/server/trpc/router/scoring.ts:22-48 | A user's final stats count one star per completed timer of theirs in the year (days 1..25, stars 1..2). Medal counts are non-negative and sum to at most stars, and stars ≤ score. With one timer per key, stars ≤ 50. |
| `Scoring.GlobalRowsStats` | src/server/trpc/router/scoring.ts:50-59 | Every row's stars equal the user's completed timers in days 1..25 and stars 1..2. medals has three non-negative counts whose sum is at most stars, and stars ≤ score. With one timer per key, stars ≤ 50. |
| `Scoring.IdleUserRow` | src/server/trpc/router/scoring.ts:53-59 | A directory user without completed timers in the year gets a row with score 0, 0 stars and medals [0, 0, 0]. |
| `Sorting.Insert` | src/server/trpc/router/scoring.ts:31-32 | Inserting into a sorted sequence gives a sorted permutation that has one more element. |
| `Sorting.InsertionSort` | src/server/trpc/router/scoring.ts:31-32 | The result is a permutation of the input, ordered by non-decreasing key. |
| `Sorting.InsertKeepsTies` | src/server/trpc/router/scoring.ts:31-32 | Inserting x puts it in front of the elements whose key equals its own. |
| `Sorting.InsertionSortStable` | src/server/trpc/router/scoring.ts:31-32 | Elements with equal keys keep their input order. |
| `Sorting.InsertCount` | src/server/trpc/router/scoring.ts:31-32 | Inserting x raises the count of any predicate by one exactly when x satisfies it. |
| `Sorting.InsertionSortCount` | src/server/trpc/router/scoring.ts:31-32 | Sorting does not change how many elements satisfy any predicate. |
| `JsStrings.IndexOf` | src/server/trpc/router/aoc.ts:32-33 | Returns −1 exactly when the pattern does not occur. Otherwise returns an index where it occurs, and it occurs nowhere earlier. |
| `JsStrings.Substring` | src/server/trpc/router/aoc.ts:31-34 | For in-range indices start ≤ end, returns the slice between them. The result is never longer than the string. |
| `JsStrings.SubstringSwaps` | src/server/trpc/router/aoc.ts:31-34 | Swapping the two indices gives the same result. |
| `JsStrings.ReplaceFirst` | src/server/trpc/router/aoc.ts:158 | Without an occurrence the string is unchanged. With one, the first occurrence (and only it) is replaced: the result is the text before it, then rep, then the text after it. |
| `Aoc.MainSlice` | src/server/trpc/router/aoc.ts:29-34 | The text is a contiguous piece of the page, whatever the tags' positions. |
| `Aoc.TagsApart` | src/server/trpc/router/aoc.ts:31-34 | A `</main>` found at or after a `<main>` starts after that tag ends. |
| `Aoc.MainSliceBothTags` | src/server/trpc/router/aoc.ts:29-34 | When both tags occur, `<main>` first, the text runs from the first `<main>` through the end of the first `</main>`. It begins with `<main>` and ends with `</main>`. |
| `Aoc.MainSliceNoTags` | src/server/trpc/router/aoc.ts:29-34 | Without either tag the text is the first six characters of the page. |
| `Aoc.TimerStep` | src/server/trpc/router/aoc.ts:54-84 | Unless both stars are solved, a timer for star stars+1 exists afterwards. One is appended, starting now and open, only when none existed. The open timer of star stars is stopped at now. Completed timers and timers of other keys are untouched, and one timer per key is preserved. |
| `Aoc.TimerStepIdempotent` | src/server/trpc/router/aoc.ts:54-84 | Repeating the step with the same star count, at any later time, changes nothing. |
| `Aoc.Text` | src/server/trpc/router/aoc.ts:44-52 | As one atomic step over the store, fails with "Could not fetch text" exactly when the text is "Please". Otherwise returns the text and star count and applies the timer step. |
| `Aoc.LockedPageFails` | src/server/trpc/router/aoc.ts:29-52 | A page without `<main>`/`</main>` that starts with "Please" makes the endpoint fail. |
| `Aoc.ArticleOf` | src/server/trpc/router/aoc.ts:156-158 | The article text is never longer than the page, and it is empty for a page with neither article tag. |
| `Aoc.Answer` | src/server/trpc/router/aoc.ts:154-166 | The message is the article text. correct holds iff it contains "That's the right answer", and incorrect holds iff it contains "That's not the right answer". |
| `Aoc.ArticleOfElement` | src/server/trpc/router/aoc.ts:156-158 | For a page `<article>x</article>…` where x holds no `</article>`, the article text is exactly x. |
| `Aoc.RejectionLacksAcceptance` | src/server/trpc/router/aoc.ts:161-163 | The rejection phrase does not contain the acceptance phrase. |
| `Aoc.RejectionIsNotCorrect` | src/server/trpc/router/aoc.ts:156-166 | A rejection article is classified incorrect and not correct, with the phrase as message. |
| `Aoc.NoArticleNoVerdict` | src/server/trpc/router/aoc.ts:156-166 | A page without an article is neither correct nor incorrect, and its message is empty. |
| `Home.HexDecode` | src/pages/index.tsx:24 | Decodes one byte per digit pair, high digit first. |
| `Home.HexEncode` | src/pages/index.tsx:24 | Encodes each byte as two lower-case digits whose values spell the byte. |
| `Home.DecodeEncode` | src/pages/index.tsx:24 | Decoding the hex spelling of some bytes gives them back. |
| `Home.HexDecodeInjective` | src/pages/index.tsx:24 | Two hex strings that decode to the same bytes are the same string. |
| `Home.HexDecodePrefix` | src/pages/index.tsx:24-27 | The first n decoded bytes are the decoding of the first 2n digits. |
| `Home.SaltedHexDecodesToHeader` | src/pages/index.tsx:24-27 | The sixteen digits 53616c7465645f5f decode to the ASCII bytes of "Salted__". |
| `Home.ValidCookie` | src/pages/index.tsx:17-28 | A cookie is valid iff there is a session, it is 128 lower-case hex digits, and its first sixteen digits are 53616c7465645f5f. |
| `Home.CookieHeaderDigits` | src/pages/index.tsx:24-27 | A cookie of the right shape decodes to bytes starting with "Salted__" iff its first sixteen digits are 53616c7465645f5f. |
| `Home.ValidCookieDecodes` | src/pages/index.tsx:17-28 | A valid cookie is non-empty, has a session, matches the pattern, and decodes to 64 bytes that start with "Salted__". |
| `Home.Candidates` | src/pages/index.tsx:96-99 | Lists the years 2015, 2016, … up to the current year, and none when the current year is before 2015. |
| `Home.CandidateYears` | src/pages/index.tsx:96-99 | A year is a candidate iff it lies between 2015 and the current year. |
| `Home.YearButtons` | src/pages/index.tsx:96-102 | The years offered are strictly ascending. y is offered iff 2015 ≤ y < current year, or y is the current year (≥ 2015) and the month is December. The count is current year − 2015, plus one in December. |
| `Home.YearButtonsShape` | src/pages/index.tsx:96-102 | The filtered list is the candidate list up to this year in December and up to last year otherwise. |
| `Share.LikesOf` | src/server/trpc/router/share.ts:23 | A solution's likes are exactly the stored likes that carry its id. |
| `Share.Liked` | src/server/trpc/router/share.ts:30-32 | liked holds iff the like (solution, session user) is stored. |
| `Share.Get` | src/server/trpc/router/share.ts:13-34 | Returns the solutions of that user, year and day, one entry per stored solution, in store order. Each carries its likes, its comments and the session user's liked flag. |
| `Share.List` | src/server/trpc/router/share.ts:44-70 | Lists the solutions of that year and day from every user, one listing per stored solution, in store order. Each carries its comment count, its like count and the liked flag. |
| `Share.ToggleLike` | src/server/trpc/router/share.ts:113-146 | As one atomic step over the likes, fails with "Code solution not found" exactly when no solution has the id. Otherwise flips the presence of the (solution, session user) like and leaves every other like as it was. |
| `Share.ToggleTwice` | src/server/trpc/router/share.ts:130-146 | Toggling twice restores the likes. |
| `Share.ToggleFlipsLiked` | src/server/trpc/router/share.ts:130-146 | A toggle flips liked. The solution's like count drops by one when it was liked and rises by one otherwise. |
| `Share.FindKey` | src/server/trpc/router/share.ts:86-93 | Finds the first solution with the (user, day, year, star) key, or reports that none has it. |
| `Share.Publish` | src/server/trpc/router/share.ts:85-106 | An existing solution with the key gets the new code, and the new description only when one is given; nothing else changes. Otherwise a new solution with all fields and the fresh id is appended. The key stays unique. |
| `Share.PublishOnePerKey` | src/server/trpc/router/share.ts:85-106 | After a publish, the written solution is stored and is the only one with its key. |
| `Share.PublishIdempotent` | src/server/trpc/router/share.ts:85-106 | Publishing the same content twice leaves the same solutions as publishing it once. |

## Left out

- `Aoc.MainSlice`: indices count Unicode scalar values, not UTF-16 code units, because a Dafny string is a sequence of scalar values. The two differ only for characters outside the Basic Multilingual Plane, where JavaScript's `indexOf` and `substring(0, 6)` count each such character twice. The same holds for `Aoc.ArticleOf` and every `JsStrings` member.
- Network I/O: the upstream page is a parameter of `Aoc.Text` and the response a parameter of `Aoc.Answer`, and the fetch error itself is not modelled. The `input` endpoint is only a fetch and is not modelled.
- The regular expression that strips the answer form (src/server/trpc/router/aoc.ts:36) is not modelled. `Aoc.Text` compares the `<main>` slice itself with "Please". The locked page has no form, so the verdict is the same for it.
- The regular expression that counts solved stars (src/server/trpc/router/aoc.ts:41-42) is not modelled. The star count is a parameter of `Aoc.Text`.
- The clock: `new Date()` is a parameter `now`. The model uses one instant for the new timer's default start time and for stopping the solved one, whereas the database reads its own clock for the first.
- The `timers` endpoint (src/server/trpc/router/aoc.ts:105-128) is a plain query and is not modelled.
- Prisma, zod and `parseInt`: inputs arrive as integers, and the store's uniqueness constraints are the hypotheses `Timers.KeysUnique` and `Share.SolutionKeysUnique`. `findUniqueOrThrow`'s exception is the `Err("NotFound")` of `Scoring.UserInfo`.
- Dates are integers (milliseconds), so a duration is a plain subtraction. Time zones and `getFullYear`/`getMonth` are parameters of `Home.YearButtons`.
- `Buffer.toString("utf-8")`: `Home.ValidCookie` checks the decoded bytes for the ASCII prefix "Salted__". A UTF-8 decoding starts with those eight characters exactly when the bytes do, because the header is ASCII.
- Comment CRUD (src/server/trpc/router/share.ts:149 onwards) is not modelled. Comments only appear as the `comments` of `Share.Get` and the count in `Share.List`.
- The `user` relation that Prisma includes in the results is not modelled. Rows carry the user record, and timers and solutions carry the user id.
- Rendering, authentication, local storage and styling are not modelled.
- `Scoring.GlobalLeaderboard` sorts by score alone, as src/server/trpc/router/scoring.ts:61 does. Ties keep directory order, which `Scoring.GlobalLeaderboard` states.
- The application router (src/server/trpc/router/_app.ts) mounts only the `aoc` and `auth` routers. The scoring and share routers are modelled as written even though that file does not expose them.
- Concurrency and the database errors it causes: each endpoint is one atomic step over the store. Overlapping requests are not modelled. In the source, two overlapping `text` requests can both find no next-star timer (src/server/trpc/router/aoc.ts:58-69), and two overlapping `toggleLike` or `publish` calls can both miss or both find the record (src/server/trpc/router/share.ts:85-106, 121-146). The second `create` then breaks a unique index, or the second `delete` finds nothing, and the endpoint throws. `Aoc.Text`, `Aoc.TimerStep`, `Share.ToggleLike` and `Share.Publish` state the outcome of one request running alone.
- Row order: a sequence's order is the order in which the unordered `findMany` queries return rows (src/server/trpc/router/scoring.ts:9, 86-92, 106-109), which the database does not fix. "Store order" and "directory order" in `Scoring.TimersForDay`, `Scoring.UserInfo`, `Scoring.BoardFastestFirst`, `Scoring.GlobalLeaderboard`, `Share.List` and `Share.Get` mean that order. The stable sorts at src/server/trpc/router/scoring.ts:31-32 and 61 keep ties in it.
- `Share.ToggleLike` returns the new set of likes, where the endpoint returns nothing. `Share.Publish` returns the stored solutions along with the written one. Database ids are the parameter `freshId`.
