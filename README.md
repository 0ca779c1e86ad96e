# Chess activity checker — verified model of the player summary

This project models, in Dafny, the one piece of logic in the chess activity
checker: the per-player activity and tactics summary computed by
`scripts/fetch_chess_stats.py`. For each player the script lists the
player's monthly game archives on the chess platform's public API, reads the
last three, keeps the games that ended within the day window, newest first,
reads the tactics-puzzle ratings from the player's stats, and builds one
summary record.

Every network request is an input here: `Fetch<T>` is either `Failed` or
`Fetched(value)`. `Upstream` maps the account name used in the URLs to an
`Account`, which holds the archive list (each archive paired with the outcome
of fetching it) and the stats document. The clock is an input too:
`threshold` is the current time less the day window, in whole epoch seconds.

Modules, one per component:

- `Wrappers` (`wrappers.dfy`): `Option` and `Fetch`.
- `Records` (`records.dfy`): a game as the archive returns it (`RawGame`,
  every field optional) and the record the summary keeps (`RecentGame`).
- `Ordering` (`ordering.dfy`): newest-first order. `SortNewestFirst` is the
  result of Python's stable `list.sort(key=…, reverse=True)` on end times.
  The lemmas prove that it is descending, a permutation, and stable per end
  time. They also prove it is the only list with those properties.
- `RecentGames` (`recent_games.dfy`): `get_recent_games`. It is the method
  `GetRecentGames`, with the source's nested loops. The method is proved
  equal to the specification function `RecentGamesOf`, and lemmas state
  what that function keeps and drops.
- `Tactics` (`tactics.dfy`): `get_tactics_info`. It includes Python's `or`
  on an optional rating, where 0 counts as false.
- `Analyze` (`analyze.dfy`): `analyze_player`. `Summarize` isolates the
  failures of the two sub-fetches. `AnalyzePlayer` addresses both of them
  with the ASCII lower-cased name.

Python's `or` treats a last tactics rating of 0 as false. In that case the
current rating falls back to the highest rating. So the current rating is
the last rating only when that is present and non-zero
(`Tactics.TacticsInfo`).

## Model

| member | source | states |
|---|---|---|
| `RecentGames.GetRecentGames` | scripts/fetch_chess_stats.py:23-59 | the nested loop over the last three archives and their games, then the sort, returns exactly `RecentGamesOf(archives, threshold)`; every returned game has a non-zero end time at or after the threshold; the list is descending by end time, a permutation of the collected list, and keeps collection order among equal end times |
| `RecentGames.LastArchives` | scripts/fetch_chess_stats.py:31 | the archives read are a suffix of the list of length min(3, number of archives) |
| `RecentGames.OlderArchivesIgnored` | scripts/fetch_chess_stats.py:27-31 | archives before the last three never contribute: prefixing any archives to three archives changes neither the collected list nor the result |
| `RecentGames.FailedArchiveSkipped` | scripts/fetch_chess_stats.py:34-40 | a failed archive fetch contributes no games, and the archives before and after it contribute theirs, in order |
| `RecentGames.GatherConcat` | scripts/fetch_chess_stats.py:34-56 | the games collected from consecutive runs of archives are the concatenation of what each run contributes |
| `RecentGames.KeptMember` | scripts/fetch_chess_stats.py:42-56 | a record is kept from an archive exactly when it is the projection of one of its games whose end time is present, non-zero and at or after the threshold |
| `RecentGames.GatherMember` | scripts/fetch_chess_stats.py:34-56 | a record is collected from a run of archives exactly when some successfully fetched archive of the run keeps it |
| `RecentGames.CollectedMember` | scripts/fetch_chess_stats.py:27-56 | a record is collected exactly when one of the last three archives, successfully fetched, keeps it |
| `RecentGames.CollectedQualifies` | scripts/fetch_chess_stats.py:43-48 | every collected game has a non-zero end time at or after the threshold |
| `RecentGames.RecentGamesMember` | scripts/fetch_chess_stats.py:27-58 | soundness and completeness: a record is returned exactly when it projects (url, end time, time class, rated, white and black usernames, absent for a missing player object) a qualifying game of a fetched archive among the last three |
| `RecentGames.RecentGamesProperties` | scripts/fetch_chess_stats.py:42-58 | the result is filtered by end time, descending, a permutation of the collected list and stable among equal end times |
| `RecentGames.RecentGamesIsStableSort` | scripts/fetch_chess_stats.py:58 | any descending list that keeps the collection order among equal end times is the result |
| `RecentGames.NoArchivesNoGames` | scripts/fetch_chess_stats.py:27-40 | with no archives, or when each of the last three failed, the result is empty |
| `Ordering.InsertEndingAt` | scripts/fetch_chess_stats.py:58 | inserting a game into a descending list appends it to the games with its end time and leaves the other end times' games unchanged |
| `Ordering.SortDescending` | scripts/fetch_chess_stats.py:58 | the newest-first sort yields non-increasing end times |
| `Ordering.SortPermutes` | scripts/fetch_chess_stats.py:58 | the newest-first sort is a permutation of its input |
| `Ordering.SortStable` | scripts/fetch_chess_stats.py:58 | for each end time, the sorted list holds that end time's games in input order |
| `Ordering.DescendingDeterminedByGroups` | scripts/fetch_chess_stats.py:58 | two descending lists that agree on the games of every end time, in order, are equal |
| `Ordering.StableSortUnique` | scripts/fetch_chess_stats.py:58 | any descending list that is stable with respect to the input equals the newest-first sort of the input |
| `Tactics.TacticsInfo` | scripts/fetch_chess_stats.py:69-84 | with no tactics section all three ratings are absent; otherwise highest and lowest pass through, and the current rating is the last rating when present and non-zero, else the highest rating |
| `Tactics.CurrentRating` | scripts/fetch_chess_stats.py:75-79 | the current rating is absent exactly when the last rating is absent or zero and the highest rating is absent |
| `Tactics.EmptySectionHasNoRatings` | scripts/fetch_chess_stats.py:71-73 | an empty tactics section gives three absent ratings, as the early return does |
| `Tactics.AbsentNotZero` | scripts/fetch_chess_stats.py:71-84 | a present rating always comes from the stats document; absence is never replaced by a default |
| `Analyze.Lower` | scripts/fetch_chess_stats.py:88 | the lower-cased name has the same length, no upper-case ASCII letter, upper-case letters mapped to their lower case and every other character unchanged |
| `Analyze.LowerIdempotent` | scripts/fetch_chess_stats.py:88 | lower-casing twice is lower-casing once |
| `Analyze.GamesFetch` | scripts/fetch_chess_stats.py:16-29 | the games sub-fetch for an API name succeeds exactly when the account is known and its archive list was fetched; it then returns `RecentGamesOf` of that account's archives, newest first, each game with a non-zero end time at or after the threshold |
| `Analyze.TacticsFetch` | scripts/fetch_chess_stats.py:62-70 | the tactics sub-fetch for an API name succeeds exactly when the account is known and its stats document was fetched, and then gives the ratings read from that document |
| `Analyze.AnalyzePlayer` | scripts/fetch_chess_stats.py:87-113 | the summary echoes name and window; for an account reached under the lower-cased name whose archive list was fetched, the count is the number of recent games found and the listed games are a prefix of them, otherwise the count is 0; it is active exactly when the count is positive; it lists the first min(5, count) of the games found, newest first, all within the window; the ratings are `TacticsInfo` of the fetched stats, or all absent when the stats fetch failed. Properties across calls: `AddressedByLowerCase`, `SummaryGamesInvariant`, `ActiveExactlyWhenGameFound` |
| `Analyze.Summarize` | scripts/fetch_chess_stats.py:90-113 | name and window echo the inputs; the count is the number of games found (0 when the games fetch failed); the listed games are the prefix of length min(5, count); active exactly when the count is positive; the ratings are those fetched, or all absent when the tactics fetch failed |
| `Analyze.AddressedByLowerCase` | scripts/fetch_chess_stats.py:87-98 | only the lower-cased name reaches the API: the summary for a name equals the summary for its lower case, shown under the name as given |
| `Analyze.SummaryGamesInvariant` | scripts/fetch_chess_stats.py:102-109 | the listed games are the newest of those found: no game found but left out of the list ended later than a listed one |
| `Analyze.ActiveExactlyWhenGameFound` | scripts/fetch_chess_stats.py:102 | the player is active exactly when the account's archive list was fetched and one of its last three archives was fetched and holds a qualifying game |
| `Analyze.FailureIsolation` | scripts/fetch_chess_stats.py:90-100 | a failed games fetch empties only the games fields; a failed tactics fetch empties only the ratings |
| `Analyze.FailureLooksInactive` | scripts/fetch_chess_stats.py:90-102 | a player whose every fetch failed gets the same summary as an inactive player with no tactics history |
| `Analyze.NoArchivesInactive` | scripts/fetch_chess_stats.py:27-29 | an account with no archives is inactive, with no games |

## Left out

- HTTP: `requests.get`, the `User-Agent` header, the 10-second timeout, `raise_for_status` and JSON decoding. Each request is a `Fetch` input, and all of its failures count as one `Failed`.
- A missing `archives` or `games` key is represented by an empty list. That is the default the source passes to `dict.get`.
- JSON of an unexpected shape is not modelled. Examples are a game that is not an object, or a `white` value that is a non-empty string. The source raises on these; the model's datatypes cannot express them.
- `datetime.now` is not modelled. `threshold` stands for the current time less the window, rounded up to a whole second. End times are whole seconds, so comparing them with this integer gives the source's comparison.
- `datetime.fromtimestamp` and `isoformat` are not modelled. End times stay integers, and the sort uses the integer. For years 1 to 9999 the source's ISO strings all share one format, so ordering them as strings matches integer order.
- End times outside the range of `datetime` make `fromtimestamp` raise. That exception is caught in `analyze_player` and empties the whole games part. The model treats every integer as a valid time.
- `RecentGames.GetRecentGames`: Python's `list.sort` is a library call. The method uses the function `SortNewestFirst` for its result and does not model Timsort's steps.
- `main` is not modelled: the player list, the `DAYS` constant, the output document and file writing.
- `Analyze.Lower`: lower-cases ASCII letters only. Python's `str.lower` also maps other Unicode letters.
- The "top player" comparison and the console report belong to the other script variant, which is not part of this model.
- Calling `analyze_player` twice on the same upstream data gives the same summary. This holds by construction, since `AnalyzePlayer` is a function, so no lemma states it.
