/** Per-player summary: the recent games and the tactics ratings of one
    player, each sub-fetch failing on its own. */
module Analyze {
  import opened Wrappers
  import opened Records
  import opened Ordering
  import opened RecentGames
  import opened Tactics

  /** How many recent games the summary lists. */
  const GamesShown := 5

  predicate IsUpper(c: char) {
    'A' <= c <= 'Z'
  }

  function LowerChar(c: char): char {
    if IsUpper(c) then (c as int - 'A' as int + 'a' as int) as char else c
  }

  /** ASCII lower case of a username, used to address the API. */
  function Lower(s: string): (r: string)
    ensures |r| == |s|
    ensures forall i :: 0 <= i < |r| ==> !IsUpper(r[i])
    ensures forall i :: 0 <= i < |s| && !IsUpper(s[i]) ==> r[i] == s[i]
    ensures forall i :: 0 <= i < |s| && IsUpper(s[i]) ==> r[i] as int == s[i] as int + 32
  {
    seq(|s|, i requires 0 <= i < |s| => LowerChar(s[i]))
  }

  lemma LowerIdempotent(s: string)
    ensures Lower(Lower(s)) == Lower(s)
  {
  }

  /** What the upstream API serves for one account: the archive list (each
      archive paired with the outcome of fetching it) and the stats
      document, each fetched on its own. */
  datatype Account = Account(archives: Fetch<seq<ArchiveFetch>>, stats: Fetch<Stats>)

  /** The upstream API, by the account name placed in its URLs; a name it
      does not know fails like any other request. */
  type Upstream = map<string, Account>

  /** The summary record of one player. */
  datatype PlayerSummary = PlayerSummary(
    username: string,
    activeLastDays: bool,
    daysWindow: int,
    gamesCount: nat,
    gamesRecent: seq<RecentGame>,
    tacticsCurrent: Option<int>,
    tacticsHighest: Option<int>,
    tacticsLowest: Option<int>)

  /** `get_recent_games(name)`: fails when the archive list cannot be
      fetched; failures of single archives are absorbed inside. */
  function GamesFetch(api: Upstream, name: string, threshold: int): (r: Fetch<seq<RecentGame>>)
    ensures r.Fetched? <==> name in api && api[name].archives.Fetched?
    ensures r.Fetched? ==> r.value == RecentGamesOf(api[name].archives.value, threshold)
    ensures r.Fetched? ==> Descending(r.value) && WithinWindow(r.value, threshold)
  {
    if name !in api then Failed
    else match api[name].archives
      case Failed => Failed
      case Fetched(archives) =>
        RecentGamesProperties(archives, threshold);
        Fetched(RecentGamesOf(archives, threshold))
  }

  /** `get_tactics_info(name)`: fails when the stats document cannot be
      fetched. */
  function TacticsFetch(api: Upstream, name: string): (r: Fetch<TacticsRatings>)
    ensures r.Fetched? <==> name in api && api[name].stats.Fetched?
    ensures r.Fetched? ==> r.value == TacticsInfo(api[name].stats.value)
  {
    if name !in api then Failed
    else match api[name].stats
      case Failed => Failed
      case Fetched(stats) => Fetched(TacticsInfo(stats))
  }

  /** The summary built from the outcomes of the two sub-fetches: a failed
      games fetch counts as no games, a failed tactics fetch as three absent
      ratings; the count is of all games, the list shows the first five. */
  function Summarize(username: string, days: int, games: Fetch<seq<RecentGame>>, tactics: Fetch<TacticsRatings>): (s: PlayerSummary)
    ensures s.username == username && s.daysWindow == days
    ensures games.Fetched? ==> s.gamesCount == |games.value| && s.gamesRecent <= games.value
    ensures games.Failed? ==> s.gamesCount == 0 && s.gamesRecent == []
    ensures |s.gamesRecent| == if s.gamesCount < GamesShown then s.gamesCount else GamesShown
    ensures s.activeLastDays <==> s.gamesCount > 0
    ensures tactics.Fetched? ==>
              && s.tacticsCurrent == tactics.value.current
              && s.tacticsHighest == tactics.value.highest
              && s.tacticsLowest == tactics.value.lowest
    ensures tactics.Failed? ==> s.tacticsCurrent == None && s.tacticsHighest == None && s.tacticsLowest == None
  {
    var all := if games.Fetched? then games.value else [];
    var ratings := if tactics.Fetched? then tactics.value else NoRatings;
    PlayerSummary(
      username,
      |all| > 0,
      days,
      |all|,
      if |all| <= GamesShown then all else all[..GamesShown],
      ratings.current,
      ratings.highest,
      ratings.lowest)
  }

  /** `analyze_player`: both sub-fetches address the API with the lower-cased
      name; the summary shows the name as given. `threshold` stands for the
      current time less `days` days. */
  function AnalyzePlayer(api: Upstream, username: string, days: int, threshold: int): (s: PlayerSummary)
    ensures s.username == username && s.daysWindow == days
    ensures s.activeLastDays <==> s.gamesCount > 0
    ensures |s.gamesRecent| == if s.gamesCount < GamesShown then s.gamesCount else GamesShown
    ensures Descending(s.gamesRecent)
    ensures WithinWindow(s.gamesRecent, threshold)
    ensures var name := Lower(username);
            name in api && api[name].archives.Fetched? ==>
              var found := RecentGamesOf(api[name].archives.value, threshold);
              s.gamesCount == |found| && s.gamesRecent <= found
    ensures var name := Lower(username);
            !(name in api && api[name].archives.Fetched?) ==> s.gamesCount == 0
    ensures var name := Lower(username);
            name in api && api[name].stats.Fetched? ==>
              var t := TacticsInfo(api[name].stats.value);
              s.tacticsCurrent == t.current && s.tacticsHighest == t.highest && s.tacticsLowest == t.lowest
    ensures var name := Lower(username);
            !(name in api && api[name].stats.Fetched?) ==>
              s.tacticsCurrent == None && s.tacticsHighest == None && s.tacticsLowest == None
  {
    var name := Lower(username);
    Summarize(username, days, GamesFetch(api, name, threshold), TacticsFetch(api, name))
  }

  /** Only the lower-cased name reaches the API: the summary for a name is
      the summary for its lower case, shown under the name as given. */
  lemma AddressedByLowerCase(api: Upstream, username: string, days: int, threshold: int)
    ensures AnalyzePlayer(api, username, days, threshold)
         == AnalyzePlayer(api, Lower(username), days, threshold).(username := username)
  {
    LowerIdempotent(username);
  }

  /** The listed games are the newest of all the games found: none of the
      games left out of the list ended later than a listed one. */
  lemma SummaryGamesInvariant(api: Upstream, username: string, days: int, threshold: int)
    ensures var s, found := AnalyzePlayer(api, username, days, threshold), GamesFetch(api, Lower(username), threshold);
            found.Fetched? ==>
              forall i, j :: 0 <= i < |s.gamesRecent| <= j < |found.value| ==>
                s.gamesRecent[i].endTime >= found.value[j].endTime
  {
    var name := Lower(username);
    if name in api && api[name].archives.Fetched? {
      RecentGamesProperties(api[name].archives.value, threshold);
    }
  }

  /** One of the archives read was fetched and holds a game with a non-zero
      end time at or after the threshold. */
  ghost predicate HasQualifyingGame(archives: seq<ArchiveFetch>, threshold: int) {
    exists i, g :: IsRead(archives, i) && archives[i].Fetched? && g in archives[i].value &&
                   Qualifies(g, threshold)
  }

  /** The player counts as active exactly when the account is reachable and
      one of its last three archives was fetched and holds a game with a
      non-zero end time at or after the threshold. */
  lemma ActiveExactlyWhenGameFound(api: Upstream, username: string, days: int, threshold: int)
    ensures AnalyzePlayer(api, username, days, threshold).activeLastDays <==>
            var name := Lower(username);
            && name in api
            && api[name].archives.Fetched?
            && HasQualifyingGame(api[name].archives.value, threshold)
  {
    var name := Lower(username);
    if name in api && api[name].archives.Fetched? {
      var archives := api[name].archives.value;
      var recent := RecentGamesOf(archives, threshold);
      if recent != [] {
        RecentGamesMember(archives, threshold, recent[0]);
      }
      if HasQualifyingGame(archives, threshold) {
        var i, g :| IsRead(archives, i) && archives[i].Fetched? && g in archives[i].value &&
                    Qualifies(g, threshold);
        RecentGamesMember(archives, threshold, Project(g));
      }
    }
  }

  /** A failed games fetch leaves the tactics fields as they would be
      otherwise, and a failed tactics fetch leaves the games fields. */
  lemma FailureIsolation(username: string, days: int, games: Fetch<seq<RecentGame>>, tactics: Fetch<TacticsRatings>)
    ensures var s, noGames := Summarize(username, days, games, tactics), Summarize(username, days, Failed, tactics);
            && noGames == s.(activeLastDays := false, gamesCount := 0, gamesRecent := [])
    ensures var s, noTactics := Summarize(username, days, games, tactics), Summarize(username, days, games, Failed);
            && noTactics == s.(tacticsCurrent := None, tacticsHighest := None, tacticsLowest := None)
  {
  }

  /** A player whose every fetch failed looks like an inactive player with
      no tactics history. */
  lemma FailureLooksInactive(username: string, days: int)
    ensures Summarize(username, days, Failed, Failed) == Summarize(username, days, Fetched([]), Fetched(NoRatings))
  {
  }

  /** An account without archives is inactive, with no games. */
  lemma NoArchivesInactive(api: Upstream, username: string, days: int, threshold: int)
    requires Lower(username) in api && api[Lower(username)].archives == Fetched([])
    ensures var s := AnalyzePlayer(api, username, days, threshold);
            !s.activeLastDays && s.gamesCount == 0 && s.gamesRecent == []
  {
  }
}
