/** Recent-games extraction: from the player's monthly archives, the games
    that ended no earlier than a threshold, newest first. */
module RecentGames {
  import opened Wrappers
  import opened Records
  import opened Ordering

  /** How many of the most recent archives are read. */
  const ArchivesRead := 3

  /** The archives that are read: the last `ArchivesRead` of them, or all
      when there are fewer (Python's `archives[-3:]`). */
  function LastArchives(archives: seq<ArchiveFetch>): (r: seq<ArchiveFetch>)
    ensures |r| == if |archives| < ArchivesRead then |archives| else ArchivesRead
    ensures archives == archives[..|archives| - |r|] + r
  {
    if |archives| <= ArchivesRead then archives else archives[|archives| - ArchivesRead..]
  }

  /** The game carries an end time that Python treats as true: present and
      non-zero. */
  predicate HasEndTime(g: RawGame) {
    g.endTime.Some? && g.endTime.value != 0
  }

  /** The game is kept: it has an end time, and that is at or after the
      threshold. */
  predicate Qualifies(g: RawGame, threshold: int) {
    HasEndTime(g) && g.endTime.value >= threshold
  }

  /** Every game of `games` has a non-zero end time at or after the threshold. */
  predicate WithinWindow(games: seq<RecentGame>, threshold: int) {
    forall i :: 0 <= i < |games| ==> games[i].endTime != 0 && games[i].endTime >= threshold
  }

  /** The username of an optional player object; a missing object has none. */
  function UsernameOf(p: Option<PlayerRef>): Option<string> {
    match p
    case None => None
    case Some(player) => player.username
  }

  /** The record kept for a game. */
  function Project(g: RawGame): RecentGame
    requires g.endTime.Some?
  {
    RecentGame(g.url, g.endTime.value, g.timeClass, g.rated, UsernameOf(g.white), UsernameOf(g.black))
  }

  /** The records of the qualifying games of one archive, in archive order. */
  function Kept(games: seq<RawGame>, threshold: int): seq<RecentGame> {
    if games == [] then []
    else
      var g := games[|games| - 1];
      Kept(games[..|games| - 1], threshold) + if Qualifies(g, threshold) then [Project(g)] else []
  }

  /** The records kept from a run of archive fetches, archive by archive; a
      failed fetch contributes nothing. */
  function Gather(archives: seq<ArchiveFetch>, threshold: int): seq<RecentGame> {
    if archives == [] then []
    else
      var a := archives[|archives| - 1];
      Gather(archives[..|archives| - 1], threshold) + if a.Fetched? then Kept(a.value, threshold) else []
  }

  /** The list collected before sorting. */
  function Collected(archives: seq<ArchiveFetch>, threshold: int): seq<RecentGame> {
    if archives == [] then [] else Gather(LastArchives(archives), threshold)
  }

  /** What `get_recent_games` returns for the archive fetches of a player. */
  function RecentGamesOf(archives: seq<ArchiveFetch>, threshold: int): seq<RecentGame> {
    SortNewestFirst(Collected(archives, threshold))
  }

  /** `get_recent_games`: reads the last three archives in order, skips a
      failed fetch, keeps each game with a non-zero end time at or after the
      threshold as its projected record, then sorts newest first. */
  method GetRecentGames(archives: seq<ArchiveFetch>, threshold: int) returns (recent: seq<RecentGame>)
    ensures recent == RecentGamesOf(archives, threshold)
    ensures WithinWindow(recent, threshold)
    ensures Descending(recent)
    ensures multiset(recent) == multiset(Collected(archives, threshold))
    ensures forall t :: EndingAt(recent, t) == EndingAt(Collected(archives, threshold), t)
  {
    if archives == [] {
      return [];
    }
    var selected := LastArchives(archives);
    var collected: seq<RecentGame> := [];
    for i := 0 to |selected|
      invariant collected == Gather(selected[..i], threshold)
    {
      assert selected[..i + 1][..i] == selected[..i];
      if selected[i].Failed? {
        continue;
      }
      var games := selected[i].value;
      for j := 0 to |games|
        invariant collected == Gather(selected[..i], threshold) + Kept(games[..j], threshold)
      {
        assert games[..j + 1][..j] == games[..j];
        var g := games[j];
        if g.endTime.None? || g.endTime.value == 0 {
          continue;
        }
        if g.endTime.value >= threshold {
          collected := collected + [Project(g)];
        }
      }
      assert games[..|games|] == games;
    }
    assert selected[..|selected|] == selected;
    recent := SortNewestFirst(collected);
    RecentGamesProperties(archives, threshold);
  }

  /** The returned list is filtered, descending, a permutation of the
      collected list and stable among equal end times. */
  lemma RecentGamesProperties(archives: seq<ArchiveFetch>, threshold: int)
    ensures var recent := RecentGamesOf(archives, threshold);
            && WithinWindow(recent, threshold)
            && Descending(recent)
            && multiset(recent) == multiset(Collected(archives, threshold))
            && (forall t :: EndingAt(recent, t) == EndingAt(Collected(archives, threshold), t))
  {
    var collected := Collected(archives, threshold);
    var recent := SortNewestFirst(collected);
    SortDescending(collected);
    SortPermutes(collected);
    forall t ensures EndingAt(recent, t) == EndingAt(collected, t) {
      SortStable(collected, t);
    }
    CollectedQualifies(archives, threshold);
    forall i | 0 <= i < |recent| ensures recent[i].endTime != 0 && recent[i].endTime >= threshold {
      assert recent[i] in multiset(collected);
    }
  }

  lemma {:induction false} KeptMember(games: seq<RawGame>, threshold: int, x: RecentGame)
    ensures x in Kept(games, threshold) <==>
            exists g :: g in games && Qualifies(g, threshold) && Project(g) == x
  {
    if games != [] {
      var init, g := games[..|games| - 1], games[|games| - 1];
      KeptMember(init, threshold, x);
      assert games == init + [g];
    }
  }

  /** Gathering a run of archives is gathering each part and concatenating. */
  lemma {:induction false} GatherConcat(a: seq<ArchiveFetch>, b: seq<ArchiveFetch>, threshold: int)
    ensures Gather(a + b, threshold) == Gather(a, threshold) + Gather(b, threshold)
  {
    if b == [] {
      assert a + b == a;
    } else {
      assert (a + b)[..|a + b| - 1] == a + b[..|b| - 1];
      GatherConcat(a, b[..|b| - 1], threshold);
    }
  }

  lemma {:induction false} GatherMember(archives: seq<ArchiveFetch>, threshold: int, x: RecentGame)
    ensures x in Gather(archives, threshold) <==>
            exists i :: 0 <= i < |archives| && archives[i].Fetched? && x in Kept(archives[i].value, threshold)
  {
    if archives != [] {
      var init := archives[..|archives| - 1];
      GatherMember(init, threshold, x);
      if x in Gather(init, threshold) {
        var i :| 0 <= i < |init| && init[i].Fetched? && x in Kept(init[i].value, threshold);
        assert archives[i] == init[i];
      }
    }
  }

  /** A failed archive fetch contributes no games, and the games of the
      archives around it are still gathered, in order. */
  lemma FailedArchiveSkipped(before: seq<ArchiveFetch>, after: seq<ArchiveFetch>, threshold: int)
    ensures Gather(before + [Failed] + after, threshold) == Gather(before, threshold) + Gather(after, threshold)
  {
    GatherConcat(before + [Failed], after, threshold);
    assert (before + [Failed])[..|before|] == before;
  }

  /** Only the last three archives are read: archives before them never
      contribute, whatever their contents. */
  lemma OlderArchivesIgnored(older: seq<ArchiveFetch>, last: seq<ArchiveFetch>, threshold: int)
    requires |last| == ArchivesRead
    ensures Collected(older + last, threshold) == Collected(last, threshold)
    ensures RecentGamesOf(older + last, threshold) == RecentGamesOf(last, threshold)
  {
    assert (older + last)[|older + last| - ArchivesRead..] == last;
  }

  /** Every collected game has a non-zero end time at or after the threshold. */
  lemma CollectedQualifies(archives: seq<ArchiveFetch>, threshold: int)
    ensures forall x :: x in Collected(archives, threshold) ==> x.endTime != 0 && x.endTime >= threshold
  {
    if archives != [] {
      var selected := LastArchives(archives);
      forall x | x in Collected(archives, threshold) ensures x.endTime != 0 && x.endTime >= threshold {
        GatherMember(selected, threshold, x);
        var i :| 0 <= i < |selected| && selected[i].Fetched? && x in Kept(selected[i].value, threshold);
        KeptMember(selected[i].value, threshold, x);
      }
    }
  }

  /** Archive `i` is among the ones read. */
  predicate IsRead(archives: seq<ArchiveFetch>, i: int) {
    0 <= i < |archives| && |archives| - ArchivesRead <= i
  }

  /** The games contributed by archive `i`, if it was fetched. */
  function Contribution(archives: seq<ArchiveFetch>, i: int, threshold: int): seq<RecentGame>
    requires 0 <= i < |archives|
  {
    if archives[i].Fetched? then Kept(archives[i].value, threshold) else []
  }

  lemma CollectedMember(archives: seq<ArchiveFetch>, threshold: int, x: RecentGame)
    ensures x in Collected(archives, threshold) <==>
            exists i :: IsRead(archives, i) && x in Contribution(archives, i, threshold)
  {
    if archives != [] {
      var selected := LastArchives(archives);
      var k := |archives| - |selected|;
      GatherMember(selected, threshold, x);
      if x in Collected(archives, threshold) {
        var j :| 0 <= j < |selected| && selected[j].Fetched? && x in Kept(selected[j].value, threshold);
        assert archives[k + j] == selected[j];
        assert IsRead(archives, k + j) && x in Contribution(archives, k + j, threshold);
      }
      if exists i :: IsRead(archives, i) && x in Contribution(archives, i, threshold) {
        var i :| IsRead(archives, i) && x in Contribution(archives, i, threshold);
        assert selected[i - k] == archives[i];
      }
    }
  }

  /** `x` projects a qualifying game of a successfully fetched archive among
      the ones read. */
  ghost predicate ComesFromReadArchive(archives: seq<ArchiveFetch>, threshold: int, x: RecentGame) {
    exists i, g :: IsRead(archives, i) && archives[i].Fetched? && g in archives[i].value &&
                   Qualifies(g, threshold) && Project(g) == x
  }

  /** Soundness and completeness: a record is returned exactly when it is the
      projection of a qualifying game of a successfully fetched archive among
      the last three. */
  lemma RecentGamesMember(archives: seq<ArchiveFetch>, threshold: int, x: RecentGame)
    ensures x in RecentGamesOf(archives, threshold) <==> ComesFromReadArchive(archives, threshold, x)
  {
    SortPermutes(Collected(archives, threshold));
    assert x in RecentGamesOf(archives, threshold) <==> x in multiset(Collected(archives, threshold));
    CollectedMember(archives, threshold, x);
    if x in Collected(archives, threshold) {
      var i :| IsRead(archives, i) && x in Contribution(archives, i, threshold);
      KeptMember(archives[i].value, threshold, x);
    }
    if ComesFromReadArchive(archives, threshold, x) {
      var i, g :| IsRead(archives, i) && archives[i].Fetched? && g in archives[i].value &&
                  Qualifies(g, threshold) && Project(g) == x;
      KeptMember(archives[i].value, threshold, x);
      assert x in Contribution(archives, i, threshold);
    }
  }

  /** The result is the unique newest-first stable sort of the collected
      list: any descending list that keeps the collection order among equal
      end times is it. */
  lemma RecentGamesIsStableSort(archives: seq<ArchiveFetch>, threshold: int, r: seq<RecentGame>)
    requires Descending(r)
    requires forall t :: EndingAt(r, t) == EndingAt(Collected(archives, threshold), t)
    ensures r == RecentGamesOf(archives, threshold)
  {
    StableSortUnique(Collected(archives, threshold), r);
  }

  /** Without archives, or when every archive read failed, there are no
      recent games. */
  lemma NoArchivesNoGames(archives: seq<ArchiveFetch>, threshold: int)
    requires forall i :: IsRead(archives, i) ==> archives[i].Failed?
    ensures RecentGamesOf(archives, threshold) == []
  {
    if Collected(archives, threshold) != [] {
      CollectedMember(archives, threshold, Collected(archives, threshold)[0]);
      assert false;
    }
  }
}
