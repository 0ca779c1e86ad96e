/** Newest-first ordering of recent games: the stable sort on end time in
    descending order that Python's `list.sort(key=..., reverse=True)`
    performs (equal keys keep their input order). */
module Ordering {
  import opened Records

  /** End times never increase along `s`. */
  predicate Descending(s: seq<RecentGame>) {
    forall i, j :: 0 <= i < j < |s| ==> s[i].endTime >= s[j].endTime
  }

  /** The games of `s` that ended at time `t`, in their order in `s`. */
  function EndingAt(s: seq<RecentGame>, t: int): seq<RecentGame> {
    if s == [] then []
    else (if s[0].endTime == t then [s[0]] else []) + EndingAt(s[1..], t)
  }

  /** Places `g` after every game of `s` that ended no earlier than `g` and
      before the first one that ended earlier. */
  function Insert(s: seq<RecentGame>, g: RecentGame): seq<RecentGame> {
    if s == [] || s[0].endTime < g.endTime then [g] + s
    else [s[0]] + Insert(s[1..], g)
  }

  /** The games of `s`, newest first; games with equal end times keep their
      order in `s`. */
  function SortNewestFirst(s: seq<RecentGame>): seq<RecentGame> {
    if s == [] then [] else Insert(SortNewestFirst(s[..|s| - 1]), s[|s| - 1])
  }

  lemma {:induction false} EndingAtMember(s: seq<RecentGame>, t: int, x: RecentGame)
    ensures x in EndingAt(s, t) <==> x in s && x.endTime == t
  {
    if s != [] {
      EndingAtMember(s[1..], t, x);
      assert s == [s[0]] + s[1..];
    }
  }

  lemma EndingAtNonEmpty(s: seq<RecentGame>)
    requires s != []
    ensures EndingAt(s, s[0].endTime) != []
  {
  }

  lemma {:induction false} EndingAtConcat(a: seq<RecentGame>, b: seq<RecentGame>, t: int)
    ensures EndingAt(a + b, t) == EndingAt(a, t) + EndingAt(b, t)
  {
    if a != [] {
      assert (a + b)[1..] == a[1..] + b;
      EndingAtConcat(a[1..], b, t);
    } else {
      assert a + b == b;
    }
  }

  lemma {:induction false} EndingAtNone(s: seq<RecentGame>, t: int)
    requires forall i :: 0 <= i < |s| ==> s[i].endTime != t
    ensures EndingAt(s, t) == []
  {
    if s != [] {
      EndingAtNone(s[1..], t);
    }
  }

  lemma {:induction false} InsertMultiset(s: seq<RecentGame>, g: RecentGame)
    ensures multiset(Insert(s, g)) == multiset(s) + multiset{g}
  {
    if !(s == [] || s[0].endTime < g.endTime) {
      InsertMultiset(s[1..], g);
      assert s == [s[0]] + s[1..];
    }
  }

  lemma {:induction false} InsertDescending(s: seq<RecentGame>, g: RecentGame)
    requires Descending(s)
    ensures Descending(Insert(s, g))
  {
    if !(s == [] || s[0].endTime < g.endTime) {
      InsertDescending(s[1..], g);
      InsertMultiset(s[1..], g);
      var rest := Insert(s[1..], g);
      forall j | 0 <= j < |rest| ensures s[0].endTime >= rest[j].endTime {
        assert rest[j] in multiset(s[1..]) + multiset{g};
      }
    }
  }

  /** Inserting `g` into a descending list appends it to the games with its
      own end time and leaves every other end time's games as they were. */
  lemma {:induction false} InsertEndingAt(s: seq<RecentGame>, g: RecentGame, t: int)
    requires Descending(s)
    ensures EndingAt(Insert(s, g), t) == EndingAt(s, t) + EndingAt([g], t)
  {
    if s == [] {
    } else if s[0].endTime < g.endTime {
      EndingAtConcat([g], s, t);
      if g.endTime == t {
        EndingAtNone(s, t);
      }
    } else {
      InsertEndingAt(s[1..], g, t);
      EndingAtConcat([s[0]], Insert(s[1..], g), t);
    }
  }

  lemma {:induction false} SortDescending(s: seq<RecentGame>)
    ensures Descending(SortNewestFirst(s))
  {
    if s != [] {
      SortDescending(s[..|s| - 1]);
      InsertDescending(SortNewestFirst(s[..|s| - 1]), s[|s| - 1]);
    }
  }

  lemma {:induction false} SortPermutes(s: seq<RecentGame>)
    ensures multiset(SortNewestFirst(s)) == multiset(s)
  {
    if s != [] {
      SortPermutes(s[..|s| - 1]);
      InsertMultiset(SortNewestFirst(s[..|s| - 1]), s[|s| - 1]);
      assert s == s[..|s| - 1] + [s[|s| - 1]];
    }
  }

  /** Stability: for every end time, the sorted list holds the games with
      that end time in the order the input holds them. */
  lemma {:induction false} SortStable(s: seq<RecentGame>, t: int)
    ensures EndingAt(SortNewestFirst(s), t) == EndingAt(s, t)
  {
    if s != [] {
      var init, last := s[..|s| - 1], s[|s| - 1];
      SortStable(init, t);
      SortDescending(init);
      InsertEndingAt(SortNewestFirst(init), last, t);
      assert s == init + [last];
      EndingAtConcat(init, [last], t);
    }
  }

  /** Two descending lists that hold the same games for every end time, in
      the same order, are equal. */
  lemma {:induction false} DescendingDeterminedByGroups(a: seq<RecentGame>, b: seq<RecentGame>)
    requires Descending(a) && Descending(b)
    requires forall t :: EndingAt(a, t) == EndingAt(b, t)
    ensures a == b
    decreases |a| + |b|
  {
    if a == [] && b == [] {
    } else if a == [] {
      EndingAtNonEmpty(b);
      assert false;
    } else if b == [] {
      EndingAtNonEmpty(a);
      assert false;
    } else {
      var ta, tb := a[0].endTime, b[0].endTime;
      EndingAtMember(a, ta, a[0]);
      EndingAtMember(b, tb, b[0]);
      assert a[0] in EndingAt(b, ta);
      EndingAtMember(b, ta, a[0]);
      assert b[0] in EndingAt(a, tb);
      EndingAtMember(a, tb, b[0]);
      assert ta == tb;
      assert a[0] == EndingAt(a, ta)[0] == EndingAt(b, tb)[0] == b[0];
      forall t ensures EndingAt(a[1..], t) == EndingAt(b[1..], t) {
        var head := if ta == t then [a[0]] else [];
        assert EndingAt(a, t) == head + EndingAt(a[1..], t);
        assert EndingAt(b, t) == head + EndingAt(b[1..], t);
        assert EndingAt(a, t) == EndingAt(b, t);
        assert EndingAt(a[1..], t) == EndingAt(a, t)[|head|..];
      }
      DescendingDeterminedByGroups(a[1..], b[1..]);
      assert a == [a[0]] + a[1..] && b == [b[0]] + b[1..];
    }
  }

  /** The sort is the only one with both promised properties: any list that
      is descending and keeps, for every end time, the input order of the
      games with that end time is `SortNewestFirst` of the input. */
  lemma StableSortUnique(s: seq<RecentGame>, r: seq<RecentGame>)
    requires Descending(r)
    requires forall t :: EndingAt(r, t) == EndingAt(s, t)
    ensures r == SortNewestFirst(s)
  {
    SortDescending(s);
    forall t ensures EndingAt(r, t) == EndingAt(SortNewestFirst(s), t) {
      SortStable(s, t);
    }
    DescendingDeterminedByGroups(r, SortNewestFirst(s));
  }
}
