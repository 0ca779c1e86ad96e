/** Tactics-puzzle ratings read from a player's stats document. */
module Tactics {
  import opened Wrappers

  /** A `last`, `highest` or `lowest` object; only its `rating` is read. An
      empty object is one without a rating. */
  datatype RatingRecord = RatingRecord(rating: Option<int>)

  /** The `tactics` section of the stats document. */
  datatype TacticsSection = TacticsSection(
    last: Option<RatingRecord>,
    highest: Option<RatingRecord>,
    lowest: Option<RatingRecord>)

  /** The stats document; only its `tactics` section is read. */
  datatype Stats = Stats(tactics: Option<TacticsSection>)

  /** Current, highest and lowest tactics rating, each possibly absent. */
  datatype TacticsRatings = TacticsRatings(current: Option<int>, highest: Option<int>, lowest: Option<int>)

  const NoRatings := TacticsRatings(None, None, None)

  /** A section with none of the three records: the empty object `{}`. */
  const EmptySection := TacticsSection(None, None, None)

  /** The rating of an optional record (`(record or {}).get("rating")`). */
  function RatingOf(record: Option<RatingRecord>): Option<int> {
    match record
    case None => None
    case Some(r) => r.rating
  }

  /** Python truthiness of an optional integer: present and non-zero. */
  predicate Truthy(r: Option<int>) {
    r.Some? && r.value != 0
  }

  /** Python's `a or b` on optional integers. */
  function Or(a: Option<int>, b: Option<int>): Option<int> {
    if Truthy(a) then a else b
  }

  /** `get_tactics_info` on the fetched stats document. */
  function TacticsInfo(stats: Stats): (t: TacticsRatings)
    ensures stats.tactics.None? ==> t == NoRatings
    ensures stats.tactics.Some? ==>
              && t.highest == RatingOf(stats.tactics.value.highest)
              && t.lowest == RatingOf(stats.tactics.value.lowest)
    ensures stats.tactics.Some? && Truthy(RatingOf(stats.tactics.value.last)) ==>
              t.current == RatingOf(stats.tactics.value.last)
    ensures stats.tactics.Some? && !Truthy(RatingOf(stats.tactics.value.last)) ==>
              t.current == RatingOf(stats.tactics.value.highest)
  {
    match stats.tactics
    case None => NoRatings
    case Some(section) =>
      var last, highest := RatingOf(section.last), RatingOf(section.highest);
      TacticsRatings(Or(last, highest), highest, RatingOf(section.lowest))
  }

  /** The current rating is absent exactly when the last rating is absent
      or zero and the highest rating is absent. */
  lemma CurrentRating(section: TacticsSection)
    ensures TacticsInfo(Stats(Some(section))).current == None <==>
            !Truthy(RatingOf(section.last)) && RatingOf(section.highest) == None
  {
  }

  /** An empty section, which the source returns early for, gives the same
      three absent ratings the general path would. */
  lemma EmptySectionHasNoRatings()
    ensures TacticsInfo(Stats(Some(EmptySection))) == NoRatings
  {
  }

  /** Absent ratings stay absent: they are never defaulted to zero. */
  lemma AbsentNotZero(stats: Stats)
    ensures var t := TacticsInfo(stats);
            && (t.highest.Some? ==> stats.tactics.Some? && RatingOf(stats.tactics.value.highest) == t.highest)
            && (t.lowest.Some? ==> stats.tactics.Some? && RatingOf(stats.tactics.value.lowest) == t.lowest)
            && (t.current.Some? ==>
                  && stats.tactics.Some?
                  && (t.current == RatingOf(stats.tactics.value.last) || t.current == RatingOf(stats.tactics.value.highest)))
  {
  }
}
