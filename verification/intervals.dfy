/** The time-interval value type shared by shifts, bookings and free spans:
    integer minutes of one day, both ends validated into [0, 1440] with no
    ordering imposed between them. */
module Intervals {

  /** Minutes in a day; 1440 (midnight at the end of the day) is a legal endpoint. */
  const MinutesPerDay: int := 1440

  datatype TimeInterval = TimeInterval(startsAt: int, endsAt: int)

  predicate InDay(m: int) {
    0 <= m <= MinutesPerDay
  }

  /** What the request validator accepts for one interval: each end an integer
      in [0, 1440]. Nothing relates `startsAt` to `endsAt`. */
  predicate IsValidDto(t: TimeInterval) {
    InDay(t.startsAt) && InDay(t.endsAt)
  }

  /** Nested validation of a list of intervals: every element is checked. */
  function AllValidDto(s: seq<TimeInterval>): (ok: bool)
    ensures ok <==> forall i :: 0 <= i < |s| ==> IsValidDto(s[i])
  {
    if s == [] then true
    else IsValidDto(s[0]) && AllValidDto(s[1..])
  }

  function Length(t: TimeInterval): int {
    t.endsAt - t.startsAt
  }

  predicate NonEmpty(t: TimeInterval) {
    t.startsAt < t.endsAt
  }

  predicate Ordered(t: TimeInterval) {
    t.startsAt <= t.endsAt
  }

  /** Half-open overlap: intervals that only touch do not overlap. */
  predicate Overlaps(a: TimeInterval, b: TimeInterval) {
    a.startsAt < b.endsAt && b.startsAt < a.endsAt
  }

  predicate Contains(outer: TimeInterval, inner: TimeInterval) {
    outer.startsAt <= inner.startsAt && inner.endsAt <= outer.endsAt
  }

  /** Sum of the (signed) lengths of a list of intervals. */
  function TotalLength(s: seq<TimeInterval>): int {
    if s == [] then 0 else Length(s[0]) + TotalLength(s[1..])
  }

  predicate PairwiseDisjoint(s: seq<TimeInterval>) {
    forall i, j :: 0 <= i < |s| && 0 <= j < |s| && i != j ==> !Overlaps(s[i], s[j])
  }

  predicate SortedByStart(s: seq<TimeInterval>) {
    forall i, j :: 0 <= i < j < |s| ==> s[i].startsAt <= s[j].startsAt
  }

  /** Every element of `inner` lies inside some element of `outer`. */
  predicate CoveredBy(inner: seq<TimeInterval>, outer: seq<TimeInterval>) {
    forall x | x in inner :: exists y | y in outer :: Contains(y, x)
  }

  /** The validator imposes no order between the two ends: an inverted
      interval passes it. */
  lemma DtoAllowsInverted()
    ensures IsValidDto(TimeInterval(600, 540))
    ensures !Ordered(TimeInterval(600, 540))
  {
  }

  /** The end-of-day minute is a legal endpoint, one minute past it is not. */
  lemma DtoBounds()
    ensures IsValidDto(TimeInterval(0, MinutesPerDay))
    ensures !IsValidDto(TimeInterval(0, MinutesPerDay + 1))
    ensures !IsValidDto(TimeInterval(-1, 10))
  {
  }

  lemma {:induction false} TotalLengthConcat(a: seq<TimeInterval>, b: seq<TimeInterval>)
    ensures TotalLength(a + b) == TotalLength(a) + TotalLength(b)
  {
    if a == [] {
      assert a + b == b;
    } else {
      assert (a + b)[1..] == a[1..] + b;
      TotalLengthConcat(a[1..], b);
    }
  }

  /** Taking out the element at index `k` lowers the total by its length. */
  lemma TotalLengthRemove(s: seq<TimeInterval>, k: nat)
    requires k < |s|
    ensures TotalLength(s[..k] + s[k+1..]) == TotalLength(s) - Length(s[k])
  {
    assert s == s[..k] + ([s[k]] + s[k+1..]);
    TotalLengthConcat(s[..k], [s[k]] + s[k+1..]);
    TotalLengthConcat([s[k]], s[k+1..]);
    TotalLengthConcat(s[..k], s[k+1..]);
  }

  /** A sub-interval of something that misses `x` misses `x` too. */
  lemma ContainedMisses(outer: TimeInterval, inner: TimeInterval, x: TimeInterval)
    requires Contains(outer, inner) && !Overlaps(outer, x)
    ensures !Overlaps(inner, x) && !Overlaps(x, inner)
  {
  }

  /** For a list sorted by start in which each interval is non-empty and ends
      no later than its successor starts, no two intervals overlap at all. */
  lemma {:induction false} AdjacentImpliesPairwise(s: seq<TimeInterval>)
    requires forall i :: 0 <= i < |s| ==> NonEmpty(s[i])
    requires forall i :: 0 <= i < |s| - 1 ==> s[i].endsAt <= s[i+1].startsAt
    ensures PairwiseDisjoint(s)
    ensures forall i, j :: 0 <= i < j < |s| ==> s[i].endsAt <= s[j].startsAt
  {
    if |s| > 1 {
      AdjacentImpliesPairwise(s[1..]);
      forall j | 1 <= j < |s|
        ensures s[0].endsAt <= s[j].startsAt
      {
        assert s[1..][j-1] == s[j];
        if j > 1 {
          assert s[1..][0] == s[1];
          assert s[1].startsAt < s[1].endsAt;
          assert s[1].endsAt <= s[j].startsAt;
        }
      }
      forall i, j | 0 <= i < j < |s|
        ensures s[i].endsAt <= s[j].startsAt
      {
        if i > 0 {
          assert s[1..][i-1] == s[i] && s[1..][j-1] == s[j];
        }
      }
    }
  }
}
