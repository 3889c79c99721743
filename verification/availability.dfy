/** Free-interval subtraction: a doctor's shifts minus the same-day booked
    intervals. Each booked interval is taken out of the FIRST remaining interval
    that fully contains it; that interval is removed and its non-empty left and
    right remainders are appended at the END of the list. A booked interval no
    remaining interval contains is skipped. */
module Availability {
  import opened Intervals

  /** `findIndex` from position `i`: the first index at or after `i` whose
      interval fully contains `booked`, or -1. */
  function FindContainingFrom(rem: seq<TimeInterval>, booked: TimeInterval, i: nat): (k: int)
    requires i <= |rem|
    ensures k == -1 || i <= k < |rem|
    ensures k >= 0 ==> Contains(rem[k], booked)
    ensures k >= 0 ==> forall j :: i <= j < k ==> !Contains(rem[j], booked)
    ensures k == -1 <==> forall j :: i <= j < |rem| ==> !Contains(rem[j], booked)
    decreases |rem| - i
  {
    if i == |rem| then -1
    else if Contains(rem[i], booked) then i
    else FindContainingFrom(rem, booked, i + 1)
  }

  /** Index of the first remaining interval containing `booked`, or -1. */
  function FindContaining(rem: seq<TimeInterval>, booked: TimeInterval): (k: int)
    ensures -1 <= k < |rem|
    ensures k >= 0 ==> Contains(rem[k], booked)
    ensures k >= 0 ==> forall j :: 0 <= j < k ==> !Contains(rem[j], booked)
    ensures k == -1 <==> forall j :: 0 <= j < |rem| ==> !Contains(rem[j], booked)
  {
    FindContainingFrom(rem, booked, 0)
  }

  /** What is left of `shift` once `booked` is cut out of it: a left piece
      only when the shift starts strictly before the booking, then a right
      piece only when it ends strictly after it. */
  function Pieces(shift: TimeInterval, booked: TimeInterval): (p: seq<TimeInterval>)
    ensures |p| == (if shift.startsAt < booked.startsAt then 1 else 0)
                 + (if shift.endsAt > booked.endsAt then 1 else 0)
    ensures shift.startsAt < booked.startsAt ==> p[0] == TimeInterval(shift.startsAt, booked.startsAt)
    ensures shift.endsAt > booked.endsAt ==> p[|p| - 1] == TimeInterval(booked.endsAt, shift.endsAt)
    ensures forall q | q in p :: NonEmpty(q)
    ensures Contains(shift, booked) && Ordered(booked) ==>
              forall q | q in p :: Contains(shift, q) && !Overlaps(q, booked)
    ensures Ordered(booked) ==> PairwiseDisjoint(p)
  {
    (if shift.startsAt < booked.startsAt then [TimeInterval(shift.startsAt, booked.startsAt)] else [])
    + (if shift.endsAt > booked.endsAt then [TimeInterval(booked.endsAt, shift.endsAt)] else [])
  }

  /** One iteration of the subtraction loop. */
  function SubtractOne(rem: seq<TimeInterval>, booked: TimeInterval): (r: seq<TimeInterval>)
    ensures FindContaining(rem, booked) == -1 ==> r == rem
    ensures FindContaining(rem, booked) >= 0 ==>
              var k := FindContaining(rem, booked);
              && |rem| - 1 <= |r| <= |rem| + 1
              && r[..|rem| - 1] == rem[..k] + rem[k+1..]
              && (forall i :: |rem| - 1 <= i < |r| ==> NonEmpty(r[i]))
              && (Ordered(booked) ==> forall i :: |rem| - 1 <= i < |r| ==>
                    Contains(rem[k], r[i]) && !Overlaps(r[i], booked))
  {
    var k := FindContaining(rem, booked);
    if k < 0 then rem
    else
      var r := rem[..k] + rem[k+1..] + Pieces(rem[k], booked);
      assert r[..|rem| - 1] == rem[..k] + rem[k+1..];
      assert forall i :: |rem| - 1 <= i < |r| ==> r[i] in Pieces(rem[k], booked);
      r
  }

  /** `getAvailableIntervals`: fold `SubtractOne` over the booked intervals in
      the order they are given. */
  function AvailableIntervals(shifts: seq<TimeInterval>, booked: seq<TimeInterval>): (r: seq<TimeInterval>)
    ensures |r| <= |shifts| + |booked|
    decreases |booked|
  {
    if booked == [] then shifts
    else AvailableIntervals(SubtractOne(shifts, booked[0]), booked[1..])
  }

  /** The booked intervals that were actually subtracted, i.e. that some
      remaining interval contained when their turn came. */
  function Applied(shifts: seq<TimeInterval>, booked: seq<TimeInterval>): (a: seq<TimeInterval>)
    ensures |a| <= |booked|
    ensures forall x | x in a :: x in booked
    decreases |booked|
  {
    if booked == [] then []
    else
      var head := if FindContaining(shifts, booked[0]) >= 0 then [booked[0]] else [];
      var tail := Applied(SubtractOne(shifts, booked[0]), booked[1..]);
      assert forall x | x in tail :: x in booked by {
        assert forall x | x in booked[1..] :: x in booked;
      }
      head + tail
  }

  /** Each booking is applied at most as often as it is booked: the applied
      bookings are a sub-multiset of the bookings. */
  lemma {:induction false} AppliedSubMultiset(shifts: seq<TimeInterval>, booked: seq<TimeInterval>)
    ensures multiset(Applied(shifts, booked)) <= multiset(booked)
    decreases |booked|
  {
    if booked != [] {
      AppliedSubMultiset(SubtractOne(shifts, booked[0]), booked[1..]);
      assert booked == [booked[0]] + booked[1..];
    }
  }

  // ---------------------------------------------------------------------------
  // One subtraction step

  /** A successful subtraction lowers the total free length by exactly the
      booked length; a skipped one leaves it as it was. */
  lemma SubtractOneLength(rem: seq<TimeInterval>, booked: TimeInterval)
    ensures TotalLength(SubtractOne(rem, booked)) ==
            TotalLength(rem) - (if FindContaining(rem, booked) >= 0 then Length(booked) else 0)
  {
    var k := FindContaining(rem, booked);
    if k >= 0 {
      var p := Pieces(rem[k], booked);
      TotalLengthConcat(rem[..k] + rem[k+1..], p);
      TotalLengthRemove(rem, k);
      if |p| == 2 {
        assert p == [p[0]] + [p[1]];
        TotalLengthConcat([p[0]], [p[1]]);
      }
    }
  }

  /** Every interval after the step lies inside an interval before it. */
  lemma SubtractOneWithin(rem: seq<TimeInterval>, booked: TimeInterval)
    requires Ordered(booked)
    ensures forall x | x in SubtractOne(rem, booked) :: exists y | y in rem :: Contains(y, x)
  {
    var r := SubtractOne(rem, booked);
    var k := FindContaining(rem, booked);
    forall x | x in r
      ensures exists y | y in rem :: Contains(y, x)
    {
      if k < 0 {
        assert Contains(x, x);
      } else {
        var i :| 0 <= i < |r| && r[i] == x;
        if i < |rem| - 1 {
          assert x in rem[..k] + rem[k+1..] by { assert r[..|rem| - 1][i] == x; }
          assert Contains(x, x);
        } else {
          assert Contains(rem[k], x);
        }
      }
    }
  }

  /** An interval no remaining interval overlapped is overlapped by nothing
      after the step either. */
  lemma SubtractOneKeepsMiss(rem: seq<TimeInterval>, booked: TimeInterval, c: TimeInterval)
    requires Ordered(booked)
    requires forall x | x in rem :: !Overlaps(x, c)
    ensures forall x | x in SubtractOne(rem, booked) :: !Overlaps(x, c)
  {
    SubtractOneWithin(rem, booked);
    forall x | x in SubtractOne(rem, booked)
      ensures !Overlaps(x, c)
    {
      var y :| y in rem && Contains(y, x);
      ContainedMisses(y, x, c);
    }
  }

  lemma {:induction false} DisjointAppend(a: seq<TimeInterval>, b: seq<TimeInterval>)
    requires PairwiseDisjoint(a) && PairwiseDisjoint(b)
    requires forall x, y | x in a && y in b :: !Overlaps(x, y) && !Overlaps(y, x)
    ensures PairwiseDisjoint(a + b)
  {
    var s := a + b;
    forall i, j | 0 <= i < |s| && 0 <= j < |s| && i != j
      ensures !Overlaps(s[i], s[j])
    {
      if i < |a| && j < |a| {
        assert s[i] == a[i] && s[j] == a[j];
      } else if i >= |a| && j >= |a| {
        assert s[i] == b[i - |a|] && s[j] == b[j - |a|];
      } else if i < |a| {
        assert s[i] in a && s[j] in b;
      } else {
        assert s[j] in a && s[i] in b;
      }
    }
  }

  /** Removing one element keeps the rest pairwise disjoint, and all of them
      miss the removed element. */
  lemma DisjointRemove(s: seq<TimeInterval>, k: nat)
    requires k < |s| && PairwiseDisjoint(s)
    ensures PairwiseDisjoint(s[..k] + s[k+1..])
    ensures forall x | x in s[..k] + s[k+1..] :: !Overlaps(x, s[k]) && !Overlaps(s[k], x)
  {
    var t := s[..k] + s[k+1..];
    assert forall i :: 0 <= i < |t| ==> t[i] == s[if i < k then i else i + 1];
    forall x | x in t
      ensures !Overlaps(x, s[k]) && !Overlaps(s[k], x)
    {
      var i :| 0 <= i < |t| && t[i] == x;
      assert x == s[if i < k then i else i + 1];
    }
  }

  /** Pairwise disjointness survives the step, and after a successful step
      nothing left overlaps the subtracted interval. */
  lemma SubtractOneDisjoint(rem: seq<TimeInterval>, booked: TimeInterval)
    requires PairwiseDisjoint(rem) && Ordered(booked)
    ensures PairwiseDisjoint(SubtractOne(rem, booked))
    ensures FindContaining(rem, booked) >= 0 ==>
              forall x | x in SubtractOne(rem, booked) :: !Overlaps(x, booked)
  {
    var k := FindContaining(rem, booked);
    if k >= 0 {
      var rest := rem[..k] + rem[k+1..];
      var p := Pieces(rem[k], booked);
      DisjointRemove(rem, k);
      forall x, y | x in rest && y in p
        ensures !Overlaps(x, y) && !Overlaps(y, x)
      {
        ContainedMisses(rem[k], y, x);
      }
      DisjointAppend(rest, p);
      assert SubtractOne(rem, booked) == rest + p;
      forall x | x in rest + p
        ensures !Overlaps(x, booked)
      {
        if x in rest {
          ContainedMisses(rem[k], booked, x);
        }
      }
    }
  }

  /** A booked interval inside some remaining interval, not overlapping the
      one being subtracted, is still inside some remaining interval after it. */
  lemma SubtractOneKeepsRoom(rem: seq<TimeInterval>, booked: TimeInterval, b: TimeInterval)
    requires NonEmpty(booked) && NonEmpty(b) && !Overlaps(booked, b)
    requires exists y | y in rem :: Contains(y, b)
    ensures exists y | y in SubtractOne(rem, booked) :: Contains(y, b)
  {
    var k := FindContaining(rem, booked);
    var r := SubtractOne(rem, booked);
    if k >= 0 {
      var y :| y in rem && Contains(y, b);
      var i :| 0 <= i < |rem| && rem[i] == y;
      var rest := rem[..k] + rem[k+1..];
      var p := Pieces(rem[k], booked);
      assert r == rest + p;
      if i < k {
        assert rest[i] == y;
      } else if i > k {
        assert rest[i - 1] == y;
      } else if b.endsAt <= booked.startsAt {
        assert p[0] == TimeInterval(rem[k].startsAt, booked.startsAt);
        assert Contains(p[0], b) && p[0] in r;
      } else {
        assert p[|p| - 1] == TimeInterval(booked.endsAt, rem[k].endsAt);
        assert Contains(p[|p| - 1], b) && p[|p| - 1] in r;
      }
    }
  }

  // ---------------------------------------------------------------------------
  // The whole fold

  /** Total free length = total shift length minus the subtracted bookings. */
  lemma {:induction false} AvailableLength(shifts: seq<TimeInterval>, booked: seq<TimeInterval>)
    ensures TotalLength(AvailableIntervals(shifts, booked)) ==
            TotalLength(shifts) - TotalLength(Applied(shifts, booked))
    decreases |booked|
  {
    if booked != [] {
      var next := SubtractOne(shifts, booked[0]);
      SubtractOneLength(shifts, booked[0]);
      AvailableLength(next, booked[1..]);
      var head := if FindContaining(shifts, booked[0]) >= 0 then [booked[0]] else [];
      TotalLengthConcat(head, Applied(next, booked[1..]));
    }
  }

  /** Every free interval is a sub-interval of one of the input shifts. */
  lemma {:induction false} AvailableWithinShifts(shifts: seq<TimeInterval>, booked: seq<TimeInterval>)
    requires forall b | b in booked :: Ordered(b)
    ensures CoveredBy(AvailableIntervals(shifts, booked), shifts)
    decreases |booked|
  {
    if booked != [] {
      var next := SubtractOne(shifts, booked[0]);
      SubtractOneWithin(shifts, booked[0]);
      AvailableWithinShifts(next, booked[1..]);
      forall x | x in AvailableIntervals(shifts, booked)
        ensures exists y | y in shifts :: Contains(y, x)
      {
        var m :| m in next && Contains(m, x);
        var y :| y in shifts && Contains(y, m);
        assert Contains(y, x);
      }
    }
  }

  /** Pairwise-disjoint shifts give pairwise-disjoint free intervals. */
  lemma {:induction false} AvailableDisjoint(shifts: seq<TimeInterval>, booked: seq<TimeInterval>)
    requires PairwiseDisjoint(shifts)
    requires forall b | b in booked :: Ordered(b)
    ensures PairwiseDisjoint(AvailableIntervals(shifts, booked))
    decreases |booked|
  {
    if booked != [] {
      SubtractOneDisjoint(shifts, booked[0]);
      AvailableDisjoint(SubtractOne(shifts, booked[0]), booked[1..]);
    }
  }

  /** With pairwise-disjoint shifts, no free interval overlaps a booked
      interval that was subtracted. (With overlapping shifts a second shift
      can still cover the booked time.) */
  lemma {:induction false} AvailableMissesApplied(shifts: seq<TimeInterval>, booked: seq<TimeInterval>)
    requires PairwiseDisjoint(shifts)
    requires forall b | b in booked :: Ordered(b)
    ensures forall x, b | x in AvailableIntervals(shifts, booked) && b in Applied(shifts, booked) ::
              !Overlaps(x, b)
    decreases |booked|
  {
    if booked != [] {
      var next := SubtractOne(shifts, booked[0]);
      SubtractOneDisjoint(shifts, booked[0]);
      AvailableMissesApplied(next, booked[1..]);
      if FindContaining(shifts, booked[0]) >= 0 {
        AvailableMissesHit(next, booked[1..], booked[0]);
      }
    }
  }

  /** Once nothing remaining overlaps `c`, nothing ever will. */
  lemma {:induction false} AvailableMissesHit(rem: seq<TimeInterval>, booked: seq<TimeInterval>, c: TimeInterval)
    requires forall b | b in booked :: Ordered(b)
    requires forall x | x in rem :: !Overlaps(x, c)
    ensures forall x | x in AvailableIntervals(rem, booked) :: !Overlaps(x, c)
    decreases |booked|
  {
    if booked != [] {
      SubtractOneKeepsMiss(rem, booked[0], c);
      AvailableMissesHit(SubtractOne(rem, booked[0]), booked[1..], c);
    }
  }

  /** Zero-length intervals are never produced: every free interval is either
      one of the input shifts untouched or non-empty. */
  lemma {:induction false} NoEmptyPieces(shifts: seq<TimeInterval>, booked: seq<TimeInterval>)
    ensures forall x | x in AvailableIntervals(shifts, booked) :: x in shifts || NonEmpty(x)
    decreases |booked|
  {
    if booked != [] {
      var next := SubtractOne(shifts, booked[0]);
      NoEmptyPieces(next, booked[1..]);
      var k := FindContaining(shifts, booked[0]);
      forall x | x in next
        ensures x in shifts || NonEmpty(x)
      {
        if k >= 0 {
          var i :| 0 <= i < |next| && next[i] == x;
          if i < |shifts| - 1 {
            assert next[..|shifts| - 1][i] == x;
            assert x in shifts[..k] + shifts[k+1..];
          }
        }
      }
    }
  }

  /** When the bookings are non-empty, mutually non-overlapping and each lies
      inside some shift, none of them is skipped: all are subtracted. This
      holds however many bookings fall inside one shift, because the pieces
      appended by earlier steps are searched again by later ones. */
  lemma {:induction false} AllApplied(shifts: seq<TimeInterval>, booked: seq<TimeInterval>)
    requires forall b | b in booked :: NonEmpty(b)
    requires PairwiseDisjoint(booked)
    requires CoveredBy(booked, shifts)
    ensures Applied(shifts, booked) == booked
    decreases |booked|
  {
    if booked != [] {
      var b0 := booked[0];
      var next := SubtractOne(shifts, b0);
      assert b0 in booked;
      var y0 :| y0 in shifts && Contains(y0, b0);
      var i0 :| 0 <= i0 < |shifts| && shifts[i0] == y0;
      assert FindContaining(shifts, b0) >= 0;
      forall b | b in booked[1..]
        ensures exists y | y in next :: Contains(y, b)
      {
        var j :| 0 <= j < |booked[1..]| && booked[1..][j] == b;
        assert booked[j + 1] == b;
        assert b in booked;
        assert !Overlaps(b0, b);
        SubtractOneKeepsRoom(shifts, b0, b);
      }
      assert PairwiseDisjoint(booked[1..]) by {
        forall i, j | 0 <= i < |booked[1..]| && 0 <= j < |booked[1..]| && i != j
          ensures !Overlaps(booked[1..][i], booked[1..][j])
        {
          assert booked[1..][i] == booked[i + 1] && booked[1..][j] == booked[j + 1];
        }
      }
      AllApplied(next, booked[1..]);
    }
  }

  /** The free-interval guarantees under the conditions the booking flow keeps
      for a doctor's day: the free time is the shift time minus exactly the
      booked time, the free intervals lie inside shifts, do not overlap each
      other (for disjoint shifts) and overlap no booking. */
  lemma FreeIntervalsTheorem(shifts: seq<TimeInterval>, booked: seq<TimeInterval>)
    requires PairwiseDisjoint(shifts)
    requires forall b | b in booked :: NonEmpty(b)
    requires PairwiseDisjoint(booked)
    requires CoveredBy(booked, shifts)
    ensures TotalLength(AvailableIntervals(shifts, booked)) == TotalLength(shifts) - TotalLength(booked)
    ensures PairwiseDisjoint(AvailableIntervals(shifts, booked))
    ensures CoveredBy(AvailableIntervals(shifts, booked), shifts)
    ensures forall x, b | x in AvailableIntervals(shifts, booked) && b in booked :: !Overlaps(x, b)
  {
    AllApplied(shifts, booked);
    AvailableLength(shifts, booked);
    AvailableWithinShifts(shifts, booked);
    AvailableDisjoint(shifts, booked);
    AvailableMissesApplied(shifts, booked);
  }

  // ---------------------------------------------------------------------------
  // Concrete behaviour

  /** Pieces go to the end of the list, so the free list is not sorted by
      start: a booking in the first of two shifts puts its remainders after
      the second shift. */
  lemma PiecesAppendedAtEnd()
    ensures AvailableIntervals([TimeInterval(0, 60), TimeInterval(100, 200)], [TimeInterval(10, 20)])
         == [TimeInterval(100, 200), TimeInterval(0, 10), TimeInterval(20, 60)]
  {
    var s := [TimeInterval(0, 60), TimeInterval(100, 200)];
    assert FindContaining(s, TimeInterval(10, 20)) == 0;
  }

  /** A booking that no remaining interval contains, e.g. one left over after
      the shift was shortened, is skipped: the free list is unchanged. */
  lemma UncontainedBookingSkipped()
    ensures AvailableIntervals([TimeInterval(0, 60)], [TimeInterval(50, 70)]) == [TimeInterval(0, 60)]
  {
    assert FindContaining([TimeInterval(0, 60)], TimeInterval(50, 70)) == -1;
  }

  lemma FirstCut()
    ensures SubtractOne([TimeInterval(0, 100)], TimeInterval(10, 20))
         == [TimeInterval(0, 10), TimeInterval(20, 100)]
  {
    assert FindContaining([TimeInterval(0, 100)], TimeInterval(10, 20)) == 0;
  }

  lemma SecondCut()
    ensures SubtractOne([TimeInterval(0, 10), TimeInterval(20, 100)], TimeInterval(50, 60))
         == [TimeInterval(0, 10), TimeInterval(20, 50), TimeInterval(60, 100)]
  {
    var r1 := [TimeInterval(0, 10), TimeInterval(20, 100)];
    assert FindContainingFrom(r1, TimeInterval(50, 60), 1) == 1;
    assert FindContaining(r1, TimeInterval(50, 60)) == 1;
    assert r1[..1] + r1[2..] == [TimeInterval(0, 10)];
  }

  /** Two bookings inside one shift leave three fragments. */
  lemma TwoBookingsOneShift()
    ensures AvailableIntervals([TimeInterval(0, 100)], [TimeInterval(10, 20), TimeInterval(50, 60)])
         == [TimeInterval(0, 10), TimeInterval(20, 50), TimeInterval(60, 100)]
  {
    var b1, b2 := TimeInterval(10, 20), TimeInterval(50, 60);
    FirstCut();
    SecondCut();
    assert [b1, b2][1..] == [b2];
    var r1 := [TimeInterval(0, 10), TimeInterval(20, 100)];
    assert AvailableIntervals([TimeInterval(0, 100)], [b1, b2]) == AvailableIntervals(r1, [b2]);
    assert AvailableIntervals(r1, [b2]) == AvailableIntervals(SubtractOne(r1, b2), []);
  }
}
