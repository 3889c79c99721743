/** The shift-list rules of a doctor's shift update: a list of two or more
    shifts is sorted by start (stably) and then checked pairwise; a list of
    zero or one shift is kept as given. */
module ShiftRules {
  import opened Intervals
  import opened Domain

  // ---------------------------------------------------------------------------
  // Stable sort by start minute

  /** Inserts `x` before the first element that starts no earlier than it. */
  function InsertByStart(x: TimeInterval, s: seq<TimeInterval>): (r: seq<TimeInterval>)
    requires SortedByStart(s)
    ensures SortedByStart(r)
    ensures multiset(r) == multiset(s) + multiset{x}
  {
    if s == [] || x.startsAt <= s[0].startsAt then
      [x] + s
    else
      var t := InsertByStart(x, s[1..]);
      assert s == [s[0]] + s[1..];
      PrependKeepsSorted(s[0], x, s[1..], t);
      [s[0]] + t
  }

  lemma PrependKeepsSorted(head: TimeInterval, x: TimeInterval, rest: seq<TimeInterval>, t: seq<TimeInterval>)
    requires SortedByStart([head] + rest) && SortedByStart(t)
    requires head.startsAt < x.startsAt
    requires multiset(t) == multiset(rest) + multiset{x}
    ensures SortedByStart([head] + t)
  {
    var r := [head] + t;
    forall y | y in t
      ensures head.startsAt <= y.startsAt
    {
      assert y in multiset(t);
      if y != x {
        assert y in multiset(rest);
        var j :| 0 <= j < |rest| && rest[j] == y;
        assert ([head] + rest)[0] == head && ([head] + rest)[j + 1] == y;
      }
    }
    forall i, j | 0 <= i < j < |r|
      ensures r[i].startsAt <= r[j].startsAt
    {
      assert r[j] == t[j - 1] && t[j - 1] in t;
      if i > 0 {
        assert r[i] == t[i - 1];
      }
    }
  }

  /** The ordering a start-minute comparator produces: ascending by start,
      a permutation of the input. */
  function SortByStart(s: seq<TimeInterval>): (r: seq<TimeInterval>)
    ensures SortedByStart(r)
    ensures multiset(r) == multiset(s)
    ensures |r| == |s|
  {
    if s == [] then []
    else
      assert s == [s[0]] + s[1..];
      InsertByStart(s[0], SortByStart(s[1..]))
  }

  /** A list already in start order comes back unchanged. */
  lemma {:induction false} SortSortedIsIdentity(s: seq<TimeInterval>)
    requires SortedByStart(s)
    ensures SortByStart(s) == s
  {
    if s != [] {
      SortSortedIsIdentity(s[1..]);
    }
  }

  // ---------------------------------------------------------------------------
  // Validation

  /** What the pairwise loop checks on the sorted list: each shift starts
      before it ends, and each ends no later than the next one starts. */
  predicate ShiftsConsistent(s: seq<TimeInterval>) {
    && (forall i :: 0 <= i < |s| ==> NonEmpty(s[i]))
    && (forall i :: 0 <= i < |s| - 1 ==> s[i].endsAt <= s[i+1].startsAt)
  }

  /** An order-free description of an acceptable shift collection: every
      shift is non-empty, and no two shifts of the collection overlap (a shift
      listed twice overlaps its copy). */
  predicate AcceptableShiftSet(m: multiset<TimeInterval>) {
    && (forall x | x in m :: NonEmpty(x))
    && (forall x, y | x in m && y in m :: Overlaps(x, y) ==> x == y && m[x] == 1)
  }

  /** The validation loop as written: walk the adjacent pairs, then check the
      last shift alone. */
  method CheckShifts(shifts: seq<TimeInterval>) returns (ok: bool)
    requires |shifts| > 1
    ensures ok <==> ShiftsConsistent(shifts)
  {
    var idx := 0;
    while idx < |shifts| - 1
      invariant 0 <= idx <= |shifts| - 1
      invariant forall j :: 0 <= j < idx ==> NonEmpty(shifts[j])
      invariant forall j :: 0 <= j < idx ==> shifts[j].endsAt <= shifts[j+1].startsAt
    {
      var shift1, shift2 := shifts[idx], shifts[idx + 1];
      if shift1.startsAt >= shift1.endsAt || shift1.endsAt > shift2.startsAt {
        return false;
      }
      idx := idx + 1;
    }
    var lastShift := shifts[|shifts| - 1];
    if lastShift.startsAt >= lastShift.endsAt {
      return false;
    }
    return true;
  }

  lemma {:induction false} DistinctPositionsSingleCount(s: seq<TimeInterval>, x: TimeInterval)
    requires forall i, j :: 0 <= i < |s| && 0 <= j < |s| && s[i] == s[j] ==> i == j
    ensures multiset(s)[x] <= 1
  {
    if s != [] {
      assert s == [s[0]] + s[1..];
      forall i, j | 0 <= i < |s[1..]| && 0 <= j < |s[1..]| && s[1..][i] == s[1..][j]
        ensures i == j
      {
        assert s[i + 1] == s[j + 1];
      }
      DistinctPositionsSingleCount(s[1..], x);
      forall j | 0 <= j < |s[1..]|
        ensures s[1..][j] != s[0]
      {
        assert s[1..][j] == s[j + 1];
      }
      assert s[0] !in s[1..];
    }
  }

  lemma {:induction false} RepeatedPositionsCount(s: seq<TimeInterval>, i: nat, j: nat)
    requires i < j < |s| && s[i] == s[j]
    ensures multiset(s)[s[i]] >= 2
  {
    assert s == s[..i] + [s[i]] + s[i+1..];
    assert s[i+1..][j - i - 1] == s[j];
    assert multiset(s) == multiset(s[..i]) + multiset{s[i]} + multiset(s[i+1..]);
  }

  /** For a list in start order the pairwise loop accepts exactly the
      acceptable collections. */
  lemma ConsistentIffAcceptable(s: seq<TimeInterval>)
    requires SortedByStart(s)
    ensures ShiftsConsistent(s) <==> AcceptableShiftSet(multiset(s))
  {
    var m := multiset(s);
    if ShiftsConsistent(s) {
      AdjacentImpliesPairwise(s);
      forall i, j | 0 <= i < |s| && 0 <= j < |s| && s[i] == s[j]
        ensures i == j
      {
        assert NonEmpty(s[i]) && Overlaps(s[i], s[i]);
      }
      forall x, y | x in m && y in m && Overlaps(x, y)
        ensures x == y && m[x] == 1
      {
        var i :| 0 <= i < |s| && s[i] == x;
        var j :| 0 <= j < |s| && s[j] == y;
        DistinctPositionsSingleCount(s, x);
      }
    } else if AcceptableShiftSet(m) {
      assert forall i :: 0 <= i < |s| ==> NonEmpty(s[i]) by {
        forall i | 0 <= i < |s| ensures NonEmpty(s[i]) { assert s[i] in m; }
      }
      var i :| 0 <= i < |s| - 1 && s[i].endsAt > s[i+1].startsAt;
      assert s[i] in m && s[i+1] in m;
      assert Overlaps(s[i], s[i+1]);
      RepeatedPositionsCount(s, i, i + 1);
      assert false;
    }
  }

  /** The shift-list part of an update: lists of two or more shifts are
      sorted and must pass the pairwise check; shorter lists are kept as
      given, so a single inverted shift is accepted. */
  function NormalizeShifts(shifts: seq<TimeInterval>): (r: Result<seq<TimeInterval>>)
    ensures |shifts| <= 1 ==> r == Ok(shifts)
    ensures r.Err? <==> |shifts| > 1 && !AcceptableShiftSet(multiset(shifts))
    ensures r.Err? ==> r.error == BadRequest
    ensures r.Ok? ==> SortedByStart(r.value) && multiset(r.value) == multiset(shifts)
    ensures r.Ok? && |shifts| > 1 ==>
              && (forall i :: 0 <= i < |r.value| ==> NonEmpty(r.value[i]))
              && (forall i, j :: 0 <= i < j < |r.value| ==> r.value[i].endsAt <= r.value[j].startsAt)
              && PairwiseDisjoint(r.value)
  {
    if |shifts| > 1 then
      var sorted := SortByStart(shifts);
      ConsistentIffAcceptable(sorted);
      if ShiftsConsistent(sorted) then
        AdjacentImpliesPairwise(sorted);
        Ok(sorted)
      else
        Err(BadRequest)
    else
      Ok(shifts)
  }

  /** Touching shifts are accepted; overlapping ones are rejected. */
  lemma TouchingAcceptedOverlapRejected()
    ensures NormalizeShifts([TimeInterval(0, 540), TimeInterval(540, 600)]).Ok?
    ensures NormalizeShifts([TimeInterval(0, 540), TimeInterval(500, 600)]).Err?
  {
    var touching := [TimeInterval(0, 540), TimeInterval(540, 600)];
    SortSortedIsIdentity(touching);
    assert ShiftsConsistent(touching);
    var overlapping := [TimeInterval(0, 540), TimeInterval(500, 600)];
    SortSortedIsIdentity(overlapping);
    assert !ShiftsConsistent(overlapping);
  }

  /** Out-of-order input is stored in start order. */
  lemma UnsortedInputIsSorted()
    ensures NormalizeShifts([TimeInterval(600, 700), TimeInterval(60, 120)])
         == Ok([TimeInterval(60, 120), TimeInterval(600, 700)])
  {
    var s := [TimeInterval(600, 700), TimeInterval(60, 120)];
    assert s[1..] == [TimeInterval(60, 120)];
    assert SortByStart(s[1..]) == [TimeInterval(60, 120)];
    assert SortByStart(s) == [TimeInterval(60, 120), TimeInterval(600, 700)];
  }
}
