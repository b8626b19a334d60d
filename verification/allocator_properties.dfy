/**
  Properties of the port allocator across calls: release undoes allocation,
  the in-range invariant, and exhaustion of the range.
 */
module AllocatorProperties {
  import opened Optional
  import opened PortAllocator

  /*
   * Release
   */

  /** Releasing a port that is not in use leaves the allocator unchanged. */
  lemma ReleaseUnusedIsNoOp(a: Allocator, port: int)
    requires port !in a.used
    ensures ReleasePort(a, port) == a
  {
  }

  /** Releasing the same port twice is the same as releasing it once. */
  lemma ReleaseIdempotent(a: Allocator, port: int)
    ensures ReleasePort(ReleasePort(a, port), port) == ReleasePort(a, port)
  {
  }

  /** Releasing the port just granted gives back the allocator from before the grant. */
  lemma ReleaseUndoesAllocate(a: Allocator, avail: int -> bool)
    requires GetNextFreePort(a, avail).port.Some?
    ensures var res := GetNextFreePort(a, avail);
      ReleasePort(res.state, res.port.value) == a
  {
    var res := GetNextFreePort(a, avail);
    assert res.state.used - {res.port.value} == a.used;
  }

  /**
    After the first port of the range is granted and released, the next call
    grants it again, as long as the probe still finds it bindable, even if the
    probe's answers for other ports have changed.
   */
  lemma StartPortReusedAfterRelease(a: Allocator, avail: int -> bool, laterAvail: int -> bool)
    requires GetNextFreePort(a, avail).port == Some(a.startPort)
    requires laterAvail(a.startPort)
    ensures var released := ReleasePort(GetNextFreePort(a, avail).state, a.startPort);
      GetNextFreePort(released, laterAvail).port == Some(a.startPort)
  {
    ReleaseUndoesAllocate(a, avail);
    assert Eligible(a, laterAvail, a.startPort);
  }

  /**
    The scenario over [5000, 5010): two calls grant 5000 and 5001; after 5000
    is released the next call grants 5000 again.
   */
  lemma LowestPortReused(avail: int -> bool)
    requires avail(5000) && avail(5001)
    ensures var a0 := NewAllocator(5000, 5010);
      var r1 := GetNextFreePort(a0, avail);
      var r2 := GetNextFreePort(r1.state, avail);
      var r3 := GetNextFreePort(ReleasePort(r2.state, 5000), avail);
      r1.port == Some(5000) && r2.port == Some(5001) && r3.port == Some(5000)
  {
    var a0 := NewAllocator(5000, 5010);
    var r1 := GetNextFreePort(a0, avail);
    assert Eligible(a0, avail, 5000);
    assert r1.state.used == {5000};
    var r2 := GetNextFreePort(r1.state, avail);
    assert Eligible(r1.state, avail, 5001);
    assert r2.state.used == {5000, 5001};
    var a3 := ReleasePort(r2.state, 5000);
    assert a3.used == {5001};
    assert Eligible(a3, avail, 5000);
  }

  /*
   * The in-range invariant
   */

  /** A grant keeps every used port inside the range. */
  lemma AllocateKeepsUsedWithinRange(a: Allocator, avail: int -> bool)
    requires UsedWithinRange(a)
    ensures UsedWithinRange(GetNextFreePort(a, avail).state)
  {
  }

  /** A release keeps every used port inside the range. */
  lemma ReleaseKeepsUsedWithinRange(a: Allocator, port: int)
    requires UsedWithinRange(a)
    ensures UsedWithinRange(ReleasePort(a, port))
  {
  }

  /*
   * Exhaustion
   */

  /** The ports of [lo, hi). */
  function PortRange(lo: int, hi: int): (range: set<int>)
    ensures forall q :: q in range <==> lo <= q < hi
    decreases hi - lo
  {
    if lo >= hi then {} else {lo} + PortRange(lo + 1, hi)
  }

  /** Number of ports in the allocator's range (zero when the range is empty or reversed). */
  function RangeSize(a: Allocator): nat {
    if a.startPort <= a.endPort then a.endPort - a.startPort else 0
  }

  lemma {:induction false} PortRangeSize(lo: int, hi: int)
    requires lo <= hi
    ensures |PortRange(lo, hi)| == hi - lo
    decreases hi - lo
  {
    if lo < hi {
      PortRangeSize(lo + 1, hi);
      assert lo !in PortRange(lo + 1, hi);
    }
  }

  /** A list without repetitions has as many distinct elements as entries. */
  lemma {:induction false} DistinctElements(s: seq<int>)
    requires forall i, j :: 0 <= i < j < |s| ==> s[i] != s[j]
    ensures |set p | p in s| == |s|
  {
    if |s| > 0 {
      var t := s[1..];
      DistinctElements(t);
      assert (set p | p in s) == (set p | p in t) + {s[0]};
      assert s[0] !in t;
    }
  }

  lemma SubsetSize(small: set<int>, big: set<int>)
    requires small <= big
    ensures |big - small| == |big| - |small|
  {
    assert big == (big - small) + small;
  }

  /** However many calls are made without a release, no more ports are granted than the range holds. */
  lemma GrantsBoundedByRange(a: Allocator, avail: int -> bool, n: nat)
    ensures |AllocateRepeatedly(a, avail, n).ports| <= RangeSize(a)
  {
    var run := AllocateRepeatedly(a, avail, n);
    var granted := set p | p in run.ports;
    DistinctElements(run.ports);
    if a.startPort <= a.endPort {
      assert granted <= PortRange(a.startPort, a.endPort);
      PortRangeSize(a.startPort, a.endPort);
      SubsetSize(granted, PortRange(a.startPort, a.endPort));
    } else {
      assert granted == {};
    }
  }

  /** A subset of [lo, hi) with as many elements as the range is the whole range. */
  lemma FullSubsetCoversRange(granted: set<int>, lo: int, hi: int)
    requires lo <= hi
    requires granted <= PortRange(lo, hi) && |granted| == hi - lo
    ensures forall q :: lo <= q < hi ==> q in granted
  {
    var range := PortRange(lo, hi);
    PortRangeSize(lo, hi);
    SubsetSize(granted, range);
    assert range - granted == {};
    forall q | lo <= q < hi
      ensures q in granted
    {
      assert q in range;
      assert q !in range - granted;
    }
  }

  /**
    Once as many calls as the range has ports have all succeeded, with no
    release in between, the next call fails.
   */
  lemma ExhaustedAfterRangeSize(a: Allocator, avail: int -> bool)
    requires |AllocateRepeatedly(a, avail, RangeSize(a)).ports| == RangeSize(a)
    ensures GetNextFreePort(AllocateRepeatedly(a, avail, RangeSize(a)).final, avail).port.None?
  {
    var run := AllocateRepeatedly(a, avail, RangeSize(a));
    var granted := set p | p in run.ports;
    if a.startPort <= a.endPort {
      DistinctElements(run.ports);
      assert granted <= PortRange(a.startPort, a.endPort);
      FullSubsetCoversRange(granted, a.startPort, a.endPort);
      assert forall q :: !Eligible(run.final, avail, q);
    }
  }
}
