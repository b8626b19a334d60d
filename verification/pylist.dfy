/**
  The two pieces of Python list and dict behaviour the registry depends on:
  `list.remove(x)`, which deletes only the FIRST occurrence of `x`, and the
  choice of one key out of a finite set of candidates.
 */
module PyList {

  /** Position of the first occurrence of `x` in `s`, or `|s|` when `x` does not occur. */
  function FirstIndex(s: seq<int>, x: int): (i: nat)
    ensures i <= |s|
    ensures i < |s| ==> s[i] == x
    ensures forall j :: 0 <= j < i ==> s[j] != x
    ensures i == |s| <==> x !in s
  {
    if |s| == 0 then 0
    else if s[0] == x then 0
    else 1 + FirstIndex(s[1..], x)
  }

  /**
    `if x in s: s.remove(x)` — drops exactly one copy of `x`, the first, when
    there is one, and leaves the list alone otherwise.
   */
  function RemoveFirst(s: seq<int>, x: int): (r: seq<int>)
    ensures x !in s ==> r == s
    ensures x in s ==> |r| == |s| - 1
    ensures multiset(r) == multiset(s) - multiset{x}
    ensures x in s ==> IsCut(r, s, FirstIndex(s, x))
  {
    var i := FirstIndex(s, x);
    if i == |s| then s
    else
      CutAt(s, i);
      s[..i] + s[i + 1..]
  }

  /** `r` is `s` with the entry at `i` cut out: the entries before it stay, the ones after it move down by one. */
  predicate IsCut(r: seq<int>, s: seq<int>, i: nat) {
    |r| == |s| - 1 && forall j :: 0 <= j < |r| ==> r[j] == if j < i then s[j] else s[j + 1]
  }

  lemma CutAt(s: seq<int>, i: nat)
    requires i < |s|
    ensures IsCut(s[..i] + s[i + 1..], s, i)
    ensures multiset(s[..i] + s[i + 1..]) == multiset(s) - multiset{s[i]}
  {
    assert s == s[..i] + [s[i]] + s[i + 1..];
  }

  /** A value other than `x` is in the list after the removal exactly when it was before. */
  lemma RemoveFirstKeepsOthers(s: seq<int>, x: int, y: int)
    requires y != x
    ensures y in RemoveFirst(s, x) <==> y in s
  {
    assert multiset(RemoveFirst(s, x))[y] == multiset(s)[y];
  }

  /** A second copy of `x` survives one removal: only the first occurrence goes. */
  lemma RemoveFirstKeepsDuplicate(s: seq<int>, x: int)
    requires multiset(s)[x] >= 2
    ensures x in RemoveFirst(s, x)
  {
    assert multiset(RemoveFirst(s, x))[x] == multiset(s)[x] - 1;
  }

  /** One removal on each side keeps one list's multiset inside the other's. */
  lemma RemoveFirstKeepsSubMultiset(a: seq<int>, b: seq<int>, x: int)
    requires multiset(a) <= multiset(b)
    ensures multiset(RemoveFirst(a, x)) <= multiset(RemoveFirst(b, x))
  {
    var ma, mb := multiset(RemoveFirst(a, x)), multiset(RemoveFirst(b, x));
    forall y
      ensures ma[y] <= mb[y]
    {
      assert multiset(a)[y] <= multiset(b)[y];
    }
  }

  /** `m` is the least element of `s`. */
  predicate IsLeast(m: int, s: set<int>) {
    m in s && forall x :: x in s ==> m <= x
  }

  /** Every non-empty finite set of integers has a least element. */
  lemma {:induction false} LeastExists(s: set<int>)
    requires s != {}
    ensures exists m :: IsLeast(m, s)
    decreases |s|
  {
    assert exists y :: y in s by {
      if forall y :: y !in s { assert false; }
    }
    var y :| y in s;
    var rest := s - {y};
    if rest == {} {
      forall x | x in s
        ensures y <= x
      {
        assert x !in rest;
      }
      assert IsLeast(y, s);
    } else {
      LeastExists(rest);
      var m :| IsLeast(m, rest);
      assert forall x :: x in s ==> x == y || x in rest;
      if y < m {
        assert IsLeast(y, s);
      } else {
        assert IsLeast(m, s);
      }
    }
  }
}
