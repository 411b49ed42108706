/** The match record of src/lib/bre.h and the in-place sort of its captures. */
module BreCaptures {

  const BRE_MAX_GROUPS := 9
  const INT_MAX := 0x7fff_ffff

  datatype Capture = Capture(start: int, length: int) {
    predicate Within(n: int) {
      0 <= start && 0 <= length && start + length <= n
    }

    /** An unset capture sorts after every set one. */
    function Key(): int {
      if start < 0 then INT_MAX else start
    }
  }

  const UNSET := Capture(-1, 0)

  class BreMatch {
    var start: int
    var length: int
    var numGroups: nat
    const groups: array<Capture>

    ghost predicate Valid()
      reads this
    {
      groups.Length == BRE_MAX_GROUPS && numGroups <= BRE_MAX_GROUPS
    }

    /** Every recorded capture lies inside a text of length `n`. */
    ghost predicate CapturesWithin(n: int)
      requires Valid()
      reads this, groups
    {
      forall k :: 0 <= k < numGroups ==> groups[k].Within(n)
    }

    ghost predicate CapturesSorted()
      requires Valid()
      reads this, groups
    {
      Ordered(groups[..numGroups])
    }

    constructor ()
      ensures Valid() && fresh(groups) && numGroups == 0
    {
      start, length, numGroups := -1, 0, 0;
      groups := new Capture[BRE_MAX_GROUPS](_ => UNSET);
    }

    method ResetGroups()
      requires Valid()
      modifies this`numGroups, groups
      ensures Valid() && numGroups == 0
      ensures forall k :: 0 <= k < BRE_MAX_GROUPS ==> groups[k] == UNSET
    {
      numGroups := 0;
      for i := 0 to BRE_MAX_GROUPS
        invariant Valid() && numGroups == 0
        invariant forall k :: 0 <= k < i ==> groups[k] == UNSET
      {
        groups[i] := UNSET;
      }
    }

    /** Record a capture if there is room for one. */
    method Record(start: int, length: int)
      requires Valid()
      modifies this`numGroups, groups
      ensures Valid()
      ensures if old(numGroups) < BRE_MAX_GROUPS then
                numGroups == old(numGroups) + 1 && groups[..] == old(groups[..])[old(numGroups) := Capture(start, length)]
              else
                numGroups == old(numGroups) && groups[..] == old(groups[..])
      ensures forall n :: old(CapturesWithin(n)) && Capture(start, length).Within(n) ==> CapturesWithin(n)
    {
      if numGroups < BRE_MAX_GROUPS {
        groups[numGroups] := Capture(start, length);
        numGroups := numGroups + 1;
      }
    }

    /** One round of the insertion sort: put `groups[i]` in its place among the sorted `groups[..i]`. */
    method InsertGroup(i: nat) returns (ghost p: nat)
      requires Valid() && 0 < i < numGroups && Ordered(groups[..i])
      modifies groups
      ensures Ordered(groups[..i + 1]) && SameByKey(groups[..i + 1], old(groups[..i + 1]))
      ensures MovedBack(old(groups[..]), groups[..], i, p)
      ensures forall k :: i < k < BRE_MAX_GROUPS ==> groups[k] == old(groups[k])
    {
      ghost var was := groups[..];
      var s, l := groups[i].start, groups[i].length;
      var key := if s < 0 then INT_MAX else s;
      var j := i - 1;
      while j >= 0
        invariant -1 <= j < i
        invariant forall k :: 0 <= k <= j ==> groups[k] == was[k]
        invariant forall k :: j + 2 <= k <= i ==> groups[k] == was[k - 1]
        invariant forall k :: j < k < i ==> key < was[k].Key()
        invariant forall k :: i < k < BRE_MAX_GROUPS ==> groups[k] == was[k]
      {
        var js := groups[j].start;
        var jkey := if js < 0 then INT_MAX else js;
        if jkey <= key {
          break;
        }
        groups[j + 1] := groups[j];
        j := j - 1;
      }
      groups[j + 1] := Capture(s, l);
      p := j + 1;
      InsertedInOrder(was, groups[..], i, p);
      InsertedStably(was, groups[..], i, p);
      assert groups[..][..i + 1] == groups[..i + 1];
    }

    method SortGroupsByStart()
      requires Valid()
      modifies groups
      ensures CapturesSorted()
      ensures SameByKey(groups[..numGroups], old(groups[..numGroups]))
      ensures forall n :: old(CapturesWithin(n)) ==> CapturesWithin(n)
    {
      if numGroups <= 1 {
        return;
      }
      ghost var was := groups[..];
      var n := numGroups;
      for i := 1 to n
        invariant Ordered(groups[..i]) && SameByKey(groups[..i], was[..i])
        invariant forall k :: i <= k < BRE_MAX_GROUPS ==> groups[k] == was[k]
        invariant forall n :: old(CapturesWithin(n)) ==> CapturesWithin(n)
      {
        ghost var before := groups[..i];
        SameByKeyAppend(before, was[..i], was[i]);
        assert groups[..i + 1] == before + [was[i]] && was[..i + 1] == was[..i] + [was[i]];
        var _ := InsertGroup(i);
      }
    }
  }

  // ---------------------------------------------------------------- what the sort computes

  ghost predicate Ordered(s: seq<Capture>) {
    forall i, j :: 0 <= i < j < |s| ==> s[i].Key() <= s[j].Key()
  }

  /** The captures of `s` with key `key`, in order. */
  ghost function WithKey(s: seq<Capture>, key: int): seq<Capture> {
    if s == [] then []
    else if s[0].Key() == key then [s[0]] + WithKey(s[1..], key)
    else WithKey(s[1..], key)
  }

  /** `s` and `t` hold the same captures, and captures with equal keys come in the same order. */
  ghost predicate SameByKey(s: seq<Capture>, t: seq<Capture>) {
    forall key :: WithKey(s, key) == WithKey(t, key)
  }

  lemma {:induction false} WithKeyConcat(a: seq<Capture>, b: seq<Capture>, key: int)
    ensures WithKey(a + b, key) == WithKey(a, key) + WithKey(b, key)
  {
    if a == [] {
      assert a + b == b;
    } else {
      WithKeyConcat(a[1..], b, key);
      assert (a + b)[1..] == a[1..] + b;
    }
  }

  lemma {:induction false} NoneWithKey(s: seq<Capture>, key: int)
    requires forall k :: 0 <= k < |s| ==> s[k].Key() != key
    ensures WithKey(s, key) == []
  {
    if s != [] {
      NoneWithKey(s[1..], key);
    }
  }

  lemma SameByKeyAppend(s: seq<Capture>, t: seq<Capture>, x: Capture)
    requires SameByKey(s, t)
    ensures SameByKey(s + [x], t + [x])
  {
    forall key ensures WithKey(s + [x], key) == WithKey(t + [x], key) {
      WithKeyConcat(s, [x], key);
      WithKeyConcat(t, [x], key);
    }
  }

  /** Moving `x` in front of a block of larger keys changes no order among equal keys. */
  lemma SpliceIsStable(a: seq<Capture>, b: seq<Capture>, x: Capture)
    requires forall k :: 0 <= k < |b| ==> x.Key() < b[k].Key()
    ensures SameByKey(a + ([x] + b), (a + b) + [x])
  {
    forall key ensures WithKey(a + ([x] + b), key) == WithKey((a + b) + [x], key) {
      WithKeyConcat(a, b, key);
      WithKeyConcat(a + b, [x], key);
      WithKeyConcat(a, [x] + b, key);
      WithKeyConcat([x], b, key);
      if x.Key() == key {
        NoneWithKey(b, key);
      } else {
        NoneWithKey([x], key);
      }
    }
  }

  /** `now` is `was` with `was[i]` taken out and put back at `p`. */
  ghost predicate MovedBack(was: seq<Capture>, now: seq<Capture>, i: nat, p: nat) {
    && p <= i < |was| == |now|
    && (forall k :: 0 <= k < p ==> now[k] == was[k])
    && now[p] == was[i]
    && (forall k :: p < k <= i ==> now[k] == was[k - 1])
  }

  lemma InsertedInOrder(was: seq<Capture>, now: seq<Capture>, i: nat, p: nat)
    requires MovedBack(was, now, i, p) && Ordered(was[..i])
    requires p > 0 ==> was[p - 1].Key() <= was[i].Key()
    requires forall k :: p <= k < i ==> was[i].Key() < was[k].Key()
    ensures Ordered(now[..i + 1])
  {
    assert forall a, b :: 0 <= a < b < i ==> was[..i][a].Key() <= was[..i][b].Key();
    assert forall k :: 0 <= k < p ==> was[k].Key() <= was[i].Key();
  }

  lemma InsertedStably(was: seq<Capture>, now: seq<Capture>, i: nat, p: nat)
    requires MovedBack(was, now, i, p)
    requires forall k :: p <= k < i ==> was[i].Key() < was[k].Key()
    ensures SameByKey(now[..i + 1], was[..i + 1])
  {
    SpliceIsStable(was[..p], was[p..i], was[i]);
    assert now[..i + 1] == was[..p] + ([was[i]] + was[p..i]);
    assert was[..i + 1] == (was[..p] + was[p..i]) + [was[i]];
  }

  lemma {:induction false} OwnKeyIsFound(s: seq<Capture>)
    requires s != [] && Ordered(s)
    ensures WithKey(s, s[0].Key()) != [] && WithKey(s, s[0].Key())[0] == s[0]
    ensures forall key :: key < s[0].Key() ==> WithKey(s, key) == []
  {
    forall key | key < s[0].Key() ensures WithKey(s, key) == [] {
      NoneWithKey(s, key);
    }
  }

  /** Order together with `SameByKey` leaves only one result. */
  lemma {:induction false} SortedResultIsUnique(s: seq<Capture>, t: seq<Capture>)
    requires Ordered(s) && Ordered(t) && SameByKey(s, t)
    ensures s == t
  {
    if s == [] || t == [] {
      if s != [] {
        OwnKeyIsFound(s);
      }
      if t != [] {
        OwnKeyIsFound(t);
      }
    } else {
      OwnKeyIsFound(s);
      OwnKeyIsFound(t);
      var k0 := s[0].Key();
      assert WithKey(s, k0) == WithKey(t, k0) && WithKey(s, t[0].Key()) == WithKey(t, t[0].Key());
      assert t[0].Key() == k0 && s[0] == t[0];
      forall key ensures WithKey(s[1..], key) == WithKey(t[1..], key) {
        assert WithKey(s, key) == WithKey(t, key);
        assert WithKey(s[1..], key) == if key == k0 then WithKey(s, key)[1..] else WithKey(s, key);
      }
      SortedResultIsUnique(s[1..], t[1..]);
    }
  }
}
