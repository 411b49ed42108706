/** `exchange`: two adjacent blocks of the vector swap places in place. */
module GetoptExchange {
  import opened GetoptSpec

  /** Which element of the old vector ends up at `k` when the blocks `[b..m)` and `[m..t)` swap places. */
  function Origin(b: nat, m: nat, t: nat, k: nat): (i: nat)
    requires b <= m <= t
    ensures k < b || t <= k ==> i == k
    ensures b <= k < t ==> b <= i < t
  {
    if k < b || t <= k then k else if k < b + (t - m) then k + (m - b) else k - (t - m)
  }

  ghost predicate Rotated(s: Args, r: Args, b: nat, m: nat, t: nat)
    requires b <= m <= t <= |s|
  {
    |r| == |s| && forall k :: 0 <= k < |s| ==> r[k] == s[Origin(b, m, t, k)]
  }

  lemma RotatedIsConcat(s: Args, r: Args, b: nat, m: nat, t: nat)
    requires b <= m <= t <= |s| && Rotated(s, r, b, m, t)
    ensures r == s[..b] + s[m..t] + s[b..m] + s[t..]
  {
  }

  /** `s` with the blocks of length `len` at `i` and at `j` swapped. */
  ghost predicate Swapped(s: Args, r: Args, i: nat, j: nat, len: nat)
    requires i + len <= j && j + len <= |s|
  {
    && |r| == |s|
    && (forall k :: i <= k < i + len ==> r[k] == s[k + (j - i)])
    && (forall k :: j <= k < j + len ==> r[k] == s[k - (j - i)])
    && (forall k :: 0 <= k < |s| && !(i <= k < i + len) && !(j <= k < j + len) ==> r[k] == s[k])
  }

  /** Parking the short left block at the far end leaves a smaller rotation with the same outcome. */
  lemma ParkLeft(s: Args, mid: Args, goal: Args, b: nat, m: nat, t: nat, top: nat)
    requires b <= m <= t <= |s| && t - m > m - b && top == t - (m - b)
    requires Rotated(s, goal, b, m, t) && Swapped(s, mid, b, top, m - b)
    ensures Rotated(mid, goal, b, m, top)
  {
    forall k | 0 <= k < |s| ensures goal[k] == mid[Origin(b, m, top, k)] {
      assert goal[k] == s[Origin(b, m, t, k)];
    }
  }

  /** Parking the short right block at the near end leaves a smaller rotation with the same outcome. */
  lemma ParkRight(s: Args, mid: Args, goal: Args, b: nat, m: nat, t: nat, bottom: nat)
    requires b <= m <= t <= |s| && t - m <= m - b && bottom == b + (t - m)
    requires Rotated(s, goal, b, m, t) && Swapped(s, mid, b, m, t - m)
    ensures Rotated(mid, goal, bottom, m, t)
  {
    forall k | 0 <= k < |s| ensures goal[k] == mid[Origin(bottom, m, t, k)] {
      assert goal[k] == s[Origin(b, m, t, k)];
    }
  }

  ghost function Rotation(s: Args, b: nat, m: nat, t: nat): (r: Args)
    requires b <= m <= t <= |s|
    ensures Rotated(s, r, b, m, t)
  {
    seq(|s|, k requires 0 <= k < |s| => s[Origin(b, m, t, k)])
  }

  /** Nothing is left to do when one of the blocks is empty. */
  lemma NothingToRotate(s: Args, goal: Args, b: nat, m: nat, t: nat)
    requires b <= m <= t <= |s| && (b == m || m == t) && Rotated(s, goal, b, m, t)
    ensures goal == s
  {
    assert forall k :: 0 <= k < |s| ==> Origin(b, m, t, k) == k;
  }

  method SwapBlocks(argv: array<string>, i: nat, j: nat, len: nat)
    requires i + len <= j && j + len <= argv.Length
    modifies argv
    ensures Swapped(old(argv[..]), argv[..], i, j, len)
  {
    ghost var was := argv[..];
    for k := 0 to len
      invariant forall x :: i <= x < i + k ==> argv[x] == was[x + (j - i)]
      invariant forall x :: j <= x < j + k ==> argv[x] == was[x - (j - i)]
      invariant forall x :: 0 <= x < argv.Length && !(i <= x < i + k) && !(j <= x < j + k) ==> argv[x] == was[x]
    {
      var tmp := argv[i + k];
      argv[i + k] := argv[j + k];
      argv[j + k] := tmp;
    }
  }

  /** One round of the loop: the shorter block moves to its final place. */
  method ParkShorter(argv: array<string>, bottom: nat, middle: nat, top: nat, ghost goal: Args)
      returns (newBottom: nat, newTop: nat)
    requires bottom < middle < top <= argv.Length && Rotated(argv[..], goal, bottom, middle, top)
    modifies argv
    ensures newBottom <= middle <= newTop <= argv.Length && newTop - newBottom < top - bottom
    ensures bottom <= newBottom && newTop <= top
    ensures Rotated(argv[..], goal, newBottom, middle, newTop)
  {
    ghost var before := argv[..];
    if top - middle > middle - bottom {
      var len := middle - bottom;
      newBottom, newTop := bottom, top - len;
      SwapBlocks(argv, bottom, newTop, len);
      ParkLeft(before, argv[..], goal, bottom, middle, top, newTop);
    } else {
      var len := top - middle;
      newBottom, newTop := bottom + len, top;
      SwapBlocks(argv, bottom, middle, len);
      ParkRight(before, argv[..], goal, bottom, middle, top, newBottom);
    }
  }

  /** Swap two adjacent blocks in place. */
  method Rotate(argv: array<string>, firstNonopt: nat, lastNonopt: nat, optind: nat)
    requires firstNonopt <= lastNonopt <= optind <= argv.Length
    modifies argv
    ensures Rotated(old(argv[..]), argv[..], firstNonopt, lastNonopt, optind)
  {
    ghost var goal := Rotation(argv[..], firstNonopt, lastNonopt, optind);
    var bottom: nat, middle: nat, top: nat := firstNonopt, lastNonopt, optind;
    while top > middle && middle > bottom
      invariant bottom <= middle <= top <= argv.Length
      invariant Rotated(argv[..], goal, bottom, middle, top)
      decreases top - bottom
    {
      bottom, top := ParkShorter(argv, bottom, middle, top, goal);
    }
    NothingToRotate(argv[..], goal, bottom, middle, top);
  }
}
