/**
 The pool of I/O contexts and the balance of its round-robin choice, with the 64-bit
 counter's wrap-around.
 */
module IoCtxPool {
  import opened Bytes

  const TWO_32 := 0x1_0000_0000

  /** How many contexts a pool gets. With no size given it is one less than the hardware
      threads, in `unsigned int` arithmetic, but at least one. */
  function PoolSize(nthread: nat, hardware: nat): (n: nat)
    ensures n > 0
  {
    if nthread != 0 then nthread
    else if (hardware - 1) % TWO_32 == 0 then 1
    else (hardware - 1) % TWO_32
  }

  /** An automatically sized pool stays within the hardware threads, or one, exactly when their
      number is known: an unknown number is reported as zero and wraps to 2^32 - 1. */
  lemma AutoSizeExact(hardware: nat)
    requires hardware < TWO_32
    ensures PoolSize(0, hardware) <= (if hardware <= 1 then 1 else hardware - 1) <==> hardware != 0
    ensures hardware == 0 ==> PoolSize(0, hardware) == TWO_32 - 1
  {
    assert hardware > 0 ==> (hardware - 1) % TWO_32 == hardware - 1;
  }

  /** The size of a pool for every size asked for and every number of hardware threads. */
  lemma PoolSizeExactly(nthread: nat, hardware: nat)
    requires hardware < TWO_32
    ensures PoolSize(nthread, hardware) == if nthread > 0 then nthread
                                           else if hardware == 0 then 4294967295
                                           else if hardware == 1 then 1
                                           else hardware - 1
  {
    assert hardware > 0 ==> (hardware - 1) % TWO_32 == hardware - 1;
  }

  /** A `size_t` counter after one increment. */
  function Increment(c: nat): nat {
    if c + 1 == TWO_64 then 0 else c + 1
  }

  class IoCtxPool {
    var ctxs: seq<nat>
    var curIndex: nat

    ghost predicate Valid()
      reads this
    {
      |ctxs| > 0 && curIndex < TWO_64 && forall j :: 0 <= j < |ctxs| ==> ctxs[j] == j
    }

    constructor (nthread: nat, hardware: nat)
      ensures Valid() && |ctxs| == PoolSize(nthread, hardware) && curIndex == 0
      ensures nthread > 0 ==> |ctxs| == nthread
    {
      var n := PoolSize(nthread, hardware);
      var made: seq<nat> := [];
      for i := 0 to n
        invariant |made| == i && forall j :: 0 <= j < i ==> made[j] == j
      {
        made := made + [i];
      }
      ctxs, curIndex := made, 0;
    }

    method GetContext() returns (ctx: nat)
      requires Valid()
      modifies `curIndex
      ensures Valid()
      ensures ctx == old(curIndex) % |ctxs| && curIndex == Increment(old(curIndex))
    {
      ctx := ctxs[curIndex % |ctxs|];
      curIndex := Increment(curIndex);
    }

    /** A window of `k` choices. */
    method GetContexts(k: nat) returns (picks: seq<nat>)
      requires Valid()
      modifies `curIndex
      ensures Valid()
      ensures picks == Picks(old(curIndex), k, |ctxs|)
    {
      picks := [];
      for i := 0 to k
        invariant Valid()
        invariant picks + Picks(curIndex, k - i, |ctxs|) == Picks(old(curIndex), k, |ctxs|)
      {
        PicksStep(picks, curIndex, k - i, |ctxs|);
        var ctx := GetContext();
        picks := picks + [ctx];
      }
      assert picks + [] == picks;
    }
  }

  /** The next `k` choices of a pool of `n` whose counter stands at `c`. */
  function Picks(c: nat, k: nat, n: nat): (r: seq<nat>)
    requires n > 0
    ensures |r| == k
    decreases k
  {
    if k == 0 then [] else [c % n] + Picks(Increment(c), k - 1, n)
  }

  lemma PicksStep(before: seq<nat>, c: nat, k: nat, n: nat)
    requires n > 0 && k > 0
    ensures before + Picks(c, k, n) == before + [c % n] + Picks(Increment(c), k - 1, n)
  {
    var tail := Picks(Increment(c), k - 1, n);
    assert before + ([c % n] + tail) == before + [c % n] + tail;
  }

  function Count(picks: seq<nat>, j: nat): nat {
    if picks == [] then 0 else (if picks[0] == j then 1 else 0) + Count(picks[1..], j)
  }

  // ---------- Division ----------

  lemma DivModUnique(a: int, n: int, q: int, r: int)
    requires 0 <= r < n && a == n * q + r
    ensures a / n == q && a % n == r
  {
    var d := a / n - q;
    assert n * d == r - a % n;
    assert d >= 1 ==> n * d >= n;
    assert d <= -1 ==> n * d <= -n;
  }

  lemma NextResidue(c: nat, n: nat)
    requires n > 0
    ensures (c + 1) % n == if c % n + 1 == n then 0 else c % n + 1
  {
    var q, r := c / n, c % n;
    if r + 1 == n {
      assert c + 1 == n * (q + 1) + 0;
      DivModUnique(c + 1, n, q + 1, 0);
    } else {
      DivModUnique(c + 1, n, q, r + 1);
    }
  }

  lemma DivStep(a: nat, n: nat)
    requires n > 0
    ensures (a + n) / n == a / n + 1
  {
    assert a + n == n * (a / n + 1) + a % n;
    DivModUnique(a + n, n, a / n + 1, a % n);
  }

  lemma DivMonotone(a: nat, b: nat, n: nat)
    requires n > 0 && a <= b
    ensures a / n <= b / n
  {
    var d := a / n - b / n;
    assert a - b == n * d + (a % n - b % n);
    assert d >= 1 ==> n * d >= n;
  }

  // ---------- Balance ----------

  /** How many choices until context `j` is next, when context `r` is next now. */
  function Distance(r: nat, j: nat, n: nat): nat
    requires r < n && j < n
  {
    if j >= r then j - r else j + n - r
  }

  /** How often a context at distance `d` is chosen in `k` choices. */
  function Visits(k: nat, d: nat, n: nat): nat
    requires n > 0
  {
    if k <= d then 0 else 1 + (k - 1 - d) / n
  }

  lemma VisitsAtZero(k: nat, n: nat)
    requires n > 0 && k > 0
    ensures Visits(k, 0, n) == 1 + Visits(k - 1, n - 1, n)
  {
    if k - 1 < n {
      DivModUnique(k - 1, n, 0, k - 1);
    } else {
      DivStep(k - 1 - n, n);
    }
  }

  /** The choices of a counter that never wraps. */
  function Rotation(c: nat, k: nat, n: nat): (r: seq<nat>)
    requires n > 0
    ensures |r| == k && forall i :: 0 <= i < k ==> r[i] == (c + i) % n
    decreases k
  {
    if k == 0 then []
    else
      var tail := Rotation(c + 1, k - 1, n);
      assert forall i :: 1 <= i < k ==> ([c % n] + tail)[i] == (c + i) % n;
      [c % n] + tail
  }

  lemma ModShift(a: nat, p: nat, n: nat)
    requires n > 0 && p % n == 0
    ensures (a + p) % n == a % n
  {
    assert a + p == n * (a / n + p / n) + a % n;
    DivModUnique(a + p, n, a / n + p / n, a % n);
  }

  lemma {:induction false} RotationPeriodic(c: nat, k: nat, n: nat, p: nat)
    requires n > 0 && p % n == 0
    ensures Rotation(c + p, k, n) == Rotation(c, k, n)
    decreases k
  {
    if k > 0 {
      ModShift(c, p, n);
      RotationPeriodic(c + 1, k - 1, n, p);
      assert c + 1 + p == c + p + 1;
    }
  }

  /** Windows whose choices the counter's wrap does not disturb: those without a wrap, and all of
      them when the pool's size divides 2^64. */
  predicate Undisturbed(c: nat, k: nat, n: nat)
    requires n > 0
  {
    c + k <= TWO_64 || TWO_64 % n == 0
  }

  /** In an undisturbed window the pool rotates, through any number of wraps. */
  lemma {:induction false} PicksRotate(c: nat, k: nat, n: nat)
    requires n > 0 && (k > 0 ==> c < TWO_64) && Undisturbed(c, k, n)
    ensures Picks(c, k, n) == Rotation(c, k, n)
    decreases k
  {
    if k > 1 {
      PicksRotate(Increment(c), k - 1, n);
      if c + 1 == TWO_64 {
        RotationPeriodic(0, k - 1, n, TWO_64);
      }
    } else if k == 1 {
      assert Picks(Increment(c), 0, n) == Rotation(c + 1, 0, n) == [];
    }
  }

  lemma {:induction false} RotationCount(c: nat, k: nat, n: nat, j: nat)
    requires j < n
    ensures Count(Rotation(c, k, n), j) == Visits(k, Distance(c % n, j, n), n)
    decreases k
  {
    if k > 0 {
      NextResidue(c, n);
      assert Rotation(c, k, n)[1..] == Rotation(c + 1, k - 1, n);
      RotationCount(c + 1, k - 1, n, j);
      if c % n == j {
        VisitsAtZero(k, n);
      }
    }
  }

  /** The exact number of times each context is chosen in an undisturbed window. */
  lemma ExactCount(c: nat, k: nat, n: nat, j: nat)
    requires j < n && (k > 0 ==> c < TWO_64) && Undisturbed(c, k, n)
    ensures Count(Picks(c, k, n), j) == Visits(k, Distance(c % n, j, n), n)
  {
    PicksRotate(c, k, n);
    RotationCount(c, k, n, j);
  }

  /** Over any undisturbed window, each context is chosen floor(k/n) or ceil(k/n) times. */
  lemma Balanced(c: nat, k: nat, n: nat, j: nat)
    requires j < n && (k > 0 ==> c < TWO_64) && Undisturbed(c, k, n)
    ensures k / n <= Count(Picks(c, k, n), j) <= (k + n - 1) / n
  {
    ExactCount(c, k, n, j);
    var d := Distance(c % n, j, n);
    if k <= d {
      DivModUnique(k, n, 0, k);
    } else {
      DivStep(k - 1 - d, n);
      DivMonotone(k, k - 1 - d + n, n);
      DivMonotone(k - 1 - d + n, k + n - 1, n);
    }
  }

  lemma {:induction false} CountConcat(a: seq<nat>, b: seq<nat>, j: nat)
    ensures Count(a + b, j) == Count(a, j) + Count(b, j)
  {
    if a == [] {
      assert a + b == b;
    } else {
      assert (a + b)[1..] == a[1..] + b;
      CountConcat(a[1..], b, j);
    }
  }

  lemma {:induction false} PicksSplitAtWrap(c: nat, k: nat, n: nat)
    requires n > 0 && c < TWO_64 <= c + k
    ensures Picks(c, k, n) == Picks(c, TWO_64 - c, n) + Picks(0, c + k - TWO_64, n)
    decreases k
  {
    if c + 1 == TWO_64 {
      assert Picks(0, 0, n) == [];
    } else {
      PicksSplitAtWrap(c + 1, k - 1, n);
      PicksStep([], c, k, n);
      PicksStep([], c, TWO_64 - c, n);
      assert [c % n] + (Picks(c + 1, TWO_64 - c - 1, n) + Picks(0, c + k - TWO_64, n)) ==
             [c % n] + Picks(c + 1, TWO_64 - c - 1, n) + Picks(0, c + k - TWO_64, n);
    }
  }

  /** Over a window with one wrap of the counter, two contexts differ by at most two. */
  lemma BalancedAcrossWrap(c: nat, k: nat, n: nat, i: nat, j: nat)
    requires i < n && j < n && c < TWO_64 <= c + k <= 2 * TWO_64
    ensures Count(Picks(c, k, n), i) <= Count(Picks(c, k, n), j) + 2
  {
    var before, after := TWO_64 - c, c + k - TWO_64;
    PicksSplitAtWrap(c, k, n);
    CountConcat(Picks(c, before, n), Picks(0, after, n), i);
    CountConcat(Picks(c, before, n), Picks(0, after, n), j);
    Balanced(c, before, n, i);
    Balanced(c, before, n, j);
    Balanced(0, after, n, i);
    Balanced(0, after, n, j);
    CeilWithinOne(before, n);
    CeilWithinOne(after, n);
  }

  lemma CeilWithinOne(k: nat, n: nat)
    requires n > 0
    ensures (k + n - 1) / n <= k / n + 1
  {
    DivStep(k, n);
    DivMonotone(k + n - 1, k + n, n);
  }

  /** Whether choice number `i` of every window is the one an unbounded counter would make. */
  ghost predicate Seamless(n: nat)
    requires n > 0
  {
    forall c: nat, k: nat, i: nat :: c < TWO_64 && i < k ==> Picks(c, k, n)[i] == (c + i) % n
  }

  lemma ChoiceAfterWrap(n: nat)
    requires n > 0
    ensures Picks(TWO_64 - 1, 2, n)[1] == 0
  {
    DivModUnique(0, n, 0, 0);
    assert Picks(TWO_64 - 1, 2, n)[1] == Picks(0, 1, n)[0];
  }

  /** The rotation goes on through every wrap exactly when the pool's size divides 2^64. */
  lemma WrapIsSeamlessExactly(n: nat)
    requires n > 0
    ensures Seamless(n) <==> TWO_64 % n == 0
  {
    if TWO_64 % n == 0 {
      forall c: nat, k: nat, i: nat | c < TWO_64 && i < k
        ensures Picks(c, k, n)[i] == (c + i) % n
      {
        PicksRotate(c, k, n);
      }
    } else {
      ChoiceAfterWrap(n);
      assert Picks(TWO_64 - 1, 2, n)[1] != (TWO_64 - 1 + 1) % n;
    }
  }
}
