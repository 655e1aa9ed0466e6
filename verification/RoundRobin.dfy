/**
 Dispatch of connections to sub-reactors. A 32-bit signed counter is advanced for every connection; its value is
 converted to a 64-bit unsigned number before the remainder is taken, so both the overflow and the return to zero are
 seams.
 */
module RoundRobin {
  import opened NumberTheory

  const INT_MAX := 0x7fff_ffff
  const INT_MIN := -0x8000_0000
  newtype int32 = x: int | INT_MIN <= x <= INT_MAX

  const WORD32 := 0x1_0000_0000
  const WORD64 := 0x1_0000_0000_0000_0000

  /** fetch_add(1) on an atomic int wraps around. */
  function Next(c: int): int {
    if c == INT_MAX then INT_MIN else c + 1
  }

  /** The conversion of int to size_t. */
  function ToSizeT(c: int): int {
    if c < 0 then c + WORD64 else c
  }

  function Index(c: int, n: nat): nat
    requires n > 0 && INT_MIN <= c <= INT_MAX
  {
    ToSizeT(c) % n
  }

  /** The counter after k dispatches. */
  function Nth(c: int, k: nat): (r: int)
    requires INT_MIN <= c <= INT_MAX
    ensures INT_MIN <= r <= INT_MAX
  {
    if k == 0 then c else Next(Nth(c, k - 1))
  }

  /** How many of the k dispatches that start at counter c go to reactor j. */
  function Load(c: int, n: nat, k: nat, j: nat): nat
    requires n > 0 && INT_MIN <= c <= INT_MAX
  {
    if k == 0 then 0 else Load(c, n, k - 1, j) + if Index(Nth(c, k - 1), n) == j then 1 else 0
  }

  /** From every counter value, any number of dispatches leaves loads that differ by at most one. */
  ghost predicate Fair(n: nat)
    requires n > 0
  {
    forall c, k: nat, i: nat, j: nat :: INT_MIN <= c <= INT_MAX && i < n && j < n ==>
        Load(c, n, k, i) <= Load(c, n, k, j) + 1
  }

  // ----- consecutive indexes

  /** Steps from b up to j, modulo n. */
  function Distance(b: nat, j: nat, n: nat): nat
    requires b < n && j < n
  {
    if j >= b then j - b else j - b + n
  }

  /** How often a cycle of length n that starts d places before a slot comes to the slot within k steps. */
  function Visits(k: nat, n: nat, d: nat): nat
    requires d < n
  {
    (k + n - 1 - d) / n
  }

  lemma VisitsStep(k: nat, n: nat, d: nat)
    requires d < n
    ensures Visits(k + 1, n, d) == Visits(k, n, d) + if k % n == d then 1 else 0
  {
    var q, r := k / n, k % n;
    assert k == q * n + r;
    if r > d {
      DivModUnique(k + n - 1 - d, q + 1, r - 1 - d, n);
      DivModUnique(k + n - d, q + 1, r - d, n);
    } else if r == d {
      DivModUnique(k + n - 1 - d, q, n - 1, n);
      DivModUnique(k + n - d, q + 1, 0, n);
    } else {
      DivModUnique(k + n - 1 - d, q, r + n - 1 - d, n);
      DivModUnique(k + n - d, q, r + n - d, n);
    }
  }

  lemma VisitsEven(k: nat, n: nat, d: nat, e: nat)
    requires d < n && e < n
    ensures Visits(k, n, d) <= Visits(k, n, e) + 1
  {
    var x, y := k + n - 1 - d, k + n - 1 - e;
    assert x == (x / n) * n + x % n && y == (y / n) * n + y % n;
    var t := x / n - y / n;
    assert t * n == (x - x % n) - (y - y % n);
    assert t >= 2 ==> t * n >= 2 * n;
  }

  /** b + k comes to j exactly when k, modulo n, is the distance. */
  lemma HitsAtDistance(b: nat, j: nat, k: nat, n: nat)
    requires b < n && j < n
    ensures (b + k) % n == j <==> k % n == Distance(b, j, n)
  {
    var q, r := k / n, k % n;
    assert b + k == (b + r) + q * n;
    ModShift(b + r, q, n);
    if b + r < n {
      DivModUnique(b + r, 0, b + r, n);
    } else {
      DivModUnique(b + r, 1, b + r - n, n);
    }
  }

  lemma {:induction false} LoadConsecutive(c: int, n: nat, k: nat, j: nat, b: nat)
    requires INT_MIN <= c <= INT_MAX && b < n && j < n
    requires forall i: nat :: i < k ==> Index(Nth(c, i), n) == (b + i) % n
    ensures Load(c, n, k, j) == Visits(k, n, Distance(b, j, n))
  {
    var d := Distance(b, j, n);
    if k == 0 {
      DivModUnique(n - 1 - d, 0, n - 1 - d, n);
    } else {
      LoadConsecutive(c, n, k - 1, j, b);
      VisitsStep(k - 1, n, d);
      HitsAtDistance(b, j, k - 1, n);
    }
  }

  // ----- a number of reactors that divides 2^32

  lemma IndexStep(c: int, n: nat)
    requires n > 0 && WORD32 % n == 0 && INT_MIN <= c <= INT_MAX
    ensures Index(Next(c), n) == (Index(c, n) + 1) % n
  {
    var w := WORD32 / n;
    assert WORD32 == w * n;
    var u := ToSizeT(c);
    assert u + 1 == (u % n + 1) + (u / n) * n;
    ModShift(u % n + 1, u / n, n);
    if c == -1 {
      assert WORD64 == (WORD32 * w) * n;
      ZeroModMultiple(WORD64, WORD32 * w, n);
      DivModUnique(0, 0, 0, n);
    } else if c == INT_MAX {
      assert ToSizeT(INT_MIN) == INT_MAX + 1 + (WORD32 - 1) * WORD32 == u + 1 + ((WORD32 - 1) * w) * n;
      ModShift(u + 1, (WORD32 - 1) * w, n);
    }
  }

  lemma {:induction false} IndexAfter(c: int, n: nat, i: nat)
    requires n > 0 && WORD32 % n == 0 && INT_MIN <= c <= INT_MAX
    ensures Index(Nth(c, i), n) == (Index(c, n) + i) % n
  {
    var b := Index(c, n);
    if i == 0 {
      DivModUnique(b, 0, b, n);
    } else {
      IndexAfter(c, n, i - 1);
      IndexStep(Nth(c, i - 1), n);
      var x := b + i - 1;
      assert x + 1 == (x % n + 1) + (x / n) * n;
      ModShift(x % n + 1, x / n, n);
    }
  }

  /** Loads stay balanced across both seams. */
  lemma DivisorIsFair(c: int, n: nat, k: nat, i: nat, j: nat)
    requires n > 0 && WORD32 % n == 0 && INT_MIN <= c <= INT_MAX && i < n && j < n
    ensures Load(c, n, k, i) <= Load(c, n, k, j) + 1
  {
    var b := Index(c, n);
    forall m: nat | m < k ensures Index(Nth(c, m), n) == (b + m) % n {
      IndexAfter(c, n, m);
    }
    LoadConsecutive(c, n, k, i, b);
    LoadConsecutive(c, n, k, j, b);
    VisitsEven(k, n, Distance(b, i, n), Distance(b, j, n));
  }

  // ----- any other number

  /** Without a seam on the way the indexes run on. */
  lemma {:induction false} NthPlain(c: int, i: nat)
    requires INT_MIN <= c && c + i <= INT_MAX
    ensures Nth(c, i) == c + i
  {
    if i > 0 {
      NthPlain(c, i - 1);
    }
  }

  lemma IndexPlain(c: int, i: nat, n: nat)
    requires n > 0 && INT_MIN <= c && c + i <= INT_MAX && (c >= 0 || c + i < 0)
    ensures Index(c + i, n) == (Index(c, n) + i) % n
  {
    var u := ToSizeT(c);
    assert u + i == (u % n + i) + (u / n) * n;
    ModShift(u % n + i, u / n, n);
  }

  lemma {:induction false} NthShift(c: int, i: nat)
    requires INT_MIN <= c <= INT_MAX
    ensures Nth(c, i + 1) == Nth(Next(c), i)
  {
    if i > 0 {
      NthShift(c, i - 1);
    }
  }

  lemma {:induction false} LoadShift(c: int, n: nat, k: nat, j: nat)
    requires n > 0 && INT_MIN <= c <= INT_MAX
    ensures Load(c, n, k + 1, j) == Load(Next(c), n, k, j) + if Index(c, n) == j then 1 else 0
  {
    if k > 0 {
      LoadShift(c, n, k - 1, j);
      NthShift(c, k - 1);
    } else {
      assert Nth(c, 0) == c;
      assert Load(c, n, 1, j) == Load(c, n, 0, j) + if Index(c, n) == j then 1 else 0;
    }
  }

  /** The slot just before b in the cycle. */
  function Before(b: nat, n: nat): nat
    requires b < n
  {
    if b == 0 then n - 1 else b - 1
  }

  /** n - 1 plain steps visit every slot once, save the one before their start. */
  lemma PlainLoads(s: int, n: nat, j: nat)
    requires n > 0 && j < n && INT_MIN <= s && s + (n - 1) <= INT_MAX && (s >= 0 || s + (n - 1) < 0)
    ensures Load(s, n, n - 1, j) == if j == Before(Index(s, n), n) then 0 else 1
  {
    var b := Index(s, n);
    forall i: nat | i < n - 1 ensures Index(Nth(s, i), n) == (b + i) % n {
      NthPlain(s, i);
      IndexPlain(s, i, n);
    }
    LoadConsecutive(s, n, n - 1, j, b);
    var d := Distance(b, j, n);
    if d == n - 1 {
      DivModUnique(n - 1, 0, n - 1, n);
    } else {
      DivModUnique(n - 1 + n - 1 - d, 1, n - 2 - d, n);
    }
  }

  /** A jump at a seam, followed by n - 1 plain steps, uses one reactor twice and leaves another one out. */
  lemma JumpIsUneven(c: int, n: nat)
    requires n > 0 && INT_MIN <= c <= INT_MAX
    requires var s := Next(c); s + (n - 1) <= INT_MAX && (s >= 0 || s + (n - 1) < 0)
    ensures Index(c, n) != Before(Index(Next(c), n), n) ==>
              Load(c, n, n, Index(c, n)) == 2 && Load(c, n, n, Before(Index(Next(c), n), n)) == 0
  {
    var s, a, b := Next(c), Index(c, n), Index(Next(c), n);
    var missing := Before(b, n);
    PlainLoads(s, n, a);
    PlainLoads(s, n, missing);
    LoadShift(c, n, n - 1, a);
    LoadShift(c, n, n - 1, missing);
  }

  lemma FairHasNoJump(c: int, n: nat)
    requires n > 0 && Fair(n) && INT_MIN <= c <= INT_MAX
    requires var s := Next(c); s + (n - 1) <= INT_MAX && (s >= 0 || s + (n - 1) < 0)
    ensures Index(Next(c), n) == (Index(c, n) + 1) % n
  {
    var a := Index(c, n);
    JumpIsUneven(c, n);
    if a + 1 < n {
      DivModUnique(a + 1, 0, a + 1, n);
    } else {
      DivModUnique(a + 1, 1, 0, n);
    }
  }

  /** No jump from -1 to 0 means that n divides 2^64. */
  lemma SeamAtZero(n: nat)
    requires n > 0 && Index(0, n) == (Index(-1, n) + 1) % n
    ensures WORD64 % n == 0
  {
    var u := WORD64 - 1;
    DivModUnique(0, 0, 0, n);
    assert u + 1 == (u % n + 1) + (u / n) * n;
    ModShift(u % n + 1, u / n, n);
  }

  /** No jump from the largest to the smallest int means that n divides 2^64 - 2^32. */
  lemma SeamAtOverflow(n: nat)
    requires n > 0 && Index(INT_MIN, n) == (Index(INT_MAX, n) + 1) % n
    ensures (WORD64 - WORD32) % n == 0
  {
    var u := INT_MAX;
    assert u + 1 == (u % n + 1) + (u / n) * n;
    ModShift(u % n + 1, u / n, n);
    var k := ModQuotient(ToSizeT(INT_MIN), u + 1, n);
    assert WORD64 - WORD32 == k * n;
    ZeroModMultiple(WORD64 - WORD32, k, n);
  }

  lemma FairDivides(n: nat)
    requires 0 < n <= INT_MAX && Fair(n)
    ensures WORD32 % n == 0
  {
    FairHasNoJump(-1, n);
    SeamAtZero(n);
    FairHasNoJump(INT_MAX, n);
    SeamAtOverflow(n);
    var x, y := WORD64 / n, (WORD64 - WORD32) / n;
    assert WORD64 == x * n && WORD64 - WORD32 == y * n;
    assert WORD32 == (x - y) * n;
    ZeroModMultiple(WORD32, x - y, n);
  }

  /** The dispatcher is fair for exactly the numbers of reactors that divide 2^32. */
  lemma FairIff(n: nat)
    requires 0 < n <= INT_MAX
    ensures Fair(n) <==> WORD32 % n == 0
  {
    if WORD32 % n == 0 {
      forall c, k: nat, i: nat, j: nat | INT_MIN <= c <= INT_MAX && i < n && j < n
        ensures Load(c, n, k, i) <= Load(c, n, k, j) + 1
      {
        DivisorIsFair(c, n, k, i, j);
      }
    }
    if Fair(n) {
      FairDivides(n);
    }
  }

  /** Until the counter overflows, connection k of a fresh pool goes to reactor k modulo n. */
  lemma {:induction false} FreshIndex(n: nat, k: nat)
    requires n > 0 && k <= INT_MAX
    ensures Nth(0, k) == k && Index(Nth(0, k), n) == k % n
  {
    if k > 0 {
      FreshIndex(n, k - 1);
    }
  }

  class ReactorThreadPool {
    var next: int32
    var loads: seq<nat>  // connections handed to each sub-reactor

    /** init(): at least one sub-reactor. */
    constructor (subReactorNum: int32)
      ensures next == 0 && |loads| == (if subReactorNum <= 0 then 1 else subReactorNum as int)
      ensures forall j :: 0 <= j < |loads| ==> loads[j] == 0
    {
      next := 0;
      loads := seq(if subReactorNum <= 0 then 1 else subReactorNum as int, _ => 0);
    }

    /** The index of the reactor to use, always within bounds; -1 stands for the null pointer of an empty pool. */
    method GetNextSubReactor() returns (idx: int)
      modifies this`next
      ensures loads == [] ==> idx == -1 && next == old(next)
      ensures loads != [] ==> idx == Index(old(next) as int, |loads|) < |loads|
      ensures loads != [] ==> next as int == Next(old(next) as int)
      ensures loads != [] && old(next) >= 0 ==> idx == old(next) as int % |loads|
      ensures loads != [] && old(next) < 0 ==> idx == (0x1_0000_0000_0000_0000 + old(next) as int) % |loads|
    {
      if loads == [] {
        return -1;
      }
      idx := Index(next as int, |loads|);
      next := if next as int == INT_MAX then INT_MIN as int32 else next + 1;
    }

    /**
     Accepts until the listener has no more: pending connections go to the reactors in turn, or are closed for want of
     one.
     */
    method HandleAccept(pending: nat)
      modifies this
      ensures |loads| == |old(loads)|
      ensures loads != [] ==> next as int == Nth(old(next) as int, pending)
      ensures forall j: nat :: j < |loads| ==> loads[j] == old(loads)[j] + Load(old(next) as int, |loads|, pending, j)
      ensures loads != [] && WORD32 % |loads| == 0 && (forall j :: 0 <= j < |loads| ==> old(loads)[j] == 0) ==>
                forall i, j :: 0 <= i < |loads| && 0 <= j < |loads| ==> loads[i] <= loads[j] + 1
    {
      ghost var c, n, before := next as int, |loads|, loads;
      assert n > 0 ==> Nth(c, 0) == c && forall j: nat :: Load(c, n, 0, j) == 0;
      for k := 0 to pending
        invariant |loads| == n && (n > 0 ==> next as int == Nth(c, k))
        invariant forall j: nat :: j < n ==> loads[j] == before[j] + Load(c, n, k, j)
      {
        var idx := GetNextSubReactor();
        if idx != -1 {
          loads := loads[idx := loads[idx] + 1];
        }
      }
      if n > 0 && WORD32 % n == 0 {
        forall i: nat, j: nat | i < n && j < n ensures Load(c, n, pending, i) <= Load(c, n, pending, j) + 1 {
          DivisorIsFair(c, n, pending, i, j);
        }
      }
    }
  }
}
