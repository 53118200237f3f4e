/** When the scheduler runs a task: how long a due task waits, and how far a periodic one drifts, for
    every pattern of ticks during which the scheduler is paused. */
module TaskTiming {
  import opened Arithmetic
  import opened Task

  /** The length of a tick, and which ticks find the scheduler paused. */
  datatype Clock = Clock(us: nat, paused: nat -> bool)

  /** The table k ticks after tick t0. */
  function After(slots: seq<Slot>, t0: nat, c: Clock, k: nat): (r: seq<Slot>)
    ensures |r| == |slots|
  {
    if k == 0 then slots
    else if c.paused(t0 + k) then After(slots, t0, c, k - 1)
    else TickSlots(After(slots, t0, c, k - 1), (t0 + k) * c.us)
  }

  /** The slot dispatched by the k-th tick after tick t0, or the length of the table. */
  function Ran(slots: seq<Slot>, t0: nat, c: Clock, k: nat): nat
    requires k > 0
  {
    if c.paused(t0 + k) then |slots| else Chosen(After(slots, t0, c, k - 1), (t0 + k) * c.us)
  }

  /** How often slot i is dispatched in the m ticks after tick t0. */
  function Runs(slots: seq<Slot>, t0: nat, c: Clock, i: nat, m: nat): nat {
    if m == 0 then 0
    else Runs(slots, t0, c, i, m - 1) + if Ran(slots, t0, c, m) == i then 1 else 0
  }

  /** How many of the m ticks after tick t0 are paused. */
  function Paused(t0: nat, c: Clock, m: nat): (p: nat)
    ensures p <= m
  {
    if m == 0 then 0 else Paused(t0, c, m - 1) + if c.paused(t0 + m) then 1 else 0
  }

  /** n tasks, each with a period of at least n ticks, none executed in the future. */
  predicate Schedulable(slots: seq<Slot>, n: nat, t0: nat, us: nat) {
    && Packed(slots, n) && us > 0
    && PastOnly(slots, t0 * us)
    && forall i :: 0 <= i < n ==> slots[i].dt >= n * us
  }

  // ---- Arithmetic ----

  lemma Cancel(a: int, b: int, us: nat)
    requires a * us <= b * us && us > 0
    ensures a <= b
  {
    if a > b {
      TimesOrdered(b + 1, a, us);
      TimesSum(b, 1, us);
    }
  }

  // ---- Runs taken together ----

  /** Along a run only execution times change: forward, to the tick that dispatched the slot. */
  lemma {:induction false} AfterKeeps(slots: seq<Slot>, n: nat, t0: nat, c: Clock, k: nat)
    requires Schedulable(slots, n, t0, c.us)
    ensures Schedulable(After(slots, t0, c, k), n, t0 + k, c.us)
    ensures forall i :: 0 <= i < |slots| ==> After(slots, t0, c, k)[i].dt == slots[i].dt
    ensures forall i :: 0 <= i < |slots| ==> After(slots, t0, c, k)[i].lastExecution >= slots[i].lastExecution
    decreases k
  {
    if k > 0 {
      AfterKeeps(slots, n, t0, c, k - 1);
      TimesOrdered(t0 + k - 1, t0 + k, c.us);
    }
  }

  /** Over any run every slot keeps its function, its period, its priority and its argument. */
  lemma {:induction false} TasksKept(slots: seq<Slot>, t0: nat, c: Clock, k: nat)
    ensures SameTasks(After(slots, t0, c, k), slots)
    decreases k
  {
    if k > 0 {
      TasksKept(slots, t0, c, k - 1);
      TickKeepsTasks(After(slots, t0, c, k - 1), (t0 + k) * c.us);
      hide TickSlots;
    }
  }

  lemma {:induction false} AfterPlus(slots: seq<Slot>, t0: nat, c: Clock, a: nat, b: nat)
    ensures After(slots, t0, c, a + b) == After(After(slots, t0, c, a), t0 + a, c, b)
    decreases b
  {
    if b > 0 {
      AfterPlus(slots, t0, c, a, b - 1);
      assert t0 + (a + b) == (t0 + a) + b;
    }
  }

  lemma RanPlus(slots: seq<Slot>, t0: nat, c: Clock, a: nat, b: nat)
    requires b > 0
    ensures Ran(slots, t0, c, a + b) == Ran(After(slots, t0, c, a), t0 + a, c, b)
  {
    hide After;
    AfterPlus(slots, t0, c, a, b - 1);
    assert t0 + (a + b) == (t0 + a) + b;
    assert a + b - 1 == a + (b - 1);
  }

  lemma {:induction false} RunsPlus(slots: seq<Slot>, t0: nat, c: Clock, i: nat, a: nat, b: nat)
    ensures Runs(slots, t0, c, i, a + b)
         == Runs(slots, t0, c, i, a) + Runs(After(slots, t0, c, a), t0 + a, c, i, b)
    decreases b
  {
    hide Ran, After;
    if b > 0 {
      RunsPlus(slots, t0, c, i, a, b - 1);
      RanPlus(slots, t0, c, a, b);
      assert a + b - 1 == a + (b - 1);
    }
  }

  lemma {:induction false} PausedPlus(t0: nat, c: Clock, a: nat, b: nat)
    ensures Paused(t0, c, a + b) == Paused(t0, c, a) + Paused(t0 + a, c, b)
    decreases b
  {
    if b > 0 {
      PausedPlus(t0, c, a, b - 1);
      assert t0 + (a + b) == (t0 + a) + b && a + b - 1 == a + (b - 1);
    }
  }

  /** The first tick that dispatches slot i, or one past the stretch. */
  lemma {:induction false} FirstRun(slots: seq<Slot>, t0: nat, c: Clock, i: nat, m: nat) returns (g: nat)
    ensures 1 <= g <= m + 1
    ensures g <= m ==> Ran(slots, t0, c, g) == i
    ensures forall k :: 1 <= k < g ==> Ran(slots, t0, c, k) != i
    decreases m
  {
    hide Ran;
    if m == 0 {
      g := 1;
    } else {
      g := FirstRun(slots, t0, c, i, m - 1);
      if g == m && Ran(slots, t0, c, m) != i {
        g := m + 1;
      }
    }
  }

  predicate NoRun(slots: seq<Slot>, t0: nat, c: Clock, i: nat, m: nat) {
    forall k :: 1 <= k <= m ==> Ran(slots, t0, c, k) != i
  }

  lemma {:induction false} NoRuns(slots: seq<Slot>, t0: nat, c: Clock, i: nat, m: nat)
    requires NoRun(slots, t0, c, i, m)
    ensures Runs(slots, t0, c, i, m) == 0
    decreases m
  {
    hide Ran;
    if m > 0 {
      NoRuns(slots, t0, c, i, m - 1);
    }
  }

  // ---- A task never runs too often ----

  lemma OneTick(slots: seq<Slot>, n: nat, t0: nat, c: Clock, i: nat, k: nat)
    requires Schedulable(slots, n, t0, c.us) && i < n && k > 0
    ensures var now, before, after := (t0 + k) * c.us, After(slots, t0, c, k - 1)[i], After(slots, t0, c, k)[i];
            && before.lastExecution <= after.lastExecution <= now
            && before.dt == after.dt == slots[i].dt
            && if Ran(slots, t0, c, k) == i then after.lastExecution == now >= before.lastExecution + before.dt
               else after == before
  {
    AfterKeeps(slots, n, t0, c, k - 1);
    AfterKeeps(slots, n, t0, c, k);
    TimesOrdered(t0 + k - 1, t0 + k, c.us);
  }

  /** Every run moves the execution time by at least a period. */
  lemma {:induction false} RunsSpaced(slots: seq<Slot>, n: nat, t0: nat, c: Clock, i: nat, m: nat)
    requires Schedulable(slots, n, t0, c.us) && i < n
    ensures var N, last := Runs(slots, t0, c, i, m), After(slots, t0, c, m)[i].lastExecution;
            && slots[i].lastExecution + N * slots[i].dt <= last <= (t0 + m) * c.us
            && (N > 0 ==> (t0 + 1) * c.us + (N - 1) * slots[i].dt <= last)
    decreases m
  {
    if m > 0 {
      RunsSpaced(slots, n, t0, c, i, m - 1);
      OneTick(slots, n, t0, c, i, m);
      TimesOrdered(t0 + 1, t0 + m, c.us);
      TimesSum(Runs(slots, t0, c, i, m - 1), 1, slots[i].dt);
      TimesSum(Runs(slots, t0, c, i, m - 1) - 1, 1, slots[i].dt);
      hide After, Ran, Schedulable;
    }
  }

  /** m divided by n, rounded up. */
  function Rounds(m: nat, n: nat): nat
    requires n > 0
  {
    (m + n - 1) / n
  }

  /** In m ticks a task whose period is n ticks or more runs at most once per n ticks begun. */
  lemma RunsPerRound(slots: seq<Slot>, n: nat, t0: nat, c: Clock, i: nat, m: nat)
    requires Schedulable(slots, n, t0, c.us) && i < n
    ensures Runs(slots, t0, c, i, m) <= Rounds(m, n)
  {
    hide Runs, After, Rounds;
    RunsSpaced(slots, n, t0, c, i, m);
    if Runs(slots, t0, c, i, m) > 0 {
      SpacedRounds(Runs(slots, t0, c, i, m), n, c.us, slots[i].dt, t0, m);
    }
  }

  lemma SpacedRounds(N: nat, n: nat, us: nat, dt: nat, t0: nat, m: nat)
    requires N > 0 && n > 0 && us > 0 && dt >= n * us
    requires (t0 + 1) * us + (N - 1) * dt <= (t0 + m) * us
    ensures N <= Rounds(m, n)
  {
    hide Rounds;
    TimesOrdered(n * us, dt, N - 1);
    TimesAgain(N - 1, n, us);
    TimesSum(t0 + 1, m - 1, us);
    Cancel((N - 1) * n, m - 1, us);
    RoundsCover(N, n, m);
  }

  lemma RoundsCover(N: nat, n: nat, m: nat)
    requires n > 0 && (N - 1) * n <= m - 1
    ensures N <= Rounds(m, n)
  {
    var r := Rounds(m, n);
    assert m + n - 1 < r * n + n;
    if r < N {
      TimesOrdered(r, N - 1, n);
    }
  }

  // ---- How long a due task waits ----

  /** How often the slots below i are dispatched. */
  function LowerRuns(slots: seq<Slot>, t0: nat, c: Clock, i: nat, m: nat): nat
    decreases i
  {
    if i == 0 then 0 else LowerRuns(slots, t0, c, i - 1, m) + Runs(slots, t0, c, i - 1, m)
  }

  lemma {:induction false} LowerRunsBound(slots: seq<Slot>, n: nat, t0: nat, c: Clock, i: nat, m: nat)
    requires Schedulable(slots, n, t0, c.us) && i < n
    ensures LowerRuns(slots, t0, c, i, m) <= i * Rounds(m, n)
    decreases i
  {
    if i > 0 {
      LowerRunsBound(slots, n, t0, c, i - 1, m);
      RunsPerRound(slots, n, t0, c, i - 1, m);
      TimesSum(i - 1, 1, Rounds(m, n));
      hide Rounds, Runs;
    }
  }

  /** Each tick counts for one slot. */
  lemma {:induction false} LowerRunsTick(slots: seq<Slot>, t0: nat, c: Clock, i: nat, m: nat)
    requires m > 0
    ensures LowerRuns(slots, t0, c, i, m)
         == LowerRuns(slots, t0, c, i, m - 1) + if Ran(slots, t0, c, m) < i then 1 else 0
    decreases i
  {
    hide Ran;
    if i > 0 {
      LowerRunsTick(slots, t0, c, i - 1, m);
    }
  }

  /** While a due slot waits, every tick is paused or dispatches a lower slot. */
  lemma {:induction false} WaitingTicks(slots: seq<Slot>, n: nat, t0: nat, c: Clock, i: nat, m: nat)
    requires Schedulable(slots, n, t0, c.us) && i < n
    requires Due(slots[i], (t0 + 1) * c.us) && NoRun(slots, t0, c, i, m)
    ensures After(slots, t0, c, m)[i] == slots[i]
    ensures m <= Paused(t0, c, m) + LowerRuns(slots, t0, c, i, m)
    decreases m
  {
    if m > 0 {
      hide LowerRuns;
      WaitingTicks(slots, n, t0, c, i, m - 1);
      LowerRunsTick(slots, t0, c, i, m);
      OneTick(slots, n, t0, c, i, m);
      TimesOrdered(t0 + 1, t0 + m, c.us);
    }
  }

  lemma Wait(slots: seq<Slot>, n: nat, t0: nat, c: Clock, i: nat, m: nat)
    requires Schedulable(slots, n, t0, c.us) && i < n
    requires Due(slots[i], (t0 + 1) * c.us) && NoRun(slots, t0, c, i, m)
    ensures m <= Paused(t0, c, m) + i * Rounds(m, n)
  {
    hide After, LowerRuns, Rounds;
    WaitingTicks(slots, n, t0, c, i, m);
    LowerRunsBound(slots, n, t0, c, i, m);
  }

  function Min(a: nat, b: nat): nat { if a < b then a else b }

  /** How many of m ticks the slots below i can take at most: one turn each for every n ticks, and for
      the ticks that are left over one turn each while they last. */
  function MostTicks(n: nat, i: nat, m: nat): nat
    requires n > 0
  {
    i * (m / n) + Min(i, m % n)
  }

  lemma WaitUpTo(slots: seq<Slot>, n: nat, t0: nat, c: Clock, i: nat, l: nat, m: nat)
    requires Schedulable(slots, n, t0, c.us) && i < n
    requires Due(slots[i], (t0 + 1) * c.us) && NoRun(slots, t0, c, i, m) && l <= m
    ensures l <= Paused(t0, c, l) + i * Rounds(l, n)
    ensures Paused(t0, c, l) <= Paused(t0, c, m)
  {
    hide Ran, After, Rounds;
    Wait(slots, n, t0, c, i, l);
    PausedPlus(t0, c, l, m - l);
    assert l + (m - l) == m;
  }

  /** m ticks are q whole rounds and a rest. */
  lemma Divide(m: nat, n: nat) returns (q: nat, r: nat, whole: nat)
    requires n > 0
    ensures q == m / n && r == m % n
    ensures m == whole + r && r < n && whole == q * n
    ensures Rounds(whole, n) == q && Rounds(m, n) == if r == 0 then q else q + 1
  {
    q, r, whole := m / n, m % n, m / n * n;
    DivideBack(q, n - 1, n);
    if r > 0 {
      TimesSum(q, 1, n);
      DivideBack(q + 1, r - 1, n);
    }
  }

  lemma DivideBack(q: nat, r: nat, n: nat)
    requires r < n
    ensures (q * n + r) / n == q && (q * n + r) % n == r
  {
    var d := (q * n + r) / n;
    if d < q {
      TimesOrdered(d + 1, q, n);
    } else if d > q {
      TimesOrdered(q + 1, d, n);
    }
  }

  /** While a due task waits, no more ticks than that are unpaused. */
  lemma MostUnpaused(slots: seq<Slot>, n: nat, t0: nat, c: Clock, i: nat, m: nat)
    requires Schedulable(slots, n, t0, c.us) && i < n
    requires Due(slots[i], (t0 + 1) * c.us) && NoRun(slots, t0, c, i, m)
    ensures m - Paused(t0, c, m) <= MostTicks(n, i, m)
  {
    hide *;
    var q, r, whole := Divide(m, n);
    WaitUpTo(slots, n, t0, c, i, whole, m);
    WaitUpTo(slots, n, t0, c, i, m, m);
    RoundsAndRest(n, i, m, q, r, whole, Paused(t0, c, whole), Paused(t0, c, m));
  }

  lemma RoundsAndRest(n: nat, i: nat, m: nat, q: nat, r: nat, whole: nat, early: nat, all: nat)
    requires n > 0 && q == m / n && r == m % n && m == whole + r && early <= all
    requires whole <= early + i * q
    requires m <= all + i * if r == 0 then q else q + 1
    ensures m - all <= MostTicks(n, i, m)
  {
    TimesSum(q, 1, i);
  }

  /** A task in slot i that is due at the next tick runs within every stretch of m ticks with more
      unpaused ones than the slots below can take. */
  lemma Latency(slots: seq<Slot>, n: nat, t0: nat, c: Clock, i: nat, m: nat) returns (k: nat)
    requires Schedulable(slots, n, t0, c.us) && i < n
    requires Due(slots[i], (t0 + 1) * c.us)
    requires m - Paused(t0, c, m) > MostTicks(n, i, m)
    ensures 1 <= k <= m && Ran(slots, t0, c, k) == i
    ensures forall j :: 1 <= j < k ==> Ran(slots, t0, c, j) != i
  {
    hide Ran, MostTicks;
    k := FirstRun(slots, t0, c, i, m);
    if k > m {
      MostUnpaused(slots, n, t0, c, i, m);
      assert false;
    }
  }

  /** So without a pause it runs at one of the next i + 1 ticks. */
  lemma UnpausedLatency(slots: seq<Slot>, n: nat, t0: nat, c: Clock, i: nat) returns (k: nat)
    requires Schedulable(slots, n, t0, c.us) && i < n
    requires Due(slots[i], (t0 + 1) * c.us) && Paused(t0, c, i + 1) == 0
    ensures 1 <= k <= i + 1 && Ran(slots, t0, c, k) == i
  {
    OneRound(n, i);
    hide Ran, MostTicks;
    k := Latency(slots, n, t0, c, i, i + 1);
  }

  lemma OneRound(n: nat, i: nat)
    requires i < n
    ensures MostTicks(n, i, i + 1) == i
  {
    if i + 1 == n {
      DivideBack(1, 0, n);
    } else {
      DivideBack(0, i + 1, n);
    }
  }

  /** What pauses cost a waiting task: each paused tick at most n / (n - i) ticks. */
  lemma WaitCost(slots: seq<Slot>, n: nat, t0: nat, c: Clock, i: nat, m: nat)
    requires Schedulable(slots, n, t0, c.us) && i < n
    requires Due(slots[i], (t0 + 1) * c.us) && NoRun(slots, t0, c, i, m)
    ensures (n - i) * (m - i) <= n * Paused(t0, c, m)
  {
    hide *;
    MostUnpaused(slots, n, t0, c, i, m);
    var q, r, whole := Divide(m, n);
    CostOfRounds(n, i, q, r, whole, m, Paused(t0, c, m));
  }

  lemma CostOfRounds(n: nat, i: nat, q: nat, r: nat, whole: nat, m: nat, all: nat)
    requires i < n && q == m / n && r == m % n && m == whole + r && whole == q * n
    requires m - all <= MostTicks(n, i, m)
    ensures (n - i) * (m - i) <= n * all
  {
    var K, e := n - i, r - i;
    var f := if e > 0 then e else 0;
    TimesSum(K, i, q);
    assert K * q + f <= all;
    TimesOrdered(K * q + f, all, n);
    TimesSum(K * q, f, n);
    TimesAgain(K, q, n);
    TimesSum(whole, e, K);
    TimesOrdered(K, n, f);
    TimesOrdered(e, f, K);
  }

  // ---- Drift ----

  /** The number of ticks until a task that has just run is due again. */
  lemma TicksUntilDue(dt: nat, us: nat) returns (w: nat)
    requires us > 0 && dt >= us
    ensures w >= 1 && (w - 1) * us < dt <= w * us
  {
    w := dt / us;
    assert dt == w * us + dt % us;
    TimesSum(w, 1, us);
    if dt % us == 0 {
      TimesSum(w - 1, 1, us);
    } else {
      w := w + 1;
    }
  }

  lemma {:induction false} QuietUntil(slots: seq<Slot>, n: nat, t0: nat, c: Clock, i: nat, m: nat)
    requires Schedulable(slots, n, t0, c.us) && i < n && NoRun(slots, t0, c, i, m)
    ensures After(slots, t0, c, m)[i] == slots[i]
    decreases m
  {
    if m > 0 {
      QuietUntil(slots, n, t0, c, i, m - 1);
      OneTick(slots, n, t0, c, i, m);
    }
  }

  /** The time a task in slot i of n tasks can take, at most, for x runs in a stretch with p paused
      ticks; scaled by n - i. */
  function Budget(s: Slot, n: nat, us: nat, i: nat, x: nat, p: nat): int
    requires i < n
  {
    x * ((n - i) * (s.dt + (i + 1) * us)) + n * p * us
  }

  /** How long a task that has just run can go without running again. */
  lemma NoRunBound(slots: seq<Slot>, n: nat, t0: nat, c: Clock, i: nat, m: nat)
    requires Schedulable(slots, n, t0, c.us) && i < n
    requires slots[i].lastExecution == t0 * c.us && NoRun(slots, t0, c, i, m)
    ensures (n - i) * ((m + 1) * c.us) < Budget(slots[i], n, c.us, i, 1, Paused(t0, c, m))
  {
    hide Ran, After, Paused, Budget;
    TimesOrdered(1, n, c.us);
    var w := TicksUntilDue(slots[i].dt, c.us);
    if m < w {
      TimesOrdered(m, w - 1, c.us);
      Scaled(slots[i], n, c.us, i, m, 0, 0, Paused(t0, c, m));
    } else {
      var q, l := w - 1, m - (w - 1);
      TimesSum(t0, w, c.us);
      WaitAfter(slots, n, t0, c, i, q, l);
      hide Schedulable, NoRun;
      Scaled(slots[i], n, c.us, i, q, l, Paused(t0 + q, c, l), Paused(t0, c, m));
    }
  }

  /** The wait that begins when the task is due, q ticks after it ran. */
  lemma WaitAfter(slots: seq<Slot>, n: nat, t0: nat, c: Clock, i: nat, q: nat, l: nat)
    requires Schedulable(slots, n, t0, c.us) && i < n
    requires NoRun(slots, t0, c, i, q + l) && Due(slots[i], (t0 + (q + 1)) * c.us)
    ensures (n - i) * (l - i) <= n * Paused(t0 + q, c, l)
    ensures Paused(t0 + q, c, l) <= Paused(t0, c, q + l)
  {
    hide Ran, After, Paused;
    NoRunParts(slots, t0, c, i, q, q + l);
    QuietUntil(slots, n, t0, c, i, q);
    AfterKeeps(slots, n, t0, c, q);
    assert t0 + (q + 1) == t0 + q + 1;
    assert q + l - q == l;
    PausedPlus(t0, c, q, l);
    WaitCost(After(slots, t0, c, q), n, t0 + q, c, i, l);
  }

  lemma NoRunParts(slots: seq<Slot>, t0: nat, c: Clock, i: nat, q: nat, m: nat)
    requires q <= m && NoRun(slots, t0, c, i, m)
    ensures NoRun(slots, t0, c, i, q) && NoRun(After(slots, t0, c, q), t0 + q, c, i, m - q)
  {
    hide Ran, After;
    var next, from := After(slots, t0, c, q), t0 + q;
    forall k | 1 <= k <= m - q
      ensures Ran(next, from, c, k) != i
    {
      RanPlus(slots, t0, c, q, k);
    }
  }

  /** q quiet ticks and a wait of l ticks. */
  lemma Scaled(s: Slot, n: nat, us: nat, i: nat, q: nat, l: nat, p: nat, all: nat)
    requires i < n && us > 0 && q * us < s.dt && p <= all && (n - i) * (l - i) <= n * p
    ensures (n - i) * ((q + l + 1) * us) < Budget(s, n, us, i, 1, all)
  {
    var K := n - i;
    TimesSum(q, l + 1, us);
    TimesSum(l - i, i + 1, us);
    assert (q + l + 1) * us == q * us + (l - i) * us + (i + 1) * us;
    TimesAgain(K, l - i, us);
    TimesOrdered(K * (l - i), n * all, us) by { TimesOrdered(p, all, n); }
    StrictlyScaled(q * us, s.dt, K);
    Spread(K, q * us, (l - i) * us, (i + 1) * us);
    Spread(K, s.dt, (i + 1) * us, 0);
  }

  lemma StrictlyScaled(a: int, b: int, k: nat)
    requires a < b && k > 0
    ensures k * a < k * b
  {}

  lemma Spread(k: int, a: int, b: int, c: int)
    ensures k * (a + b + c) == k * a + k * b + k * c
  {}

  /** A task that has just run runs again after at least its period, and at most i + 1 ticks and what
      pauses cost over it; it does so within every stretch that is longer. */
  lemma Gap(slots: seq<Slot>, n: nat, t0: nat, c: Clock, i: nat, m: nat) returns (g: nat)
    requires Schedulable(slots, n, t0, c.us) && i < n && slots[i].lastExecution == t0 * c.us
    requires (n - i) * ((m + 1) * c.us) >= Budget(slots[i], n, c.us, i, 1, Paused(t0, c, m))
    ensures 1 <= g <= m && Ran(slots, t0, c, g) == i && NoRun(slots, t0, c, i, g - 1)
    ensures slots[i].dt <= g * c.us
    ensures (n - i) * (g * c.us) < Budget(slots[i], n, c.us, i, 1, Paused(t0, c, g))
  {
    hide Ran, After, Runs, Budget;
    g := FirstRun(slots, t0, c, i, m);
    if g > m {
      NoRunBound(slots, n, t0, c, i, m);
      assert false;
    } else {
      NextRun(slots, n, t0, c, i, g);
    }
  }

  lemma NextRun(slots: seq<Slot>, n: nat, t0: nat, c: Clock, i: nat, g: nat)
    requires Schedulable(slots, n, t0, c.us) && i < n && slots[i].lastExecution == t0 * c.us
    requires g > 0 && Ran(slots, t0, c, g) == i && NoRun(slots, t0, c, i, g - 1)
    ensures slots[i].dt <= g * c.us && After(slots, t0, c, g)[i].lastExecution == (t0 + g) * c.us
    ensures (n - i) * (g * c.us) < Budget(slots[i], n, c.us, i, 1, Paused(t0, c, g))
  {
    hide Ran, After, Budget;
    QuietUntil(slots, n, t0, c, i, g - 1);
    OneTick(slots, n, t0, c, i, g);
    TimesSum(t0, g, c.us);
    NoRunBound(slots, n, t0, c, i, g - 1);
    assert !c.paused(t0 + g) by { RanUnpaused(slots, n, t0, c, i, g); }
  }

  lemma RanUnpaused(slots: seq<Slot>, n: nat, t0: nat, c: Clock, i: nat, g: nat)
    requires i < n <= |slots| && g > 0 && Ran(slots, t0, c, g) == i
    ensures !c.paused(t0 + g)
  {}

  /** In m ticks after one of its runs, p of them paused, a task of period dt in slot i of n tasks runs
      N times, where N periods fit into the elapsed time and N + 1 periods, each late by i + 1 ticks,
      do not, if a paused tick counts for n / (n - i) ticks:
      N dt <= m us  and  (n - i) m us < (N + 1) (n - i) (dt + (i + 1) us) + n p us. */
  lemma {:induction false} Drift(slots: seq<Slot>, n: nat, t0: nat, c: Clock, i: nat, m: nat)
    requires Schedulable(slots, n, t0, c.us) && i < n && slots[i].lastExecution == t0 * c.us
    ensures var N := Runs(slots, t0, c, i, m);
            N * slots[i].dt <= m * c.us
            && (n - i) * (m * c.us) < Budget(slots[i], n, c.us, i, N + 1, Paused(t0, c, m))
  {
    RunsSpaced(slots, n, t0, c, i, m);
    TimesSum(t0, m, c.us);
    hide Runs, After, Budget;
    NotTooFew(slots, n, t0, c, i, m);
  }

  lemma {:induction false} NotTooFew(slots: seq<Slot>, n: nat, t0: nat, c: Clock, i: nat, m: nat)
    requires Schedulable(slots, n, t0, c.us) && i < n && slots[i].lastExecution == t0 * c.us
    ensures (n - i) * (m * c.us)
         < Budget(slots[i], n, c.us, i, Runs(slots, t0, c, i, m) + 1, Paused(t0, c, m))
    decreases m
  {
    hide After, Ran, Runs, Budget, Paused;
    var g := FirstRun(slots, t0, c, i, m);
    if g > m {
      NoRuns(slots, t0, c, i, m);
      NoRunBound(slots, n, t0, c, i, m);
      TimesOrdered(m, m + 1, c.us);
      TimesOrdered(m * c.us, (m + 1) * c.us, n - i);
    } else {
      var next := After(slots, t0, c, g);
      NextRun(slots, n, t0, c, i, g);
      AfterKeeps(slots, n, t0, c, g);
      NotTooFew(next, n, t0 + g, c, i, m - g);
      RunsPlus(slots, t0, c, i, g, m - g);
      PausedPlus(t0, c, g, m - g);
      OneRun(slots, t0, c, i, g);
      assert g + (m - g) == m;
      TimesSum(g, m - g, c.us);
      Spread(n - i, g * c.us, (m - g) * c.us, 0);
      BudgetPlus(slots[i], next[i], n, c.us, i, Runs(next, t0 + g, c, i, m - g) + 1,
                 Paused(t0, c, g), Paused(t0 + g, c, m - g));
    }
  }

  lemma OneRun(slots: seq<Slot>, t0: nat, c: Clock, i: nat, g: nat)
    requires g > 0 && Ran(slots, t0, c, g) == i && NoRun(slots, t0, c, i, g - 1)
    ensures Runs(slots, t0, c, i, g) == 1
  {
    hide Ran;
    NoRuns(slots, t0, c, i, g - 1);
  }

  lemma BudgetPlus(s: Slot, s': Slot, n: nat, us: nat, i: nat, x: nat, p: nat, p': nat)
    requires i < n && s.dt == s'.dt
    ensures Budget(s, n, us, i, 1, p) + Budget(s', n, us, i, x, p') == Budget(s, n, us, i, x + 1, p + p')
  {
    var late := (n - i) * (s.dt + (i + 1) * us);
    TimesSum(x, 1, late);
    assert n * (p + p') * us == n * p * us + n * p' * us;
  }

  /** Without a pause: N dt <= m us < (N + 1) (dt + (i + 1) us). */
  lemma UnpausedDrift(slots: seq<Slot>, n: nat, t0: nat, c: Clock, i: nat, m: nat)
    requires Schedulable(slots, n, t0, c.us) && i < n && slots[i].lastExecution == t0 * c.us
    requires Paused(t0, c, m) == 0
    ensures var N := Runs(slots, t0, c, i, m);
            N * slots[i].dt <= m * c.us < (N + 1) * (slots[i].dt + (i + 1) * c.us)
  {
    hide Runs, Paused, Budget;
    Drift(slots, n, t0, c, i, m);
    UnpausedBudget(slots[i], n, c.us, i, Runs(slots, t0, c, i, m) + 1, m * c.us);
  }

  lemma UnpausedBudget(s: Slot, n: nat, us: nat, i: nat, x: nat, elapsed: nat)
    requires i < n && (n - i) * elapsed < Budget(s, n, us, i, x, 0)
    ensures elapsed < x * (s.dt + (i + 1) * us)
  {
    var late := s.dt + (i + 1) * us;
    TimesAgain(x, n - i, late);
    TimesAgain(n - i, x, late);
    if elapsed >= x * late {
      TimesOrdered(x * late, elapsed, n - i);
    }
  }

  // ---- The bound is exact: pauses that starve a task ----

  /** The tick of the last run of slot j before place b of round a, if the slots below i take their turn
      in every round; 0 before the first. */
  function LastTurn(n: nat, i: nat, j: nat, a: nat, b: nat): nat
    requires a > 0
  {
    var round := if j < b then a else a - 1;
    if j >= i || round == 0 then 0 else round * n + j
  }

  /** n tasks of n ticks each in a table of any size, at place b of round a. */
  function Contenders(size: nat, n: nat, i: nat, us: nat, a: nat, b: nat): (slots: seq<Slot>)
    requires a > 0
    ensures |slots| == size
  {
    seq(size, j requires 0 <= j < size =>
      if j < n then Slot(Some(j), LastTurn(n, i, j, a, b) * us, n * us, 0, 0) else DEFAULT_SLOT)
  }

  /** Only the first i ticks of each round of n are unpaused, from the round that begins at tick n. */
  function Crowded(n: nat, i: nat, us: nat): Clock
    requires n > 0
  {
    Clock(us, (t: nat) => t < n || t % n >= i)
  }

  lemma DueByTurn(s: Slot, last: nat, n: nat, us: nat, t: nat)
    requires s.func.Some? && s.lastExecution == last * us && s.dt == n * us && us > 0
    ensures Due(s, t * us) <==> last + n <= t
  {
    TimesSum(last, n, us);
    if last + n <= t {
      TimesOrdered(last + n, t, us);
    } else {
      TimesOrdered(t + 1, last + n, us);
      TimesSum(t, 1, us);
    }
  }

  lemma TurnsApart(n: nat, i: nat, a: nat, b: nat, j: nat)
    requires a > 0 && b < i < n && j <= b
    ensures LastTurn(n, i, j, a, b) + n <= a * n + b <==> j == b
  {
    if a > 1 {
      TimesSum(a - 1, 1, n);
    }
    TimesOrdered(1, a, n);
  }

  /** At place b < i of round a it is the turn of slot b. */
  lemma TurnOf(size: nat, n: nat, i: nat, us: nat, a: nat, b: nat)
    requires a > 0 && b < i < n <= size && us > 0
    ensures Chosen(Contenders(size, n, i, us, a, b), (a * n + b) * us) == b
  {
    hide LastTurn;
    var slots, t := Contenders(size, n, i, us, a, b), a * n + b;
    forall j | 0 <= j <= b
      ensures Due(slots[j], t * us) <==> j == b
    {
      DueByTurn(slots[j], LastTurn(n, i, j, a, b), n, us, t);
      TurnsApart(n, i, a, b, j);
    }
    ChosenIs(slots, t * us, b);
  }

  /** What a tick at place b of round a makes of the table, and that it is not slot i's. */
  lemma TurnTaken(size: nat, n: nat, i: nat, us: nat, a: nat, b: nat)
    requires a > 0 && b < n && i < n <= size && us > 0
    ensures var slots, next, now :=
              Contenders(size, n, i, us, a, b), Contenders(size, n, i, us, a, b + 1), (a * n + b) * us;
            if b < i then Chosen(slots, now) != i && TickSlots(slots, now) == next else slots == next
  {
    if b < i {
      TurnOf(size, n, i, us, a, b);
    }
  }

  lemma TickFrom(slots: seq<Slot>, t0: nat, c: Clock, k: nat, table: seq<Slot>, t: nat)
    requires k > 0 && t == t0 + k && After(slots, t0, c, k - 1) == table
    ensures After(slots, t0, c, k) == if c.paused(t) then table else TickSlots(table, t * c.us)
    ensures Ran(slots, t0, c, k) == if c.paused(t) then |slots| else Chosen(table, t * c.us)
    ensures Paused(t0, c, k) == Paused(t0, c, k - 1) + if c.paused(t) then 1 else 0
  {}

  lemma NextRound(size: nat, n: nat, i: nat, us: nat, a: nat)
    requires a > 0 && n <= size
    ensures Contenders(size, n, i, us, a, n) == Contenders(size, n, i, us, a + 1, 0)
  {}

  lemma CrowdedAt(n: nat, i: nat, us: nat, a: nat, b: nat)
    requires a > 0 && b < n
    ensures Crowded(n, i, us).paused(a * n + b) <==> b >= i
  {
    DivideBack(a, b, n);
    TimesOrdered(1, a, n);
  }

  /** What holds k ticks into the pattern, at place r of round q + 1. */
  predicate Starved(size: nat, n: nat, i: nat, us: nat, k: nat, q: nat, r: nat)
    requires i < n <= size
  {
    var slots, c := Contenders(size, n, i, us, 1, 0), Crowded(n, i, us);
    && After(slots, n - 1, c, k) == Contenders(size, n, i, us, q + 1, r)
    && NoRun(slots, n - 1, c, i, k)
    && k - Paused(n - 1, c, k) == i * q + Min(i, r)
  }

  lemma {:induction false} StarvedRun(size: nat, n: nat, i: nat, us: nat, k: nat, q: nat, r: nat)
    requires i < n <= size && us > 0 && k == q * n + r && r < n
    ensures Starved(size, n, i, us, k, q, r)
    decreases k
  {
    hide *;
    if k == 0 {
      NothingRun(n, q, r);
      StarvedStart(size, n, i, us);
    } else if r > 0 {
      StarvedRun(size, n, i, us, k - 1, q, r - 1);
      StarvedTick(size, n, i, us, k, q, r - 1);
    } else {
      RoundBefore(n, k, q);
      StarvedRun(size, n, i, us, k - 1, q - 1, n - 1);
      StarvedTick(size, n, i, us, k, q - 1, n - 1);
      StarvedOn(size, n, i, us, k, q);
    }
  }

  lemma StarvedStart(size: nat, n: nat, i: nat, us: nat)
    requires i < n <= size
    ensures Starved(size, n, i, us, 0, 0, 0)
  {}

  lemma RoundBefore(n: nat, k: nat, q: nat)
    requires k == q * n && k > 0
    ensures q > 0 && k - 1 == (q - 1) * n + (n - 1)
  {
    TimesSum(q - 1, 1, n);
  }

  lemma NothingRun(n: nat, q: nat, r: nat)
    requires q * n + r == 0 && n > 0
    ensures q == 0 && r == 0
  {
    if q > 0 {
      TimesOrdered(1, q, n);
    }
  }

  lemma StarvedOn(size: nat, n: nat, i: nat, us: nat, k: nat, q: nat)
    requires i < n <= size && q > 0 && Starved(size, n, i, us, k, q - 1, n)
    ensures Starved(size, n, i, us, k, q, 0)
  {
    hide Contenders, After, Ran, Paused;
    NextRound(size, n, i, us, q);
    TimesSum(q - 1, 1, i);
  }

  lemma StarvedTick(size: nat, n: nat, i: nat, us: nat, k: nat, q: nat, r: nat)
    requires i < n <= size && us > 0 && k == q * n + r + 1 && r < n
    requires Starved(size, n, i, us, k - 1, q, r)
    ensures Starved(size, n, i, us, k, q, r + 1)
  {
    hide Contenders, After, Ran, Paused, TickSlots;
    TimesSum(q, 1, n);
    CrowdedAt(n, i, us, q + 1, r);
    TurnTaken(size, n, i, us, q + 1, r);
    assert Crowded(n, i, us).us == us;
    hide Crowded;
    TickFrom(Contenders(size, n, i, us, 1, 0), n - 1, Crowded(n, i, us), k,
             Contenders(size, n, i, us, q + 1, r), (q + 1) * n + r);
  }

  /** Of n tasks of n ticks each, slot i does not run at any of m ticks although it is due all the time
      and as many ticks are unpaused as the slots below can take: for i > 0 without bound. */
  lemma PausesStarve(size: nat, n: nat, i: nat, us: nat, m: nat)
    requires i < n <= size && us > 0
    ensures var slots, t0, c := Contenders(size, n, i, us, 1, 0), n - 1, Crowded(n, i, us);
            && Schedulable(slots, n, t0, us) && Due(slots[i], (t0 + 1) * us)
            && NoRun(slots, t0, c, i, m) && After(slots, t0, c, m)[i] == slots[i]
            && m - Paused(t0, c, m) == MostTicks(n, i, m)
  {
    var q, r, whole := Divide(m, n);
    StarvedRun(size, n, i, us, m, q, r);
    FirstRound(size, n, i, us);
    LastInLine(size, n, i, us, q + 1, r);
    hide Contenders, After, Ran, Paused, NoRun, Due, Schedulable;
  }

  lemma FirstRound(size: nat, n: nat, i: nat, us: nat)
    requires i < n <= size && us > 0
    ensures var slots := Contenders(size, n, i, us, 1, 0);
            Schedulable(slots, n, n - 1, us) && Due(slots[i], n * us)
  {
    var slots := Contenders(size, n, i, us, 1, 0);
    forall j | 0 <= j < size
      ensures slots[j].lastExecution == 0 && (j < n ==> slots[j].dt == n * us)
    {}
  }

  lemma LastInLine(size: nat, n: nat, i: nat, us: nat, a: nat, b: nat)
    requires i < n <= size && a > 0
    ensures Contenders(size, n, i, us, a, b)[i] == Slot(Some(i), 0, n * us, 0, 0)
    ensures Contenders(size, n, i, us, 1, 0)[i] == Slot(Some(i), 0, n * us, 0, 0)
  {}

  /** u unpaused ticks among m are enough for slot i of n tasks, in every table of that size and for
      every pattern of pauses. */
  ghost predicate Guaranteed(size: nat, n: nat, us: nat, i: nat, m: nat, u: nat) {
    forall slots: seq<Slot>, t0: nat, c: Clock ::
      |slots| == size && c.us == us && Schedulable(slots, n, t0, c.us) && i < n
      && Due(slots[i], (t0 + 1) * c.us) && m - Paused(t0, c, m) >= u
      ==> !NoRun(slots, t0, c, i, m)
  }

  /** Exactly the numbers above what the lower slots can take are enough. */
  lemma GuaranteedIff(size: nat, n: nat, us: nat, i: nat, m: nat, u: nat)
    requires i < n <= size && us > 0
    ensures Guaranteed(size, n, us, i, m, u) <==> u > MostTicks(n, i, m)
  {
    hide Paused, MostTicks, NoRun, Schedulable, Due;
    if u > MostTicks(n, i, m) {
      forall slots: seq<Slot>, t0: nat, c: Clock
        | |slots| == size && c.us == us && Schedulable(slots, n, t0, c.us) && i < n
          && Due(slots[i], (t0 + 1) * c.us) && m - Paused(t0, c, m) >= u
        ensures !NoRun(slots, t0, c, i, m)
      {
        if NoRun(slots, t0, c, i, m) {
          MostUnpaused(slots, n, t0, c, i, m);
        }
      }
    } else {
      PausesStarve(size, n, i, us, m);
    }
  }

  /** A number of unpaused ticks that is enough however long they take. */
  ghost predicate EnoughAlone(size: nat, n: nat, us: nat, i: nat, u: nat) {
    forall m: nat :: Guaranteed(size, n, us, i, m, u)
  }

  /** Unpaused ticks alone bound the wait of the first slot, and of no other. */
  lemma EnoughAloneIffFirst(size: nat, n: nat, us: nat, i: nat)
    requires i < n <= size && us > 0
    ensures (exists u: nat :: EnoughAlone(size, n, us, i, u)) <==> i == 0
  {
    hide Guaranteed;
    if i == 0 {
      forall m: nat
        ensures Guaranteed(size, n, us, 0, m, 1)
      {
        GuaranteedIff(size, n, us, 0, m, 1);
      }
      assert EnoughAlone(size, n, us, 0, 1);
    } else {
      forall u: nat
        ensures !EnoughAlone(size, n, us, i, u)
      {
        DivideBack(u, 0, n);
        TimesOrdered(1, i, u);
        GuaranteedIff(size, n, us, i, u * n, u);
      }
    }
  }

  // ---- The firmware's own task set ----

  /** The frequencies, in hertz, in slot order; slot 6 advances the timestamp. */
  const FREQUENCIES: seq<nat> := [3, 1, 5, 1, 20, 1, 1, 5, 4, 1]
  const TICK_US := 500
  const TIMESTAMP_SLOT := 6

  predicate FirmwareTable(slots: seq<Slot>, t0: nat) {
    Entered(slots, |FREQUENCIES|) && PastOnly(slots, t0 * TICK_US)
  }

  /** The set-up: the tasks are entered one after the other, and the timer may tick in between, as it
      does in the delays; delays[i] counts the ticks after the i-th task. */
  method SetUp(s: Scheduler, delays: seq<nat>)
    requires s.Valid() && s.tasksOn == 0 && !s.paused && s.tickUs == TICK_US && |delays| == |FREQUENCIES|
    modifies s, s.slots
    ensures s.Valid() && FirmwareTable(s.slots[..], s.ticks)
  {
    for i := 0 to |FREQUENCIES|
      invariant s.Valid() && !s.paused && (i == 0 ==> s.tasksOn == 0) && (i > 0 ==> s.tasksOn > 0)
      invariant i > 0 ==> Entered(s.slots[..], i)
    {
      assert FREQUENCIES[i] > 0;
      ghost var table := s.TableForNew();
      assert Entered(table, i);
      s.NewTask(i, FREQUENCIES[i], 0, 0, i);
      assert Entered(s.slots[..], i + 1);
      Pass(s, delays[i], i + 1);
    }
    assert PastOnly(s.slots[..], s.ticks * TICK_US);
  }

  /** The first n tasks of the firmware are in the table. */
  predicate Entered(slots: seq<Slot>, n: nat) {
    && n <= |FREQUENCIES| && |slots| == SLOT_COUNT && Packed(slots, n)
    && forall j :: 0 <= j < n ==> slots[j].dt == Period(j)
  }

  /** The period of slot j in microseconds. */
  function Period(j: nat): nat
    requires j < |FREQUENCIES|
  {
    [333333, 1000000, 200000, 1000000, 50000, 1000000, 1000000, 200000, 250000, 1000000][j]
  }

  /** n ticks go by. */
  method Pass(s: Scheduler, n: nat, entered: nat)
    requires s.Valid() && !s.paused && Entered(s.slots[..], entered)
    modifies s`ticks, s.slots
    ensures s.Valid() && Entered(s.slots[..], entered) && s.ticks == old(s.ticks) + n
  {
    for k := 0 to n
      invariant s.Valid() && Entered(s.slots[..], entered) && s.ticks == old(s.ticks) + k
    {
      ghost var before := s.slots[..];
      var _ := s.TickHandler();
      TickKeepsTasks(before, s.ticks * s.tickUs);
    }
  }

  lemma FirmwareIsSchedulable(slots: seq<Slot>, t0: nat)
    requires FirmwareTable(slots, t0)
    ensures Schedulable(slots, |FREQUENCIES|, t0, TICK_US)
    ensures slots[TIMESTAMP_SLOT].dt == 1000000
  {
    forall i | 0 <= i < |FREQUENCIES|
      ensures slots[i].dt >= |FREQUENCIES| * TICK_US
    {
      assert Period(i) >= 50000;
    }
  }

  /** The software clock never runs fast, whenever the scheduler is paused, and loses less than 3.5 ms
      per second and 1.25 ms per paused tick: in m ticks after an increment, p of them paused, it
      counts N seconds, with N s <= m ticks < (N + 1) * 1.0035 s + p * 1.25 ms. */
  lemma SoftwareClock(slots: seq<Slot>, t0: nat, paused: nat -> bool, m: nat)
    requires FirmwareTable(slots, t0) && slots[TIMESTAMP_SLOT].lastExecution == t0 * TICK_US
    ensures var c := Clock(TICK_US, paused);
            var N := Runs(slots, t0, c, TIMESTAMP_SLOT, m);
            N * 1000000 <= m * TICK_US < (N + 1) * 1003500 + Paused(t0, c, m) * 1250
  {
    FirmwareIsSchedulable(slots, t0);
    hide Runs, Paused;
    Drift(slots, |FREQUENCIES|, t0, Clock(TICK_US, paused), TIMESTAMP_SLOT, m);
  }
}
