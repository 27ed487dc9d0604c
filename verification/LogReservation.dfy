/** begin_op, log_write, end_op and the commit window of kernel/log.c as steps that concurrent
    file-system calls interleave, each step being one critical section under log.lock. */
module LogReservation {
  import opened Common
  import opened Counting
  import opened Params

  /** log.lh.block, log.outstanding, log.committing; used counts, for each operation in progress,
      the blocks that it was the first to log. */
  datatype LogState = LogState(lh: seq<nat>, outstanding: int, committing: bool, used: seq<nat>)

  datatype Event = Begin | Write(op: nat, block: nat) | End(op: nat) | Installed | Finished

  datatype Outcome = Moves(state: LogState) | Sleeps | Panics

  const Boot := LogState([], 0, false, [])

  /** One critical section, for a log area of nlog blocks. */
  function Do(nlog: nat, s: LogState, e: Event): Outcome
    requires e.Write? || e.End? ==> e.op < |s.used|
  {
    match e
    case Begin =>
      if s.committing then Sleeps
      else if |s.lh| + (s.outstanding + 1) * MAXOPBLOCKS > LOGSIZE then Sleeps
      else Moves(s.(outstanding := s.outstanding + 1, used := s.used + [0]))
    case Write(op, block) =>
      if |s.lh| >= LOGSIZE || |s.lh| >= nlog - 1 then Panics
      else if s.outstanding < 1 then Panics
      else if block in s.lh then Moves(s)
      else Moves(s.(lh := s.lh + [block], used := s.used[op := s.used[op] + 1]))
    case End(op) =>
      var s' := s.(outstanding := s.outstanding - 1, used := Without(s.used, op));
      if s.committing then Panics
      else if s'.outstanding == 0 then Moves(s'.(committing := true))
      else Moves(s')
    case Installed => Moves(s.(lh := []))
    case Finished => Moves(s.(committing := false))
  }

  /** Which event may happen next, if every operation is the first to log at most budget blocks.
      Installed and Finished are the two ends of commit, run by the caller of the last end_op. */
  predicate Enabled(budget: nat, s: LogState, e: Event) {
    match e
    case Begin => true
    case Write(op, block) => op < |s.used| && (block in s.lh || s.used[op] < budget)
    case End(op) => op < |s.used|
    case Installed => s.committing
    case Finished => s.committing && s.lh == []
  }

  ghost predicate Step(budget: nat, nlog: nat, s: LogState, t: LogState) {
    exists e :: Enabled(budget, s, e) && Do(nlog, s, e) == Moves(t)
  }

  ghost predicate Run(budget: nat, nlog: nat, run: seq<LogState>) {
    && run != [] && run[0] == Boot
    && forall i :: 0 <= i < |run| - 1 ==> Step(budget, nlog, run[i], run[i + 1])
  }

  ghost predicate Reachable(budget: nat, nlog: nat, s: LogState) {
    exists run :: Run(budget, nlog, run) && run[|run| - 1] == s
  }

  // ---- the reservation invariant ---------------------------------------------------------

  /** What the operations in progress may still log, if each is granted limit blocks. */
  function Unused(limit: nat, used: seq<nat>): int {
    if used == [] then 0 else limit - used[|used| - 1] + Unused(limit, used[..|used| - 1])
  }

  lemma {:induction false} UnusedWithout(limit: nat, used: seq<nat>, i: nat)
    requires i < |used|
    ensures Unused(limit, Without(used, i)) == Unused(limit, used) - (limit - used[i])
  {
    var n := |used| - 1;
    if i < n {
      UnusedWithout(limit, used[..n], i);
      assert Without(used, i)[..n - 1] == Without(used[..n], i);
    } else {
      assert Without(used, i) == used[..n];
    }
  }

  lemma {:induction false} UnusedWrite(limit: nat, used: seq<nat>, i: nat)
    requires i < |used|
    ensures Unused(limit, used[i := used[i] + 1]) == Unused(limit, used) - 1
  {
    var n := |used| - 1;
    if i < n {
      UnusedWrite(limit, used[..n], i);
      assert used[i := used[i] + 1][..n] == used[..n][i := used[..n][i] + 1];
    } else {
      assert used[i := used[i] + 1][..n] == used[..n];
    }
  }

  lemma {:induction false} UnusedBounds(limit: nat, used: seq<nat>)
    requires forall i :: 0 <= i < |used| ==> used[i] <= limit
    ensures 0 <= Unused(limit, used) <= limit * |used|
  {
    if used != [] {
      UnusedBounds(limit, used[..|used| - 1]);
      assert limit * |used| == limit * (|used| - 1) + limit;
    }
  }

  /** Space for what is logged and for everything that is still reserved. */
  ghost predicate Inv(budget: nat, s: LogState) {
    && s.outstanding == |s.used|
    && (forall i :: 0 <= i < |s.used| ==> s.used[i] <= budget)
    && (s.committing ==> s.outstanding == 0)
    && (s.outstanding == 0 && !s.committing ==> s.lh == [])
    && |s.lh| + Unused(MAXOPBLOCKS, s.used) <= LOGSIZE
    && (s.used != [] && 1 <= budget ==> |s.lh| + Unused(budget, s.used) <= MAXOPBLOCKS + 2 * budget)
  }

  lemma BeginKeeps(budget: nat, nlog: nat, s: LogState)
    requires budget <= MAXOPBLOCKS && Inv(budget, s) && Do(nlog, s, Begin).Moves?
    ensures Inv(budget, Do(nlog, s, Begin).state)
  {
    BeginRoom(budget, |s.lh|, s.used);
  }

  lemma BeginRoom(budget: nat, n: nat, used: seq<nat>)
    requires budget <= MAXOPBLOCKS && n + (|used| + 1) * MAXOPBLOCKS <= LOGSIZE && (used == [] ==> n == 0)
    requires forall i :: 0 <= i < |used| ==> used[i] <= budget
    ensures n + Unused(MAXOPBLOCKS, used + [0]) <= LOGSIZE
    ensures n + Unused(budget, used + [0]) <= MAXOPBLOCKS + 2 * budget
  {
    UnusedBegin(MAXOPBLOCKS, used);
    UnusedBegin(budget, used);
    BeginSpace(budget, n, |used|, Unused(MAXOPBLOCKS, used), Unused(budget, used));
  }

  lemma UnusedBegin(limit: nat, used: seq<nat>)
    requires forall i :: 0 <= i < |used| ==> used[i] <= limit
    ensures Unused(limit, used + [0]) == limit + Unused(limit, used) && 0 <= Unused(limit, used) <= limit * |used|
  {
    assert (used + [0])[..|used|] == used;
    UnusedBounds(limit, used);
  }

  /** Where begin_op goes ahead, there is space for one more reservation. */
  lemma BeginSpace(budget: nat, n: nat, k: nat, reserved: int, granted: int)
    requires budget <= MAXOPBLOCKS && n + (k + 1) * MAXOPBLOCKS <= LOGSIZE && (k == 0 ==> n == 0)
    requires 0 <= reserved <= MAXOPBLOCKS * k && 0 <= granted <= budget * k
    ensures n + MAXOPBLOCKS + reserved <= LOGSIZE && n + budget + granted <= MAXOPBLOCKS + 2 * budget
  {
    assert k <= 2;
    if k == 0 {
      assert budget * k == 0;
    } else if k == 1 {
      assert budget * k == budget;
    } else {
      assert budget * k == 2 * budget;
    }
  }

  lemma WriteKeeps(budget: nat, nlog: nat, s: LogState, op: nat, block: nat)
    requires Inv(budget, s) && Enabled(budget, s, Write(op, block)) && Do(nlog, s, Write(op, block)).Moves?
    ensures Inv(budget, Do(nlog, s, Write(op, block)).state)
  {
    if block !in s.lh {
      UnusedWrite(MAXOPBLOCKS, s.used, op);
      UnusedWrite(budget, s.used, op);
    }
  }

  lemma EndKeeps(budget: nat, nlog: nat, s: LogState, op: nat)
    requires budget <= MAXOPBLOCKS && Inv(budget, s) && Enabled(budget, s, End(op)) && Do(nlog, s, End(op)).Moves?
    ensures Inv(budget, Do(nlog, s, End(op)).state)
  {
    UnusedWithout(MAXOPBLOCKS, s.used, op);
    UnusedWithout(budget, s.used, op);
  }

  lemma StepKeeps(budget: nat, nlog: nat, s: LogState, e: Event)
    requires budget <= MAXOPBLOCKS && Inv(budget, s) && Enabled(budget, s, e) && Do(nlog, s, e).Moves?
    ensures Inv(budget, Do(nlog, s, e).state)
  {
    match e
    case Begin =>
      BeginKeeps(budget, nlog, s);
    case Write(op, block) =>
      WriteKeeps(budget, nlog, s, op, block);
    case End(op) =>
      EndKeeps(budget, nlog, s, op);
    case Installed =>
      UnusedBounds(MAXOPBLOCKS, s.used);
      UnusedBounds(budget, s.used);
    case Finished =>
  }

  /** Over every run: what is logged plus what is reserved fits the log, and a commit runs only
      while no operation is in progress. */
  lemma {:induction false} RunInvariant(budget: nat, nlog: nat, run: seq<LogState>, i: nat)
    requires budget <= MAXOPBLOCKS && Run(budget, nlog, run) && i < |run|
    ensures Inv(budget, run[i])
  {
    if i > 0 {
      RunInvariant(budget, nlog, run, i - 1);
      assert Step(budget, nlog, run[i - 1], run[i]);
      var e :| Enabled(budget, run[i - 1], e) && Do(nlog, run[i - 1], e) == Moves(run[i]);
      StepKeeps(budget, nlog, run[i - 1], e);
    }
  }

  lemma ReachableInvariant(budget: nat, nlog: nat, s: LogState)
    requires budget <= MAXOPBLOCKS && Reachable(budget, nlog, s)
    ensures |s.lh| + Unused(MAXOPBLOCKS, s.used) <= LOGSIZE
    ensures s.committing ==> s.outstanding == 0
    ensures Inv(budget, s)
  {
    var run :| Run(budget, nlog, run) && run[|run| - 1] == s;
    RunInvariant(budget, nlog, run, |run| - 1);
  }

  /** end_op never finds log.committing set. */
  lemma EndNeverPanics(budget: nat, nlog: nat, s: LogState, op: nat)
    requires budget <= MAXOPBLOCKS && Reachable(budget, nlog, s) && Enabled(budget, s, End(op))
    ensures Do(nlog, s, End(op)).Moves?
  {
    ReachableInvariant(budget, nlog, s);
  }

  /** begin_op waits only while a commit or another operation is going on. */
  lemma BeginWaitsForSomeone(budget: nat, nlog: nat, s: LogState)
    requires budget <= MAXOPBLOCKS && Reachable(budget, nlog, s)
    ensures !Do(nlog, s, Begin).Panics?
    ensures Do(nlog, s, Begin).Sleeps? ==> s.committing || s.outstanding > 0
  {
    ReachableInvariant(budget, nlog, s);
  }

  // ---- who may begin, and what the other calls do ----------------------------------------

  function Flatten(ws: seq<seq<nat>>): (r: seq<nat>)
  {
    if ws == [] then [] else Flatten(ws[..|ws| - 1]) + ws[|ws| - 1]
  }

  lemma {:induction false} FlattenLength(ws: seq<seq<nat>>, n: nat)
    requires forall i :: 0 <= i < |ws| ==> |ws[i]| == n
    ensures |Flatten(ws)| == |ws| * n
  {
    if ws != [] {
      FlattenLength(ws[..|ws| - 1], n);
      assert |ws| * n == (|ws| - 1) * n + n;
    }
  }

  /** Whatever MAXOPBLOCKS further blocks each of the operations in progress and a new one log, all
      of it fits. */
  ghost predicate RoomForOneMore(s: LogState) {
    forall ws: seq<seq<nat>> :: |ws| == |s.used| + 1 && (forall i :: 0 <= i < |ws| ==> |ws[i]| == MAXOPBLOCKS) ==>
      |s.lh + Flatten(ws)| <= LOGSIZE
  }

  /** While no commit is going on, begin_op goes ahead exactly if there is room; otherwise, and
      during a commit, it waits. */
  lemma BeginsExactly(budget: nat, nlog: nat, s: LogState)
    requires budget <= MAXOPBLOCKS && Reachable(budget, nlog, s)
    ensures Do(nlog, s, Begin).Moves? <==> !s.committing && RoomForOneMore(s)
    ensures Do(nlog, s, Begin).Moves? || Do(nlog, s, Begin).Sleeps?
  {
    ReachableInvariant(budget, nlog, s);
    var n := |s.used| + 1;
    forall ws: seq<seq<nat>> | |ws| == n && (forall i :: 0 <= i < |ws| ==> |ws[i]| == MAXOPBLOCKS)
      ensures |s.lh + Flatten(ws)| == |s.lh| + n * MAXOPBLOCKS
    {
      FlattenLength(ws, MAXOPBLOCKS);
    }
    var ws := seq(n, i => seq(MAXOPBLOCKS, j => 0));
    assert |s.lh + Flatten(ws)| == |s.lh| + n * MAXOPBLOCKS;
  }

  /** What each call that goes ahead does: begin_op adds an operation with nothing logged; log_write
      makes sure that the block is listed; end_op takes its operation away, and starts a commit
      exactly if that was the last one. None of them touches the rest. */
  lemma CallsDo(budget: nat, nlog: nat, s: LogState, e: Event)
    requires budget <= MAXOPBLOCKS && Reachable(budget, nlog, s) && Enabled(budget, s, e) && Do(nlog, s, e).Moves?
    ensures var t := Do(nlog, s, e).state;
            && Reachable(budget, nlog, t) && t.outstanding == |t.used| && Distinct(t.lh)
            && (e.Begin? ==> t.used == s.used + [0] && t.lh == s.lh && !t.committing)
            && (e.Write? ==> |t.used| == |s.used| && t.committing == s.committing && e.block in t.lh
                             && t.lh[..|s.lh|] == s.lh && forall b :: b in t.lh ==> b in s.lh || b == e.block)
            && (e.End? ==> |t.used| == |s.used| - 1 && t.lh == s.lh && (t.committing <==> |s.used| == 1))
            && (e.Installed? ==> t.lh == [] && t.committing)
            && (e.Finished? ==> t.lh == [] && !t.committing)
  {
    var t := Do(nlog, s, e).state;
    Extend(budget, nlog, s, e, t);
    ReachableInvariant(budget, nlog, s);
    ReachableInvariant(budget, nlog, t);
    ListedOnce(budget, nlog, t);
  }

  lemma {:induction false} ListedOnceAt(budget: nat, nlog: nat, run: seq<LogState>, i: nat)
    requires Run(budget, nlog, run) && i < |run|
    ensures Distinct(run[i].lh)
  {
    if i > 0 {
      ListedOnceAt(budget, nlog, run, i - 1);
      assert Step(budget, nlog, run[i - 1], run[i]);
    }
  }

  /** No block is listed twice. */
  lemma ListedOnce(budget: nat, nlog: nat, s: LogState)
    requires Reachable(budget, nlog, s)
    ensures Distinct(s.lh)
  {
    var run :| Run(budget, nlog, run) && run[|run| - 1] == s;
    ListedOnceAt(budget, nlog, run, |run| - 1);
  }

  /** k operations are in progress in some reachable state. */
  ghost predicate Together(budget: nat, nlog: nat, k: int) {
    exists s :: Reachable(budget, nlog, s) && s.outstanding == k
  }

  /** k operations that have logged nothing. */
  function Begun(k: nat): LogState { LogState([], k, false, seq(k, i => 0)) }

  lemma {:induction false} ReachBegun(budget: nat, nlog: nat, k: nat)
    requires k <= 3
    ensures Reachable(budget, nlog, Begun(k))
  {
    if k == 0 {
      assert Begun(0) == Boot && Run(budget, nlog, [Boot]);
    } else {
      ReachBegun(budget, nlog, k - 1);
      assert Begun(k).used == Begun(k - 1).used + [0];
      Extend(budget, nlog, Begun(k - 1), Begin, Begun(k));
    }
  }

  /** Exactly up to three operations can be in progress at once. */
  lemma TogetherExactly(budget: nat, nlog: nat, k: int)
    requires budget <= MAXOPBLOCKS
    ensures Together(budget, nlog, k) <==> 0 <= k <= 3
  {
    if 0 <= k <= 3 {
      ReachBegun(budget, nlog, k);
      assert Begun(k).outstanding == k;
    }
    if Together(budget, nlog, k) {
      var s :| Reachable(budget, nlog, s) && s.outstanding == k;
      AtMostThree(budget, nlog, s);
    }
  }

  lemma AtMostThree(budget: nat, nlog: nat, s: LogState)
    requires budget <= MAXOPBLOCKS && Reachable(budget, nlog, s)
    ensures 0 <= s.outstanding <= 3
  {
    var run :| Run(budget, nlog, run) && run[|run| - 1] == s;
    AtMostThreeAt(budget, nlog, run, |run| - 1);
  }

  lemma {:induction false} AtMostThreeAt(budget: nat, nlog: nat, run: seq<LogState>, i: nat)
    requires budget <= MAXOPBLOCKS && Run(budget, nlog, run) && i < |run|
    ensures 0 <= run[i].outstanding <= 3
  {
    RunInvariant(budget, nlog, run, i);
    if i > 0 {
      AtMostThreeAt(budget, nlog, run, i - 1);
      assert Step(budget, nlog, run[i - 1], run[i]);
    }
  }

  // ---- when log_write panics with "too big a transaction" --------------------------------

  /** Some run reaches a log_write that panics. */
  ghost predicate CanPanic(budget: nat, nlog: nat) {
    exists s, op: nat, block: nat ::
      Reachable(budget, nlog, s) && Enabled(budget, s, Write(op, block)) && Do(nlog, s, Write(op, block)).Panics?
  }

  /** The same for a log_write of a block that is not in the log yet. */
  ghost predicate CanPanicOnNew(budget: nat, nlog: nat) {
    exists s, op: nat, block: nat ::
      && Reachable(budget, nlog, s) && Enabled(budget, s, Write(op, block)) && block !in s.lh
      && Do(nlog, s, Write(op, block)).Panics?
  }

  lemma Extend(budget: nat, nlog: nat, s: LogState, e: Event, t: LogState)
    requires Reachable(budget, nlog, s) && Enabled(budget, s, e) && Do(nlog, s, e) == Moves(t)
    ensures Reachable(budget, nlog, t)
  {
    var run :| Run(budget, nlog, run) && run[|run| - 1] == s;
    var longer := run + [t];
    forall i | 0 <= i < |longer| - 1 ensures Step(budget, nlog, longer[i], longer[i + 1]) {
      if i < |run| - 1 {
        assert Step(budget, nlog, run[i], run[i + 1]);
      }
    }
    assert Run(budget, nlog, longer);
  }

  function Iota(n: nat): (r: seq<nat>)
    ensures |r| == n && forall i :: 0 <= i < n ==> r[i] == i
  {
    seq(n, i => i)
  }

  lemma IotaNext(n: nat)
    ensures Iota(n) + [n] == Iota(n + 1) && n !in Iota(n)
  {
  }

  /** One operation holds its reservation idle while short ones log k blocks. */
  function Idle(k: nat): LogState { LogState(Iota(k), 1, false, [0]) }

  lemma {:induction false} ReachIdle(budget: nat, nlog: nat, k: nat)
    requires 1 <= budget && k <= MAXOPBLOCKS && (k == 0 || k <= nlog - 1)
    ensures Reachable(budget, nlog, Idle(k))
  {
    if k == 0 {
      assert Run(budget, nlog, [Boot]);
      Extend(budget, nlog, Boot, Begin, Idle(0));
    } else {
      ReachIdle(budget, nlog, k - 1);
      IotaNext(k - 1);
      var a := LogState(Iota(k - 1), 2, false, [0, 0]);
      var b := LogState(Iota(k), 2, false, [0, 1]);
      Extend(budget, nlog, Idle(k - 1), Begin, a);
      Extend(budget, nlog, a, Write(1, k - 1), b);
      assert Without(b.used, 1) == [0];
      Extend(budget, nlog, b, End(1), Idle(k));
    }
  }

  /** Then a second one logs its j blocks. */
  function Second(j: nat): LogState { LogState(Iota(MAXOPBLOCKS + j), 2, false, [0, j]) }

  lemma {:induction false} ReachSecond(budget: nat, nlog: nat, j: nat)
    requires 1 <= budget <= MAXOPBLOCKS && j <= budget && MAXOPBLOCKS + j <= nlog - 1
    ensures Reachable(budget, nlog, Second(j))
  {
    if j == 0 {
      ReachIdle(budget, nlog, MAXOPBLOCKS);
      Extend(budget, nlog, Idle(MAXOPBLOCKS), Begin, Second(0));
    } else {
      ReachSecond(budget, nlog, j - 1);
      IotaNext(MAXOPBLOCKS + j - 1);
      Extend(budget, nlog, Second(j - 1), Write(1, MAXOPBLOCKS + j - 1), Second(j));
    }
  }

  /** And the idle one logs j. */
  function Last(budget: nat, j: nat): LogState {
    LogState(Iota(MAXOPBLOCKS + budget + j), 2, false, [j, budget])
  }

  lemma {:induction false} ReachLast(budget: nat, nlog: nat, j: nat)
    requires 1 <= budget <= MAXOPBLOCKS && j <= budget && MAXOPBLOCKS + budget + j <= nlog - 1
    ensures Reachable(budget, nlog, Last(budget, j))
  {
    if j == 0 {
      ReachSecond(budget, nlog, budget);
      assert Last(budget, 0) == Second(budget);
    } else {
      ReachLast(budget, nlog, j - 1);
      IotaNext(MAXOPBLOCKS + budget + j - 1);
      Extend(budget, nlog, Last(budget, j - 1), Write(0, MAXOPBLOCKS + budget + j - 1), Last(budget, j));
    }
  }

  /** The longest log on which log_write still works. */
  function Capacity(nlog: nat): int { if nlog - 1 < LOGSIZE then nlog - 1 else LOGSIZE }

  /** A run that fills the log to its capacity m, and a log_write of a new block on it. */
  lemma FillWithNew(budget: nat, nlog: nat, m: nat) returns (s: LogState, op: nat)
    requires 1 <= budget <= MAXOPBLOCKS && m < MAXOPBLOCKS + 2 * budget
    requires m <= nlog - 1 || m == 0
    ensures Reachable(budget, nlog, s) && |s.lh| == m && m !in s.lh
    ensures Enabled(budget, s, Write(op, m))
  {
    if m <= MAXOPBLOCKS {
      ReachIdle(budget, nlog, m);
      s, op := Idle(m), 0;
    } else if m <= MAXOPBLOCKS + budget {
      ReachSecond(budget, nlog, m - MAXOPBLOCKS);
      s, op := Second(m - MAXOPBLOCKS), 0;
    } else {
      ReachLast(budget, nlog, m - MAXOPBLOCKS - budget);
      s, op := Last(budget, m - MAXOPBLOCKS - budget), 0;
    }
  }

  /** log_write can panic exactly when a budget allows filling the log to its capacity: an
      absorbed write is refused there too, because the size check precedes the search. */
  lemma PanicExactly(budget: nat, nlog: nat)
    requires 1 <= budget <= MAXOPBLOCKS
    ensures CanPanic(budget, nlog) <==> Capacity(nlog) <= MAXOPBLOCKS + 2 * budget
  {
    if CanPanic(budget, nlog) {
      var s, op: nat, block: nat :| Reachable(budget, nlog, s) && Enabled(budget, s, Write(op, block))
          && Do(nlog, s, Write(op, block)).Panics?;
      ReachableInvariant(budget, nlog, s);
      UnusedBounds(budget, s.used);
    }
    var m := if Capacity(nlog) < 0 then 0 else Capacity(nlog);
    if m < MAXOPBLOCKS + 2 * budget {
      var s, op := FillWithNew(budget, nlog, m);
      assert Do(nlog, s, Write(op, m)).Panics?;
    } else if m == MAXOPBLOCKS + 2 * budget {
      ReachLast(budget, nlog, budget);
      var s := Last(budget, budget);
      assert s.lh[0] in s.lh;
      assert Enabled(budget, s, Write(0, s.lh[0])) && Do(nlog, s, Write(0, s.lh[0])).Panics?;
    }
  }

  /** Operations that use their whole reservation make log_write panic on every disk. With the
      30 log blocks that mkfs lays out, at most nine blocks per operation is exactly safe. */
  lemma PanicOnMkfsDisk(budget: nat, nlog: nat)
    requires 1 <= budget <= MAXOPBLOCKS
    ensures CanPanic(MAXOPBLOCKS, nlog)
    ensures CanPanic(budget, LOGSIZE) <==> budget == MAXOPBLOCKS
  {
    PanicExactly(MAXOPBLOCKS, nlog);
    PanicExactly(budget, LOGSIZE);
  }

  /** A block logged for the first time finds its reserved place. */
  lemma ReservedPlace(nlog: nat, s: LogState, op: nat, block: nat)
    requires Reachable(MAXOPBLOCKS, nlog, s) && Enabled(MAXOPBLOCKS, s, Write(op, block)) && block !in s.lh
    ensures |s.lh| < LOGSIZE && s.outstanding >= 1
  {
    ReachableInvariant(MAXOPBLOCKS, nlog, s);
    UnusedWrite(MAXOPBLOCKS, s.used, op);
    UnusedBounds(MAXOPBLOCKS, s.used[op := s.used[op] + 1]);
  }

  /** The reservation covers every block logged for the first time exactly when the log area is
      larger than LOGSIZE, which the 30 blocks of mkfs are not. */
  lemma NewBlockPanicsExactly(nlog: nat)
    ensures CanPanicOnNew(MAXOPBLOCKS, nlog) <==> nlog <= LOGSIZE
  {
    if CanPanicOnNew(MAXOPBLOCKS, nlog) {
      var s, op: nat, block: nat :|
        && Reachable(MAXOPBLOCKS, nlog, s) && Enabled(MAXOPBLOCKS, s, Write(op, block)) && block !in s.lh
        && Do(nlog, s, Write(op, block)).Panics?;
      ReservedPlace(nlog, s, op, block);
    }
    if nlog <= LOGSIZE {
      var m := if nlog == 0 then 0 else nlog - 1;
      var s, op := FillWithNew(MAXOPBLOCKS, nlog, m);
      assert Do(nlog, s, Write(op, m)).Panics?;
    }
  }
}
