/** The multi-level feedback queue scheduler (kernel/mlfq.c, the MLFQ parts of kernel/proc.c and
    kernel/trap.c) on one CPU: the scheduler's pass and an interrupt handler are atomic steps. */
module Mlfq {
  import opened Common

  const QUEUES := 4
  const AGING := 30

  /** MLFQ_TICKS0 to MLFQ_TICKS3. */
  function Slice(pri: int): int {
    if pri == 1 then 3 else if pri == 2 then 9 else if pri == 3 then 15 else 1
  }

  datatype PState = UNUSED | USED | SLEEPING | RUNNABLE | RUNNING | ZOMBIE
  datatype Proc = Proc(state: PState, pri: int, inQueue: bool, intime: int, numTicks: int, rtime: int, ctime: int,
                       etime: int)

  function Push(p: Proc, q: int, ticks: int): Proc { p.(pri := q, inQueue := true, intime := ticks, numTicks := 0) }
  function Remove(p: Proc): Proc { p.(inQueue := false, intime := 0, numTicks := 0) }

  predicate Due(p: Proc, ticks: int) { ticks - p.intime >= AGING && p.inQueue && p.state == RUNNABLE }

  /** The boost for having waited too long. */
  function Aged(p: Proc, ticks: int): Proc {
    if Due(p, ticks) then Push(Remove(p), Max(p.pri - 1, 0), ticks) else p
  }

  /** What the scheduler does to one process before it chooses. */
  function Tidied(p: Proc, ticks: int): Proc {
    if Due(p, ticks) then Aged(p, ticks)
    else if p.state == RUNNABLE && !p.inQueue then Push(p, p.pri, ticks)
    else if p.state == ZOMBIE || p.state == SLEEPING then Remove(p)
    else p
  }

  function Charged(p: Proc): Proc {
    if p.state == RUNNING then p.(rtime := p.rtime + 1, numTicks := p.numTicks + 1) else p
  }

  function Woken(p: Proc, wake: bool): Proc {
    if wake && p.state == SLEEPING then p.(state := RUNNABLE) else p
  }

  // ---- the state machine -----------------------------------------------------------------

  /** idle counts, for each process, the ticks that it has lived through without running. */
  datatype State = State(ticks: int, procs: seq<Proc>, cur: Option<int>, idle: seq<int>)

  ghost predicate EachAged(a: seq<Proc>, b: seq<Proc>, ticks: int) {
    |b| == |a| && forall i :: 0 <= i < |a| ==> b[i] == Aged(a[i], ticks)
  }

  ghost predicate EachTidied(a: seq<Proc>, b: seq<Proc>, ticks: int) {
    |b| == |a| && forall i :: 0 <= i < |a| ==> b[i] == Tidied(a[i], ticks)
  }

  /** clockintr: update_time, then wakeup(&ticks) for the sleepers in woken. */
  ghost predicate EachClocked(a: seq<Proc>, b: seq<Proc>, woken: set<int>) {
    |b| == |a| && forall i :: 0 <= i < |a| ==> b[i] == Woken(Charged(a[i]), i in woken)
  }

  ghost predicate EachWoken(a: seq<Proc>, b: seq<Proc>, woken: set<int>) {
    |b| == |a| && forall i :: 0 <= i < |a| ==> b[i] == Woken(a[i], i in woken)
  }

  ghost predicate EachIdle(a: seq<Proc>, idle: seq<int>, idle': seq<int>) {
    |idle| == |idle'| == |a| && forall i :: 0 <= i < |a| ==>
      idle'[i] == if a[i].state in {USED, SLEEPING, RUNNABLE} then idle[i] + 1 else idle[i]
  }

  predicate Waiting(p: Proc) { p.state == RUNNABLE && p.inQueue }

  /** p goes before q: lower queue, or the same queue and longer in it. */
  predicate Before(p: Proc, q: Proc) { p.pri < q.pri || (p.pri == q.pri && p.intime <= q.intime) }

  /** i is the process to run: no waiting process goes before it, and of several the first. */
  ghost predicate Chosen(ps: seq<Proc>, i: int) {
    && 0 <= i < |ps| && Waiting(ps[i])
    && forall j :: 0 <= j < |ps| && Waiting(ps[j]) ==> Before(ps[i], ps[j]) && (j < i ==> !Before(ps[j], ps[i]))
  }

  /** The preemption check: somebody waits in a higher queue. */
  ghost predicate Beaten(ps: seq<Proc>, pri: int) {
    exists j :: 0 <= j < |ps| && Waiting(ps[j]) && 0 <= ps[j].pri < pri
  }

  /** After aging: slice check on a timer interrupt, then preemption check. */
  ghost predicate Returned(s: State, timer: bool, s': State) {
    if s.cur.None? then s' == s
    else
      var c := s.cur.value;
      0 <= c < |s.procs| &&
      var p := s.procs[c];
      if timer && p.state == RUNNING && p.numTicks >= Slice(p.pri) then
        s' == s.(cur := None,
                 procs := s.procs[c := Push(Remove(p), Min(p.pri + 1, QUEUES - 1), s.ticks).(state := RUNNABLE)])
      else if Beaten(s.procs, p.pri) then s' == s.(cur := None, procs := s.procs[c := p.(state := RUNNABLE)])
      else s' == s
  }

  datatype Event =
    | Pass                            // one turn of the scheduler's loop
    | Tick(woken: set<int>)           // timer interrupt
    | Device(woken: set<int>)         // other interrupt, taken in the kernel
    | Wakeup(woken: set<int>)         // wakeup or kill
    | Sleep
    | Exit
    | Alloc(i: int)                   // allocproc
    | Ready(i: int)                   // end of fork, or userinit
    | Reap(i: int)                    // freeproc

  /** One step of the machine; see Does. */
  ghost predicate Next(s: State, e: Event, s': State) {
    forall n {:trigger Open(n)} :: Open(n) ==> Does(s, e, s')
  }

  ghost predicate Does(s: State, e: Event, s': State) {
    match e
    case Pass =>
      s.cur.None? && s'.ticks == s.ticks && s'.idle == s.idle &&
      exists ps :: EachTidied(s.procs, ps, s.ticks) && Dispatched(ps, s'.procs, s'.cur)
    case Tick(woken) =>
      s'.ticks == s.ticks + 1 && EachIdle(s.procs, s.idle, s'.idle) &&
      exists ps, qs :: EachClocked(s.procs, ps, woken) && EachAged(ps, qs, s'.ticks)
        && Returned(State(s'.ticks, qs, s.cur, s'.idle), true, s')
    case Device(woken) =>
      exists ps, qs :: EachWoken(s.procs, ps, woken) && EachAged(ps, qs, s.ticks)
        && Returned(s.(procs := qs), false, s')
    case Wakeup(woken) => s' == s.(procs := s'.procs) && EachWoken(s.procs, s'.procs, woken)
    case Sleep => s.cur.Some? && 0 <= s.cur.value < |s.procs|
      && s' == s.(cur := None, procs := s.procs[s.cur.value := s.procs[s.cur.value].(state := SLEEPING)])
    case Exit =>
      s.cur.Some? && 0 <= s.cur.value < |s.procs| &&
      s' == s.(cur := None, procs := s.procs[s.cur.value := s.procs[s.cur.value].(state := ZOMBIE, etime := s.ticks)])
    case Alloc(i) =>
      0 <= i < |s.procs| && |s.idle| == |s.procs| && s.procs[i].state == UNUSED &&
      s' == s.(procs := s.procs[i := s.procs[i].(state := USED, rtime := 0, etime := 0, ctime := s.ticks)],
               idle := s.idle[i := 0])
    case Ready(i) =>
      0 <= i < |s.procs| && s.procs[i].state == USED
        && s' == s.(procs := s.procs[i := Push(s.procs[i].(state := RUNNABLE), 0, s.ticks)])
    case Reap(i) =>
      0 <= i < |s.procs| && s.procs[i].state in {USED, ZOMBIE} &&
      s' == s.(procs := s.procs[i := s.procs[i].(state := UNUSED, pri := 0, inQueue := false, intime := 0,
                                                 numTicks := 0)])
  }

  /** The end of the pass: the chosen process runs, if there is one. */
  ghost predicate Dispatched(ps: seq<Proc>, ps': seq<Proc>, cur: Option<int>) {
    if exists i :: Chosen(ps, i) then cur.Some? && Chosen(ps, cur.value)
      && ps' == ps[cur.value := ps[cur.value].(state := RUNNING)]
    else cur.None? && ps' == ps
  }

  // ---- what every step keeps -------------------------------------------------------------

  /** Everything but the slice. */
  predicate ProcOk(p: Proc, ticks: int, idle: int, running: bool) {
    && 0 <= p.pri < QUEUES && 0 <= p.numTicks && 0 <= p.intime <= ticks && (p.state == RUNNING <==> running)
    && (p.state != UNUSED ==>
        0 <= p.rtime && 0 <= idle && p.rtime + idle == (if p.state == ZOMBIE then p.etime else ticks) - p.ctime)
  }

  predicate ProcInv(s: State, i: int)
    requires 0 <= i < |s.procs| && |s.idle| == |s.procs|
  {
    ProcOk(s.procs[i], s.ticks, s.idle[i], s.cur == Some(i)) && s.procs[i].numTicks < Slice(s.procs[i].pri)
  }

  ghost predicate Inv(s: State) {
    && |s.idle| == |s.procs| && s.ticks >= 0
    && (s.cur.Some? ==> 0 <= s.cur.value < |s.procs|)
    && forall i :: 0 <= i < |s.procs| ==> ProcInv(s, i)
  }

  /** What the slice check and the preemption check find after a timer interrupt: the running
      process may have used up its slice, everybody else is in order. */
  lemma ReturnKeeps(s: State, timer: bool, s': State)
    requires |s.idle| == |s.procs| && s.ticks >= 0 && (s.cur.Some? ==> 0 <= s.cur.value < |s.procs|)
    requires forall i :: 0 <= i < |s.procs| ==> ProcOk(s.procs[i], s.ticks, s.idle[i], s.cur == Some(i))
    requires forall i :: 0 <= i < |s.procs| ==>
             s.procs[i].numTicks < Slice(s.procs[i].pri) || (timer && s.cur == Some(i))
    requires Returned(s, timer, s')
    ensures Inv(s')
  {
    forall i | 0 <= i < |s.procs| ensures |s'.procs| == |s.procs| == |s'.idle| && ProcInv(s', i) {
      assert ProcOk(s.procs[i], s.ticks, s.idle[i], s.cur == Some(i));
    }
  }

  lemma TickKeeps(s: State, woken: set<int>, s': State)
    requires Inv(s) && Next(s, Tick(woken), s')
    ensures Inv(s')
  {
    assert Open(0);
    var ps: seq<Proc>, qs: seq<Proc> :|
      EachClocked(s.procs, ps, woken) && EachAged(ps, qs, s'.ticks)
        && Returned(State(s'.ticks, qs, s.cur, s'.idle), true, s');
    forall i | 0 <= i < |qs|
      ensures ProcOk(qs[i], s'.ticks, s'.idle[i], s.cur == Some(i))
              && (qs[i].numTicks < Slice(qs[i].pri) || s.cur == Some(i))
    {
      assert ProcInv(s, i);
    }
    ReturnKeeps(State(s'.ticks, qs, s.cur, s'.idle), true, s');
  }

  lemma DeviceKeeps(s: State, woken: set<int>, s': State)
    requires Inv(s) && Next(s, Device(woken), s')
    ensures Inv(s')
  {
    assert Open(0);
    var ps: seq<Proc>, qs: seq<Proc> :| EachWoken(s.procs, ps, woken) && EachAged(ps, qs, s.ticks)
        && Returned(s.(procs := qs), false, s');
    forall i | 0 <= i < |qs|
      ensures ProcOk(qs[i], s.ticks, s.idle[i], s.cur == Some(i)) && qs[i].numTicks < Slice(qs[i].pri) {
      assert ProcInv(s, i);
    }
    ReturnKeeps(s.(procs := qs), false, s');
  }

  lemma StepKeeps(s: State, e: Event, s': State)
    requires Inv(s) && Next(s, e, s')
    ensures Inv(s')
  {
    assert Open(0);
    if e.Tick? {
      TickKeeps(s, e.woken, s');
    } else if e.Device? {
      DeviceKeeps(s, e.woken, s');
    } else {
      forall i | 0 <= i < |s.procs| ensures |s'.procs| == |s.procs| == |s'.idle| && ProcInv(s', i) {
        assert ProcInv(s, i);
      }
    }
  }

  ghost predicate Run(ss: seq<State>, es: seq<Event>) {
    |ss| == |es| + 1 && forall k {:trigger es[k]} :: 0 <= k < |es| ==> Next(ss[k], es[k], ss[k + 1])
  }

  /** curr_pri stays in 0 to 3, num_ticks below the slice, and running plus idle ticks are the
      lifetime, in every state of every run. */
  lemma {:induction false} RunKeeps(ss: seq<State>, es: seq<Event>, n: nat)
    requires Run(ss, es) && Inv(ss[0]) && n < |ss|
    ensures Inv(ss[n])
  {
    if n > 0 {
      RunKeeps(ss, es, n - 1);
      StepKeeps(ss[n - 1], es[n - 1], ss[n]);
    }
  }

  /** The boot state: an empty process table. */
  predicate Boot(s: State) {
    && s.ticks == 0 && s.cur.None? && |s.idle| == |s.procs|
    && forall i :: 0 <= i < |s.procs| ==> s.procs[i] == Proc(UNUSED, 0, false, 0, 0, 0, 0, 0)
  }

  /** waitx: the waiting time of an exited process, etime - ctime - rtime, is the number of ticks
      that it has lived through without running; the unsigned subtraction never wraps. */
  lemma WaitTime(ss: seq<State>, es: seq<Event>, k: nat, i: int)
    requires Run(ss, es) && Boot(ss[0]) && k < |ss| && 0 <= i < |ss[k].procs| && ss[k].procs[i].state == ZOMBIE
    ensures |ss[k].idle| == |ss[k].procs|
    ensures var p := ss[k].procs[i]; p.etime - p.ctime - p.rtime == ss[k].idle[i] >= 0 && p.rtime >= 0
  {
    RunKeeps(ss, es, k);
    assert ProcInv(ss[k], i);
  }

  // ---- dispatch --------------------------------------------------------------------------

  /** After a pass: every process that is ready is queued and has not waited for AGING_TIME = 30 ticks;
      the one that runs had a lower curr_pri than each of them, or the same and no later intime (an
      earlier one than those before it in the table); and one runs if one was ready. */
  lemma PassResult(s: State, s': State)
    requires Inv(s) && Next(s, Pass, s')
    ensures s'.cur.Some? ==> 0 <= s'.cur.value < |s'.procs|
    ensures forall i :: 0 <= i < |s'.procs| && s'.procs[i].state == RUNNABLE ==>
              && s'.procs[i].inQueue && s'.ticks - s'.procs[i].intime < 30 && s'.cur.Some?
              && var c, p, q := s'.cur.value, s'.procs[s'.cur.value], s'.procs[i];
                 || p.pri < q.pri
                 || (p.pri == q.pri && if i < c then p.intime < q.intime else p.intime <= q.intime)
    ensures s'.cur.Some? <==> exists i :: 0 <= i < |s.procs| && s.procs[i].state == RUNNABLE
  {
    assert Open(0);
    var ps: seq<Proc> :| EachTidied(s.procs, ps, s.ticks) && Dispatched(ps, s'.procs, s'.cur);
    forall i | 0 <= i < |ps| && s.procs[i].state == RUNNABLE ensures Waiting(ps[i]) && exists c :: Chosen(ps, c) {
      SomeChosen(ps, i);
    }
    forall i | 0 <= i < |ps| ensures ProcInv(s, i) && (s.procs[i].state == RUNNABLE <==> ps[i].state == RUNNABLE) {}
    if s'.cur.Some? { assert s.procs[s'.cur.value].state == RUNNABLE; }
  }

  /** Some waiting process is chosen if there is one. */
  lemma SomeChosen(ps: seq<Proc>, i: int)
    requires 0 <= i < |ps| && Waiting(ps[i])
    ensures exists c :: Chosen(ps, c)
  {
    var c := LeastUpto(ps, |ps|, i);
    assert Chosen(ps, c);
  }

  /** The first of the waiting processes below n that go before all others below n. */
  lemma {:induction false} LeastUpto(ps: seq<Proc>, n: int, i: int) returns (c: int)
    requires 0 <= i < n <= |ps| && Waiting(ps[i])
    ensures 0 <= c < n && Waiting(ps[c]) && forall j :: 0 <= j < n && Waiting(ps[j]) ==>
            Before(ps[c], ps[j]) && (j < c ==> !Before(ps[j], ps[c]))
    decreases n
  {
    if j :| 0 <= j < n - 1 && Waiting(ps[j]) {
      c := LeastUpto(ps, n - 1, j);
      if Waiting(ps[n - 1]) && !Before(ps[c], ps[n - 1]) { c := n - 1; }
    } else {
      c := n - 1;
    }
  }

  /** A process that was preempted or demoted and goes on after its yield runs the preemption check
      next: it never has to yield again at once. */
  lemma ResumedStays(s: State, s': State)
    requires Inv(s) && Next(s, Pass, s') && s'.cur.Some?
    ensures 0 <= s'.cur.value < |s'.procs| && !Ahead(s'.procs, s'.procs[s'.cur.value].pri)
  {
    PassResult(s, s');
  }

  // ---- interrupts ------------------------------------------------------------------------

  /** Somebody is ready in a queue above pri. */
  ghost predicate Ahead(ps: seq<Proc>, pri: int) {
    exists j :: 0 <= j < |ps| && ps[j].state == RUNNABLE && ps[j].inQueue && ps[j].pri < pri
  }

  /** The checks of the handler in state r, which has its clock and queues up to date. */
  lemma ReturnedDoes(r: State, timer: bool, s': State, c: int)
    requires Returned(r, timer, s') && r.cur == Some(c) && 0 <= c < |r.procs| && r.procs[c].state == RUNNING
    requires forall j :: 0 <= j < |r.procs| ==> 0 <= r.procs[j].pri
    ensures |s'.procs| == |r.procs| && s'.ticks == r.ticks
    ensures var p := r.procs[c];
            if timer && p.numTicks >= Slice(p.pri) then
              s'.cur == None && s'.procs[c] == Push(Remove(p), Min(p.pri + 1, QUEUES - 1), r.ticks).(state := RUNNABLE)
            else
              && s'.procs[c] == p.(state := if s'.cur == None then RUNNABLE else RUNNING)
              && (if Ahead(s'.procs, p.pri) then s'.cur == None else s'.cur == Some(c))
  {
    var p := r.procs[c];
    if !(timer && p.numTicks >= Slice(p.pri)) {
      forall j | 0 <= j < |r.procs| && j != c ensures s'.procs[j] == r.procs[j] {}
      assert s'.procs[c].pri == p.pri;
    }
  }

  lemma TickDoes(s: State, woken: set<int>, s': State, c: int) returns (r: State)
    requires Inv(s) && Next(s, Tick(woken), s') && s.cur == Some(c)
    ensures 0 <= c < |r.procs| == |s.procs| && r.cur == Some(c) && r.ticks == s.ticks + 1
            && r.procs[c] == Charged(s.procs[c])
    ensures Returned(r, true, s') && forall j :: 0 <= j < |r.procs| ==> 0 <= r.procs[j].pri
  {
    assert Open(0);
    var ps: seq<Proc>, qs: seq<Proc> :|
      EachClocked(s.procs, ps, woken) && EachAged(ps, qs, s'.ticks)
        && Returned(State(s'.ticks, qs, s.cur, s'.idle), true, s');
    forall j | 0 <= j < |qs| ensures 0 <= qs[j].pri { assert ProcInv(s, j); }
    assert ProcInv(s, c);
    r := State(s'.ticks, qs, s.cur, s'.idle);
  }

  lemma DeviceDoes(s: State, woken: set<int>, s': State, c: int) returns (r: State)
    requires Inv(s) && Next(s, Device(woken), s') && s.cur == Some(c)
    ensures 0 <= c < |r.procs| == |s.procs| && r.cur == Some(c) && r.ticks == s.ticks && r.procs[c] == s.procs[c]
    ensures Returned(r, false, s') && forall j :: 0 <= j < |r.procs| ==> 0 <= r.procs[j].pri
  {
    assert Open(0);
    var ps: seq<Proc>, qs: seq<Proc> :| EachWoken(s.procs, ps, woken) && EachAged(ps, qs, s.ticks)
        && Returned(s.(procs := qs), false, s');
    forall j | 0 <= j < |qs| ensures 0 <= qs[j].pri { assert ProcInv(s, j); }
    assert ProcInv(s, c);
    r := s.(procs := qs);
  }

  /** What an interrupt makes of the running process c. On a timer interrupt that ends its slice it
      goes to the back of the next queue. Otherwise it keeps its place, and it leaves the CPU exactly
      if then somebody is ready in a higher queue. */
  lemma Interrupted(s: State, e: Event, s': State, c: int)
    requires Inv(s) && Next(s, e, s') && (e.Tick? || e.Device?) && s.cur == Some(c)
    ensures 0 <= c < |s'.procs| == |s.procs| && (s'.cur == Some(c) || s'.cur == None)
    ensures var p, q, tick := s.procs[c], s'.procs[c], if e.Tick? then 1 else 0;
            0 <= p.pri < 4 && q.state == (if s'.cur == None then RUNNABLE else RUNNING) && q.rtime == p.rtime + tick &&
            if e.Tick? && p.numTicks + 1 >= [1, 3, 9, 15][p.pri] then
              && s'.cur == None && q.inQueue && q.pri == (if p.pri < 3 then p.pri + 1 else 3)
              && q.intime == s.ticks + 1 && q.numTicks == 0
            else
              && q.inQueue == p.inQueue && q.pri == p.pri && q.intime == p.intime && q.numTicks == p.numTicks + tick
              && (s'.cur == None <==> exists j :: 0 <= j < |s'.procs| && s'.procs[j].state == RUNNABLE
                                                  && s'.procs[j].inQueue && s'.procs[j].pri < q.pri)
  {
    assert ProcInv(s, c);
    var r;
    if e.Tick? { r := TickDoes(s, e.woken, s', c); } else { r := DeviceDoes(s, e.woken, s', c); }
    ReturnedDoes(r, e.Tick?, s', c);
  }

  /** What an interrupt or a wakeup makes of any other process: a sleeper that it is for becomes
      RUNNABLE, and an interrupt moves up who has been in a queue for 30 ticks. */
  lemma Bystanders(s: State, e: Event, s': State, j: int)
    requires Inv(s) && Next(s, e, s') && (e.Tick? || e.Device? || e.Wakeup?) && 0 <= j < |s.procs| && s.cur != Some(j)
    ensures |s'.procs| == |s.procs|
    ensures var p, q := s.procs[j], s'.procs[j];
            && q.state == (if p.state == SLEEPING && j in e.woken then RUNNABLE else p.state)
            && q.rtime == p.rtime && q.ctime == p.ctime && q.etime == p.etime
            && if !e.Wakeup? && q.state == RUNNABLE && p.inQueue && s'.ticks - p.intime >= 30
               then q.inQueue && q.pri == (if p.pri > 0 then p.pri - 1 else 0) && q.intime == s'.ticks
                    && q.numTicks == 0
               else q.inQueue == p.inQueue && q.pri == p.pri && q.intime == p.intime && q.numTicks == p.numTicks
  {
    assert Open(0);
    assert ProcInv(s, j);
  }

  /** What a pass makes of a process, apart from dispatching it. */
  lemma PassDoes(s: State, s': State, j: int)
    requires Inv(s) && Next(s, Pass, s') && 0 <= j < |s.procs|
    ensures |s'.procs| == |s.procs| && s'.ticks == s.ticks && s'.idle == s.idle
    ensures var p, q := s.procs[j], s'.procs[j];
            && q.state == (if s'.cur == Some(j) then RUNNING else p.state)
            && (s'.cur == Some(j) ==> p.state == RUNNABLE)
            && q.rtime == p.rtime && q.ctime == p.ctime && q.etime == p.etime
            && if p.state == RUNNABLE && p.inQueue && s.ticks - p.intime >= 30
               then q.inQueue && q.pri == (if p.pri > 0 then p.pri - 1 else 0) && q.intime == s.ticks && q.numTicks == 0
               else if p.state == RUNNABLE && !p.inQueue
               then q.inQueue && q.pri == p.pri && q.intime == s.ticks && q.numTicks == 0
               else if p.state in {SLEEPING, ZOMBIE}
               then !q.inQueue && q.pri == p.pri && q.intime == 0 && q.numTicks == 0
               else q.inQueue == p.inQueue && q.pri == p.pri && q.intime == p.intime && q.numTicks == p.numTicks
  {
    assert Open(0);
    assert ProcInv(s, j);
  }

  // ---- aging -----------------------------------------------------------------------------

  /** The timer interrupts among the events from a to n. */
  function Ticks(es: seq<Event>, a: nat, n: nat): nat
    requires a <= n <= |es|
  {
    if n == a then 0 else Ticks(es, a, n - 1) + if es[n - 1].Tick? then 1 else 0
  }

  /** Process i is RUNNABLE. */
  predicate IsReady(s: State, i: int) { 0 <= i < |s.procs| && s.procs[i].state == RUNNABLE }

  /** Process i is left RUNNABLE from the a-th to the n-th state: nobody dispatches it. */
  ghost predicate LeftReady(ss: seq<State>, i: int, a: nat, n: nat) {
    n < |ss| && forall k {:trigger IsReady(ss[k], i)} :: a <= k <= n ==> IsReady(ss[k], i)
  }

  /** Process i waits in the queue of priority pri and has done so for age ticks. */
  predicate InQueueFor(s: State, i: int, pri: int, age: int) {
    0 <= i < |s.procs| && Waiting(s.procs[i]) && s.procs[i].pri == pri && s.ticks - s.procs[i].intime == age
  }

  lemma WaitStep(s: State, e: Event, s': State, i: int, pri: int, age: int)
    requires Inv(s) && Next(s, e, s') && InQueueFor(s, i, pri, age) && 0 <= age < AGING && IsReady(s', i)
    ensures InQueueFor(s', i, if e.Tick? && age + 1 == AGING then Max(pri - 1, 0) else pri,
                       if !e.Tick? then age else if age + 1 == AGING then 0 else age + 1)
  {
    assert Open(0);
    assert ProcInv(s, i);
  }

  lemma Climb(pri: int, t: nat)
    ensures (t + 1) / AGING == t / AGING + (if t % AGING + 1 == AGING then 1 else 0)
    ensures (t + 1) % AGING == if t % AGING + 1 == AGING then 0 else t % AGING + 1
    ensures t % AGING + 1 == AGING ==> Max(Max(0, pri - t / AGING) - 1, 0) == Max(0, pri - (t + 1) / AGING)
  {
  }

  /** i has waited for t ticks since it was in the queue of priority pri. */
  predicate Risen(s: State, i: int, pri: int, t: nat) { InQueueFor(s, i, Max(0, pri - t / AGING), t % AGING) }

  lemma RisenStart(s: State, i: int, pri: int, age: nat)
    requires Inv(s) && InQueueFor(s, i, pri, age) && age < AGING
    ensures Risen(s, i, pri, age)
  {
    assert ProcInv(s, i);
  }

  lemma WaitedOn(s: State, e: Event, s': State, i: int, pri: int, t: nat)
    requires Inv(s) && Next(s, e, s') && Risen(s, i, pri, t) && IsReady(s', i)
    ensures Risen(s', i, pri, if e.Tick? then t + 1 else t)
  {
    WaitStep(s, e, s', i, Max(0, pri - t / AGING), t % AGING);
    Climb(pri, t);
  }

  /** However the others behave, a process that is left waiting rises one queue every AGING ticks
      until it is in queue 0: the closed form of its priority and its age. */
  lemma {:induction false} Aging(ss: seq<State>, es: seq<Event>, a: nat, n: nat, i: int, pri: int, age: nat)
    requires Run(ss, es) && Inv(ss[0]) && a <= n && LeftReady(ss, i, a, n)
    requires InQueueFor(ss[a], i, pri, age) && age < AGING
    ensures Risen(ss[n], i, pri, age + Ticks(es, a, n))
  {
    RunKeeps(ss, es, if n == a then a else n - 1);
    if n == a {
      RisenStart(ss[a], i, pri, age);
    } else {
      Aging(ss, es, a, n - 1, i, pri, age);
      assert IsReady(ss[n], i) && Next(ss[n - 1], es[n - 1], ss[n]);
      WaitedOn(ss[n - 1], es[n - 1], ss[n], i, pri, age + Ticks(es, a, n - 1));
    }
  }

  /** So it is in queue 0 after pri * AGING ticks at the latest, and not before. */
  lemma ReachesTop(ss: seq<State>, es: seq<Event>, a: nat, n: nat, i: int, pri: int, age: nat)
    requires Run(ss, es) && Inv(ss[0]) && a <= n && LeftReady(ss, i, a, n)
    requires InQueueFor(ss[a], i, pri, age) && age < AGING
    ensures 0 <= i < |ss[n].procs| && (ss[n].procs[i].pri == 0 <==> age + Ticks(es, a, n) >= pri * AGING)
  {
    Aging(ss, es, a, n, i, pri, age);
    RunKeeps(ss, es, a);
    assert ProcInv(ss[a], i);
  }

  // A RUNNABLE process need not be in that position: one that has just been woken is not queued,
  // and one that has just been preempted may have been queued AGING ticks ago or earlier.

  /** The process is queued, and not so long ago that it is due for a boost. */
  predicate Settled(s: State, i: int) { IsReady(s, i) && s.procs[i].inQueue && s.ticks - s.procs[i].intime < AGING }

  /** The event at which a RUNNABLE process that is not settled becomes so: a pass queues it, and
      if it is queued already, any look at the queues boosts it. */
  predicate Settles(p: Proc, e: Event) { e.Pass? || (p.inQueue && (e.Tick? || e.Device?)) }

  /** The queue that it then is in. */
  function SettledPri(p: Proc): int { if p.inQueue then Max(p.pri - 1, 0) else p.pri }

  lemma SettleStep(s: State, e: Event, s': State, i: int)
    requires Inv(s) && Next(s, e, s') && IsReady(s, i) && !Settled(s, i) && IsReady(s', i)
    ensures if Settles(s.procs[i], e) then InQueueFor(s', i, SettledPri(s.procs[i]), 0)
            else s'.procs[i] == s.procs[i] && !Settled(s', i)
  {
    assert Open(0);
    assert ProcInv(s, i);
  }

  /** The first of the n events at which p becomes settled, or n. */
  function FirstSettles(p: Proc, es: seq<Event>, n: nat): (m: nat)
    requires n <= |es|
    ensures m <= n && (m < n ==> Settles(p, es[m])) && forall k :: 0 <= k < m ==> !Settles(p, es[k])
  {
    if n == 0 then 0
    else
      var m := FirstSettles(p, es, n - 1);
      if m < n - 1 || Settles(p, es[n - 1]) then m else n
  }

  /** Until then nothing happens to the process. */
  lemma {:induction false} Unsettled(ss: seq<State>, es: seq<Event>, n: nat, i: int)
    requires Run(ss, es) && Inv(ss[0]) && LeftReady(ss, i, 0, n) && IsReady(ss[0], i) && !Settled(ss[0], i)
    requires forall k :: 0 <= k < n ==> !Settles(ss[0].procs[i], es[k])
    ensures IsReady(ss[n], i) && ss[n].procs[i] == ss[0].procs[i] && !Settled(ss[n], i)
  {
    assert IsReady(ss[n], i);
    if n > 0 {
      Unsettled(ss, es, n - 1, i);
      RunKeeps(ss, es, n - 1);
      assert Next(ss[n - 1], es[n - 1], ss[n]);
      SettleStep(ss[n - 1], es[n - 1], ss[n], i);
    }
  }

  /** The whole wait of a process that is left RUNNABLE and not settled at first: its entry is
      unchanged up to event m, and after that its priority is given by the ticks since m alone. It
      is in queue 0 if and only if it was there all along or enough ticks have passed since m. */
  lemma Waits(ss: seq<State>, es: seq<Event>, n: nat, i: int)
    requires Run(ss, es) && Inv(ss[0]) && LeftReady(ss, i, 0, n) && IsReady(ss[0], i) && !Settled(ss[0], i)
    ensures IsReady(ss[n], i)
    ensures var p, m := ss[0].procs[i], FirstSettles(ss[0].procs[i], es, n);
            if m == n then ss[n].procs[i] == p
            else
              && Risen(ss[n], i, SettledPri(p), Ticks(es, m + 1, n))
              && (ss[n].procs[i].pri == 0 <==> Ticks(es, m + 1, n) >= SettledPri(p) * AGING)
  {
    var p, m := ss[0].procs[i], FirstSettles(ss[0].procs[i], es, n);
    Unsettled(ss, es, m, i);
    if m < n {
      RunKeeps(ss, es, m);
      assert IsReady(ss[m + 1], i) && Next(ss[m], es[m], ss[m + 1]);
      SettleStep(ss[m], es[m], ss[m + 1], i);
      Aging(ss, es, m + 1, n, i, SettledPri(p), 0);
      ReachesTop(ss, es, m + 1, n, i, SettledPri(p), 0);
    }
  }

  // ---- how long it takes until the next pass ----------------------------------------------

  /** A timer interrupt that finds no process on the CPU although somebody is RUNNABLE: the
      scheduler's loop has not come round yet. */
  ghost predicate Late(s: State, e: Event) { e.Tick? && s.cur.None? && exists j :: IsReady(s, j) }

  ghost function LateTicks(ss: seq<State>, es: seq<Event>, a: nat, n: nat): nat
    requires a <= n <= |es| < |ss|
  {
    if n == a then 0 else LateTicks(ss, es, a, n - 1) + if Late(ss[n - 1], es[n - 1]) then 1 else 0
  }

  predicate NoPass(es: seq<Event>, a: nat, n: nat)
    requires a <= n <= |es|
  {
    forall k :: a <= k < n ==> !es[k].Pass?
  }

  /** At most lag ticks go by until the scheduler, having nobody on the CPU, has turned its loop. */
  ghost predicate Prompt(ss: seq<State>, es: seq<Event>, lag: nat) {
    |ss| == |es| + 1 && forall a: nat, n: nat {:trigger LateTicks(ss, es, a, n)} ::
      a <= n <= |es| && NoPass(es, a, n) ==> LateTicks(ss, es, a, n) <= lag
  }

  /** The ticks that the running process has left of its slice. */
  function Left(s: State): int {
    if s.cur.Some? && 0 <= s.cur.value < |s.procs|
    then Slice(s.procs[s.cur.value].pri) - s.procs[s.cur.value].numTicks else 0
  }

  /** Without a pass nobody comes to the CPU, and a tick that finds a process there uses up its
      slice. */
  lemma LeftStep(s: State, e: Event, s': State)
    requires Inv(s) && Next(s, e, s') && !e.Pass?
    ensures 0 <= Left(s) <= Slice(3) && Left(s') + (if e.Tick? && s.cur.Some? then 1 else 0) <= Left(s)
    ensures 0 <= Left(s')
  {
    assert Open(0);
    StepKeeps(s, e, s');
    if s.cur.Some? { assert ProcInv(s, s.cur.value); }
    if s'.cur.Some? { assert ProcInv(s', s'.cur.value); }
  }

  /** While a process is left RUNNABLE, the ticks before the next pass are at most what the running
      process has left, and the late ones. */
  lemma {:induction false} PassSoon(ss: seq<State>, es: seq<Event>, a: nat, n: nat, i: int)
    requires Run(ss, es) && Inv(ss[0]) && a <= n <= |es| && LeftReady(ss, i, a, n) && NoPass(es, a, n)
    ensures Ticks(es, a, n) + Left(ss[n]) <= Left(ss[a]) + LateTicks(ss, es, a, n)
    ensures 0 <= Left(ss[n]) && Left(ss[a]) <= Slice(3)
  {
    RunKeeps(ss, es, n);
    if n > a {
      PassSoon(ss, es, a, n - 1, i);
      RunKeeps(ss, es, n - 1);
      assert IsReady(ss[n - 1], i) && Next(ss[n - 1], es[n - 1], ss[n]);
      LeftStep(ss[n - 1], es[n - 1], ss[n]);
    } else if ss[n].cur.Some? {
      assert ProcInv(ss[n], ss[n].cur.value);
    }
  }

  lemma {:induction false} TicksSplit(es: seq<Event>, a: nat, m: nat, n: nat)
    requires a <= m <= n <= |es|
    ensures Ticks(es, a, n) == Ticks(es, a, m) + Ticks(es, m, n)
  {
    if n > m { TicksSplit(es, a, m, n - 1); }
  }

  /** Before its first boost a queued process that is overdue sees no tick. */
  lemma {:induction false} NoTicks(es: seq<Event>, n: nat)
    requires n <= |es| && forall k :: 0 <= k < n ==> !es[k].Tick?
    ensures Ticks(es, 0, n) == 0
  {
    if n > 0 { NoTicks(es, n - 1); }
  }

  /** A process that is left RUNNABLE, in whatever position it is at first, is in queue 0 after
      pri * AGING + 15 ticks, and the scheduler's lag, at the latest. */
  lemma TopSoon(ss: seq<State>, es: seq<Event>, n: nat, i: int, lag: nat)
    requires Run(ss, es) && Inv(ss[0]) && LeftReady(ss, i, 0, n) && IsReady(ss[0], i) && Prompt(ss, es, lag)
    ensures IsReady(ss[n], i)
    ensures Ticks(es, 0, n) >= ss[0].procs[i].pri * AGING + Slice(3) + lag ==> ss[n].procs[i].pri == 0
  {
    var p := ss[0].procs[i];
    assert IsReady(ss[n], i) && ProcInv(ss[0], i);
    if Settled(ss[0], i) {
      ReachesTop(ss, es, 0, n, i, p.pri, ss[0].ticks - p.intime);
    } else {
      Waits(ss, es, n, i);
      var m := FirstSettles(p, es, n);
      TicksSplit(es, 0, m, n);
      if p.inQueue {
        NoTicks(es, m);
      } else {
        PassSoon(ss, es, 0, m, i);
        assert LateTicks(ss, es, 0, m) <= lag;
      }
      if m < n { TicksSplit(es, m, m + 1, n); }
    }
  }

  // ---- the code --------------------------------------------------------------------------

  class Kernel {
    var ticks: int
    var procs: seq<Proc>
    var cur: Option<int>
    ghost var idle: seq<int>

    ghost function S(): State
      reads this
    {
      State(ticks, procs, cur, idle)
    }

    /** The loop of the scheduler over the process table. */
    method Tidy()
      modifies `procs
      ensures EachTidied(old(procs), procs, ticks)
    {
      var i := 0;
      while i < |procs|
        invariant 0 <= i <= |procs| == |old(procs)|
        invariant forall k :: 0 <= k < |procs| ==>
                  procs[k] == if k < i then Tidied(old(procs)[k], ticks) else old(procs)[k]
      {
        var p := procs[i];
        if ticks - p.intime >= AGING && p.inQueue && p.state == RUNNABLE {
          procs := procs[i := Push(Remove(p), Max(p.pri - 1, 0), ticks)];
        } else {
          if p.state == RUNNABLE && !p.inQueue { p := Push(p, p.pri, ticks); }
          if p.state == ZOMBIE || p.state == SLEEPING { p := Remove(p); }
          procs := procs[i := p];
        }
        i := i + 1;
      }
    }

    /** topmost: the process of queue q that was queued first; -1 if the queue is empty. */
    method Topmost(q: int) returns (first: int)
      ensures first == -1 ==> forall j :: 0 <= j < |procs| && Waiting(procs[j]) ==> procs[j].pri != q
      ensures first != -1 ==>
                && 0 <= first < |procs| && Waiting(procs[first]) && procs[first].pri == q
                && forall j :: 0 <= j < |procs| && Waiting(procs[j]) && procs[j].pri == q ==>
                     procs[first].intime <= procs[j].intime && (j < first ==> procs[first].intime < procs[j].intime)
    {
      first := -1;
      var i := 0;
      while i < |procs|
        invariant 0 <= i <= |procs| && -1 <= first < i
        invariant first == -1 ==> forall j :: 0 <= j < i && Waiting(procs[j]) ==> procs[j].pri != q
        invariant first != -1 ==>
                    && Waiting(procs[first]) && procs[first].pri == q
                    && forall j :: 0 <= j < i && Waiting(procs[j]) && procs[j].pri == q ==>
                         procs[first].intime <= procs[j].intime && (j < first ==> procs[first].intime < procs[j].intime)
      {
        if procs[i].inQueue && procs[i].pri == q && procs[i].state == RUNNABLE {
          if first == -1 || procs[first].intime > procs[i].intime {
            first := i;
          }
        }
        i := i + 1;
      }
    }

    /** The search through the queues: the process to run, or -1 if none is waiting. */
    method Choose() returns (next: int)
      requires forall j :: 0 <= j < |procs| ==> 0 <= procs[j].pri < QUEUES
      ensures next == -1 ==> forall j :: 0 <= j < |procs| ==> !Waiting(procs[j])
      ensures next != -1 ==> Chosen(procs, next)
    {
      next := -1;
      var q := 0;
      while q < QUEUES
        invariant 0 <= q <= QUEUES
        invariant forall j :: 0 <= j < |procs| && Waiting(procs[j]) ==> procs[j].pri >= q
      {
        next := Topmost(q);
        if next != -1 { return; }
        q := q + 1;
      }
      next := -1;
    }

    /** One turn of the scheduler, up to the switch to the chosen process. */
    method Scheduler()
      requires Inv(S()) && cur.None?
      modifies `procs, `cur
      ensures Next(old(S()), Pass, S())
    {
      forall i | 0 <= i < |procs| ensures 0 <= procs[i].pri < QUEUES { assert ProcInv(S(), i); }
      Tidy();
      ghost var ps := procs;
      var next := Choose();
      if next == -1 {
        assert !exists i :: Chosen(ps, i);
        return;
      }
      procs := procs[next := procs[next].(state := RUNNING)];
      cur := Some(next);
    }

    /** clockintr. */
    method Clockintr(woken: set<int>)
      requires |idle| == |procs|
      modifies `ticks, `procs, `idle
      ensures ticks == old(ticks) + 1 && EachClocked(old(procs), procs, woken) && EachIdle(old(procs), old(idle), idle)
    {
      ticks := ticks + 1;
      UpdateTime();
      Wake(woken);
    }

    /** wakeup, woken being the processes that sleep on its channel. */
    method Wake(woken: set<int>)
      modifies `procs
      ensures EachWoken(old(procs), procs, woken)
    {
      var i := 0;
      while i < |procs|
        invariant 0 <= i <= |procs| == |old(procs)|
        invariant forall k :: 0 <= k < |procs| ==> procs[k] == Woken(old(procs)[k], k < i && k in woken)
      {
        if procs[i].state == SLEEPING && i in woken {
          procs := procs[i := procs[i].(state := RUNNABLE)];
        }
        i := i + 1;
      }
    }

    /** update_time. */
    method UpdateTime()
      requires |idle| == |procs|
      modifies `procs, `idle
      ensures |procs| == |old(procs)| && (forall k :: 0 <= k < |procs| ==> procs[k] == Charged(old(procs)[k]))
      ensures EachIdle(old(procs), old(idle), idle)
    {
      var i := 0;
      while i < |procs|
        invariant 0 <= i <= |procs| == |old(procs)| == |idle|
        invariant forall k :: 0 <= k < |procs| ==> procs[k] == if k < i then Charged(old(procs)[k]) else old(procs)[k]
        invariant forall k :: 0 <= k < |procs| ==>
                    idle[k] == if k < i && old(procs)[k].state in {USED, SLEEPING, RUNNABLE} then old(idle)[k] + 1
                      else old(idle)[k]
      {
        if procs[i].state == RUNNING {
          procs := procs[i := procs[i].(rtime := procs[i].rtime + 1, numTicks := procs[i].numTicks + 1)];
        } else if procs[i].state in {USED, SLEEPING, RUNNABLE} {
          idle := idle[i := idle[i] + 1];
        }
        i := i + 1;
      }
    }

    /** The aging loop of the interrupt handlers. */
    method Boost()
      modifies `procs
      ensures EachAged(old(procs), procs, ticks)
    {
      var i := 0;
      while i < |procs|
        invariant 0 <= i <= |procs| == |old(procs)|
        invariant forall k :: 0 <= k < |procs| ==>
                  procs[k] == if k < i then Aged(old(procs)[k], ticks) else old(procs)[k]
      {
        var p := procs[i];
        if ticks - p.intime >= AGING && p.inQueue && p.state == RUNNABLE {
          procs := procs[i := Push(Remove(p), Max(p.pri - 1, 0), ticks)];
        }
        i := i + 1;
      }
    }

    /** The preemption check: one queue after the other. */
    method Preempted(pri: int) returns (flag: bool)
      ensures flag <==> Beaten(procs, pri)
    {
      var q := 0;
      while q < pri
        invariant 0 <= q && (q <= pri || pri < 0)
        invariant !Beaten(procs, q)
      {
        var i := 0;
        while i < |procs|
          invariant 0 <= i <= |procs|
          invariant forall j :: 0 <= j < i && Waiting(procs[j]) ==> procs[j].pri != q
        {
          if procs[i].state == RUNNABLE && procs[i].inQueue && procs[i].pri == q {
            return true;
          }
          i := i + 1;
        }
        q := q + 1;
      }
      flag := false;
    }

    /** The end of the handlers: slice check and preemption check of the interrupted process. */
    method Return(timer: bool)
      requires cur.Some? ==> 0 <= cur.value < |procs|
      modifies `procs, `cur
      ensures Returned(old(S()), timer, S())
    {
      if cur.None? { return; }
      var c := cur.value;
      var p := procs[c];
      if timer && p.state == RUNNING {
        if p.numTicks >= Slice(p.pri) {
          procs := procs[c := Push(Remove(p), Min(p.pri + 1, QUEUES - 1), ticks).(state := RUNNABLE)];
          cur := None;
          return;
        }
      }
      var flag := Preempted(p.pri);
      if flag {
        procs := procs[c := p.(state := RUNNABLE)];
        cur := None;
      }
    }

    /** A timer interrupt in user or kernel mode. */
    method Timer(woken: set<int>)
      requires Inv(S())
      modifies this
      ensures Next(old(S()), Tick(woken), S())
    {
      Clockintr(woken);
      Boost();
      Return(true);
    }

    /** Another interrupt in kernel mode, whose driver wakes some sleepers. */
    method Interrupt(woken: set<int>)
      requires Inv(S())
      modifies this
      ensures Next(old(S()), Device(woken), S())
    {
      Wake(woken);
      Boost();
      Return(false);
    }
  }
}
