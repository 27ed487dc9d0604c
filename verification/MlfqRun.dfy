/** A run of the scheduler that meets the bound of Mlfq.TopSoon: with one tick less, and a scheduler
    that never lags, a process of priority 1 can still be there. Process 0 forks eleven others; all of
    them use up the slice of queue 0 and go to sleep in queue 1, while process 0 sinks to queue 3. They
    are woken when it has just been dispatched there, so that they are not queued before its 15 ticks
    are over, and then run one after the other for 3 ticks each. The last one waits. */
module MlfqRun {
  import opened Common
  import opened Counting
  import opened Mlfq

  const CROWD := 12

  /** A run from s to s' without lag that leaves i, if given, RUNNABLE all along, in m ticks. */
  ghost predicate Along(ss: seq<State>, es: seq<Event>, s: State, s': State, i: Option<int>, m: nat) {
    && Run(ss, es) && ss[0] == s && ss[|es|] == s' && (i.Some? ==> LeftReady(ss, i.value, 0, |es|))
    && (forall k {:trigger es[k]} :: 0 <= k < |es| ==> !Late(ss[k], es[k])) && Ticks(es, 0, |es|) == m
  }

  ghost predicate Leads(s: State, s': State, i: Option<int>, m: nat) { exists ss, es :: Along(ss, es, s, s', i, m) }

  lemma Stays(s: State, i: Option<int>)
    requires i.Some? ==> IsReady(s, i.value)
    ensures Leads(s, s, i, 0)
  {
    assert Ticks([], 0, 0) == 0;
    assert Along([s], [], s, s, i, 0);
  }

  lemma OneStep(s: State, e: Event, s': State, i: Option<int>)
    requires Next(s, e, s') && !Late(s, e) && (i.Some? ==> IsReady(s, i.value) && IsReady(s', i.value))
    ensures Leads(s, s', i, if e.Tick? then 1 else 0)
  {
    var ss, es := [s, s'], [e];
    assert Ticks(es, 0, 1) == Ticks(es, 0, 0) + if e.Tick? then 1 else 0;
    assert Along(ss, es, s, s', i, if e.Tick? then 1 else 0);
  }

  lemma {:induction false} TicksPrefix(es: seq<Event>, fs: seq<Event>, n: nat)
    requires n <= |es|
    ensures Ticks(es + fs, 0, n) == Ticks(es, 0, n)
  {
    if n > 0 { TicksPrefix(es, fs, n - 1); }
  }

  lemma {:induction false} TicksSuffix(es: seq<Event>, fs: seq<Event>, n: nat)
    requires n <= |fs|
    ensures Ticks(es + fs, |es|, |es| + n) == Ticks(fs, 0, n)
  {
    if n > 0 {
      TicksSuffix(es, fs, n - 1);
      assert (es + fs)[|es| + n - 1] == fs[n - 1];
    }
  }

  /** The k-th step of one run after the other. */
  lemma JoinedStep(ss: seq<State>, es: seq<Event>, ts: seq<State>, fs: seq<Event>, k: nat)
    requires Run(ss, es) && Run(ts, fs) && ss[|es|] == ts[0] && k < |es| + |fs|
    requires forall n {:trigger es[n]} :: 0 <= n < |es| ==> !Late(ss[n], es[n])
    requires forall n {:trigger fs[n]} :: 0 <= n < |fs| ==> !Late(ts[n], fs[n])
    ensures var us, gs := ss + ts[1..], es + fs; Next(us[k], gs[k], us[k + 1]) && !Late(us[k], gs[k])
  {
    var us, gs := ss + ts[1..], es + fs;
    if k < |es| {
      assert gs[k] == es[k] && us[k] == ss[k] && us[k + 1] == ss[k + 1];
    } else {
      assert gs[k] == fs[k - |es|] && us[k] == ts[k - |es|] && us[k + 1] == ts[k - |es| + 1];
    }
  }

  lemma JoinedReady(ss: seq<State>, es: seq<Event>, ts: seq<State>, fs: seq<Event>, i: int)
    requires |ss| == |es| + 1 && |ts| == |fs| + 1 && ss[|es|] == ts[0] && LeftReady(ts, i, 0, |fs|)
    ensures LeftReady(ss + ts[1..], i, |es|, |es| + |fs|)
    ensures LeftReady(ss, i, 0, |es|) ==> LeftReady(ss + ts[1..], i, 0, |es| + |fs|)
  {
    var us := ss + ts[1..];
    forall k | |es| <= k <= |es| + |fs| ensures IsReady(us[k], i) {
      assert us[k] == ts[k - |es|] && IsReady(ts[k - |es|], i);
    }
    if LeftReady(ss, i, 0, |es|) {
      forall k | 0 <= k <= |es| ensures IsReady(us[k], i) { assert IsReady(ss[k], i); }
    }
  }

  lemma JoinedTicks(es: seq<Event>, fs: seq<Event>)
    ensures var gs := es + fs;
            && Ticks(gs, 0, |gs|) == Ticks(es, 0, |es|) + Ticks(fs, 0, |fs|)
            && Ticks(gs, |es|, |gs|) == Ticks(fs, 0, |fs|)
  {
    TicksPrefix(es, fs, |es|);
    TicksSuffix(es, fs, |fs|);
    TicksSplit(es + fs, 0, |es|, |es + fs|);
  }

  lemma JoinedRun(ss: seq<State>, es: seq<Event>, ts: seq<State>, fs: seq<Event>)
    requires Run(ss, es) && Run(ts, fs) && ss[|es|] == ts[0]
    requires forall n {:trigger es[n]} :: 0 <= n < |es| ==> !Late(ss[n], es[n])
    requires forall n {:trigger fs[n]} :: 0 <= n < |fs| ==> !Late(ts[n], fs[n])
    ensures var us, gs := ss + ts[1..], es + fs;
            Run(us, gs) && forall n {:trigger gs[n]} :: 0 <= n < |gs| ==> !Late(us[n], gs[n])
  {
    var us, gs := ss + ts[1..], es + fs;
    forall k | 0 <= k < |gs| ensures Next(us[k], gs[k], us[k + 1]) && !Late(us[k], gs[k]) {
      JoinedStep(ss, es, ts, fs, k);
    }
  }

  /** One run after the other. */
  lemma Joined(ss: seq<State>, es: seq<Event>, ts: seq<State>, fs: seq<Event>, s: State, t: State, u: State,
               i: Option<int>, j: Option<int>, m: nat, n: nat)
    requires Along(ss, es, s, t, i, m) && Along(ts, fs, t, u, j, n) && (i == j || i.None?)
    ensures var us, gs := ss + ts[1..], es + fs;
            && Along(us, gs, s, u, i, m + n)
            && us[|es|] == t && Ticks(gs, |es|, |gs|) == n && (j.Some? ==> LeftReady(us, j.value, |es|, |gs|))
  {
    JoinedRun(ss, es, ts, fs);
    if j.Some? { JoinedReady(ss, es, ts, fs, j.value); }
    JoinedTicks(es, fs);
  }

  lemma Then(s: State, t: State, u: State, i: Option<int>, m: nat, n: nat)
    requires Leads(s, t, i, m) && Leads(t, u, i, n)
    ensures Leads(s, u, i, m + n)
  {
    var ss, es :| Along(ss, es, s, t, i, m);
    var ts, fs :| Along(ts, fs, t, u, i, n);
    Joined(ss, es, ts, fs, s, t, u, i, i, m, n);
  }

  /** The state at tick t of processes that were all created at tick 0. */
  function At(t: int, ps: seq<Proc>, cur: Option<int>): State {
    State(t, ps, cur, seq(|ps|, k requires 0 <= k < |ps| => t - ps[k].rtime))
  }

  /** c runs; nobody else is due at tick t or waits in a higher queue. */
  ghost predicate Calm(t: int, ps: seq<Proc>, c: int) {
    && 0 <= c < |ps| && ps[c].state == RUNNING
    && forall j :: 0 <= j < |ps| && j != c ==>
         && ps[j].state in {RUNNABLE, SLEEPING} && !Due(ps[j], t) && (Waiting(ps[j]) ==> ps[j].pri >= ps[c].pri)
  }

  /** The process after another k ticks. */
  function Ran(p: Proc, k: int): Proc { p.(rtime := p.rtime + k, numTicks := p.numTicks + k) }

  /** And at the end of its slice. */
  function Sunk(p: Proc, k: int, t: int): Proc {
    Push(p.(rtime := p.rtime + k, state := RUNNABLE), Min(p.pri + 1, QUEUES - 1), t)
  }

  lemma TickCalm(t: int, ps: seq<Proc>, c: int)
    requires Calm(t + 1, ps, c)
    ensures var p := ps[c];
            if p.numTicks + 1 < Slice(p.pri)
            then Next(At(t, ps, Some(c)), Tick({}), At(t + 1, ps[c := Ran(p, 1)], Some(c)))
            else Next(At(t, ps, Some(c)), Tick({}), At(t + 1, ps[c := Sunk(p, 1, t + 1)], None))
  {
    var p := ps[c];
    var qs := ps[c := Ran(p, 1)];
    assert EachClocked(ps, qs, {}) && EachAged(qs, qs, t + 1);
    var over := p.numTicks + 1 >= Slice(p.pri);
    var s := At(t, ps, Some(c));
    var s' := if over then At(t + 1, ps[c := Sunk(p, 1, t + 1)], None) else At(t + 1, qs, Some(c));
    assert EachIdle(ps, s.idle, s'.idle);
    var r := State(t + 1, qs, Some(c), s'.idle);
    var down := Push(Remove(qs[c]), Min(p.pri + 1, QUEUES - 1), t + 1).(state := RUNNABLE);
    assert over ==> s'.procs == r.procs[c := down];
    assert Returned(r, true, s');
  }

  /** i is not c and RUNNABLE, if given. */
  predicate Bystander(ps: seq<Proc>, c: int, i: Option<int>) {
    i.Some? ==> i.value != c && 0 <= i.value < |ps| && ps[i.value].state == RUNNABLE
  }

  /** c runs for k ticks of its slice. */
  lemma {:induction false} RunsOn(t: int, ps: seq<Proc>, c: int, k: nat, i: Option<int>)
    requires Calm(t + k, ps, c) && Calm(t, ps, c) && ps[c].numTicks + k < Slice(ps[c].pri) && Bystander(ps, c, i)
    ensures Leads(At(t, ps, Some(c)), At(t + k, ps[c := Ran(ps[c], k)], Some(c)), i, k)
  {
    var s := At(t, ps, Some(c));
    if k == 0 {
      assert ps[c := Ran(ps[c], 0)] == ps;
      Stays(s, i);
    } else {
      RunsOn(t, ps, c, k - 1, i);
      var qs := ps[c := Ran(ps[c], k - 1)];
      var u, s' := At(t + k - 1, qs, Some(c)), At(t + k, ps[c := Ran(ps[c], k)], Some(c));
      TickCalm(t + k - 1, qs, c);
      assert qs[c := Ran(qs[c], 1)] == ps[c := Ran(ps[c], k)];
      OneStep(u, Tick({}), s', i);
      Then(s, u, s', i, k - 1, 1);
    }
  }

  /** c uses up its slice and sinks to the next queue. */
  lemma RunsOut(t: int, ps: seq<Proc>, c: int, k: nat, i: Option<int>)
    requires k > 0 && Calm(t + k, ps, c) && Calm(t, ps, c) && ps[c].numTicks + k == Slice(ps[c].pri)
    requires Bystander(ps, c, i)
    ensures Leads(At(t, ps, Some(c)), At(t + k, ps[c := Sunk(ps[c], k, t + k)], None), i, k)
  {
    RunsOn(t, ps, c, k - 1, i);
    var qs := ps[c := Ran(ps[c], k - 1)];
    var s, u, s' := At(t, ps, Some(c)), At(t + k - 1, qs, Some(c)), At(t + k, ps[c := Sunk(ps[c], k, t + k)], None);
    TickCalm(t + k - 1, qs, c);
    assert qs[c := Sunk(qs[c], 1, t + k)] == ps[c := Sunk(ps[c], k, t + k)];
    OneStep(u, Tick({}), s', i);
    Then(s, u, s', i, k - 1, 1);
  }

  /** A pass that dispatches c. */
  lemma PassTo(t: int, ps: seq<Proc>, qs: seq<Proc>, c: int, i: Option<int>)
    requires EachTidied(ps, qs, t) && Chosen(qs, c) && Bystander(ps, c, i)
    requires forall k :: 0 <= k < |ps| ==> qs[k].rtime == ps[k].rtime
    ensures Leads(At(t, ps, None), At(t, qs[c := qs[c].(state := RUNNING)], Some(c)), i, 0)
  {
    var s, s' := At(t, ps, None), At(t, qs[c := qs[c].(state := RUNNING)], Some(c));
    assert s'.idle == s.idle;
    assert Dispatched(qs, s'.procs, s'.cur);
    OneStep(s, Pass, s', i);
  }

  /** The slice of c, and the pass that dispatches d. */
  lemma Turn(t: int, ps: seq<Proc>, c: int, k: nat, qs: seq<Proc>, d: int, i: Option<int>)
    requires k > 0 && Calm(t + k, ps, c) && Calm(t, ps, c) && ps[c].numTicks + k == Slice(ps[c].pri)
    requires EachTidied(ps[c := Sunk(ps[c], k, t + k)], qs, t + k) && Chosen(qs, d)
    requires Bystander(ps, c, i) && Bystander(ps[c := Sunk(ps[c], k, t + k)], d, i)
    ensures Leads(At(t, ps, Some(c)), At(t + k, qs[d := qs[d].(state := RUNNING)], Some(d)), i, k)
  {
    var rs := ps[c := Sunk(ps[c], k, t + k)];
    RunsOut(t, ps, c, k, i);
    PassTo(t + k, rs, qs, d, i);
    Then(At(t, ps, Some(c)), At(t + k, rs, None), At(t + k, qs[d := qs[d].(state := RUNNING)], Some(d)), i, k, 0);
  }

  // ---- the history ------------------------------------------------------------------------

  const COLD := Proc(UNUSED, 0, false, 0, 0, 0, 0, 0)

  /** Waiting in queue pri since tick t, having run for r ticks. */
  function Queued(pri: int, t: int, r: int): Proc { Proc(RUNNABLE, pri, true, t, 0, r, 0, 0) }

  datatype Stage =
    | Forked(k: int)        // process 0 has forked the processes below k
    | First(k: int)         // the processes below k have had their tick in queue 0
    | Asleep(k: int)        // process 0 has left queue 1, and the other processes below k are asleep
    | Deep(state: PState)   // process 0 has come to queue 3, the others are in the given state
    | Served(k: int)        // the processes from 1 to k have had their slice in queue 1

  function Entry(g: Stage, j: int): Proc {
    match g
    case Forked(k) => if j < k then Queued(0, 0, 0) else COLD
    case First(k) => if j < k then Queued(1, j + 1, 1) else Queued(0, 0, 0)
    case Asleep(k) =>
      if j == 0 then Queued(2, CROWD + 3, 4)
      else if j < k then Proc(SLEEPING, 1, false, 0, 0, 1, 0, 0) else Queued(1, j + 1, 1)
    case Deep(state) => if j == 0 then Queued(3, CROWD + 12, 13) else Proc(state, 1, false, 0, 0, 1, 0, 0)
    case Served(k) =>
      if j == 0 then Queued(3, CROWD + 27, 28)
      else if j < k then Queued(2, CROWD + 27 + 3 * j, 4) else Queued(1, CROWD + 27, 1)
  }

  function Crowd(g: Stage): (ps: seq<Proc>)
    ensures |ps| == CROWD && forall j :: 0 <= j < CROWD ==> ps[j] == Entry(g, j)
  {
    seq(CROWD, j => Entry(g, j))
  }

  function Running(g: Stage, c: nat): seq<Proc>
    requires c < CROWD
  {
    Crowd(g)[c := Entry(g, c).(state := RUNNING)]
  }

  /** Process c runs at tick t. */
  function On(t: int, g: Stage, c: nat): State
    requires c < CROWD
  {
    At(t, Running(g, c), Some(c))
  }

  /** allocproc and the end of fork, or userinit, at tick 0. */
  lemma Fork(ps: seq<Proc>, k: nat, cur: Option<int>)
    requires k < |ps| && ps[k] == COLD
    ensures Leads(At(0, ps, cur), At(0, ps[k := Queued(0, 0, 0)], cur), None, 0)
  {
    var s, u, s' := At(0, ps, cur), At(0, ps[k := COLD.(state := USED)], cur), At(0, ps[k := Queued(0, 0, 0)], cur);
    assert s.idle[k := 0] == u.idle == s'.idle;
    assert s'.procs == u.procs[k := Push(u.procs[k].(state := RUNNABLE), 0, 0)];
    OneStep(s, Alloc(k), u, None);
    OneStep(u, Ready(k), s', None);
    Then(s, u, s', None, 0, 0);
  }

  lemma {:induction false} ForkStage(k: nat)
    requires 1 <= k <= CROWD
    ensures Leads(On(0, Forked(1), 0), On(0, Forked(k), 0), None, 0)
  {
    var s := On(0, Forked(1), 0);
    if k == 1 {
      Stays(s, None);
    } else {
      ForkStage(k - 1);
      var ps := Running(Forked(k - 1), 0);
      Fork(ps, k - 1, Some(0));
      assert ps[k - 1 := Queued(0, 0, 0)] == Running(Forked(k), 0);
      Then(s, On(0, Forked(k - 1), 0), On(0, Forked(k), 0), None, 0, 0);
    }
  }

  lemma BootStage()
    ensures Leads(At(0, Crowd(Forked(0)), None), On(0, Forked(1), 0), None, 0)
  {
    Fork(Crowd(Forked(0)), 0, None);
    assert Crowd(Forked(0))[0 := Queued(0, 0, 0)] == Crowd(Forked(1));
    PassTo(0, Crowd(Forked(1)), Crowd(Forked(1)), 0, None);
    Then(At(0, Crowd(Forked(0)), None), At(0, Crowd(Forked(1)), None), On(0, Forked(1), 0), None, 0, 0);
  }

  lemma FirstTurn(k: nat)
    requires k < CROWD
    ensures var d := if k + 1 < CROWD then k + 1 else 0;
            Leads(On(k, First(k), k), On(k + 1, First(k + 1), d), None, 1)
  {
    var ps, d := Running(First(k), k), if k + 1 < CROWD then k + 1 else 0;
    assert ps[k := Sunk(ps[k], 1, k + 1)] == Crowd(First(k + 1));
    Turn(k, ps, k, 1, Crowd(First(k + 1)), d, None);
  }

  lemma {:induction false} FirstStage(k: nat)
    requires k < CROWD
    ensures Leads(On(0, First(0), 0), On(k, First(k), k), None, k)
  {
    var s := On(0, First(0), 0);
    if k == 0 {
      Stays(s, None);
    } else {
      FirstStage(k - 1);
      FirstTurn(k - 1);
      Then(s, On(k - 1, First(k - 1), k - 1), On(k, First(k), k), None, k - 1, 1);
    }
  }

  lemma FallsAsleep(k: nat)
    requires 1 <= k < CROWD
    ensures var d := if k + 1 < CROWD then k + 1 else 0;
            Leads(On(CROWD + 3, Asleep(k), k), On(CROWD + 3, Asleep(k + 1), d), None, 0)
  {
    var d := if k + 1 < CROWD then k + 1 else 0;
    var s := On(CROWD + 3, Asleep(k), k);
    var u := At(CROWD + 3, s.procs[k := s.procs[k].(state := SLEEPING)], None);
    assert s.idle == u.idle;
    OneStep(s, Sleep, u, None);
    assert EachTidied(u.procs, Crowd(Asleep(k + 1)), CROWD + 3);
    PassTo(CROWD + 3, u.procs, Crowd(Asleep(k + 1)), d, None);
    Then(s, u, On(CROWD + 3, Asleep(k + 1), d), None, 0, 0);
  }

  lemma {:induction false} SleepStage(k: nat)
    requires 1 <= k < CROWD
    ensures Leads(On(CROWD + 3, Asleep(1), 1), On(CROWD + 3, Asleep(k), k), None, 0)
  {
    var s := On(CROWD + 3, Asleep(1), 1);
    if k == 1 {
      Stays(s, None);
    } else {
      SleepStage(k - 1);
      FallsAsleep(k - 1);
      Then(s, On(CROWD + 3, Asleep(k - 1), k - 1), On(CROWD + 3, Asleep(k), k), None, 0, 0);
    }
  }

  /** Process 0 uses up its slices of queue 1 and of queue 2. */
  lemma SinkOnce()
    ensures Leads(On(CROWD, First(CROWD), 0), On(CROWD + 3, Asleep(1), 1), None, 3)
  {
    var ps := Running(First(CROWD), 0);
    assert ps[0 := Sunk(ps[0], 3, CROWD + 3)] == Crowd(Asleep(1));
    Turn(CROWD, ps, 0, 3, Crowd(Asleep(1)), 1, None);
  }

  lemma SinkTwice()
    ensures Leads(On(CROWD + 3, Asleep(CROWD), 0), On(CROWD + 12, Deep(SLEEPING), 0), None, 9)
  {
    var ps := Running(Asleep(CROWD), 0);
    assert ps[0 := Sunk(ps[0], 9, CROWD + 12)] == Crowd(Deep(SLEEPING));
    Turn(CROWD + 3, ps, 0, 9, Crowd(Deep(SLEEPING)), 0, None);
  }

  /** Process 0 has been dispatched in queue 3, and the others have just been woken. */
  function Roused(): State { On(CROWD + 12, Deep(RUNNABLE), 0) }

  /** Process 10 has run for two of its three ticks. */
  function Finish(): State {
    At(CROWD + 56, Running(Served(10), 10)[10 := Ran(Running(Served(10), 10)[10], 2)], Some(10))
  }

  lemma Rouse()
    ensures Leads(On(CROWD + 12, Deep(SLEEPING), 0), Roused(), None, 0)
  {
    var s, s' := On(CROWD + 12, Deep(SLEEPING), 0), Roused();
    var woken := Upto(CROWD) - {0};
    assert s.idle == s'.idle && EachWoken(s.procs, s'.procs, woken);
    OneStep(s, Wakeup(woken), s', None);
  }

  /** The slice of process 0 in queue 3, and the pass that queues the others. */
  lemma LongTurn()
    ensures Leads(Roused(), On(CROWD + 27, Served(1), 1), Some(11), 15)
  {
    var ps := Running(Deep(RUNNABLE), 0);
    assert EachTidied(ps[0 := Sunk(ps[0], 15, CROWD + 27)], Crowd(Served(1)), CROWD + 27);
    Turn(CROWD + 12, ps, 0, 15, Crowd(Served(1)), 1, Some(11));
  }

  lemma {:induction false} ServeStage(k: nat)
    requires 1 <= k <= 10
    ensures Leads(On(CROWD + 27, Served(1), 1), On(CROWD + 24 + 3 * k, Served(k), k), Some(11), 3 * k - 3)
  {
    var s := On(CROWD + 27, Served(1), 1);
    if k == 1 {
      Stays(s, Some(11));
    } else {
      ServeStage(k - 1);
      ServeTurn(k - 1);
      Then(s, On(CROWD + 21 + 3 * k, Served(k - 1), k - 1), On(CROWD + 24 + 3 * k, Served(k), k),
           Some(11), 3 * k - 6, 3);
    }
  }

  lemma ServeTurn(k: nat)
    requires 1 <= k <= 9
    ensures Leads(On(CROWD + 24 + 3 * k, Served(k), k),
                  On(CROWD + 27 + 3 * k, Served(k + 1), k + 1), Some(11), 3)
  {
    var ps, t := Running(Served(k), k), CROWD + 24 + 3 * k;
    assert ps[k := Sunk(ps[k], 3, t + 3)] == Crowd(Served(k + 1));
    Turn(t, ps, k, 3, Crowd(Served(k + 1)), k + 1, Some(11));
  }

  /** Up to the wakeup. */
  lemma Prelude()
    ensures exists m: nat :: Leads(At(0, Crowd(Forked(0)), None), Roused(), None, m)
  {
    var s := At(0, Crowd(Forked(0)), None);
    BootStage();
    ForkStage(CROWD);
    Then(s, On(0, Forked(1), 0), On(0, Forked(CROWD), 0), None, 0, 0);
    assert Crowd(Forked(CROWD)) == Crowd(First(0));
    FirstStage(CROWD - 1);
    Then(s, On(0, First(0), 0), On(CROWD - 1, First(CROWD - 1), CROWD - 1), None, 0, CROWD - 1);
    FirstTurn(CROWD - 1);
    Then(s, On(CROWD - 1, First(CROWD - 1), CROWD - 1), On(CROWD, First(CROWD), 0), None, CROWD - 1, 1);
    SinkOnce();
    Then(s, On(CROWD, First(CROWD), 0), On(CROWD + 3, Asleep(1), 1), None, CROWD, 3);
    Sinking(s);
  }

  lemma Sinking(s: State)
    requires Leads(s, On(CROWD + 3, Asleep(1), 1), None, CROWD + 3)
    ensures Leads(s, Roused(), None, CROWD + 12)
  {
    SleepStage(CROWD - 1);
    Then(s, On(CROWD + 3, Asleep(1), 1), On(CROWD + 3, Asleep(CROWD - 1), CROWD - 1), None, CROWD + 3, 0);
    FallsAsleep(CROWD - 1);
    Then(s, On(CROWD + 3, Asleep(CROWD - 1), CROWD - 1), On(CROWD + 3, Asleep(CROWD), 0), None, CROWD + 3, 0);
    SinkTwice();
    Then(s, On(CROWD + 3, Asleep(CROWD), 0), On(CROWD + 12, Deep(SLEEPING), 0), None, CROWD + 3, 9);
    Rouse();
    Then(s, On(CROWD + 12, Deep(SLEEPING), 0), Roused(), None, CROWD + 12, 0);
  }

  lemma Ends()
    ensures IsReady(Roused(), 11) && Roused().procs[11].pri == 1 && IsReady(Finish(), 11) && Finish().procs[11].pri == 1
    ensures Boot(At(0, Crowd(Forked(0)), None))
  {
    assert Roused().procs[11] == Crowd(Deep(RUNNABLE))[11] && Finish().procs[11] == Crowd(Served(10))[11];
  }

  /** From the wakeup on. */
  lemma LongWait()
    ensures Leads(Roused(), Finish(), Some(11), 44)
  {
    var s, t, u := Roused(), On(CROWD + 27, Served(1), 1), On(CROWD + 54, Served(10), 10);
    LongTurn();
    ServeStage(10);
    Then(s, t, u, Some(11), 15, 27);
    RunsOn(CROWD + 54, Running(Served(10), 10), 10, 2, Some(11));
    Then(s, u, Finish(), Some(11), 42, 2);
  }

  lemma {:induction false} NeverLate(ss: seq<State>, es: seq<Event>, a: nat, n: nat)
    requires |ss| == |es| + 1 && a <= n <= |es| && forall k {:trigger es[k]} :: 0 <= k < |es| ==> !Late(ss[k], es[k])
    ensures LateTicks(ss, es, a, n) == 0
  {
    if n > a {
      NeverLate(ss, es, a, n - 1);
      assert !Late(ss[n - 1], es[n - 1]);
    }
  }

  /** A run from boot, without any lag, in which a process of priority 1 is left RUNNABLE for one
      tick less than TopSoon allows, and still has priority 1. */
  lemma WokenTooLate() returns (ss: seq<State>, es: seq<Event>, a: nat, i: int)
    ensures Run(ss, es) && Boot(ss[0]) && Prompt(ss, es, 0) && a <= |es| && LeftReady(ss, i, a, |es|)
    ensures IsReady(ss[a], i) && ss[a].procs[i].pri == 1 && IsReady(ss[|es|], i) && ss[|es|].procs[i].pri == 1
    ensures Ticks(es, a, |es|) == 1 * AGING + Slice(3) - 1
  {
    var s := At(0, Crowd(Forked(0)), None);
    Prelude();
    LongWait();
    Ends();
    var m: nat :| Leads(s, Roused(), None, m);
    var ps, ds :| Along(ps, ds, s, Roused(), None, m);
    var qs, fs :| Along(qs, fs, Roused(), Finish(), Some(11), 44);
    Joined(ps, ds, qs, fs, s, Roused(), Finish(), None, Some(11), m, 44);
    ss, es, a, i := ps + qs[1..], ds + fs, |ds|, 11;
    forall b: nat, n: nat | b <= n <= |es| ensures LateTicks(ss, es, b, n) <= 0 { NeverLate(ss, es, b, n); }
  }
}
