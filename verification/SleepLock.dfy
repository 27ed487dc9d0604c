/** A sleep lock (kernel/sleeplock.c) over sleep, wakeup, kill and yield (kernel/proc.c) and the
    round-robin dispatch, for any number of processes and CPUs: each spinlock operation and each
    write to shared data is a step of its own, and the steps interleave freely. */
module SleepLock {
  import opened Common

  datatype PState = SLEEPING | RUNNABLE | RUNNING
  datatype Chan = NoChan | TheLock | Other
  datatype Holder = Nobody | By(who: int) | Scheduler

  /** The next instruction of a process. Where a routine is entered from several places, back is
      where it returns to. */
  datatype Pc =
    | Idle | Inside                                            // without and with the sleep lock
    | AcqEnter | AcqTest | AcqSet | AcqPid | AcqLeave          // acquiresleep
    | SlpLock | SlpRelease                                     // sleep(lk, &lk->lk)
    | SlpOther(back: Pc)                                       // sleep on another channel
    | SlpChan(c: Chan, back: Pc) | SlpState(c: Chan, back: Pc) | SlpSwitch(c: Chan, back: Pc)
    | SlpResume(c: Chan, back: Pc) | SlpUnlock(back: Pc)
    | SlpRegain
    | RelEnter | RelClear | RelPid | RelLeave                  // releasesleep
    | WakeLock(k: int) | WakeTest(k: int) | WakeUnlock(k: int) // wakeup(lk)
    | KillLock(k: int, back: Pc) | KillTest(k: int, back: Pc) | KillUnlock(k: int, back: Pc)
    | YldLock(back: Pc) | YldState(back: Pc) | YldSwitch(back: Pc) | YldUnlock(back: Pc)

  /** exec: the process is on a CPU. */
  datatype Proc = Proc(state: PState, chan: Chan, plock: Holder, exec: bool, pc: Pc)

  /** lk: who holds the inner spinlock. owner: the process that locked was set for. */
  datatype Sys = Sys(procs: seq<Proc>, lk: Option<int>, locked: bool, pid: Option<int>, owner: Option<int>)

  predicate Is(s: Sys, i: int) { 0 <= i < |s.procs| }

  function Go(s: Sys, i: int, pc: Pc): Sys
    requires Is(s, i)
  {
    s.(procs := s.procs[i := s.procs[i].(pc := pc)])
  }

  function Plock(s: Sys, i: int, h: Holder): Sys
    requires Is(s, i)
  {
    s.(procs := s.procs[i := s.procs[i].(plock := h)])
  }

  function Wake(s: Sys, i: int): Sys
    requires Is(s, i)
  {
    s.(procs := s.procs[i := s.procs[i].(state := RUNNABLE)])
  }

  /** Where a process without a spinlock can be interrupted by the timer. */
  predicate Interruptible(pc: Pc) {
    pc.Idle? || pc.Inside? || pc.AcqEnter? || pc.SlpRegain? || pc.RelEnter? || pc.KillLock?
  }

  /** Where process i may go from pc of its own accord or on a timer interrupt. */
  predicate MayBegin(n: int, pc: Pc, to: Pc) {
    || ((pc.Idle? || pc.Inside?)
        && (to == (if pc.Idle? then AcqEnter else RelEnter) || to == SlpOther(pc)
            || (to.KillLock? && 0 <= to.k < n && to.back == pc)))
    || (Interruptible(pc) && to == YldLock(pc))
  }

  ghost predicate BeginStep(s: Sys, i: int, to: Pc, s': Sys)
    requires Is(s, i)
  {
    MayBegin(|s.procs|, s.procs[i].pc, to) && s' == Go(s, i, to)
  }

  /** acquiresleep. A spinlock that is held by somebody else disables the step. */
  ghost predicate AcqStep(s: Sys, i: int, s': Sys)
    requires Is(s, i)
  {
    match s.procs[i].pc
    case AcqEnter => s.lk.None? && s' == Go(s, i, AcqTest).(lk := Some(i))
    case AcqTest => s' == Go(s, i, if s.locked then SlpLock else AcqSet)
    case AcqSet => s' == Go(s, i, AcqPid).(locked := true, owner := Some(i))
    case AcqPid => s' == Go(s, i, AcqLeave).(pid := Some(i))
    case AcqLeave => s' == Go(s, i, Inside).(lk := None)
    case _ => false
  }

  /** sleep */
  ghost predicate SlpStep(s: Sys, i: int, s': Sys)
    requires Is(s, i)
  {
    var p := s.procs[i];
    match p.pc
    case SlpLock => p.plock == Nobody && s' == Go(Plock(s, i, By(i)), i, SlpRelease)
    case SlpRelease => s' == Go(s, i, SlpChan(TheLock, SlpRegain)).(lk := None)
    case SlpOther(b) => p.plock == Nobody && s' == Go(Plock(s, i, By(i)), i, SlpChan(Other, b))
    case SlpChan(c, b) => s' == s.(procs := s.procs[i := p.(chan := c, pc := SlpState(c, b))])
    case SlpState(c, b) => s' == s.(procs := s.procs[i := p.(state := SLEEPING, pc := SlpSwitch(c, b))])
    case SlpSwitch(c, b) =>
      s' == s.(procs := s.procs[i := p.(exec := false, plock := Scheduler, pc := SlpResume(c, b))])
    case SlpResume(c, b) => s' == s.(procs := s.procs[i := p.(chan := NoChan, pc := SlpUnlock(b))])
    case SlpUnlock(b) => s' == Go(Plock(s, i, Nobody), i, b)
    case SlpRegain => s.lk.None? && s' == Go(s, i, AcqTest).(lk := Some(i))
    case _ => false
  }

  /** releasesleep, with the loop of wakeup */
  ghost predicate RelStep(s: Sys, i: int, s': Sys)
    requires Is(s, i)
  {
    match s.procs[i].pc
    case RelEnter => s.lk.None? && s' == Go(s, i, RelClear).(lk := Some(i))
    case RelClear => s' == Go(s, i, RelPid).(locked := false, owner := None)
    case RelPid => s' == Go(s, i, WakeLock(0)).(pid := None)
    case WakeLock(k) =>
      if !Is(s, k) then s' == Go(s, i, RelLeave)
      else if k == i then s' == Go(s, i, WakeLock(k + 1))
      else s.procs[k].plock == Nobody && s' == Go(Plock(s, k, By(i)), i, WakeTest(k))
    case WakeTest(k) =>
      Is(s, k) && s' == Go(if s.procs[k].state == SLEEPING && s.procs[k].chan == TheLock then Wake(s, k) else s, i,
                           WakeUnlock(k))
    case WakeUnlock(k) => Is(s, k) && s' == Go(Plock(s, k, Nobody), i, WakeLock(k + 1))
    case RelLeave => s' == Go(s, i, Idle).(lk := None)
    case _ => false
  }

  /** kill */
  ghost predicate KillStep(s: Sys, i: int, s': Sys)
    requires Is(s, i)
  {
    match s.procs[i].pc
    case KillLock(k, b) => Is(s, k) && s.procs[k].plock == Nobody && s' == Go(Plock(s, k, By(i)), i, KillTest(k, b))
    case KillTest(k, b) =>
      Is(s, k) && s' == Go(if s.procs[k].state == SLEEPING then Wake(s, k) else s, i, KillUnlock(k, b))
    case KillUnlock(k, b) => Is(s, k) && s' == Go(Plock(s, k, Nobody), i, b)
    case _ => false
  }

  /** yield */
  ghost predicate YldStep(s: Sys, i: int, s': Sys)
    requires Is(s, i)
  {
    var p := s.procs[i];
    match p.pc
    case YldLock(b) => p.plock == Nobody && s' == Go(Plock(s, i, By(i)), i, YldState(b))
    case YldState(b) => s' == s.(procs := s.procs[i := p.(state := RUNNABLE, pc := YldSwitch(b))])
    case YldSwitch(b) => s' == s.(procs := s.procs[i := p.(exec := false, plock := Scheduler, pc := YldUnlock(b))])
    case YldUnlock(b) => s' == Go(Plock(s, i, Nobody), i, b)
    case _ => false
  }

  /** Process i executes its next instruction; to is what it does next where it has a choice. */
  ghost predicate Exec(s: Sys, i: int, to: Pc, s': Sys) {
    && Is(s, i) && s.procs[i].exec
    && (BeginStep(s, i, to, s') || AcqStep(s, i, s') || SlpStep(s, i, s') || RelStep(s, i, s') || KillStep(s, i, s')
        || YldStep(s, i, s'))
  }

  datatype Act = Run(i: int, to: Pc) | SchedLock(i: int) | SchedRun(i: int) | SchedUnlock(i: int)

  ghost predicate Step(s: Sys, a: Act, s': Sys) {
    match a
    case Run(i, to) => Exec(s, i, to, s')
    case SchedLock(i) => Is(s, i) && s.procs[i].plock == Nobody && s' == Plock(s, i, Scheduler)
    case SchedRun(i) =>
      Is(s, i) && s.procs[i].plock == Scheduler && s.procs[i].state == RUNNABLE &&
      s' == s.(procs := s.procs[i := s.procs[i].(state := RUNNING, exec := true, plock := By(i))])
    case SchedUnlock(i) => Is(s, i) && s.procs[i].plock == Scheduler && s' == Plock(s, i, Nobody)
  }

  // ---- the invariant ---------------------------------------------------------------------

  function UnderKill(pc: Pc): Pc { if pc.KillLock? then pc.back else pc }

  /** What a process is doing apart from a call of sleep, kill or yield. */
  function Base(pc: Pc): Pc {
    match pc
    case SlpOther(b) => b
    case SlpChan(_, b) => b
    case SlpState(_, b) => b
    case SlpSwitch(_, b) => b
    case SlpResume(_, b) => b
    case SlpUnlock(b) => b
    case KillLock(_, b) => b
    case KillTest(_, b) => b
    case KillUnlock(_, b) => b
    case YldLock(b) => UnderKill(b)
    case YldState(b) => UnderKill(b)
    case YldSwitch(b) => UnderKill(b)
    case YldUnlock(b) => UnderKill(b)
    case _ => pc
  }

  /** Between setting locked and clearing it. */
  predicate Owns(pc: Pc) {
    var b := Base(pc);
    b.AcqPid? || b.AcqLeave? || b.Inside? || b.RelEnter? || b.RelClear?
  }

  predicate HoldsLk(pc: Pc) {
    || pc.AcqTest? || pc.AcqSet? || pc.AcqPid? || pc.AcqLeave? || pc.SlpLock? || pc.SlpRelease?
    || pc.RelClear? || pc.RelPid? || pc.RelLeave? || pc.WakeLock? || pc.WakeTest? || pc.WakeUnlock?
  }

  /** The process whose p->lock process i holds at pc. */
  function HoldsP(pc: Pc, i: int): Option<int> {
    match pc
    case SlpRelease => Some(i)
    case SlpChan(_, _) => Some(i)
    case SlpState(_, _) => Some(i)
    case SlpSwitch(_, _) => Some(i)
    case SlpResume(_, _) => Some(i)
    case SlpUnlock(_) => Some(i)
    case YldState(_) => Some(i)
    case YldSwitch(_) => Some(i)
    case YldUnlock(_) => Some(i)
    case WakeTest(k) => Some(k)
    case WakeUnlock(k) => Some(k)
    case KillTest(k, _) => Some(k)
    case KillUnlock(k, _) => Some(k)
    case _ => None
  }

  /** i has decided to sleep on the lock and has not been woken. */
  predicate Pending(p: Proc) {
    || (p.pc.SlpChan? && p.pc.c == TheLock) || (p.pc.SlpState? && p.pc.c == TheLock)
       || (p.pc.SlpSwitch? && p.pc.c == TheLock)
    || (p.pc.SlpResume? && p.pc.c == TheLock && !p.exec && p.state == SLEEPING)
  }

  /** A releaser at pc has still to look at process i. */
  predicate Covers(pc: Pc, i: int) {
    pc == RelPid || (pc.WakeLock? && pc.k <= i) || (pc.WakeTest? && pc.k <= i) || (pc.WakeUnlock? && pc.k < i)
  }

  predicate Outer(pc: Pc) { pc.Idle? || pc.Inside? }

  predicate PcOk(n: int, i: int, pc: Pc) {
    && (pc.WakeLock? ==> 0 <= pc.k <= n)
    && (pc.WakeTest? || pc.WakeUnlock? ==> 0 <= pc.k < n && pc.k != i)
    && (pc.KillLock? || pc.KillTest? || pc.KillUnlock? ==> 0 <= pc.k < n && Outer(pc.back))
    && (pc.SlpOther? ==> Outer(pc.back))
    && (pc.SlpChan? || pc.SlpState? || pc.SlpSwitch? || pc.SlpResume? ==>
        (pc.c == TheLock && pc.back == SlpRegain) || (pc.c == Other && Outer(pc.back)))
    && (pc.SlpUnlock? ==> (pc.back.SlpRegain? || Outer(pc.back)))
    && (pc.YldLock? || pc.YldState? || pc.YldSwitch? || pc.YldUnlock? ==>
        Interruptible(pc.back) && (pc.back.KillLock? ==> 0 <= pc.back.k < n && Outer(pc.back.back)))
  }

  predicate ProcOk(n: int, i: int, p: Proc) {
    && PcOk(n, i, p.pc)
    && (if p.exec then p.state == if p.pc.SlpSwitch? then SLEEPING else if p.pc.YldSwitch? then RUNNABLE else RUNNING
        else (p.pc.SlpResume? && p.state != RUNNING) || (p.pc.YldUnlock? && p.state == RUNNABLE))
    && p.chan == if p.pc.SlpState? || p.pc.SlpSwitch? || p.pc.SlpResume? then p.pc.c else NoChan
  }

  /** The spinlocks are held by those whose pc says so. */
  predicate LocksOk(s: Sys, i: int)
    requires Is(s, i)
  {
    var p := s.procs[i];
    && (HoldsLk(p.pc) <==> s.lk == Some(i))
    && (p.exec && HoldsP(p.pc, i).Some? ==>
        Is(s, HoldsP(p.pc, i).value) && s.procs[HoldsP(p.pc, i).value].plock == By(i))
    && (p.plock.By? ==> Is(s, p.plock.who) && s.procs[p.plock.who].exec
                        && HoldsP(s.procs[p.plock.who].pc, p.plock.who) == Some(i))
  }

  /** The releaser is past clearing locked. */
  predicate Releasing(pc: Pc) { pc.RelPid? || pc.WakeLock? || pc.WakeTest? || pc.WakeUnlock? || pc.RelLeave? }

  /** What the pc of i says about the sleep lock; and if i is about to sleep or asleep, then the
      lock is taken or somebody is on the way to wake i. */
  predicate LockOk(s: Sys, i: int)
    requires Is(s, i)
  {
    var p := s.procs[i];
    && (Owns(p.pc) <==> s.owner == Some(i))
    && (p.pc.SlpLock? || p.pc.SlpRelease? ==> s.locked)
    && (p.pc.AcqSet? || Releasing(p.pc) ==> !s.locked)
    && (Pending(p) ==> Guarded(s, i))
  }

  predicate Guarded(s: Sys, i: int) {
    s.locked || (s.lk.Some? && Is(s, s.lk.value) && Covers(s.procs[s.lk.value].pc, i))
  }

  predicate Fields(s: Sys) {
    && (s.locked <==> s.owner.Some?) && (s.lk.Some? ==> Is(s, s.lk.value))
    && (s.pid == s.owner || (s.lk.Some? && Is(s, s.lk.value)
                             && (s.procs[s.lk.value].pc.AcqPid? || s.procs[s.lk.value].pc.RelPid?)))
  }

  ghost predicate Procs(s: Sys) { forall i {:trigger s.procs[i]} :: Is(s, i) ==> ProcOk(|s.procs|, i, s.procs[i]) }
  ghost predicate Locks(s: Sys) { forall i {:trigger LocksOk(s, i)} :: Is(s, i) ==> LocksOk(s, i) }
  ghost predicate Lock(s: Sys) { forall i {:trigger LockOk(s, i)} :: Is(s, i) ==> LockOk(s, i) }

  ghost predicate Inv(s: Sys) { Fields(s) && Procs(s) && Locks(s) && Lock(s) }

  // ---- one kind of step after the other --------------------------------------------------

  /** Only the pc of i and fields that no spinlock depends on change. */
  lemma LocksStay(s: Sys, i: int, s': Sys)
    requires Locks(s) && Is(s, i) && s'.lk == s.lk && |s'.procs| == |s.procs|
    requires forall j :: Is(s, j) ==> s'.procs[j].plock == s.procs[j].plock && s'.procs[j].exec == s.procs[j].exec
    requires forall j :: Is(s, j) && j != i ==> s'.procs[j].pc == s.procs[j].pc
    requires HoldsLk(s'.procs[i].pc) == HoldsLk(s.procs[i].pc) && HoldsP(s'.procs[i].pc, i) == HoldsP(s.procs[i].pc, i)
    ensures Locks(s')
  {
    forall j | Is(s', j) ensures LocksOk(s', j) { assert LocksOk(s, j); }
  }

  /** i takes or releases the inner spinlock. */
  lemma LkMoves(s: Sys, i: int, pc: Pc, s': Sys)
    requires Locks(s) && Is(s, i) && s'.procs == Go(s, i, pc).procs && HoldsP(pc, i) == HoldsP(s.procs[i].pc, i)
    requires (s.lk.None? && s'.lk == Some(i) && HoldsLk(pc)) || (s.lk == Some(i) && s'.lk.None? && !HoldsLk(pc))
    ensures Locks(s')
  {
    forall j | Is(s', j) ensures LocksOk(s', j) { assert LocksOk(s, j); }
  }

  /** i takes the lock of process k. */
  lemma PlockTaken(s: Sys, i: int, k: int, pc: Pc, s': Sys)
    requires Locks(s) && Is(s, i) && Is(s, k) && s' == Go(Plock(s, k, By(i)), i, pc) && s.procs[i].exec
             && s.procs[k].plock == Nobody
    requires HoldsP(s.procs[i].pc, i).None? && HoldsP(pc, i) == Some(k) && HoldsLk(pc) == HoldsLk(s.procs[i].pc)
    ensures Locks(s')
  {
    forall j | Is(s', j) ensures LocksOk(s', j) { assert LocksOk(s, j); }
  }

  /** i releases the lock of process k. */
  lemma PlockGiven(s: Sys, i: int, k: int, pc: Pc, s': Sys)
    requires Locks(s) && Is(s, i) && Is(s, k) && s' == Go(Plock(s, k, Nobody), i, pc) && s.procs[i].exec
    requires HoldsP(s.procs[i].pc, i) == Some(k) && HoldsP(pc, i).None? && HoldsLk(pc) == HoldsLk(s.procs[i].pc)
    ensures Locks(s')
  {
    assert LocksOk(s, i);
    forall j | Is(s', j) ensures LocksOk(s', j) { assert LocksOk(s, j); }
  }

  /** i leaves the CPU, handing its own lock to the scheduler. */
  lemma SwitchedOut(s: Sys, i: int, pc: Pc, s': Sys)
    requires Locks(s) && Is(s, i)
             && s' == s.(procs := s.procs[i := s.procs[i].(exec := false, plock := Scheduler, pc := pc)])
             && s.procs[i].exec
    requires HoldsP(s.procs[i].pc, i) == Some(i) && !HoldsLk(pc) && !HoldsLk(s.procs[i].pc)
    ensures Locks(s')
  {
    assert LocksOk(s, i);
    forall j | Is(s', j) ensures LocksOk(s', j) { assert LocksOk(s, j); }
  }

  /** A process can go from pc to pc' while the sleep lock stays as it is. */
  predicate Fits(locked: bool, pc: Pc, pc': Pc) {
    Owns(pc') == Owns(pc) && (pc'.SlpLock? || pc'.SlpRelease? ==> locked) && (pc'.AcqSet? || Releasing(pc') ==> !locked)
  }

  /** Only the record of i changes, and possibly the inner spinlock and the pid. */
  predicate Moves(s: Sys, i: int, s': Sys)
    requires Is(s, i)
  {
    |s'.procs| == |s.procs| && s'.procs == s.procs[i := s'.procs[i]] && s'.locked == s.locked && s'.owner == s.owner
  }

  /** The sleep lock itself does not change, and nobody new is about to sleep unguarded. */
  lemma LockMoves(s: Sys, i: int, s': Sys)
    requires Lock(s) && Is(s, i) && Moves(s, i, s') && Fits(s.locked, s.procs[i].pc, s'.procs[i].pc)
    requires Pending(s'.procs[i]) ==> s.locked || Pending(s.procs[i])
    requires forall j :: Is(s, j) && Pending(s.procs[j]) && Guarded(s, j) ==> Guarded(s', j)
    ensures Lock(s')
  {
    forall j | Is(s', j) ensures LockOk(s', j) { assert LockOk(s, j); }
  }

  /** A step of a process that is not on the way to wake anybody leaves the sleepers guarded. */
  lemma GuardStays(s: Sys, i: int, s': Sys)
    requires Is(s, i) && Moves(s, i, s') && !Releasing(s.procs[i].pc)
             && (s'.lk == s.lk || s.lk.None? || s.lk == Some(i))
    ensures forall j :: Is(s, j) && Guarded(s, j) ==> Guarded(s', j)
  {
  }

  /** The record of k changes, but not its pc. */
  lemma LockTouched(s: Sys, k: int, q: Proc, s': Sys)
    requires Lock(s) && Is(s, k) && s' == s.(procs := s.procs[k := q]) && q.pc == s.procs[k].pc
             && (Pending(q) ==> Pending(s.procs[k]))
    ensures Lock(s')
  {
    forall j | Is(s', j) ensures LockOk(s', j) { assert LockOk(s, j); }
  }

  /** i sets or clears locked, holding the inner spinlock. */
  lemma LockChanges(s: Sys, i: int, s': Sys)
    requires Fields(s) && Lock(s) && Locks(s) && Is(s, i)
    requires s.procs[i].pc.AcqSet? || s.procs[i].pc.RelClear?
    requires s.procs[i].pc.AcqSet? ==> s' == Go(s, i, AcqPid).(locked := true, owner := Some(i))
    requires s.procs[i].pc.RelClear? ==> s' == Go(s, i, RelPid).(locked := false, owner := None)
    ensures Lock(s')
  {
    assert LockOk(s, i) && LocksOk(s, i);
    forall j | Is(s', j) ensures LockOk(s', j) { assert LockOk(s, j) && LocksOk(s, j); }
  }

  /** Under the lock of another process k, which is not in the middle of going to sleep: if it
      sleeps, it is off the CPU. */
  lemma Reached(s: Sys, i: int, k: int)
    requires Procs(s) && Locks(s) && Is(s, i) && Is(s, k) && k != i && s.procs[i].exec
             && HoldsP(s.procs[i].pc, i) == Some(k)
    ensures s.procs[k].state == SLEEPING || Pending(s.procs[k]) ==>
            !s.procs[k].exec && s.procs[k].pc.SlpResume? && s.procs[k].chan == s.procs[k].pc.c
    ensures ProcOk(|s.procs|, k, s.procs[k])
  {
    assert LocksOk(s, i) && LocksOk(s, k) && ProcOk(|s.procs|, k, s.procs[k]);
  }

  /** The record of i changes, within what is right for it. */
  lemma ProcsMove(s: Sys, i: int, s': Sys)
    requires Procs(s) && Is(s, i) && |s'.procs| == |s.procs| && s'.procs == s.procs[i := s'.procs[i]]
    requires ProcOk(|s.procs|, i, s'.procs[i])
    ensures Procs(s')
  {
  }

  /** What a process may begin has no bearing on any lock. */
  lemma BeginFits(n: int, i: int, locked: bool, pc: Pc, to: Pc)
    requires MayBegin(n, pc, to) && PcOk(n, i, pc)
    ensures Fits(locked, pc, to) && HoldsLk(to) == HoldsLk(pc) && HoldsP(to, i) == HoldsP(pc, i) && PcOk(n, i, to)
    ensures to.AcqEnter? || to.RelEnter? || to.SlpOther? || to.KillLock? || to.YldLock?
    ensures !Releasing(pc) && !pc.AcqPid? && !pc.RelPid?
    ensures !pc.SlpState? && !pc.SlpSwitch? && !pc.SlpResume? && !pc.YldSwitch?
  {
  }

  lemma BeginKeeps(s: Sys, i: int, to: Pc, s': Sys)
    requires Inv(s) && Is(s, i) && s.procs[i].exec && BeginStep(s, i, to, s')
    ensures Inv(s')
  {
    assert LocksOk(s, i) && ProcOk(|s.procs|, i, s.procs[i]);
    BeginFits(|s.procs|, i, s.locked, s.procs[i].pc, to);
    LocksStay(s, i, s');
    GuardStays(s, i, s');
    LockMoves(s, i, s');
    ProcsMove(s, i, s');
  }

  lemma AcqKeepsSpin(s: Sys, i: int, s': Sys)
    requires Locks(s) && Is(s, i) && ProcOk(|s.procs|, i, s.procs[i]) && s.procs[i].exec && AcqStep(s, i, s')
    ensures Locks(s')
  {
    var pc, pc' := s.procs[i].pc, s'.procs[i].pc;
    assert LocksOk(s, i);
    if s'.lk == s.lk { LocksStay(s, i, s'); } else { LkMoves(s, i, pc', s'); }
  }

  lemma AcqMoves(s: Sys, i: int, s': Sys)
    requires Is(s, i) && LocksOk(s, i) && AcqStep(s, i, s') && !s.procs[i].pc.AcqSet?
    ensures Moves(s, i, s') && (s'.lk == s.lk || s.lk.None? || s.lk == Some(i))
  {
  }

  lemma AcqFits(s: Sys, i: int, s': Sys)
    requires Is(s, i) && LockOk(s, i) && AcqStep(s, i, s') && !s.procs[i].pc.AcqSet? && |s'.procs| == |s.procs|
    ensures Fits(s.locked, s.procs[i].pc, s'.procs[i].pc) && !Pending(s'.procs[i])
  {
  }

  lemma AcqKeepsSleep(s: Sys, i: int, s': Sys)
    requires Fields(s) && Lock(s) && Locks(s) && Is(s, i) && LocksOk(s, i) && LockOk(s, i) && AcqStep(s, i, s')
    ensures Lock(s')
  {
    if s.procs[i].pc.AcqSet? {
      LockChanges(s, i, s');
    } else {
      AcqMoves(s, i, s');
      AcqFits(s, i, s');
      GuardStays(s, i, s');
      LockMoves(s, i, s');
    }
  }

  lemma AcqProc(s: Sys, i: int, s': Sys)
    requires Is(s, i) && ProcOk(|s.procs|, i, s.procs[i]) && s.procs[i].exec && AcqStep(s, i, s')
    ensures |s'.procs| == |s.procs| && s'.procs == s.procs[i := s'.procs[i]] && ProcOk(|s.procs|, i, s'.procs[i])
  {
  }

  lemma AcqFields(s: Sys, i: int, s': Sys)
    requires Fields(s) && Is(s, i) && LocksOk(s, i) && LockOk(s, i) && AcqStep(s, i, s')
    ensures Fields(s')
  {
  }

  lemma AcqKeepsRest(s: Sys, i: int, s': Sys)
    requires Fields(s) && Procs(s) && Is(s, i) && LocksOk(s, i) && LockOk(s, i) && s.procs[i].exec
             && AcqStep(s, i, s')
    ensures Fields(s') && Procs(s')
  {
    AcqProc(s, i, s');
    ProcsMove(s, i, s');
    AcqFields(s, i, s');
  }

  /** The part of sleep that takes or releases a spinlock other than at its end. */
  lemma SlpEnters(s: Sys, i: int, s': Sys)
    requires Locks(s) && Is(s, i) && s.procs[i].exec && SlpStep(s, i, s')
    requires s.procs[i].pc.SlpLock? || s.procs[i].pc.SlpOther? || s.procs[i].pc.SlpRelease? || s.procs[i].pc.SlpRegain?
    ensures Locks(s')
  {
    var pc, pc' := s.procs[i].pc, s'.procs[i].pc;
    assert LocksOk(s, i);
    if pc.SlpLock? || pc.SlpOther? { PlockTaken(s, i, i, pc', s'); } else { LkMoves(s, i, pc', s'); }
  }

  lemma SlpKeepsSpin(s: Sys, i: int, s': Sys)
    requires Locks(s) && Is(s, i) && ProcOk(|s.procs|, i, s.procs[i]) && s.procs[i].exec && SlpStep(s, i, s')
    ensures Locks(s')
  {
    var pc, pc' := s.procs[i].pc, s'.procs[i].pc;
    if pc.SlpLock? || pc.SlpOther? || pc.SlpRelease? || pc.SlpRegain? { SlpEnters(s, i, s'); }
    else if pc.SlpSwitch? { SwitchedOut(s, i, pc', s'); }
    else if pc.SlpUnlock? { PlockGiven(s, i, i, pc', s'); }
    else { LocksStay(s, i, s'); }
  }

  lemma SlpMoves(s: Sys, i: int, s': Sys)
    requires Is(s, i) && LocksOk(s, i) && SlpStep(s, i, s')
    ensures Moves(s, i, s') && !Releasing(s.procs[i].pc) && (s'.lk == s.lk || s.lk.None? || s.lk == Some(i))
  {
  }

  function AfterSlp(pc: Pc): Pc {
    match pc
    case SlpLock => SlpRelease
    case SlpRelease => SlpChan(TheLock, SlpRegain)
    case SlpOther(b) => SlpChan(Other, b)
    case SlpChan(c, b) => SlpState(c, b)
    case SlpState(c, b) => SlpSwitch(c, b)
    case SlpSwitch(c, b) => SlpResume(c, b)
    case SlpResume(_, b) => SlpUnlock(b)
    case SlpUnlock(b) => b
    case _ => AcqTest
  }

  lemma SlpGoes(s: Sys, i: int, s': Sys)
    requires Is(s, i) && SlpStep(s, i, s')
    ensures |s'.procs| == |s.procs| && s'.procs[i].pc == AfterSlp(s.procs[i].pc)
  {
  }

  lemma SlpFits(n: int, i: int, locked: bool, pc: Pc)
    requires PcOk(n, i, pc) && (pc.SlpLock? || pc.SlpRelease? ==> locked)
    requires pc.SlpLock? || pc.SlpRelease? || pc.SlpOther? || pc.SlpChan? || pc.SlpState? || pc.SlpSwitch?
             || pc.SlpResume? || pc.SlpUnlock? || pc.SlpRegain?
    ensures Fits(locked, pc, AfterSlp(pc))
  {
  }

  lemma SlpPends(s: Sys, i: int, s': Sys)
    requires Is(s, i) && ProcOk(|s.procs|, i, s.procs[i]) && LockOk(s, i) && SlpStep(s, i, s')
             && |s'.procs| == |s.procs|
    ensures Pending(s'.procs[i]) ==> s.locked || Pending(s.procs[i])
  {
  }

  lemma SlpKeepsSleep(s: Sys, i: int, s': Sys)
    requires Lock(s) && Is(s, i) && ProcOk(|s.procs|, i, s.procs[i]) && LocksOk(s, i) && s.procs[i].exec
             && SlpStep(s, i, s')
    ensures Lock(s')
  {
    assert LockOk(s, i);
    SlpMoves(s, i, s');
    SlpGoes(s, i, s');
    SlpFits(|s.procs|, i, s.locked, s.procs[i].pc);
    SlpPends(s, i, s');
    GuardStays(s, i, s');
    LockMoves(s, i, s');
  }

  lemma SlpProc(s: Sys, i: int, s': Sys)
    requires Is(s, i) && ProcOk(|s.procs|, i, s.procs[i]) && s.procs[i].exec && SlpStep(s, i, s')
    ensures |s'.procs| == |s.procs| && s'.procs == s.procs[i := s'.procs[i]] && ProcOk(|s.procs|, i, s'.procs[i])
  {
  }

  lemma SlpFields(s: Sys, i: int, s': Sys)
    requires Fields(s) && Is(s, i) && LocksOk(s, i) && SlpStep(s, i, s')
    ensures Fields(s')
  {
  }

  lemma SlpKeepsRest(s: Sys, i: int, s': Sys)
    requires Fields(s) && Procs(s) && Is(s, i) && LocksOk(s, i) && s.procs[i].exec && SlpStep(s, i, s')
    ensures Fields(s') && Procs(s')
  {
    SlpProc(s, i, s');
    ProcsMove(s, i, s');
    SlpFields(s, i, s');
  }

  lemma WakeKeepsSpin(s: Sys, i: int, s': Sys)
    requires Locks(s) && Is(s, i) && ProcOk(|s.procs|, i, s.procs[i]) && s.procs[i].exec && RelStep(s, i, s')
    requires s.procs[i].pc.WakeLock? || s.procs[i].pc.WakeTest? || s.procs[i].pc.WakeUnlock?
    ensures Locks(s')
  {
    var pc, pc' := s.procs[i].pc, s'.procs[i].pc;
    assert LocksOk(s, i);
    if pc'.WakeTest? { PlockTaken(s, i, pc.k, pc', s'); }
    else if pc.WakeUnlock? { PlockGiven(s, i, pc.k, pc', s'); }
    else { LocksStay(s, i, s'); }
  }

  lemma RelKeepsSpin(s: Sys, i: int, s': Sys)
    requires Locks(s) && Is(s, i) && ProcOk(|s.procs|, i, s.procs[i]) && s.procs[i].exec && RelStep(s, i, s')
    ensures Locks(s')
  {
    var pc, pc' := s.procs[i].pc, s'.procs[i].pc;
    assert LocksOk(s, i);
    if pc.WakeLock? || pc.WakeTest? || pc.WakeUnlock? { WakeKeepsSpin(s, i, s'); }
    else if pc.RelEnter? || pc.RelLeave? { LkMoves(s, i, pc', s'); }
    else { LocksStay(s, i, s'); }
  }

  /** Taking the lock of k, waking k, or releasing its lock; otherwise nothing. */
  function Reach(s: Sys, i: int): (s1: Sys)
    requires Is(s, i)
    ensures |s1.procs| == |s.procs| && s1 == s.(procs := s1.procs)
  {
    match s.procs[i].pc
    case WakeLock(k) => if Is(s, k) && k != i then Plock(s, k, By(i)) else s
    case WakeTest(k) => if Is(s, k) && s.procs[k].state == SLEEPING && s.procs[k].chan == TheLock then Wake(s, k) else s
    case WakeUnlock(k) => if Is(s, k) then Plock(s, k, Nobody) else s
    case KillLock(k, _) => if Is(s, k) then Plock(s, k, By(i)) else s
    case KillTest(k, _) => if Is(s, k) && s.procs[k].state == SLEEPING then Wake(s, k) else s
    case KillUnlock(k, _) => if Is(s, k) then Plock(s, k, Nobody) else s
    case _ => s
  }

  /** The process that wakeup or kill is looking at. */
  function Target(s: Sys, i: int): (k: int)
    requires Is(s, i)
    ensures Is(s, k)
  {
    var pc := s.procs[i].pc;
    var looking := pc.WakeLock? || pc.WakeTest? || pc.WakeUnlock? || pc.KillLock? || pc.KillTest? || pc.KillUnlock?;
    if looking && Is(s, pc.k) then pc.k else i
  }

  /** What that does to the record of k. */
  lemma ReachTouches(s: Sys, i: int)
    requires Procs(s) && Locks(s) && Is(s, i) && s.procs[i].exec
    ensures var k := Target(s, i);
            var q := Reach(s, i).procs[k];
            && Reach(s, i) == s.(procs := s.procs[k := q]) && q.pc == s.procs[k].pc
               && (Pending(q) ==> Pending(s.procs[k]))
            && ProcOk(|s.procs|, k, q) && q.exec == s.procs[k].exec
  {
    var k := Target(s, i);
    assert ProcOk(|s.procs|, i, s.procs[i]) && ProcOk(|s.procs|, k, s.procs[k]);
    if (s.procs[i].pc.WakeTest? || s.procs[i].pc.KillTest?) && k != i { Reached(s, i, k); }
  }

  lemma RelAsGo(s: Sys, i: int, s': Sys)
    requires Is(s, i) && RelStep(s, i, s')
    ensures |s'.procs| == |s.procs| && s'.procs == Go(Reach(s, i), i, s'.procs[i].pc).procs
  {
  }

  lemma RelMoves(s: Sys, i: int, s': Sys)
    requires Is(s, i) && ProcOk(|s.procs|, i, s.procs[i]) && LocksOk(s, i) && LockOk(s, i) && RelStep(s, i, s')
             && !s.procs[i].pc.RelClear?
    ensures Fits(s.locked, s.procs[i].pc, s'.procs[i].pc) && !Pending(s'.procs[i]) && s'.locked == s.locked
            && s'.owner == s.owner
    ensures s'.lk == s.lk || s.lk.None? || s.lk == Some(i)
  {
  }

  /** In the loop of wakeup, whoever is passed over does not sleep. */
  lemma LoopGuards(s: Sys, i: int, s': Sys, j: int)
    requires Procs(s) && Locks(s) && Is(s, i) && s.procs[i].exec && Is(s, j) && Releasing(s.procs[i].pc)
             && RelStep(s, i, s')
    requires ProcOk(|s.procs|, i, s.procs[i]) && LocksOk(s, i) && LockOk(s, i)
    requires |s'.procs| == |s.procs| && Pending(Reach(s, i).procs[j]) && Guarded(s, j)
    ensures Guarded(s', j)
  {
    var pc := s.procs[i].pc;
    if pc.WakeTest? && j == pc.k { Reached(s, i, j); }
  }

  lemma RelKeepsSleep(s: Sys, i: int, s': Sys)
    requires Fields(s) && Lock(s) && Locks(s) && Procs(s) && Is(s, i) && s.procs[i].exec && RelStep(s, i, s')
    ensures Lock(s')
  {
    assert LockOk(s, i) && LocksOk(s, i) && ProcOk(|s.procs|, i, s.procs[i]);
    if s.procs[i].pc.RelClear? {
      LockChanges(s, i, s');
    } else {
      var s1, k := Reach(s, i), Target(s, i);
      ReachTouches(s, i);
      LockTouched(s, k, s1.procs[k], s1);
      RelAsGo(s, i, s');
      RelMoves(s, i, s');
      assert s1.procs[i].pc == s.procs[i].pc;
      forall j | Is(s1, j) && Pending(s1.procs[j]) && Guarded(s1, j) ensures Guarded(s', j) {
        if Releasing(s.procs[i].pc) { LoopGuards(s, i, s', j); } else { GuardStays(s1, i, s'); }
      }
      LockMoves(s1, i, s');
    }
  }

  lemma RelProc(s: Sys, i: int, s': Sys)
    requires Is(s, i) && ProcOk(|s.procs|, i, s.procs[i]) && s.procs[i].exec && RelStep(s, i, s')
    ensures |s'.procs| == |s.procs| && PcOk(|s.procs|, i, s'.procs[i].pc) && !s'.procs[i].pc.SlpSwitch?
            && !s'.procs[i].pc.YldSwitch?
    ensures !s'.procs[i].pc.SlpState? && !s'.procs[i].pc.SlpResume?
  {
  }

  lemma RelFields(s: Sys, i: int, s': Sys)
    requires Fields(s) && Is(s, i) && LocksOk(s, i) && LockOk(s, i) && RelStep(s, i, s')
    ensures Fields(s')
  {
  }

  lemma RelKeepsRest(s: Sys, i: int, s': Sys)
    requires Fields(s) && Procs(s) && Locks(s) && Is(s, i) && LocksOk(s, i) && LockOk(s, i) && s.procs[i].exec
             && RelStep(s, i, s')
    ensures Fields(s') && Procs(s')
  {
    var s1, k := Reach(s, i), Target(s, i);
    ReachTouches(s, i);
    ProcsMove(s, k, s1);
    RelAsGo(s, i, s');
    RelProc(s, i, s');
    ProcsMove(s1, i, s');
    RelFields(s, i, s');
  }

  lemma KillKeepsSpin(s: Sys, i: int, s': Sys)
    requires Locks(s) && Is(s, i) && ProcOk(|s.procs|, i, s.procs[i]) && s.procs[i].exec && KillStep(s, i, s')
    ensures Locks(s')
  {
    var pc, pc' := s.procs[i].pc, s'.procs[i].pc;
    assert LocksOk(s, i);
    if pc.KillLock? { PlockTaken(s, i, pc.k, pc', s'); }
    else if pc.KillUnlock? { PlockGiven(s, i, pc.k, pc', s'); }
    else { LocksStay(s, i, s'); }
  }

  lemma KillAsGo(s: Sys, i: int, s': Sys)
    requires Is(s, i) && ProcOk(|s.procs|, i, s.procs[i]) && KillStep(s, i, s')
    ensures |s'.procs| == |s.procs| && s' == Go(Reach(s, i), i, s'.procs[i].pc)
    ensures Fits(s.locked, s.procs[i].pc, s'.procs[i].pc) && !Pending(s'.procs[i]) && !Releasing(s.procs[i].pc)
    ensures PcOk(|s.procs|, i, s'.procs[i].pc)
            && (s'.procs[i].pc.KillTest? || s'.procs[i].pc.KillUnlock? || Outer(s'.procs[i].pc))
  {
  }

  lemma KillKeepsSleep(s: Sys, i: int, s': Sys)
    requires Lock(s) && Locks(s) && Procs(s) && Is(s, i) && s.procs[i].exec && KillStep(s, i, s')
    ensures Lock(s')
  {
    assert ProcOk(|s.procs|, i, s.procs[i]);
    var s1, k := Reach(s, i), Target(s, i);
    ReachTouches(s, i);
    LockTouched(s, k, s1.procs[k], s1);
    KillAsGo(s, i, s');
    assert s1.procs[i].pc == s.procs[i].pc;
    GuardStays(s1, i, s');
    LockMoves(s1, i, s');
  }

  lemma KillKeepsRest(s: Sys, i: int, s': Sys)
    requires Fields(s) && Procs(s) && Locks(s) && Is(s, i) && s.procs[i].exec && KillStep(s, i, s')
    ensures Fields(s') && Procs(s')
  {
    assert ProcOk(|s.procs|, i, s.procs[i]) && LocksOk(s, i);
    var s1, k := Reach(s, i), Target(s, i);
    ReachTouches(s, i);
    ProcsMove(s, k, s1);
    KillAsGo(s, i, s');
    ProcsMove(s1, i, s');
  }

  lemma YldKeepsSpin(s: Sys, i: int, s': Sys)
    requires Locks(s) && Is(s, i) && ProcOk(|s.procs|, i, s.procs[i]) && s.procs[i].exec && YldStep(s, i, s')
    ensures Locks(s')
  {
    var pc, pc' := s.procs[i].pc, s'.procs[i].pc;
    assert LocksOk(s, i);
    if pc.YldLock? { PlockTaken(s, i, i, pc', s'); }
    else if pc.YldUnlock? { PlockGiven(s, i, i, pc', s'); }
    else if pc.YldSwitch? { SwitchedOut(s, i, pc', s'); }
    else { LocksStay(s, i, s'); }
  }

  lemma YldMoves(s: Sys, i: int, s': Sys)
    requires Is(s, i) && ProcOk(|s.procs|, i, s.procs[i]) && s.procs[i].exec && YldStep(s, i, s')
    ensures Moves(s, i, s') && s'.lk == s.lk && s'.pid == s.pid && ProcOk(|s.procs|, i, s'.procs[i])
  {
  }

  lemma YldFits(s: Sys, i: int, s': Sys)
    requires Is(s, i) && ProcOk(|s.procs|, i, s.procs[i]) && YldStep(s, i, s') && |s'.procs| == |s.procs|
    ensures Fits(s.locked, s.procs[i].pc, s'.procs[i].pc) && !Pending(s'.procs[i]) && !Releasing(s.procs[i].pc)
  {
  }

  lemma YldKeepsSleep(s: Sys, i: int, s': Sys)
    requires Lock(s) && Is(s, i) && ProcOk(|s.procs|, i, s.procs[i]) && s.procs[i].exec && YldStep(s, i, s')
    ensures Lock(s')
  {
    YldMoves(s, i, s');
    YldFits(s, i, s');
    GuardStays(s, i, s');
    LockMoves(s, i, s');
  }

  lemma YldKeepsRest(s: Sys, i: int, s': Sys)
    requires Fields(s) && Procs(s) && Is(s, i) && LocksOk(s, i) && s.procs[i].exec && YldStep(s, i, s')
    ensures Fields(s') && Procs(s')
  {
    YldMoves(s, i, s');
    ProcsMove(s, i, s');
  }

  lemma SchedMoves(s: Sys, a: Act, s': Sys)
    requires !a.Run? && Step(s, a, s') && ProcOk(|s.procs|, a.i, s.procs[a.i]) && LocksOk(s, a.i)
    ensures Moves(s, a.i, s') && s'.lk == s.lk && s'.pid == s.pid && s'.procs[a.i].pc == s.procs[a.i].pc
    ensures (Pending(s'.procs[a.i]) ==> Pending(s.procs[a.i])) && ProcOk(|s.procs|, a.i, s'.procs[a.i])
  {
  }

  lemma SchedKeepsSpin(s: Sys, a: Act, s': Sys)
    requires Procs(s) && Locks(s) && !a.Run? && Step(s, a, s')
    ensures Locks(s')
  {
    assert LocksOk(s, a.i) && ProcOk(|s.procs|, a.i, s.procs[a.i]);
    forall j | Is(s', j) ensures LocksOk(s', j) { assert LocksOk(s, j); }
  }

  lemma SchedKeeps(s: Sys, a: Act, s': Sys)
    requires Inv(s) && !a.Run? && Step(s, a, s')
    ensures Inv(s')
  {
    assert LocksOk(s, a.i);
    SchedMoves(s, a, s');
    SchedKeepsSpin(s, a, s');
    LockTouched(s, a.i, s'.procs[a.i], s');
    ProcsMove(s, a.i, s');
  }

  ghost predicate Runs(ss: seq<Sys>, acts: seq<Act>) {
    |ss| == |acts| + 1 && forall k {:trigger acts[k]} :: 0 <= k < |acts| ==> Step(ss[k], acts[k], ss[k + 1])
  }

  /** initsleeplock, and processes that have nothing to do with the lock yet. */
  ghost predicate Start(s: Sys) {
    && s.lk.None? && !s.locked && s.pid.None? && s.owner.None?
    && forall i :: Is(s, i) ==> s.procs[i] == Proc(RUNNABLE, NoChan, Nobody, false, YldUnlock(Idle))
  }

  lemma {:induction false} RunKeeps(ss: seq<Sys>, acts: seq<Act>, n: nat)
    requires Runs(ss, acts) && Start(ss[0]) && n < |ss|
    ensures Inv(ss[n])
  {
    if n == 0 {
      forall i | Is(ss[0], i) ensures LocksOk(ss[0], i) && LockOk(ss[0], i) {}
    } else {
      RunKeeps(ss, acts, n - 1);
      StepKeeps(ss[n - 1], acts[n - 1], ss[n]);
    }
  }

  lemma StepKeeps(s: Sys, a: Act, s': Sys)
    requires Inv(s) && Step(s, a, s')
    ensures Inv(s')
  {
    if !a.Run? {
      SchedKeeps(s, a, s');
    } else if BeginStep(s, a.i, a.to, s') {
      BeginKeeps(s, a.i, a.to, s');
    } else if AcqStep(s, a.i, s') {
      assert LocksOk(s, a.i) && LockOk(s, a.i);
      AcqKeepsSpin(s, a.i, s');
      AcqKeepsSleep(s, a.i, s');
      AcqKeepsRest(s, a.i, s');
    } else if SlpStep(s, a.i, s') {
      SlpKeepsSpin(s, a.i, s');
      SlpKeepsSleep(s, a.i, s');
      SlpKeepsRest(s, a.i, s');
    } else if RelStep(s, a.i, s') {
      RelKeepsSpin(s, a.i, s');
      RelKeepsSleep(s, a.i, s');
      RelKeepsRest(s, a.i, s');
    } else if KillStep(s, a.i, s') {
      KillKeepsSpin(s, a.i, s');
      KillKeepsSleep(s, a.i, s');
      KillKeepsRest(s, a.i, s');
    } else {
      YldKeepsSpin(s, a.i, s');
      YldKeepsSleep(s, a.i, s');
      YldKeepsRest(s, a.i, s');
    }
  }

  // ---- the theorems ----------------------------------------------------------------------

  /** At most one process is between acquiresleep and releasesleep. */
  lemma MutualExclusion(ss: seq<Sys>, acts: seq<Act>, n: nat, i: int, j: int)
    requires Runs(ss, acts) && Start(ss[0]) && n < |ss| && Is(ss[n], i) && Is(ss[n], j)
    requires Base(ss[n].procs[i].pc) == Inside && Base(ss[n].procs[j].pc) == Inside
    ensures i == j && ss[n].locked
  {
    RunKeeps(ss, acts, n);
    assert LockOk(ss[n], i) && LockOk(ss[n], j);
  }

  /** No lost wakeup: while the sleep lock is free and its spinlock released, nobody sleeps on it,
      nor is anybody about to. */
  lemma NobodySleeps(ss: seq<Sys>, acts: seq<Act>, n: nat, i: int)
    requires Runs(ss, acts) && Start(ss[0]) && n < |ss| && Is(ss[n], i) && !ss[n].locked && ss[n].lk.None?
    ensures !(ss[n].procs[i].state == SLEEPING && ss[n].procs[i].chan == TheLock) && !Pending(ss[n].procs[i])
  {
    RunKeeps(ss, acts, n);
    assert LockOk(ss[n], i) && ProcOk(|ss[n].procs|, i, ss[n].procs[i]);
  }

  /** holdingsleep, which looks at locked and pid under the spinlock, tells who is inside. */
  lemma HoldingSleep(ss: seq<Sys>, acts: seq<Act>, n: nat, i: int)
    requires Runs(ss, acts) && Start(ss[0]) && n < |ss| && Is(ss[n], i) && ss[n].lk.None?
    ensures ss[n].locked && ss[n].pid == Some(i) <==>
            Base(ss[n].procs[i].pc) == Inside || Base(ss[n].procs[i].pc) == RelEnter
  {
    RunKeeps(ss, acts, n);
    assert LockOk(ss[n], i) && LocksOk(ss[n], i) && ProcOk(|ss[n].procs|, i, ss[n].procs[i]);
  }

  // ---- what the routines do when nobody gets in the way ---------------------------------

  /** The actions acts take s to s'. */
  ghost predicate Leads(s: Sys, acts: seq<Act>, s': Sys) {
    exists ss :: Runs(ss, acts) && ss[0] == s && ss[|acts|] == s'
  }

  lemma LeadsNowhere(s: Sys)
    ensures Leads(s, [], s)
  {
    assert Runs([s], []);
  }

  lemma LeadsThen(s: Sys, acts: seq<Act>, m: Sys, a: Act, s': Sys)
    requires Leads(s, acts, m) && Step(m, a, s')
    ensures Leads(s, acts + [a], s')
  {
    var ss :| Runs(ss, acts) && ss[0] == s && ss[|acts|] == m;
    var tt, more := ss + [s'], acts + [a];
    forall k | 0 <= k < |more| ensures Step(tt[k], more[k], tt[k + 1]) {
      if k < |acts| { assert Step(ss[k], acts[k], ss[k + 1]); }
    }
    assert Runs(tt, more);
  }

  lemma LeadsJoin(s: Sys, acts: seq<Act>, m: Sys, more: seq<Act>, s': Sys)
    requires Leads(s, acts, m) && Leads(m, more, s')
    ensures Leads(s, acts + more, s')
  {
    var ss :| Runs(ss, acts) && ss[0] == s && ss[|acts|] == m;
    var tt :| Runs(tt, more) && tt[0] == m && tt[|more|] == s';
    var uu, all := ss + tt[1..], acts + more;
    forall k | 0 <= k < |all| ensures Step(uu[k], all[k], uu[k + 1]) {
      if k < |acts| {
        assert Step(ss[k], acts[k], ss[k + 1]);
      } else {
        assert Step(tt[k - |acts|], more[k - |acts|], tt[k - |acts| + 1]);
      }
    }
    assert Runs(uu, all);
  }

  /** Process i executes k instructions, beginning nothing new. */
  function Solo(i: int, k: nat): seq<Act> { seq(k, t => Run(i, Idle)) }

  lemma SoloThen(s: Sys, i: int, k: nat, m: Sys, s': Sys)
    requires Leads(s, Solo(i, k), m) && Exec(m, i, Idle, s')
    ensures Leads(s, Solo(i, k + 1), s')
  {
    LeadsThen(s, Solo(i, k), m, Run(i, Idle), s');
    assert Solo(i, k) + [Run(i, Idle)] == Solo(i, k + 1);
  }

  /** From the test of locked on, with the spinlock held, to the end of acquiresleep. */
  lemma TakesFree(s: Sys, i: int)
    requires Is(s, i) && s.procs[i].exec && s.procs[i].pc == AcqTest && s.lk == Some(i) && !s.locked
    ensures Leads(s, Solo(i, 4), Go(s, i, Inside).(lk := None, locked := true, pid := Some(i), owner := Some(i)))
  {
    LeadsNowhere(s);
    assert Solo(i, 0) == [];
    var a := Go(s, i, AcqSet);
    SoloThen(s, i, 0, s, a);
    var b := Go(s, i, AcqPid).(locked := true, owner := Some(i));
    assert b == Go(a, i, AcqPid).(locked := true, owner := Some(i));
    SoloThen(s, i, 1, a, b);
    var c := Go(s, i, AcqLeave).(locked := true, owner := Some(i), pid := Some(i));
    assert c == Go(b, i, AcqLeave).(pid := Some(i));
    SoloThen(s, i, 2, b, c);
    var d := Go(s, i, Inside).(lk := None, locked := true, pid := Some(i), owner := Some(i));
    assert d == Go(c, i, Inside).(lk := None);
    SoloThen(s, i, 3, c, d);
  }

  lemma SoloJoin(s: Sys, i: int, k: nat, m: Sys, l: nat, s': Sys)
    requires Leads(s, Solo(i, k), m) && Leads(m, Solo(i, l), s')
    ensures Leads(s, Solo(i, k + l), s')
  {
    LeadsJoin(s, Solo(i, k), m, Solo(i, l), s');
    assert Solo(i, k) + Solo(i, l) == Solo(i, k + l);
  }

  lemma SoloOne(s: Sys, i: int, s': Sys)
    requires Exec(s, i, Idle, s')
    ensures Leads(s, Solo(i, 1), s')
  {
    LeadsNowhere(s);
    assert Solo(i, 0) == [];
    SoloThen(s, i, 0, s, s');
  }

  /** acquiresleep of a free lock gets it: five instructions, locked and pid set, spinlock released,
      and nothing else changed. */
  lemma Acquires(s: Sys, i: int)
    requires Is(s, i) && s.procs[i].exec && s.procs[i].pc == AcqEnter && s.lk.None? && !s.locked
    ensures Leads(s, Solo(i, 5), Go(s, i, Inside).(locked := true, pid := Some(i), owner := Some(i)))
  {
    var a := Go(s, i, AcqTest).(lk := Some(i));
    SoloOne(s, i, a);
    TakesFree(a, i);
    var d := Go(s, i, Inside).(locked := true, pid := Some(i), owner := Some(i));
    assert d == Go(a, i, Inside).(lk := None, locked := true, pid := Some(i), owner := Some(i));
    SoloJoin(s, i, 1, a, 4, d);
  }

  /** acquiresleep of a lock that is taken goes to sleep on it, off the CPU, the spinlock released. */
  lemma FallsAsleep(s: Sys, i: int)
    requires Is(s, i) && s.procs[i].exec && s.procs[i].pc == AcqEnter && s.lk.None? && s.locked
    requires s.procs[i].plock == Nobody
    ensures Leads(s, Solo(i, 7), s.(procs := s.procs[i := Proc(SLEEPING, TheLock, Scheduler, false,
                                                                SlpResume(TheLock, SlpRegain))]))
  {
    var p := s.procs[i];
    var a := Go(s, i, AcqTest).(lk := Some(i));
    SoloOne(s, i, a);
    var b := Go(s, i, SlpLock).(lk := Some(i));
    assert b == Go(a, i, SlpLock);
    SoloThen(s, i, 1, a, b);
    var c := s.(procs := s.procs[i := p.(plock := By(i), pc := SlpRelease)], lk := Some(i));
    assert c == Go(Plock(b, i, By(i)), i, SlpRelease);
    SoloThen(s, i, 2, b, c);
    var d := s.(procs := s.procs[i := p.(plock := By(i), pc := SlpChan(TheLock, SlpRegain))]);
    assert d == Go(c, i, SlpChan(TheLock, SlpRegain)).(lk := None);
    SoloThen(s, i, 3, c, d);
    SleepsOn(s, i, d);
  }

  lemma SleepsOn(s: Sys, i: int, d: Sys)
    requires Is(s, i) && s.procs[i].exec
    requires d == s.(procs := s.procs[i := s.procs[i].(plock := By(i), pc := SlpChan(TheLock, SlpRegain))])
    requires Leads(s, Solo(i, 4), d)
    ensures Leads(s, Solo(i, 7), s.(procs := s.procs[i := Proc(SLEEPING, TheLock, Scheduler, false,
                                                                SlpResume(TheLock, SlpRegain))]))
  {
    var q := d.procs[i];
    var e := s.(procs := s.procs[i := q.(chan := TheLock, pc := SlpState(TheLock, SlpRegain))]);
    assert e == d.(procs := d.procs[i := q.(chan := TheLock, pc := SlpState(TheLock, SlpRegain))]);
    SoloThen(s, i, 4, d, e);
    var f := s.(procs := s.procs[i := e.procs[i].(state := SLEEPING, pc := SlpSwitch(TheLock, SlpRegain))]);
    assert f == e.(procs := e.procs[i := e.procs[i].(state := SLEEPING, pc := SlpSwitch(TheLock, SlpRegain))]);
    SoloThen(s, i, 5, e, f);
    var g := s.(procs := s.procs[i := Proc(SLEEPING, TheLock, Scheduler, false, SlpResume(TheLock, SlpRegain))]);
    assert g == f.(procs := f.procs[i := f.procs[i].(exec := false, plock := Scheduler,
                                                     pc := SlpResume(TheLock, SlpRegain))]);
    SoloThen(s, i, 6, f, g);
  }

  /** A sleeper that has been woken and is scheduled finds the lock free and takes it. */
  lemma Resumes(s: Sys, i: int)
    requires Is(s, i) && s.procs[i] == Proc(RUNNABLE, TheLock, Nobody, false, SlpResume(TheLock, SlpRegain))
    requires s.lk.None? && !s.locked
    ensures Leads(s, [SchedLock(i), SchedRun(i)] + Solo(i, 7),
                  s.(procs := s.procs[i := Proc(RUNNING, NoChan, Nobody, true, Inside)], locked := true,
                     pid := Some(i), owner := Some(i)))
  {
    var back := SlpResume(TheLock, SlpRegain);
    var c := s.(procs := s.procs[i := Proc(RUNNING, TheLock, By(i), true, back)]);
    Dispatched(s, i, c);
    var d := s.(procs := s.procs[i := Proc(RUNNING, NoChan, By(i), true, SlpUnlock(SlpRegain))]);
    assert d == c.(procs := c.procs[i := c.procs[i].(chan := NoChan, pc := SlpUnlock(SlpRegain))]);
    SoloOne(c, i, d);
    var e := s.(procs := s.procs[i := Proc(RUNNING, NoChan, Nobody, true, SlpRegain)]);
    assert e == Go(Plock(d, i, Nobody), i, SlpRegain);
    SoloThen(c, i, 1, d, e);
    var f := s.(procs := s.procs[i := Proc(RUNNING, NoChan, Nobody, true, AcqTest)], lk := Some(i));
    assert f == Go(e, i, AcqTest).(lk := Some(i));
    SoloThen(c, i, 2, e, f);
    TakesFree(f, i);
    var g := s.(procs := s.procs[i := Proc(RUNNING, NoChan, Nobody, true, Inside)], locked := true, pid := Some(i),
                owner := Some(i));
    assert g == Go(f, i, Inside).(lk := None, locked := true, pid := Some(i), owner := Some(i));
    SoloJoin(c, i, 3, f, 4, g);
    LeadsJoin(s, [SchedLock(i), SchedRun(i)], c, Solo(i, 7), g);
  }

  lemma Dispatched(s: Sys, i: int, c: Sys)
    requires Is(s, i) && s.procs[i].plock == Nobody && s.procs[i].state == RUNNABLE
    requires c == s.(procs := s.procs[i := s.procs[i].(state := RUNNING, exec := true, plock := By(i))])
    ensures Leads(s, [SchedLock(i), SchedRun(i)], c)
  {
    LeadsNowhere(s);
    var b := Plock(s, i, Scheduler);
    LeadsThen(s, [], s, SchedLock(i), b);
    assert c == b.(procs := b.procs[i := b.procs[i].(state := RUNNING, exec := true, plock := By(i))]);
    assert [] + [SchedLock(i)] == [SchedLock(i)];
    LeadsThen(s, [SchedLock(i)], b, SchedRun(i), c);
    assert [SchedLock(i)] + [SchedRun(i)] == [SchedLock(i), SchedRun(i)];
  }

  /** A process after wakeup(lk) has looked at it. */
  function Woken(p: Proc): Proc { if p.state == SLEEPING && p.chan == TheLock then p.(state := RUNNABLE) else p }

  /** i at WakeLock(k), having looked at the processes below k. */
  function LookedAt(s: Sys, i: int, k: nat): Sys
    requires Is(s, i)
  {
    Sys(seq(|s.procs|, j requires 0 <= j < |s.procs| =>
      if j == i then s.procs[i].(pc := WakeLock(k)) else if j < k then Woken(s.procs[j]) else s.procs[j]),
        Some(i), false, None, None)
  }

  /** i takes the lock of k, may wake k, releases the lock of k. */
  function Looking(m: Sys, i: int, k: int, pc: Pc): Sys
    requires Is(m, i) && Is(m, k)
  {
    Go(Plock(m, k, By(i)), i, pc)
  }

  function Looked(m: Sys, i: int, k: int, wakes: bool, unlock: Pc, pc: Pc): (r: Sys)
    requires Is(m, i) && Is(m, k) && i != k && m.procs[k].plock == By(i)
    ensures r == m.(procs := r.procs) && |r.procs| == |m.procs|
    ensures forall j :: Is(m, j) ==>
              r.procs[j] == if j == i then m.procs[i].(pc := pc)
                            else if j == k then m.procs[k].(plock := Nobody,
                                                            state := if wakes then RUNNABLE else m.procs[k].state)
                            else m.procs[j]
  {
    var b := Go(if wakes then Wake(m, k) else m, i, unlock);
    Go(Plock(b, k, Nobody), i, pc)
  }

  lemma ThreeSteps(m: Sys, i: int, a: Sys, b: Sys, c: Sys)
    requires Exec(m, i, Idle, a) && Exec(a, i, Idle, b) && Exec(b, i, Idle, c)
    ensures Leads(m, Solo(i, 3), c)
  {
    SoloOne(m, i, a);
    SoloThen(m, i, 1, a, b);
    SoloThen(m, i, 2, b, c);
  }

  /** One turn of the loop of wakeup. */
  lemma WakeTurn(m: Sys, i: int, k: int)
    requires Is(m, i) && Is(m, k) && k != i && m.procs[i].exec && m.procs[i].pc == WakeLock(k)
    requires m.procs[k].plock == Nobody
    ensures var wakes := m.procs[k].state == SLEEPING && m.procs[k].chan == TheLock;
            Leads(m, Solo(i, 3), Looked(Looking(m, i, k, WakeTest(k)), i, k, wakes, WakeUnlock(k), WakeLock(k + 1)))
  {
    var wakes := m.procs[k].state == SLEEPING && m.procs[k].chan == TheLock;
    var a := Looking(m, i, k, WakeTest(k));
    var b := Go(if wakes then Wake(a, k) else a, i, WakeUnlock(k));
    assert RelStep(m, i, a);
    assert RelStep(a, i, b);
    assert RelStep(b, i, Looked(a, i, k, wakes, WakeUnlock(k), WakeLock(k + 1)));
    ThreeSteps(m, i, a, b, Looked(a, i, k, wakes, WakeUnlock(k), WakeLock(k + 1)));
  }

  lemma LooksAt(s: Sys, i: int, k: nat)
    requires Is(s, i) && s.procs[i].exec && k < |s.procs| && k != i && s.procs[k].plock == Nobody
    ensures Leads(LookedAt(s, i, k), Solo(i, 3), LookedAt(s, i, k + 1))
  {
    var m := LookedAt(s, i, k);
    WakeTurn(m, i, k);
    var wakes := m.procs[k].state == SLEEPING && m.procs[k].chan == TheLock;
    var c := Looked(Looking(m, i, k, WakeTest(k)), i, k, wakes, WakeUnlock(k), WakeLock(k + 1));
    assert c.procs == LookedAt(s, i, k + 1).procs;
  }

  /** Instructions of the loop of wakeup below k. */
  function Turns(i: int, k: nat): nat { if k == 0 then 0 else Turns(i, k - 1) + if k - 1 == i then 1 else 3 }

  lemma {:induction false} LooksAtAll(s: Sys, i: int, k: nat)
    requires Is(s, i) && s.procs[i].exec && k <= |s.procs|
    requires forall j :: Is(s, j) && j != i ==> s.procs[j].plock == Nobody
    ensures Leads(LookedAt(s, i, 0), Solo(i, Turns(i, k)), LookedAt(s, i, k))
  {
    var z := LookedAt(s, i, 0);
    if k == 0 {
      LeadsNowhere(z);
      assert Solo(i, 0) == [];
    } else {
      LooksAtAll(s, i, k - 1);
      var m := LookedAt(s, i, k - 1);
      if k - 1 == i {
        assert LookedAt(s, i, k).procs == Go(m, i, WakeLock(k)).procs;
        SoloThen(z, i, Turns(i, k - 1), m, LookedAt(s, i, k));
      } else {
        LooksAt(s, i, k - 1);
        SoloJoin(z, i, Turns(i, k - 1), m, 3, LookedAt(s, i, k));
      }
    }
  }

  /** The state that releasesleep of i leaves: the lock free, every process asleep on it runnable. */
  function Released(s: Sys, i: int): Sys
    requires Is(s, i)
  {
    Sys(seq(|s.procs|, j requires 0 <= j < |s.procs| =>
      if j == i then s.procs[i].(pc := Idle)
      else if s.procs[j].state == SLEEPING && s.procs[j].chan == TheLock then s.procs[j].(state := RUNNABLE)
      else s.procs[j]), None, false, None, None)
  }

  /** releasesleep frees the lock and makes exactly those runnable that sleep on it. */
  lemma Releases(s: Sys, i: int)
    requires Is(s, i) && s.procs[i].exec && s.procs[i].pc == RelEnter && s.lk.None?
    requires forall j :: Is(s, j) && j != i ==> s.procs[j].plock == Nobody
    ensures Leads(s, Solo(i, Turns(i, |s.procs|) + 5), Released(s, i))
  {
    var n := |s.procs|;
    Clears(s, i);
    LooksAtAll(s, i, n);
    SoloJoin(s, i, 3, LookedAt(s, i, 0), Turns(i, n), LookedAt(s, i, n));
    Leaves(s, i, 3 + Turns(i, n));
  }

  lemma Clears(s: Sys, i: int)
    requires Is(s, i) && s.procs[i].exec && s.procs[i].pc == RelEnter && s.lk.None?
    ensures Leads(s, Solo(i, 3), LookedAt(s, i, 0))
  {
    var a := Go(s, i, RelClear).(lk := Some(i));
    var b := Go(a, i, RelPid).(locked := false, owner := None);
    var c := Go(b, i, WakeLock(0)).(pid := None);
    ThreeSteps(s, i, a, b, c);
    assert c.procs == LookedAt(s, i, 0).procs;
  }

  lemma Leaves(s: Sys, i: int, k: nat)
    requires Is(s, i) && s.procs[i].exec && Leads(s, Solo(i, k), LookedAt(s, i, |s.procs|))
    ensures Leads(s, Solo(i, k + 2), Released(s, i))
  {
    var y := LookedAt(s, i, |s.procs|);
    var x := Go(y, i, RelLeave);
    SoloThen(s, i, k, y, x);
    assert Released(s, i).procs == Go(x, i, Idle).procs;
    SoloThen(s, i, k + 1, x, Released(s, i));
  }

  /** The lock goes from its holder to a sleeper: i releases it, j is scheduled and has it. */
  lemma Handover(s: Sys, i: int, j: int)
    requires Is(s, i) && Is(s, j) && i != j && s.procs[i].exec && s.procs[i].pc == RelEnter && s.lk.None?
    requires s.procs[j] == Proc(SLEEPING, TheLock, Nobody, false, SlpResume(TheLock, SlpRegain))
    requires forall k :: Is(s, k) && k != i ==> s.procs[k].plock == Nobody
    ensures exists acts, s' :: Leads(s, acts, s') && Is(s', i) && Is(s', j) && s'.procs[i].pc == Idle
                               && s'.procs[j].pc == Inside && s'.locked && s'.pid == Some(j) && s'.lk.None?
  {
    Releases(s, i);
    var m := Released(s, i);
    Resumes(m, j);
    var s' := m.(procs := m.procs[j := Proc(RUNNING, NoChan, Nobody, true, Inside)], locked := true, pid := Some(j),
                 owner := Some(j));
    LeadsJoin(s, Solo(i, Turns(i, |s.procs|) + 5), m, [SchedLock(j), SchedRun(j)] + Solo(j, 7), s');
  }

  /** kill wakes its target from any sleep, and changes nothing else. */
  lemma Kills(s: Sys, i: int, k: int, back: Pc)
    requires Is(s, i) && Is(s, k) && i != k && s.procs[i].exec && s.procs[i].pc == KillLock(k, back)
    requires s.procs[k].plock == Nobody
    ensures var p := s.procs[k];
            Leads(s, Solo(i, 3), s.(procs := s.procs[i := s.procs[i].(pc := back)]
                                             [k := p.(state := if p.state == SLEEPING then RUNNABLE else p.state)]))
  {
    KillSteps(s, i, k, back);
    var p := s.procs[k];
    var c := Looked(Looking(s, i, k, KillTest(k, back)), i, k, p.state == SLEEPING, KillUnlock(k, back), back);
    assert c.procs == s.procs[i := s.procs[i].(pc := back)]
                             [k := p.(state := if p.state == SLEEPING then RUNNABLE else p.state)];
  }

  lemma KillSteps(s: Sys, i: int, k: int, back: Pc)
    requires Is(s, i) && Is(s, k) && i != k && s.procs[i].exec && s.procs[i].pc == KillLock(k, back)
    requires s.procs[k].plock == Nobody
    ensures Leads(s, Solo(i, 3), Looked(Looking(s, i, k, KillTest(k, back)), i, k, s.procs[k].state == SLEEPING,
                                        KillUnlock(k, back), back))
  {
    var wakes := s.procs[k].state == SLEEPING;
    var a := Looking(s, i, k, KillTest(k, back));
    var b := Go(if wakes then Wake(a, k) else a, i, KillUnlock(k, back));
    assert KillStep(s, i, a);
    assert KillStep(a, i, b);
    assert KillStep(b, i, Looked(a, i, k, wakes, KillUnlock(k, back), back));
    ThreeSteps(s, i, a, b, Looked(a, i, k, wakes, KillUnlock(k, back), back));
  }

  /** Who can wake k. */
  ghost predicate Wakes(s: Sys, a: Act, k: int) {
    && a.Run? && Is(s, a.i) && Is(s, k)
    && var pc := s.procs[a.i].pc;
       (pc == WakeTest(k) && s.procs[k].chan == TheLock) || (pc.KillTest? && pc.k == k)
  }

  lemma RelWakes(s: Sys, a: Act, s': Sys, k: int)
    requires Is(s, k) && s.procs[k].state == SLEEPING && a.Run? && Is(s, a.i) && RelStep(s, a.i, s')
    ensures |s'.procs| == |s.procs|
    ensures s'.procs[k].state == SLEEPING || (s'.procs[k].state == RUNNABLE && Wakes(s, a, k))
  {
  }

  lemma KillWakes(s: Sys, a: Act, s': Sys, k: int)
    requires Is(s, k) && s.procs[k].state == SLEEPING && a.Run? && Is(s, a.i) && KillStep(s, a.i, s')
    ensures |s'.procs| == |s.procs|
    ensures s'.procs[k].state == SLEEPING || (s'.procs[k].state == RUNNABLE && Wakes(s, a, k))
  {
  }

  lemma OwnStepWakes(s: Sys, a: Act, s': Sys, k: int)
    requires Inv(s) && Is(s, k) && s.procs[k].state == SLEEPING && a.Run? && Is(s, a.i) && s.procs[a.i].exec
    requires BeginStep(s, a.i, a.to, s') || AcqStep(s, a.i, s') || SlpStep(s, a.i, s') || YldStep(s, a.i, s')
    ensures |s'.procs| == |s.procs| && s'.procs[k].state == SLEEPING
  {
    assert ProcOk(|s.procs|, a.i, s.procs[a.i]);
  }

  /** Nobody wakes by accident: in any run, a process stops sleeping only when wakeup of this lock
      looks at it and it sleeps on the lock, or when it is the target of kill; and then it is runnable. */
  lemma OnlyWoken(ss: seq<Sys>, acts: seq<Act>, n: nat, k: int)
    requires Runs(ss, acts) && Start(ss[0]) && n < |acts| && Is(ss[n], k)
    requires ss[n].procs[k].state == SLEEPING
    ensures |ss[n + 1].procs| == |ss[n].procs|
    ensures ss[n + 1].procs[k].state == SLEEPING || (ss[n + 1].procs[k].state == RUNNABLE && Wakes(ss[n], acts[n], k))
  {
    RunKeeps(ss, acts, n);
    var s, a, s' := ss[n], acts[n], ss[n + 1];
    assert Step(s, a, s');
    if a.Run? {
      if RelStep(s, a.i, s') {
        RelWakes(s, a, s', k);
      } else if KillStep(s, a.i, s') {
        KillWakes(s, a, s', k);
      } else {
        OwnStepWakes(s, a, s', k);
      }
    }
  }
}
