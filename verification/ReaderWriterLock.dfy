/**
  * The reader-writer lock under every interleaving of any number of threads. Each step is what one thread
  * does while it holds the inner mutex; a wait gives the mutex up, so a waiting call goes on in a later step,
  * when a notification has reached it or its deadline has passed.
  */
module ReaderWriterLock {
  import opened Bytes

  datatype Phase = Idle | WaitingRead | Reading | WaitingWrite | Writing

  /** The counters of the lock, where each thread is, and which waiting threads a notification has reached. */
  datatype LockState = LockState(readers: int, writers: int, writerWaiters: int, phase: map<nat, Phase>,
                                 notified: set<nat>)

  /**
    * `expired` says whether the call's deadline has passed when it would have to wait; `woken` is the writer that is
    * notified.
    */
  datatype Event =
    | StartRead(thread: nat, expired: bool)
    | ResumeRead(thread: nat, expired: bool)
    | EndRead(thread: nat, woken: Option<nat>)
    | StartWrite(thread: nat, expired: bool)
    | ResumeWrite(thread: nat, expired: bool)
    | EndWrite(thread: nat, woken: Option<nat>)

  function PhaseBefore(e: Event): Phase {
    match e
    case StartRead(_, _) => Idle
    case ResumeRead(_, _) => WaitingRead
    case EndRead(_, _) => Reading
    case StartWrite(_, _) => Idle
    case ResumeWrite(_, _) => WaitingWrite
    case EndWrite(_, _) => Writing
  }

  /** Thread `t` waits in phase `p`, and no notification has reached it. */
  predicate Sleeps(s: LockState, t: nat, p: Phase) {
    t in s.phase && s.phase[t] == p && t !in s.notified
  }

  /** A notification for one writer reaches some sleeping writer, if there is any. */
  predicate Notifies(s: LockState, woken: Option<nat>) {
    match woken
    case None => forall t :: t in s.phase ==> !Sleeps(s, t, WaitingWrite)
    case Some(t) => Sleeps(s, t, WaitingWrite)
  }

  /** A thread makes a call when it is in none, and goes on with or ends the one that it is in. */
  predicate Enabled(s: LockState, e: Event) {
    && e.thread in s.phase && s.phase[e.thread] == PhaseBefore(e)
    && (e.ResumeRead? || e.ResumeWrite? ==> e.thread in s.notified || e.expired)
    && (e.EndRead? ==> if s.readers == 1 then Notifies(s, e.woken) else e.woken == None)
    && (e.EndWrite? ==> Notifies(s, e.woken))
  }

  /** One passage through the waiting loop of `acquire_read`. */
  function ReadTest(s: LockState, t: nat, expired: bool): LockState {
    var s := s.(notified := s.notified - {t});
    if s.writers > 0 || s.writerWaiters > 0 then
      s.(phase := s.phase[t := if expired then Idle else WaitingRead])
    else
      s.(readers := s.readers + 1, phase := s.phase[t := Reading])
  }

  /** One passage through the waiting loop of `acquire_write`, for a thread that is counted as waiting. */
  function WriteTest(s: LockState, t: nat, expired: bool): LockState {
    var s := s.(notified := s.notified - {t});
    if s.readers > 0 || s.writers > 0 then
      if expired then s.(writerWaiters := s.writerWaiters - 1, phase := s.phase[t := Idle])
      else s.(phase := s.phase[t := WaitingWrite])
    else
      s.(writers := s.writers + 1, writerWaiters := s.writerWaiters - 1, phase := s.phase[t := Writing])
  }

  function WaitingReaders(phase: map<nat, Phase>): set<nat> { set t | t in phase && phase[t] == WaitingRead }

  function Woken(woken: Option<nat>): set<nat> { if woken.Some? then {woken.value} else {} }

  function Step(s: LockState, e: Event): LockState
    requires Enabled(s, e)
  {
    match e
    case StartRead(t, expired) => ReadTest(s, t, expired)
    case ResumeRead(t, expired) => ReadTest(s, t, expired)
    case EndRead(t, woken) =>
      s.(readers := s.readers - 1, phase := s.phase[t := Idle], notified := s.notified + Woken(woken))
    case StartWrite(t, expired) => WriteTest(s.(writerWaiters := s.writerWaiters + 1), t, expired)
    case ResumeWrite(t, expired) => WriteTest(s, t, expired)
    case EndWrite(t, woken) =>
      s.(writers := s.writers - 1, phase := s.phase[t := Idle],
         notified := s.notified + Woken(woken) + WaitingReaders(s.phase))
  }

  class RWLock {
    var readers: int
    var writers: int
    var writerWaiters: int
    ghost var phase: map<nat, Phase>
    ghost var notified: set<nat>

    ghost function State(): LockState
      reads this
    {
      LockState(readers, writers, writerWaiters, phase, notified)
    }

    constructor (ghost threads: set<nat>)
      ensures State() == Initial(threads)
    {
      readers, writers, writerWaiters := 0, 0, 0;
      phase := map t | t in threads :: Idle;
      notified := {};
    }

    /** From the start of `acquire_read`, or from a wake-up, up to the next wait, the timeout or the end. */
    method AcquireRead(t: nat, expired: bool) returns (admitted: bool)
      requires Enabled(State(), StartRead(t, expired)) || Enabled(State(), ResumeRead(t, expired))
      modifies this
      ensures State() == ReadTest(old(State()), t, expired)
      ensures admitted <==> phase[t] == Reading
    {
      notified := notified - {t};
      if writers > 0 || writerWaiters > 0 {
        phase := phase[t := if expired then Idle else WaitingRead];
        return false;
      }
      readers := readers + 1;
      phase := phase[t := Reading];
      admitted := true;
    }

    /** The last reader notifies one of the sleeping writers, whichever it is. */
    method ReleaseRead(t: nat, ghost woken: Option<nat>)
      requires Enabled(State(), EndRead(t, woken))
      modifies this
      ensures State() == Step(old(State()), EndRead(t, woken))
    {
      readers := readers - 1;
      phase := phase[t := Idle];
      if readers == 0 {
        notified := notified + Woken(woken);
      }
    }

    /** The same for `acquire_write`; a call that starts is counted as waiting first. */
    method AcquireWrite(t: nat, expired: bool, starts: bool) returns (admitted: bool)
      requires Enabled(State(), if starts then StartWrite(t, expired) else ResumeWrite(t, expired))
      modifies this
      ensures State() == Step(old(State()), if starts then StartWrite(t, expired) else ResumeWrite(t, expired))
      ensures admitted <==> phase[t] == Writing
    {
      notified := notified - {t};
      if starts {
        writerWaiters := writerWaiters + 1;
      }
      if readers > 0 || writers > 0 {
        if expired {
          writerWaiters := writerWaiters - 1;
        }
        phase := phase[t := if expired then Idle else WaitingWrite];
        return false;
      }
      writers := writers + 1;
      writerWaiters := writerWaiters - 1;
      phase := phase[t := Writing];
      admitted := true;
    }

    /** One sleeping writer is notified, and all waiting readers are. */
    method ReleaseWrite(t: nat, ghost woken: Option<nat>)
      requires Enabled(State(), EndWrite(t, woken))
      modifies this
      ensures State() == Step(old(State()), EndWrite(t, woken))
    {
      writers := writers - 1;
      notified := notified + Woken(woken);
      notified := notified + WaitingReaders(phase);
      phase := phase[t := Idle];
    }
  }

  // ---- every run

  function Initial(threads: set<nat>): LockState { LockState(0, 0, 0, map t | t in threads :: Idle, {}) }

  ghost predicate IsRun(threads: set<nat>, events: seq<Event>)
    decreases |events|, 0
  {
    events == [] ||
    var before := events[..|events| - 1];
    IsRun(threads, before) && Enabled(After(threads, before), events[|events| - 1])
  }

  ghost function After(threads: set<nat>, events: seq<Event>): LockState
    requires IsRun(threads, events)
    decreases |events|, 1
  {
    if events == [] then Initial(threads)
    else Step(After(threads, events[..|events| - 1]), events[|events| - 1])
  }

  ghost function InPhase(phase: map<nat, Phase>, p: Phase): set<nat> { set t | t in phase && phase[t] == p }

  /** The counters are the numbers of threads in each phase, one writer at most, and never beside a reader. */
  ghost predicate Safe(s: LockState) {
    && s.readers == |InPhase(s.phase, Reading)|
    && s.writers == |InPhase(s.phase, Writing)|
    && s.writerWaiters == |InPhase(s.phase, WaitingWrite)|
    && s.writers <= 1 && (s.writers == 0 || s.readers == 0)
  }

  /** A thread that changes its phase leaves one set of threads and joins another. */
  lemma PhaseChanged(phase: map<nat, Phase>, t: nat, q: Phase, x: Phase)
    requires t in phase
    ensures |InPhase(phase[t := q], x)|
         == |InPhase(phase, x)| - (if phase[t] == x then 1 else 0) + (if q == x then 1 else 0)
  {
    var before, after := InPhase(phase, x), InPhase(phase[t := q], x);
    assert before - {t} == after - {t};
    assert |before| == |before - {t}| + if t in before then 1 else 0;
    assert |after| == |after - {t}| + if t in after then 1 else 0;
    assert t in before <==> phase[t] == x;
    assert t in after <==> q == x;
  }

  lemma StepSafe(s: LockState, e: Event)
    requires Safe(s) && Enabled(s, e)
    ensures Safe(Step(s, e))
  {
    var t, q := e.thread, Step(s, e).phase[e.thread];
    PhaseChanged(s.phase, t, q, Reading);
    PhaseChanged(s.phase, t, q, Writing);
    PhaseChanged(s.phase, t, q, WaitingWrite);
    hide InPhase;
  }

  lemma {:induction false} RunSafe(threads: set<nat>, events: seq<Event>)
    requires IsRun(threads, events)
    ensures Safe(After(threads, events)) && After(threads, events).phase.Keys == threads
    decreases |events|
  {
    if events == [] {
      var s := Initial(threads);
      assert InPhase(s.phase, Reading) == {} && InPhase(s.phase, Writing) == {} && InPhase(s.phase, WaitingWrite) == {};
    } else {
      var before := events[..|events| - 1];
      RunSafe(threads, before);
      StepSafe(After(threads, before), events[|events| - 1]);
    }
  }

  /** Mutual exclusion, thread by thread: a writer is alone. */
  lemma WriterIsAlone(threads: set<nat>, events: seq<Event>, t: nat, u: nat)
    requires IsRun(threads, events) && t in threads && u in threads && t != u
    ensures var phase := After(threads, events).phase;
            t in phase && u in phase && (phase[t] == Writing ==> phase[u] != Writing && phase[u] != Reading)
  {
    RunSafe(threads, events);
    var s := After(threads, events);
    assert s.phase[t] == Writing ==> t in InPhase(s.phase, Writing);
    assert s.phase[u] == Reading ==> u in InPhase(s.phase, Reading);
    if s.phase[t] == Writing == s.phase[u] {
      TwoMembers(InPhase(s.phase, Writing), t, u);
    }
  }

  lemma TwoMembers(s: set<nat>, t: nat, u: nat)
    requires t in s && u in s && t != u
    ensures |s| >= 2
  {
    assert |s - {t} - {u}| == |s| - 2;
  }

  /** Writers first: no step admits a reader while some thread writes or waits to write. */
  lemma ReaderAdmitted(threads: set<nat>, events: seq<Event>, e: Event, t: nat, u: nat)
    requires IsRun(threads, events) && Enabled(After(threads, events), e) && t in threads && u in threads
    requires After(threads, events).phase.Keys == threads
    requires After(threads, events).phase[t] != Reading && Step(After(threads, events), e).phase[t] == Reading
    ensures After(threads, events).phase[u] != Writing && After(threads, events).phase[u] != WaitingWrite
  {
    RunSafe(threads, events);
    var s := After(threads, events);
    assert s.phase[u] == Writing ==> u in InPhase(s.phase, Writing);
    assert s.phase[u] == WaitingWrite ==> u in InPhase(s.phase, WaitingWrite);
  }

  /** The counters are zero exactly when no thread is in the phase. */
  lemma NobodyCounts(s: LockState)
    requires Safe(s)
    ensures s.readers == 0 <==> forall u :: u in s.phase ==> s.phase[u] != Reading
    ensures s.writers == 0 <==> forall u :: u in s.phase ==> s.phase[u] != Writing
    ensures s.writerWaiters == 0 <==> forall u :: u in s.phase ==> s.phase[u] != WaitingWrite
    ensures 0 <= s.readers && 0 <= s.writers && 0 <= s.writerWaiters
  {
    Nobody(s.phase, Reading);
    Nobody(s.phase, Writing);
    Nobody(s.phase, WaitingWrite);
  }

  lemma Nobody(phase: map<nat, Phase>, p: Phase)
    ensures |InPhase(phase, p)| == 0 <==> forall u :: u in phase ==> phase[u] != p
  {
    if exists u :: u in phase && phase[u] == p {
      var u :| u in phase && phase[u] == p;
      assert u in InPhase(phase, p);
    } else {
      assert InPhase(phase, p) == {};
    }
  }

  ghost predicate OthersStay(before: map<nat, Phase>, behind: map<nat, Phase>, t: nat) {
    behind.Keys == before.Keys && forall u :: u in before && u != t ==> behind[u] == before[u]
  }

  /**
    * A test for the write lock, at the start of the call or later, and in time or too late: the thread gets the lock
    * exactly when no thread reads or writes, and otherwise waits or gives up.
    */
  lemma WriteTested(threads: set<nat>, events: seq<Event>, e: Event)
    requires IsRun(threads, events) && Enabled(After(threads, events), e) && (e.StartWrite? || e.ResumeWrite?)
    ensures
      var before, behind := After(threads, events).phase, Step(After(threads, events), e).phase;
      && OthersStay(before, behind, e.thread) && e.thread in behind
      && behind[e.thread]
         == if forall u :: u in before ==> before[u] != Reading && before[u] != Writing then Writing
            else if e.expired then Idle
            else WaitingWrite
  {
    RunSafe(threads, events);
    NobodyCounts(After(threads, events));
    hide Safe, IsRun, After;
  }

  /** A test for the read lock: the thread gets it exactly when no thread writes or waits to write. */
  lemma ReadTested(threads: set<nat>, events: seq<Event>, e: Event)
    requires IsRun(threads, events) && Enabled(After(threads, events), e) && (e.StartRead? || e.ResumeRead?)
    ensures
      var before, behind := After(threads, events).phase, Step(After(threads, events), e).phase;
      && OthersStay(before, behind, e.thread) && e.thread in behind
      && behind[e.thread]
         == if forall u :: u in before ==> before[u] != Writing && before[u] != WaitingWrite then Reading
            else if e.expired then Idle
            else WaitingRead
  {
    RunSafe(threads, events);
    NobodyCounts(After(threads, events));
    hide Safe, IsRun, After;
  }

  /** Giving a lock back leaves the thread with none, and all others where they were. */
  lemma Released(threads: set<nat>, events: seq<Event>, e: Event)
    requires IsRun(threads, events) && Enabled(After(threads, events), e) && (e.EndRead? || e.EndWrite?)
    ensures
      var before, behind := After(threads, events).phase, Step(After(threads, events), e).phase;
      OthersStay(before, behind, e.thread) && e.thread in behind && behind[e.thread] == Idle
  {
    hide IsRun, After;
  }

  // ---- notifications

  /** Only waiting threads are notified; and when nobody holds the lock but writers wait, one of them is. */
  ghost predicate Wakeful(s: LockState) {
    && (forall t :: t in s.notified ==> t in s.phase && s.phase[t] in {WaitingRead, WaitingWrite})
    && (s.readers == 0 && s.writers == 0 ==> (exists t :: Sleeps(s, t, WaitingWrite)) ==> NotifiedWriter(s))
  }

  ghost predicate NotifiedWriter(s: LockState) {
    exists t :: t in s.notified && t in s.phase && s.phase[t] == WaitingWrite
  }

  /** What the counters say about single threads. */
  ghost predicate Counted(s: LockState) {
    forall t :: t in s.phase ==>
      && (s.phase[t] == Reading ==> s.readers > 0 && s.writers == 0)
      && (s.phase[t] == Writing ==> s.writers == 1 && s.readers == 0)
      && (s.phase[t] == WaitingWrite ==> s.writerWaiters > 0)
  }

  lemma SafeCounted(s: LockState)
    requires Safe(s)
    ensures Counted(s) && 0 <= s.readers && 0 <= s.writers && 0 <= s.writerWaiters && (s.writers == 0 || s.readers == 0)
  {
    forall t | t in s.phase
      ensures s.phase[t] == Reading ==> s.readers > 0
      ensures s.phase[t] == Writing ==> s.writers > 0
      ensures s.phase[t] == WaitingWrite ==> s.writerWaiters > 0
    {
      assert t in InPhase(s.phase, s.phase[t]);
    }
  }

  lemma StepWakeful(s: LockState, e: Event)
    requires Safe(s) && Wakeful(s) && Enabled(s, e)
    ensures Wakeful(Step(s, e))
  {
    SafeCounted(s);
    hide Safe;
    if e.EndRead? || e.EndWrite? {
      EndWakeful(s, e);
    } else {
      TestWakeful(s, e);
    }
  }

  /** Whoever leaves the lock free notifies a writer, if one sleeps. */
  lemma EndWakeful(s: LockState, e: Event)
    requires Counted(s) && Wakeful(s) && Enabled(s, e) && (e.EndRead? || e.EndWrite?)
    ensures Wakeful(Step(s, e))
  {
    var s' := Step(s, e);
    if s'.readers == 0 && s'.writers == 0 && exists t :: Sleeps(s', t, WaitingWrite) {
      var t :| Sleeps(s', t, WaitingWrite);
      assert Notifies(s, e.woken);
      assert Sleeps(s, t, WaitingWrite);
      var u := e.woken.value;
      assert u in s'.notified && s'.phase[u] == WaitingWrite;
    }
  }

  /** A test of the waiting condition does not leave a free lock to sleeping writers. */
  lemma TestWakeful(s: LockState, e: Event)
    requires Counted(s) && 0 <= s.readers && 0 <= s.writers && 0 <= s.writerWaiters
    requires Wakeful(s) && Enabled(s, e) && !e.EndRead? && !e.EndWrite?
    ensures Wakeful(Step(s, e))
  {
    var s' := Step(s, e);
    if s'.readers == 0 && s'.writers == 0 && exists t :: Sleeps(s', t, WaitingWrite) {
      var t :| Sleeps(s', t, WaitingWrite);
      assert e.StartRead? || e.ResumeRead?;
      assert Sleeps(s, t, WaitingWrite);
      var u :| u in s.notified && u in s.phase && s.phase[u] == WaitingWrite;
      assert u in s'.notified && s'.phase[u] == WaitingWrite;
    }
  }

  lemma {:induction false} RunWakeful(threads: set<nat>, events: seq<Event>)
    requires IsRun(threads, events)
    ensures Safe(After(threads, events)) && Wakeful(After(threads, events))
    ensures After(threads, events).phase.Keys == threads
    decreases |events|
  {
    RunSafe(threads, events);
    if events != [] {
      var before := events[..|events| - 1];
      RunWakeful(threads, before);
      StepWakeful(After(threads, before), events[|events| - 1]);
    }
  }

  /** The counters that the threads of `phase` make up, without thread `t`. */
  ghost predicate CountsWithout(s: LockState, t: nat) {
    && s.readers == |InPhase(s.phase - {t}, Reading)|
    && s.writers == |InPhase(s.phase - {t}, Writing)|
    && s.writerWaiters == |InPhase(s.phase - {t}, WaitingWrite)|
  }

  lemma IdleUncounted(s: LockState, t: nat)
    requires Safe(s) && t in s.phase && s.phase[t] == Idle
    ensures CountsWithout(s, t)
  {
    assert InPhase(s.phase - {t}, Reading) == InPhase(s.phase, Reading);
    assert InPhase(s.phase - {t}, Writing) == InPhase(s.phase, Writing);
    assert InPhase(s.phase - {t}, WaitingWrite) == InPhase(s.phase, WaitingWrite);
  }

  /** A call that times out, at once or after any waiting, leaves no trace of its thread in the counters. */
  lemma TimedOutCall(threads: set<nat>, events: seq<Event>, e: Event)
    requires IsRun(threads, events) && Enabled(After(threads, events), e) && !e.EndRead? && !e.EndWrite?
    requires Step(After(threads, events), e).phase[e.thread] == Idle
    ensures e.expired && CountsWithout(Step(After(threads, events), e), e.thread)
    ensures e.StartRead? || e.StartWrite? ==> Step(After(threads, events), e) == After(threads, events)
  {
    hide Safe, InPhase, CountsWithout;
    RunWakeful(threads, events);
    StepSafe(After(threads, events), e);
    IdleUncounted(Step(After(threads, events), e), e.thread);
    TimedOutAtOnce(After(threads, events), e);
  }

  lemma TimedOutAtOnce(s: LockState, e: Event)
    requires Wakeful(s) && Enabled(s, e) && Step(s, e).phase[e.thread] == Idle
    ensures e.StartRead? || e.StartWrite? ==> Step(s, e) == s
  {
    if e.StartRead? || e.StartWrite? {
      assert s.phase[e.thread] == Idle && e.thread !in s.notified;
      assert s.phase[e.thread := Idle] == s.phase && s.notified - {e.thread} == s.notified;
    }
  }

  /**
    * No deadlock: when nobody holds the lock and a writer waits, one has been notified, and whichever waiting writer
    * runs gets the lock.
    */
  lemma FreeLockIsTaken(threads: set<nat>, events: seq<Event>, t: nat)
    requires IsRun(threads, events) && t in After(threads, events).phase
    requires After(threads, events).phase[t] == WaitingWrite
    requires forall u :: u in After(threads, events).phase ==> After(threads, events).phase[u] !in {Reading, Writing}
    ensures exists u :: Enabled(After(threads, events), ResumeWrite(u, false))
    ensures forall u, expired :: Enabled(After(threads, events), ResumeWrite(u, expired)) ==>
              Step(After(threads, events), ResumeWrite(u, expired)).phase[u] == Writing
  {
    RunWakeful(threads, events);
    var s := After(threads, events);
    assert InPhase(s.phase, Reading) == {} && InPhase(s.phase, Writing) == {};
    assert Sleeps(s, t, WaitingWrite) || t in s.notified;
    var u :| u in s.notified && u in s.phase && s.phase[u] == WaitingWrite;
    assert Enabled(s, ResumeWrite(u, false));
  }

  /** No writer writes or waits, and yet a reader sleeps: nothing but a later writer or its own deadline wakes it. */
  ghost predicate Stalled(s: LockState) {
    s.writers == 0 && s.writerWaiters == 0 && exists t :: Sleeps(s, t, WaitingRead)
  }

  /** The only waiting writer times out while readers read and another reader sleeps behind it. */
  ghost predicate LastWriterGivesUp(s: LockState, e: Event) {
    && e.ResumeWrite? && e.expired && s.writerWaiters == 1 && s.readers > 0
    && exists t :: Sleeps(s, t, WaitingRead)
  }

  /**
    * Where no writer writes or waits, every waiting reader can go on at once and is admitted, if and only if the lock
    * is not stalled.
    */
  lemma NotStalledAdmits(threads: set<nat>, events: seq<Event>)
    requires IsRun(threads, events)
    requires forall u :: u in After(threads, events).phase ==>
              After(threads, events).phase[u] !in {Writing, WaitingWrite}
    ensures !Stalled(After(threads, events)) <==>
              forall t :: t in After(threads, events).phase && After(threads, events).phase[t] == WaitingRead ==>
                && Enabled(After(threads, events), ResumeRead(t, false))
                && Step(After(threads, events), ResumeRead(t, false)).phase[t] == Reading
  {
    RunSafe(threads, events);
    var s := After(threads, events);
    assert InPhase(s.phase, Writing) == {} && InPhase(s.phase, WaitingWrite) == {};
    if Stalled(s) {
      var t :| Sleeps(s, t, WaitingRead);
      assert !Enabled(s, ResumeRead(t, false));
    }
    forall t | t in s.phase && s.phase[t] == WaitingRead && !Stalled(s)
      ensures Enabled(s, ResumeRead(t, false))
    {
      assert !Sleeps(s, t, WaitingRead);
    }
  }

  /** Exactly one kind of step stalls the lock. */
  lemma StallExact(s: LockState, e: Event)
    requires Safe(s) && Enabled(s, e) && !Stalled(s)
    ensures Stalled(Step(s, e)) <==> LastWriterGivesUp(s, e)
  {
    SafeCounted(s);
    hide Safe;
    if LastWriterGivesUp(s, e) {
      GivenUpStalls(s, e);
    }
    if Stalled(Step(s, e)) {
      OnlyGivenUpStalls(s, e);
    }
  }

  lemma GivenUpStalls(s: LockState, e: Event)
    requires Enabled(s, e) && LastWriterGivesUp(s, e) && s.writers == 0
    ensures Stalled(Step(s, e))
  {
    var t :| Sleeps(s, t, WaitingRead);
    assert Sleeps(Step(s, e), t, WaitingRead);
  }

  lemma OnlyGivenUpStalls(s: LockState, e: Event)
    requires Counted(s) && 0 <= s.writers && 0 <= s.writerWaiters && Enabled(s, e) && !Stalled(s) && Stalled(Step(s, e))
    ensures LastWriterGivesUp(s, e)
  {
    var t :| Sleeps(Step(s, e), t, WaitingRead);
    assert e.EndWrite? ==> t !in WaitingReaders(s.phase);
    assert Sleeps(s, t, WaitingRead);
  }

  /** A run that is stalled at the end holds a step in which the last waiting writer gave up. */
  lemma {:induction false} RunStalls(threads: set<nat>, events: seq<Event>) returns (k: nat)
    requires IsRun(threads, events) && Stalled(After(threads, events))
    ensures k < |events| && IsRun(threads, events[..k]) && LastWriterGivesUp(After(threads, events[..k]), events[k])
    decreases |events|
  {
    var before := events[..|events| - 1];
    RunSafe(threads, before);
    if Stalled(After(threads, before)) {
      k := RunStalls(threads, before);
      assert events[..k] == before[..k];
    } else {
      StallExact(After(threads, before), events[|events| - 1]);
      k := |events| - 1;
    }
  }

  lemma OneMore(threads: set<nat>, before: seq<Event>, s: LockState, e: Event, s': LockState)
    requires IsRun(threads, before) && After(threads, before) == s && Enabled(s, e) && Step(s, e) == s'
    ensures IsRun(threads, before + [e]) && After(threads, before + [e]) == s'
  {
    assert (before + [e])[..|before|] == before;
  }

  lemma StallingSteps(s0: LockState, s1: LockState, s2: LockState, s3: LockState, s4: LockState, s5: LockState)
    requires s0 == LockState(0, 0, 0, map[1 := Idle, 2 := Idle, 3 := Idle], {})
    requires s1 == LockState(1, 0, 0, map[1 := Reading, 2 := Idle, 3 := Idle], {})
    requires s2 == LockState(1, 0, 1, map[1 := Reading, 2 := WaitingWrite, 3 := Idle], {})
    requires s3 == LockState(1, 0, 1, map[1 := Reading, 2 := WaitingWrite, 3 := WaitingRead], {})
    requires s4 == LockState(1, 0, 0, map[1 := Reading, 2 := Idle, 3 := WaitingRead], {})
    requires s5 == LockState(0, 0, 0, map[1 := Idle, 2 := Idle, 3 := WaitingRead], {})
    ensures Enabled(s0, StartRead(1, false)) && Step(s0, StartRead(1, false)) == s1
    ensures Enabled(s1, StartWrite(2, false)) && Step(s1, StartWrite(2, false)) == s2
    ensures Enabled(s2, StartRead(3, false)) && Step(s2, StartRead(3, false)) == s3
    ensures Enabled(s3, ResumeWrite(2, true)) && Step(s3, ResumeWrite(2, true)) == s4
    ensures Enabled(s4, EndRead(1, None)) && Step(s4, EndRead(1, None)) == s5
    ensures Stalled(s5) && !Enabled(s5, ResumeRead(3, false))
  {
    assert Sleeps(s5, 3, WaitingRead);
  }

  /**
    * A writer that times out wakes no reader: here the lock ends up free, and the reader that waits can only go on when
    * its own time is up.
    */
  lemma TimedOutWriterStallsReader()
    ensures
      var events := [StartRead(1, false), StartWrite(2, false), StartRead(3, false), ResumeWrite(2, true),
                     EndRead(1, None)];
      && IsRun({1, 2, 3}, events)
      && var s := After({1, 2, 3}, events);
         && s == LockState(0, 0, 0, map[1 := Idle, 2 := Idle, 3 := WaitingRead], {})
         && Stalled(s) && !Enabled(s, ResumeRead(3, false))
  {
    var e1, e2, e3 := StartRead(1, false), StartWrite(2, false), StartRead(3, false);
    var e4, e5 := ResumeWrite(2, true), EndRead(1, None);
    var s0 := Initial({1, 2, 3});
    assert s0 == LockState(0, 0, 0, map[1 := Idle, 2 := Idle, 3 := Idle], {});
    var s1 := LockState(1, 0, 0, map[1 := Reading, 2 := Idle, 3 := Idle], {});
    var s2 := LockState(1, 0, 1, map[1 := Reading, 2 := WaitingWrite, 3 := Idle], {});
    var s3 := LockState(1, 0, 1, map[1 := Reading, 2 := WaitingWrite, 3 := WaitingRead], {});
    var s4 := LockState(1, 0, 0, map[1 := Reading, 2 := Idle, 3 := WaitingRead], {});
    var s5 := LockState(0, 0, 0, map[1 := Idle, 2 := Idle, 3 := WaitingRead], {});
    assert [e1] == [] + [e1] && [e1, e2] == [e1] + [e2] && [e1, e2, e3] == [e1, e2] + [e3];
    assert [e1, e2, e3, e4] == [e1, e2, e3] + [e4] && [e1, e2, e3, e4, e5] == [e1, e2, e3, e4] + [e5];
    StallingSteps(s0, s1, s2, s3, s4, s5);
    hide Enabled, Step, Stalled;
    OneMore({1, 2, 3}, [], s0, e1, s1);
    OneMore({1, 2, 3}, [e1], s1, e2, s2);
    OneMore({1, 2, 3}, [e1, e2], s2, e3, s3);
    OneMore({1, 2, 3}, [e1, e2, e3], s3, e4, s4);
    OneMore({1, 2, 3}, [e1, e2, e3, e4], s4, e5, s5);
  }
}
