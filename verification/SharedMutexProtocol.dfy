/**
  The two-gate reader/writer lock of kernel/vds_core/legacy.h as a transition system. Every
  action is one critical section of the code: what a thread does between acquiring the
  internal mutex and releasing it, or going to sleep on a gate. A wait may end at any time
  (spuriously or after a notification), after which its loop condition is evaluated again.
 */
module SharedMutexProtocol {
  import opened Collections
  import opened Wrappers

  const WRITE_ENTERED: nat := 0x8000_0000
  /** The largest number of readers the state word can count. */
  const N_READERS: nat := 0x7FFF_FFFF

  datatype ThreadState =
    | Idle
    /** Asleep on gate1 in lock or in lock_shared. */
    | WaitWrite(notified: bool)
    | WaitRead(notified: bool)
    /** Has set write_entered_ and is asleep on gate2 until the readers have left. */
    | WaitReaders(notified: bool)
    | Reading
    | Writing
    /** Has cleared the state word in unlock and is about to notify gate1. */
    | Unlocking

  type Thread = nat

  datatype State = State(word: nat, threads: map<Thread, ThreadState>) {
    predicate WriteEntered() {
      word >= WRITE_ENTERED
    }

    function Readers(): nat {
      word % WRITE_ENTERED
    }

    function Put(t: Thread, x: ThreadState): State {
      this.(threads := threads[t := x])
    }
  }

  datatype Action =
    | Lock(t: Thread)
    | LockDrained(t: Thread)
    | TryLock(t: Thread)
    | Unlock(t: Thread)
    | NotifyAll(t: Thread)
    | LockShared(t: Thread)
    | TryLockShared(t: Thread)
    /** The thread woken by notify_one, if the code notifies and somebody sleeps. */
    | UnlockShared(t: Thread, woken: Option<Thread>)

  function Ids(n: nat): (r: set<Thread>)
    ensures forall t: nat :: t in r <==> t < n
    ensures |r| == n
  {
    if n == 0 then {}
    else
      var smaller := Ids(n - 1);
      assert n - 1 !in smaller;
      smaller + {n - 1}
  }

  /** n threads, none of them near the lock. */
  function Init(n: nat): State {
    State(0, map t | t in Ids(n) :: Idle)
  }

  predicate AsleepAtGate1(x: ThreadState) {
    x == WaitWrite(false) || x == WaitRead(false)
  }

  function Wake(x: ThreadState): ThreadState {
    match x
    case WaitWrite(_) => WaitWrite(true)
    case WaitRead(_) => WaitRead(true)
    case WaitReaders(_) => WaitReaders(true)
    case _ => x
  }

  predicate AsleepAt(gate2: bool, x: ThreadState) {
    if gate2 then x == WaitReaders(false) else AsleepAtGate1(x)
  }

  /** notify_one wakes one sleeper of the gate; without a sleeper it is lost. */
  ghost function NotifyOne(s: State, gate2: bool, woken: Option<Thread>): Option<State> {
    match woken
    case Some(t) =>
      if t in s.threads && AsleepAt(gate2, s.threads[t]) then Some(s.Put(t, Wake(s.threads[t]))) else None
    case None =>
      if exists t :: t in s.threads && AsleepAt(gate2, s.threads[t]) then None else Some(s)
  }

  /** One critical section; None when the thread is not at that point of the code. */
  ghost function Next(s: State, a: Action): Option<State> {
    if a.t !in s.threads then None
    else
      var x := s.threads[a.t];
      match a
      case Lock(t) =>
        if !(x.Idle? || x.WaitWrite?) then None
        else if s.WriteEntered() then Some(s.Put(t, WaitWrite(false)))
        else
          var s' := s.(word := s.word + WRITE_ENTERED);
          Some(s'.Put(t, if s'.Readers() != 0 then WaitReaders(false) else Writing))
      case LockDrained(t) =>
        if !x.WaitReaders? then None
        else Some(s.Put(t, if s.Readers() != 0 then WaitReaders(false) else Writing))
      case TryLock(t) =>
        if !x.Idle? then None
        else if s.word == 0 then Some(s.(word := WRITE_ENTERED).Put(t, Writing))
        else Some(s)
      case Unlock(t) =>
        if !x.Writing? then None else Some(s.(word := 0).Put(t, Unlocking))
      case NotifyAll(t) =>
        if !x.Unlocking? then None
        else
          Some(s.(threads := map u | u in s.threads ::
            if u == t then Idle else if AsleepAtGate1(s.threads[u]) then Wake(s.threads[u]) else s.threads[u]))
      case LockShared(t) =>
        if !(x.Idle? || x.WaitRead?) then None
        else if s.WriteEntered() || s.Readers() == N_READERS then Some(s.Put(t, WaitRead(false)))
        else Some(s.(word := s.word + 1).Put(t, Reading))
      case TryLockShared(t) =>
        if !x.Idle? then None
        else if !s.WriteEntered() && s.Readers() != N_READERS then Some(s.(word := s.word + 1).Put(t, Reading))
        else Some(s)
      case UnlockShared(t, woken) =>
        if !x.Reading? || s.Readers() == 0 then None
        else
          var s' := s.(word := s.word - 1).Put(t, Idle);
          if s'.WriteEntered() then
            if s'.Readers() == 0 then NotifyOne(s', true, woken)
            else if woken.None? then Some(s') else None
          else
            if s'.Readers() == N_READERS - 1 then NotifyOne(s', false, woken)
            else if woken.None? then Some(s') else None
  }

  /** The state after a sequence of critical sections. */
  ghost function Run(s: State, actions: seq<Action>): Option<State> {
    if |actions| == 0 then Some(s)
    else
      var before := Run(s, actions[..|actions| - 1]);
      if before.None? then None else Next(before.value, actions[|actions| - 1])
  }

  // ----- Safety -----

  ghost function ReadersIn(threads: map<Thread, ThreadState>): set<Thread> {
    set t | t in threads && threads[t].Reading?
  }

  predicate OwnsWrite(x: ThreadState) {
    x.WaitReaders? || x.Writing?
  }

  ghost predicate Owned(threads: map<Thread, ThreadState>) {
    exists t :: t in threads && OwnsWrite(threads[t])
  }

  /** The state word counts the readers inside and tells whether some thread owns the write bit. */
  ghost predicate Accounted(entered: bool, readers: nat, threads: map<Thread, ThreadState>) {
    && readers == |ReadersIn(threads)|
    && (entered <==> Owned(threads))
    && (forall t, u :: t in threads && u in threads && OwnsWrite(threads[t]) && OwnsWrite(threads[u]) ==> t == u)
    // a writer inside is alone
    && (forall t :: t in threads && threads[t].Writing? ==> readers == 0)
  }

  /** A writer waiting for readers is not left asleep when there are none. */
  ghost predicate Gate2Awake(readers: nat, threads: map<Thread, ThreadState>) {
    forall t :: t in threads && threads[t] == WaitReaders(false) ==> readers > 0
  }

  ghost predicate Inv(s: State) {
    && s.word < 2 * WRITE_ENTERED
    && Accounted(s.WriteEntered(), s.Readers(), s.threads)
    && Gate2Awake(s.Readers(), s.threads)
  }

  lemma InitInv(n: nat)
    ensures Inv(Init(n))
  {
    assert ReadersIn(Init(n).threads) == {};
  }

  lemma ReaderCounted(threads: map<Thread, ThreadState>, t: Thread)
    requires t in threads && threads[t].Reading?
    ensures |ReadersIn(threads)| >= 1
  {
    assert t in ReadersIn(threads);
  }

  /** A writer excludes all readers and all other writers. */
  lemma Exclusion(s: State, writer: Thread, other: Thread)
    requires Inv(s) && writer in s.threads && other in s.threads && writer != other
    requires s.threads[writer].Writing?
    ensures !s.threads[other].Writing? && !s.threads[other].Reading?
  {
    if s.threads[other].Reading? {
      ReaderCounted(s.threads, other);
    }
  }

  function CountOf(x: ThreadState): nat {
    if x.Reading? then 1 else 0
  }

  lemma ReadersPut(threads: map<Thread, ThreadState>, t: Thread, x: ThreadState)
    requires t in threads
    ensures |ReadersIn(threads[t := x])| == |ReadersIn(threads)| - CountOf(threads[t]) + CountOf(x)
  {
    var before, after := ReadersIn(threads), ReadersIn(threads[t := x]);
    assert after == if x.Reading? then before + {t} else before - {t};
  }

  /** One thread moves, and the word is adjusted to match. */
  lemma AccountedPut(entered: bool, readers: nat, threads: map<Thread, ThreadState>, t: Thread, x: ThreadState,
                     entered': bool, readers': nat)
    requires Accounted(entered, readers, threads) && t in threads
    requires readers' == readers - CountOf(threads[t]) + CountOf(x)
    requires entered' == if OwnsWrite(x) then true else if OwnsWrite(threads[t]) then false else entered
    requires OwnsWrite(x) && entered ==> OwnsWrite(threads[t])
    requires x.Reading? && !threads[t].Reading? ==> !entered
    requires x.Writing? ==> readers' == 0
    ensures Accounted(entered', readers', threads[t := x])
  {
    ReadersPut(threads, t, x);
    var after := threads[t := x];
    if OwnsWrite(x) {
      assert OwnsWrite(after[t]);
    } else if entered' {
      var u :| u in threads && OwnsWrite(threads[u]);
      assert OwnsWrite(after[u]);
    }
  }

  lemma NotifyOneKeeps(s: State, gate2: bool, woken: Option<Thread>)
    requires NotifyOne(s, gate2, woken).Some?
    requires Accounted(s.WriteEntered(), s.Readers(), s.threads)
    ensures var r := NotifyOne(s, gate2, woken).value;
      && r.word == s.word && r.threads.Keys == s.threads.Keys
      && Accounted(r.WriteEntered(), r.Readers(), r.threads)
      && (Gate2Awake(s.Readers(), s.threads) ==> Gate2Awake(r.Readers(), r.threads))
  {
    if woken.Some? {
      var t := woken.value;
      AccountedPut(s.WriteEntered(), s.Readers(), s.threads, t, Wake(s.threads[t]), s.WriteEntered(), s.Readers());
    }
  }

  /** The only sleeper of gate2 is the owner of the write bit, so waking one wakes it. */
  lemma NotifyGate2(s: State, woken: Option<Thread>)
    requires NotifyOne(s, true, woken).Some?
    requires Accounted(s.WriteEntered(), s.Readers(), s.threads)
    ensures Gate2Awake(0, NotifyOne(s, true, woken).value.threads)
  {
  }

  /** Setting and clearing the write bit and counting readers in one word. */
  lemma WordFacts(s: State)
    requires s.word < 2 * WRITE_ENTERED
    ensures s.word == (if s.WriteEntered() then WRITE_ENTERED else 0) + s.Readers()
    ensures s.Readers() <= N_READERS
    ensures !s.WriteEntered() ==>
      var t := s.(word := s.word + WRITE_ENTERED);
      t.word < 2 * WRITE_ENTERED && t.WriteEntered() && t.Readers() == s.Readers()
    ensures s.Readers() != N_READERS ==>
      var t := s.(word := s.word + 1);
      t.word < 2 * WRITE_ENTERED && t.WriteEntered() == s.WriteEntered() && t.Readers() == s.Readers() + 1
    ensures s.Readers() != 0 ==>
      var t := s.(word := s.word - 1);
      t.WriteEntered() == s.WriteEntered() && t.Readers() == s.Readers() - 1
  {
  }

  /** Every critical section keeps the invariant. */
  lemma InvNext(s: State, a: Action)
    requires Inv(s) && Next(s, a).Some?
    ensures Inv(Next(s, a).value)
  {
    WordFacts(s);
    var s', t := Next(s, a).value, a.t;
    var x := s.threads[t];
    match a
    case UnlockShared(_, woken) => InvUnlockShared(s, t, woken);
    case NotifyAll(_) => InvNotifyAll(s, t);
    case _ =>
      if s' != s {
        AccountedPut(s.WriteEntered(), s.Readers(), s.threads, t, s'.threads[t], s'.WriteEntered(), s'.Readers());
      }
  }

  lemma InvNotifyAll(s: State, t: Thread)
    requires Inv(s) && Next(s, NotifyAll(t)).Some?
    ensures Inv(Next(s, NotifyAll(t)).value)
  {
    var s' := Next(s, NotifyAll(t)).value;
    assert ReadersIn(s'.threads) == ReadersIn(s.threads);
    if s.WriteEntered() {
      var u :| u in s.threads && OwnsWrite(s.threads[u]);
      assert OwnsWrite(s'.threads[u]);
    }
  }

  lemma InvUnlockShared(s: State, t: Thread, woken: Option<Thread>)
    requires Inv(s) && Next(s, UnlockShared(t, woken)).Some?
    ensures Inv(Next(s, UnlockShared(t, woken)).value)
  {
    WordFacts(s);
    var s1 := s.(word := s.word - 1).Put(t, Idle);
    AccountedPut(s.WriteEntered(), s.Readers(), s.threads, t, Idle, s1.WriteEntered(), s1.Readers());
    if s1.WriteEntered() && s1.Readers() == 0 {
      NotifyOneKeeps(s1, true, woken);
      NotifyGate2(s1, woken);
    } else {
      assert Gate2Awake(s1.Readers(), s1.threads);
      if !s1.WriteEntered() && s1.Readers() == N_READERS - 1 {
        NotifyOneKeeps(s1, false, woken);
      }
    }
  }

  // ----- Who gets in -----

  /**
    Where the thread that takes a step is afterwards, in terms of where the threads are: it is
    inside if and only if nobody owns the write bit and no reader it would disturb is inside.
   */
  lemma EntersIff(s: State, a: Action)
    requires Inv(s) && Next(s, a).Some?
    ensures var s', readers, free := Next(s, a).value, |ReadersIn(s.threads)|, !Owned(s.threads);
      a.t in s.threads && a.t in s'.threads &&
      var x := s'.threads[a.t];
      match a
      case Lock(_) =>
        x == if free && readers == 0 then Writing else if free then WaitReaders(false) else WaitWrite(false)
      case LockDrained(_) => x == if readers == 0 then Writing else WaitReaders(false)
      case TryLock(_) => if free && readers == 0 then x == Writing else s' == s
      case Unlock(_) => x == Unlocking && !Owned(s'.threads)
      case NotifyAll(_) => x == Idle
      case LockShared(_) => x == if free && readers < 0x7FFF_FFFF then Reading else WaitRead(false)
      case TryLockShared(_) => if free && readers < 0x7FFF_FFFF then x == Reading else s' == s
      case UnlockShared(_, _) => x == Idle
  {
    WordFacts(s);
    if a.Unlock? {
      InvNext(s, a);
    }
    if a.UnlockShared? {
      LeaverIdle(s, a);
    }
    hide ReadersIn, Owned, NotifyOne;
  }

  lemma LeaverIdle(s: State, a: Action)
    requires Next(s, a).Some? && a.UnlockShared?
    ensures a.t in s.threads && a.t in Next(s, a).value.threads && Next(s, a).value.threads[a.t] == Idle
  {
  }

  /** A thread that does not take the step stays where it is; at most it is woken. */
  predicate SamePlace(x: ThreadState, y: ThreadState) {
    || y == x
    || (x.WaitWrite? && y == WaitWrite(true))
    || (x.WaitRead? && y == WaitRead(true))
    || (x.WaitReaders? && y == WaitReaders(true))
  }

  lemma OthersStay(s: State, a: Action, u: Thread)
    requires Next(s, a).Some? && u in s.threads && u != a.t
    ensures u in Next(s, a).value.threads && SamePlace(s.threads[u], Next(s, a).value.threads[u])
  {
  }

  /** What a thread can do next, in every place. */
  lemma Enabled(s: State, t: Thread)
    requires Inv(s) && t in s.threads
    ensures match s.threads[t]
      case Idle => Next(s, Lock(t)).Some? && Next(s, TryLock(t)).Some?
                   && Next(s, LockShared(t)).Some? && Next(s, TryLockShared(t)).Some?
      case WaitWrite(_) => Next(s, Lock(t)).Some?
      case WaitRead(_) => Next(s, LockShared(t)).Some?
      case WaitReaders(_) => Next(s, LockDrained(t)).Some?
      case Reading => exists woken :: Next(s, UnlockShared(t, woken)).Some?
      case Writing => Next(s, Unlock(t)).Some?
      case Unlocking => Next(s, NotifyAll(t)).Some?
  {
    if s.threads[t].Reading? {
      var woken := UnlockSharedEnabled(s, t);
    }
  }

  /** A reader inside can always leave: some thread, or nobody, is there to be woken. */
  lemma UnlockSharedEnabled(s: State, t: Thread) returns (woken: Option<Thread>)
    requires Inv(s) && t in s.threads && s.threads[t].Reading?
    ensures Next(s, UnlockShared(t, woken)).Some?
  {
    ReaderCounted(s.threads, t);
    WordFacts(s);
    var s1 := s.(word := s.word - 1).Put(t, Idle);
    var gate2 := s1.WriteEntered();
    woken := None;
    if (if gate2 then s1.Readers() == 0 else s1.Readers() == N_READERS - 1)
       && exists u :: u in s1.threads && AsleepAt(gate2, s1.threads[u]) {
      var u :| u in s1.threads && AsleepAt(gate2, s1.threads[u]);
      woken := Some(u);
    }
  }

  /** The number of readers that leave in a run. */
  function Leaves(actions: seq<Action>): nat {
    if |actions| == 0 then 0
    else Leaves(actions[..|actions| - 1]) + if actions[|actions| - 1].UnlockShared? then 1 else 0
  }

  /** While a thread waits for the readers, the others can only leave. */
  lemma ReadersOnlyLeave(s: State, a: Action, t: Thread)
    requires Inv(s) && t in s.threads && s.threads[t].WaitReaders? && a.t != t && Next(s, a).Some?
    ensures var s' := Next(s, a).value;
      && Inv(s') && t in s'.threads && s'.threads[t].WaitReaders?
      && |ReadersIn(s'.threads)| + (if a.UnlockShared? then 1 else 0) == |ReadersIn(s.threads)|
  {
    InvNext(s, a);
    OthersStay(s, a, t);
    WordFacts(s);
    assert OwnsWrite(s.threads[t]);
    WordKept(s, a, t);
    hide ReadersIn, Next;
  }

  lemma WordKept(s: State, a: Action, t: Thread)
    requires Inv(s) && t in s.threads && s.threads[t].WaitReaders? && a.t != t && Next(s, a).Some?
    ensures Next(s, a).value.word == if a.UnlockShared? then s.word - 1 else s.word
  {
    assert OwnsWrite(s.threads[t]);
    hide ReadersIn;
  }

  /**
    A writer that waits for the readers gets in: whatever the others do, no reader joins, and with
    its own next step it is inside if and only if as many readers have left as there were.
   */
  lemma {:induction false} WaitingWriterEnters(s: State, t: Thread, actions: seq<Action>)
    requires Inv(s) && t in s.threads && s.threads[t].WaitReaders?
    requires (forall a :: a in actions ==> a.t != t) && Run(s, actions).Some?
    ensures var end, readers := Run(s, actions).value, |ReadersIn(s.threads)|;
      && Inv(end) && t in end.threads && end.threads[t].WaitReaders?
      && |ReadersIn(end.threads)| + Leaves(actions) == readers
      && Next(end, LockDrained(t)).Some? && t in Next(end, LockDrained(t)).value.threads
      && (Next(end, LockDrained(t)).value.threads[t].Writing? <==> Leaves(actions) == readers)
    decreases |actions|
  {
    var n := |actions| - 1;
    if n >= 0 {
      WaitingWriterEnters(s, t, actions[..n]);
      assert actions[n] in actions;
      ReadersOnlyLeave(Run(s, actions[..n]).value, actions[n], t);
    }
    var end := Run(s, actions).value;
    hide Run, ReadersIn, Leaves;
    Enabled(end, t);
    EntersIff(end, LockDrained(t));
  }

  lemma RunSplit(s: State, actions: seq<Action>)
    requires |actions| > 0
    ensures var before := Run(s, actions[..|actions| - 1]);
            Run(s, actions) == if before.None? then None else Next(before.value, actions[|actions| - 1])
  {
  }

  lemma {:induction false} RunThen(s: State, a: seq<Action>, b: seq<Action>)
    requires Run(s, a).Some?
    ensures Run(s, a + b) == Run(Run(s, a).value, b)
    decreases |b|
  {
    hide Next;
    var n := |b| - 1;
    if n < 0 {
      assert a + b == a;
    } else {
      RunThen(s, a, b[..n]);
      RunSplit(s, a + b);
      RunSplit(Run(s, a).value, b);
      hide Run;
      assert (a + b)[..|a| + n] == a + b[..n] && (a + b)[|a| + n] == b[n];
    }
  }

  /** A run of the other threads: t stays where it is, at most woken. */
  ghost predicate Leads(s: State, actions: seq<Action>, t: Thread, end: State) {
    && Run(s, actions) == Some(end) && Inv(end) && (forall a :: a in actions ==> a.t != t)
    && t in s.threads && t in end.threads && SamePlace(s.threads[t], end.threads[t])
  }

  lemma Inside(threads: map<Thread, ThreadState>) returns (r: Thread)
    requires |ReadersIn(threads)| > 0
    ensures r in threads && threads[r].Reading?
  {
    r :| r in ReadersIn(threads);
  }

  lemma LeaverCounted(s: State, a: Action)
    requires Inv(s) && Next(s, a).Some? && a.UnlockShared?
    ensures |ReadersIn(Next(s, a).value.threads)| == |ReadersIn(s.threads)| - 1
    ensures Owned(Next(s, a).value.threads) <==> Owned(s.threads)
  {
    InvNext(s, a);
    WordFacts(s);
    LeaverWord(s, a);
    hide ReadersIn, Next, Owned;
  }

  lemma LeaverWord(s: State, a: Action)
    requires Inv(s) && Next(s, a).Some? && a.UnlockShared?
    ensures s.Readers() > 0 && Next(s, a).value.word == s.word - 1
  {
    hide ReadersIn, Owned;
  }

  /** The readers can leave, one after the other. */
  lemma {:induction false} ReadersLeave(s: State, t: Thread) returns (actions: seq<Action>, end: State)
    requires Inv(s) && t in s.threads && !s.threads[t].Reading?
    ensures Leads(s, actions, t, end) && |ReadersIn(end.threads)| == 0 && (Owned(end.threads) <==> Owned(s.threads))
    decreases |ReadersIn(s.threads)|
  {
    if |ReadersIn(s.threads)| == 0 {
      actions, end := [], s;
    } else {
      var r := Inside(s.threads);
      var woken := UnlockSharedEnabled(s, r);
      var a := UnlockShared(r, woken);
      LeaverCounted(s, a);
      var s1 := Next(s, a).value;
      InvNext(s, a);
      OthersStay(s, a, t);
      One(s, a);
      hide *;
      var more;
      more, end := ReadersLeave(s1, t);
      actions := [a] + more;
      LeadsAfter(s, a, t, s1, more, end);
    }
  }

  lemma LeadsAfter(s: State, a: Action, t: Thread, s1: State, more: seq<Action>, end: State)
    requires Leads(s, [a], t, s1) && Leads(s1, more, t, end)
    ensures Leads(s, [a] + more, t, end)
  {
    RunThen(s, [a], more);
    PlaceTwice(s.threads[t], s1.threads[t], end.threads[t]);
    hide Run, Inv, SamePlace;
  }

  /** The owner of the write bit, if there is one, goes in and out again. */
  lemma OwnerLeaves(s: State, t: Thread) returns (actions: seq<Action>, end: State)
    requires Inv(s) && t in s.threads && !s.threads[t].Reading? && !OwnsWrite(s.threads[t])
    ensures Leads(s, actions, t, end) && !Owned(end.threads) && |ReadersIn(end.threads)| == 0
  {
    actions, end := ReadersLeave(s, t);
    if Owned(end.threads) {
      var o: Thread :| o in end.threads && OwnsWrite(end.threads[o]);
      if end.threads[o].WaitReaders? {
        Enabled(end, o);
        EntersIff(end, LockDrained(o));
        actions, end := Onward(s, actions, t, end, LockDrained(o));
      }
      hide Next, Inv, ReadersIn;
      WriterGone(end, o);
      actions, end := Onward(s, actions, t, end, Unlock(o));
      actions, end := Onward(s, actions, t, end, NotifyAll(o));
    }
  }

  lemma WriterGone(s: State, o: Thread)
    requires Inv(s) && o in s.threads && s.threads[o].Writing?
    ensures Next(s, Unlock(o)).Some? && Next(Next(s, Unlock(o)).value, NotifyAll(o)).Some?
    ensures var end := Next(Next(s, Unlock(o)).value, NotifyAll(o)).value;
            !Owned(end.threads) && |ReadersIn(end.threads)| == 0
  {
    var s1 := Next(s, Unlock(o)).value;
    InvNext(s, Unlock(o));
    InvNext(s1, NotifyAll(o));
  }

  lemma Onward(s: State, actions: seq<Action>, t: Thread, s1: State, a: Action)
    returns (longer: seq<Action>, end: State)
    requires Leads(s, actions, t, s1) && a.t != t && Next(s1, a).Some?
    ensures end == Next(s1, a).value && Leads(s, longer, t, end)
  {
    RunStep(s, actions, a);
    InvNext(s1, a);
    OthersStay(s1, a, t);
    hide Next, Inv, Run;
    longer, end := actions + [a], Next(s1, a).value;
    PlaceTwice(s.threads[t], s1.threads[t], end.threads[t]);
  }

  /**
    No deadlock: from every reachable state a thread that calls lock or lock_shared, or waits in
    it, can get in, by steps of the threads ahead of it and one of its own.
   */
  lemma CanGetIn(s: State, t: Thread, shared: bool) returns (actions: seq<Action>)
    requires Inv(s) && t in s.threads
    requires s.threads[t].Idle? || (if shared then s.threads[t].WaitRead? else s.threads[t].WaitWrite?)
    ensures Run(s, actions).Some? && t in Run(s, actions).value.threads
    ensures var x := Run(s, actions).value.threads[t]; if shared then x.Reading? else x.Writing?
    ensures |actions| > 0 && forall i :: 0 <= i < |actions| - 1 ==> actions[i].t != t
  {
    var before, end := OwnerLeaves(s, t);
    var a := if shared then LockShared(t) else Lock(t);
    Enabled(end, t);
    EntersIff(end, a);
    RunStep(s, before, a);
    actions := before + [a];
  }

  lemma PlaceTwice(x: ThreadState, y: ThreadState, z: ThreadState)
    requires SamePlace(x, y) && SamePlace(y, z)
    ensures SamePlace(x, z)
  {
  }

  lemma One(s: State, a: Action)
    requires Next(s, a).Some?
    ensures Run(s, [a]) == Next(s, a)
  {
    assert [a][..0] == [];
  }

  // ----- Wake-ups -----

  /** What a sleeper waits for. */
  predicate GateCondition(s: State, x: ThreadState) {
    match x
    case WaitWrite(_) => !s.WriteEntered()
    case WaitRead(_) => !s.WriteEntered() && s.Readers() != N_READERS
    case WaitReaders(_) => s.Readers() == 0
    case _ => false
  }

  ghost predicate NotifyPending(s: State) {
    exists u :: u in s.threads && s.threads[u].Unlocking?
  }

  /** No thread sleeps on although it could go on, unless somebody is about to wake it. */
  ghost predicate NoLostWakeup(s: State) {
    forall t :: t in s.threads && GateCondition(s, s.threads[t]) ==>
      match s.threads[t]
      case WaitWrite(notified) => notified || NotifyPending(s)
      case WaitRead(notified) => notified || NotifyPending(s)
      case WaitReaders(notified) => notified
      case _ => true
  }

  ghost function SleepersIn(threads: map<Thread, ThreadState>): set<Thread> {
    set t | t in threads && AsleepAtGate1(threads[t])
  }

  /** With the write bit clear and no notification outstanding, only readers sleep at gate1, and only at the limit. */
  ghost predicate Gate1Awake(s: State) {
    !s.WriteEntered() && !NotifyPending(s) ==>
      forall t :: t in s.threads && AsleepAtGate1(s.threads[t]) ==>
        s.threads[t].WaitRead? && s.Readers() == N_READERS
  }

  lemma AwakeMeansNoLostWakeup(s: State)
    requires Inv(s) && Gate1Awake(s)
    ensures NoLostWakeup(s)
  {
  }

  /** Readers inside and sleepers at gate1 are different threads. */
  lemma RoomForSleepers(s: State, limit: nat)
    requires |s.threads| <= limit
    ensures |ReadersIn(s.threads)| + |SleepersIn(s.threads)| <= limit
  {
    var r, z := ReadersIn(s.threads), SleepersIn(s.threads);
    assert r !! z && r + z <= s.threads.Keys;
    SubsetSize(r + z, s.threads.Keys);
  }

  lemma AtMostOne(z: set<Thread>, t: Thread, u: Thread)
    requires t in z && u in z && |z| <= 1
    ensures t == u
  {
    if t != u {
      SubsetSize({t, u}, z);
    }
  }

  /** A notification stays outstanding until it is made. */
  lemma PendingKept(s: State, a: Action)
    requires Next(s, a).Some? && !a.NotifyAll? && NotifyPending(s)
    ensures NotifyPending(Next(s, a).value)
  {
    var u :| u in s.threads && s.threads[u].Unlocking?;
    assert Next(s, a).value.threads[u].Unlocking?;
  }

  /** Each critical section keeps gate1 awake, as long as there are at most one more threads than the limit. */
  lemma Gate1Next(s: State, a: Action)
    requires Inv(s) && Gate1Awake(s) && Next(s, a).Some?
    requires |s.threads| <= N_READERS + 1
    ensures Gate1Awake(Next(s, a).value)
  {
    WordFacts(s);
    var s', t := Next(s, a).value, a.t;
    if NotifyPending(s) && !a.NotifyAll? {
      PendingKept(s, a);
    } else {
      match a
      case UnlockShared(_, woken) => Gate1UnlockShared(s, t, woken);
      case Unlock(_) => assert s'.threads[t].Unlocking?;
      case _ =>
    }
  }

  lemma Gate1UnlockShared(s: State, t: Thread, woken: Option<Thread>)
    requires Inv(s) && Gate1Awake(s) && Next(s, UnlockShared(t, woken)).Some?
    requires |s.threads| <= N_READERS + 1 && !NotifyPending(s)
    ensures Gate1Awake(Next(s, UnlockShared(t, woken)).value)
  {
    WordFacts(s);
    var s' := Next(s, UnlockShared(t, woken)).value;
    var s1 := s.(word := s.word - 1).Put(t, Idle);
    if !s1.WriteEntered() && s.Readers() == N_READERS {
      RoomForSleepers(s, N_READERS + 1);
      forall u | u in s.threads && AsleepAtGate1(s1.threads[u]) ensures woken == Some(u) {
        assert u in SleepersIn(s.threads);
        assert woken.value in SleepersIn(s.threads);
        AtMostOne(SleepersIn(s.threads), u, woken.value);
      }
    }
  }

  lemma SameThreads(s: State, a: Action)
    requires Next(s, a).Some?
    ensures Next(s, a).value.threads.Keys == s.threads.Keys
  {
  }

  lemma {:induction false} RunKeeps(n: nat, actions: seq<Action>)
    requires Run(Init(n), actions).Some?
    ensures var s := Run(Init(n), actions).value;
            Inv(s) && |s.threads| == n && (n <= N_READERS + 1 ==> Gate1Awake(s))
    decreases |actions|
  {
    if |actions| == 0 {
      InitInv(n);
      assert Init(n).threads.Keys == Ids(n);
    } else {
      var before := actions[..|actions| - 1];
      RunKeeps(n, before);
      var s, a := Run(Init(n), before).value, actions[|actions| - 1];
      InvNext(s, a);
      if n <= N_READERS + 1 {
        Gate1Next(s, a);
      }
      SameThreads(s, a);
      hide Next, Inv, Gate1Awake;
    }
  }

  /** Over every run, with any number of threads: writers exclude, and the word is accounted for. */
  lemma RunSafe(n: nat, actions: seq<Action>)
    requires Run(Init(n), actions).Some?
    ensures Inv(Run(Init(n), actions).value)
  {
    RunKeeps(n, actions);
  }

  /** Once the write bit is set, no reader gets in before the writer has unlocked. */
  lemma NoReaderOvertakes(s: State, a: Action, t: Thread)
    requires Inv(s) && s.WriteEntered() && Next(s, a).Some? && t in s.threads
    ensures Next(s, a).value.threads[t].Reading? ==> s.threads[t].Reading?
  {
  }

  // ----- The limit is sharp -----

  /** The first m of n threads are reading. */
  function Crowd(n: nat, m: nat): State {
    State(m, map t | t in Ids(n) :: if t < m then Reading else Idle)
  }

  function Arrivals(m: nat): (r: seq<Action>)
    ensures |r| == m
  {
    if m == 0 then [] else Arrivals(m - 1) + [LockShared(m - 1)]
  }

  lemma {:induction false} CrowdArrives(n: nat, m: nat)
    requires m <= n && m <= N_READERS
    ensures Run(Init(n), Arrivals(m)) == Some(Crowd(n, m))
    decreases m
  {
    if m == 0 {
      assert Crowd(n, 0) == Init(n);
    } else {
      CrowdArrives(n, m - 1);
      var s, actions := Crowd(n, m - 1), Arrivals(m);
      assert actions[..m - 1] == Arrivals(m - 1) && actions[m - 1] == LockShared(m - 1);
      CrowdGrows(n, m);
      hide Next, Crowd;
    }
  }

  lemma CrowdGrows(n: nat, m: nat)
    requires 1 <= m <= n && m <= N_READERS
    ensures Next(Crowd(n, m - 1), LockShared(m - 1)) == Some(Crowd(n, m))
  {
    var s := Crowd(n, m - 1);
    assert s.Readers() == m - 1 && !s.WriteEntered();
    assert Next(s, LockShared(m - 1)) == Some(s.(word := m).Put(m - 1, Reading));
    assert s.(word := m).Put(m - 1, Reading).threads == Crowd(n, m).threads;
  }

  lemma RunStep(s: State, actions: seq<Action>, a: Action)
    requires Run(s, actions).Some? && Next(Run(s, actions).value, a).Some?
    ensures Run(s, actions + [a]) == Next(Run(s, actions).value, a)
  {
    assert (actions + [a])[..|actions|] == actions;
  }

  /**
    With one more thread a wake-up can be lost: the limit of readers is inside and two more
    sleep; two readers leave, only the first of which notifies; the woken one enters, and the
    other sleeps on with a place free and nobody about to wake it.
   */
  lemma WakeupLost(n: nat) returns (actions: seq<Action>)
    requires n >= N_READERS + 2
    ensures Run(Init(n), actions).Some? && !NoLostWakeup(Run(Init(n), actions).value)
  {
    hide Next, Run;
    var m := N_READERS;
    FirstLeaves(n);
    SecondLeaves(n);
    WokenEnters(n);
    actions := TwoSleep(n);
    actions := Extend(n, actions, Scene(n, 0), UnlockShared(0, Some(m)), Scene(n, 1));
    actions := Extend(n, actions, Scene(n, 1), UnlockShared(1, None), Scene(n, 2));
    actions := Extend(n, actions, Scene(n, 2), LockShared(m), Scene(n, 3));
    SleepsOn(n);
  }

  /** The crowd with two sleepers, and the three steps after it. */
  ghost function Scene(n: nat, k: nat): State
    requires n >= N_READERS + 2
  {
    var m := N_READERS;
    var s := Crowd(n, m).Put(m, WaitRead(false)).Put(m + 1, WaitRead(false));
    if k == 0 then s
    else if k == 1 then s.(word := m - 1).Put(0, Idle).Put(m, WaitRead(true))
    else if k == 2 then Scene(n, 1).(word := m - 2).Put(1, Idle)
    else Scene(n, 2).(word := m - 1).Put(m, Reading)
  }

  lemma FirstLeaves(n: nat)
    requires n >= N_READERS + 2
    ensures Next(Scene(n, 0), UnlockShared(0, Some(N_READERS))) == Some(Scene(n, 1))
  {
  }

  lemma SecondLeaves(n: nat)
    requires n >= N_READERS + 2
    ensures Next(Scene(n, 1), UnlockShared(1, None)) == Some(Scene(n, 2))
  {
  }

  lemma WokenEnters(n: nat)
    requires n >= N_READERS + 2
    ensures Next(Scene(n, 2), LockShared(N_READERS)) == Some(Scene(n, 3))
  {
  }

  lemma SleepsOn(n: nat)
    requires n >= N_READERS + 2
    ensures !NoLostWakeup(Scene(n, 3))
  {
    var m := N_READERS;
    var s0, s1, s2, s := Scene(n, 0), Scene(n, 1), Scene(n, 2), Scene(n, 3);
    assert s.word == m - 1 && m + 1 in s.threads && s.threads[m + 1] == s0.threads[m + 1] == WaitRead(false);
    assert GateCondition(s, s.threads[m + 1]);
    assert forall t :: t in s.threads ==> s0.threads[t] != Unlocking && s.threads[t] != Unlocking;
  }

  lemma TwoSleep(n: nat) returns (actions: seq<Action>)
    requires n >= N_READERS + 2
    ensures Run(Init(n), actions) == Some(Scene(n, 0))
  {
    var m := N_READERS;
    CrowdArrives(n, m);
    var s0 := Crowd(n, m);
    var s1 := s0.Put(m, WaitRead(false));
    actions := Extend(n, Arrivals(m), s0, LockShared(m), s1);
    actions := Extend(n, actions, s1, LockShared(m + 1), s1.Put(m + 1, WaitRead(false)));
  }

  lemma Extend(n: nat, actions: seq<Action>, s: State, a: Action, s': State) returns (longer: seq<Action>)
    requires Run(Init(n), actions) == Some(s) && Next(s, a) == Some(s')
    ensures Run(Init(n), longer) == Some(s')
  {
    RunStep(Init(n), actions, a);
    longer := actions + [a];
  }

  /** No wake-up is ever lost if and only if at most one thread more than the reader limit uses the lock. */
  lemma WakeupsNeverLost(n: nat)
    ensures (forall actions :: Run(Init(n), actions).Some? ==> NoLostWakeup(Run(Init(n), actions).value))
       <==> n <= N_READERS + 1
  {
    if n <= N_READERS + 1 {
      forall actions | Run(Init(n), actions).Some? ensures NoLostWakeup(Run(Init(n), actions).value) {
        RunKeeps(n, actions);
        AwakeMeansNoLostWakeup(Run(Init(n), actions).value);
      }
    } else {
      var actions := WakeupLost(n);
    }
  }
}
