/**
 The reader/writer lock (src/uacpi/mutex.c:353-394): two native mutexes and a count. The first reader takes the
 write mutex for all readers and the last one, which may be another thread, gives it back. Any number of threads
 run through the lock, one access to shared state at a time, in any order.
 */
module RwLock {
  import opened Arith

  /** Where a thread is. `ReadFirst` has counted itself as the first reader, `UnlockLast` itself out as the last. */
  datatype Pc = Idle | ReadWant | ReadGot | ReadFirst | ReadDone(ok: bool) | Reading
              | UnlockWant | UnlockGot | UnlockLast | UnlockDone | WriteWant | Writing

  /** Who a mutex was taken for; the mutex itself only knows whether it is held. */
  datatype Holder = Nobody | Readers | By(thread: nat)

  datatype State = State(threads: map<nat, Pc>, readMutex: Holder, writeMutex: Holder, numReaders: nat)

  predicate Held(h: Holder) {
    !h.Nobody?
  }

  ghost predicate Init(s: State) {
    && (forall t {:trigger s.threads[t]} :: t in s.threads ==> s.threads[t].Idle?)
    && s.readMutex.Nobody? && s.writeMutex.Nobody? && s.numReaders == 0 && |s.threads.Keys| < WORD
  }

  // -------------------------------------------------------------------------
  // Steps; an attempt to take a mutex may also fail

  function At(s: State, t: nat, pc: Pc): (r: State) {
    s.(threads := s.threads[t := pc])
  }

  /** `uacpi_rw_lock_read`. */
  ghost predicate ReadStep(s: State, t: nat, r: State)
    requires t in s.threads
  {
    match s.threads[t]
    case Idle => r == At(s, t, ReadWant)
    case ReadWant => r == At(s, t, Idle) || (!Held(s.readMutex) && r == At(s, t, ReadGot).(readMutex := By(t)))
    case ReadGot =>
      r == At(s, t, if s.numReaders == 0 then ReadFirst else ReadDone(true)).(numReaders := (s.numReaders + 1) % WORD)
    case ReadFirst =>
      || r == At(s, t, ReadDone(false)).(numReaders := 0)
      || (!Held(s.writeMutex) && r == At(s, t, ReadDone(true)).(writeMutex := Readers))
    case ReadDone(ok) => r == At(s, t, if ok then Reading else Idle).(readMutex := Nobody)
    case _ => false
  }

  /** `uacpi_rw_unlock_read`. */
  ghost predicate UnlockStep(s: State, t: nat, r: State)
    requires t in s.threads
  {
    match s.threads[t]
    case Reading => r == At(s, t, UnlockWant)
    case UnlockWant => r == At(s, t, Reading) || (!Held(s.readMutex) && r == At(s, t, UnlockGot).(readMutex := By(t)))
    case UnlockGot =>
      r == At(s, t,
              if s.numReaders == 1 then UnlockLast else UnlockDone).(numReaders := (s.numReaders + WORD - 1) % WORD)
    case UnlockLast => r == At(s, t, UnlockDone).(writeMutex := Nobody)
    case UnlockDone => r == At(s, t, Idle).(readMutex := Nobody)
    case _ => false
  }

  /** `uacpi_rw_lock_write` and `uacpi_rw_unlock_write`. */
  ghost predicate WriteStep(s: State, t: nat, r: State)
    requires t in s.threads
  {
    match s.threads[t]
    case Idle => r == At(s, t, WriteWant)
    case WriteWant => r == At(s, t, Idle) || (!Held(s.writeMutex) && r == At(s, t, Writing).(writeMutex := By(t)))
    case Writing => r == At(s, t, Idle).(writeMutex := Nobody)
    case _ => false
  }

  ghost predicate Next(s: State, r: State) {
    exists t :: t in s.threads && (ReadStep(s, t, r) || UnlockStep(s, t, r) || WriteStep(s, t, r))
  }

  ghost predicate Run(states: seq<State>) {
    |states| > 0 && Init(states[0]) && forall i {:trigger states[i]} :: 0 <= i < |states| - 1 ==>
      Next(states[i], states[i + 1])
  }

  // -------------------------------------------------------------------------
  // What every run keeps

  predicate Counted(pc: Pc) {
    pc.ReadFirst? || pc == ReadDone(true) || pc.Reading? || pc.UnlockWant? || pc.UnlockGot?
  }

  /** A reader that has the lock, until it has counted itself out. */
  predicate Inside(pc: Pc) {
    Counted(pc) && !pc.ReadFirst?
  }

  predicate HoldsRead(pc: Pc) {
    pc.ReadGot? || pc.ReadFirst? || pc.ReadDone? || pc.UnlockGot? || pc.UnlockLast? || pc.UnlockDone?
  }

  ghost function CountedSet(threads: map<nat, Pc>): (r: set<nat>) {
    set t | t in threads && Counted(threads[t])
  }

  ghost predicate ThreadFits(s: State, t: nat)
    requires t in s.threads
  {
    var pc := s.threads[t];
    && (HoldsRead(pc) <==> s.readMutex == By(t))
    && (pc.Writing? <==> s.writeMutex == By(t))
    && (Inside(pc) || pc.UnlockLast? ==> s.writeMutex.Readers?)
    && (pc.ReadFirst? ==> !s.writeMutex.Readers? && s.numReaders == 1)
    && (pc.UnlockLast? ==> s.numReaders == 0)
    && (pc == ReadDone(false) ==> !s.writeMutex.Readers? && s.numReaders == 0)
  }

  ghost predicate Holders(s: State) {
    && !s.readMutex.Readers?
    && (s.readMutex.By? ==> s.readMutex.thread in s.threads)
    && (s.writeMutex.By? ==> s.writeMutex.thread in s.threads)
    && (s.writeMutex.Readers? ==> s.numReaders > 0 || (s.readMutex.By? && s.threads[s.readMutex.thread].UnlockLast?))
    && (s.numReaders > 0 ==> s.writeMutex.Readers? || (s.readMutex.By? && s.threads[s.readMutex.thread].ReadFirst?))
  }

  ghost predicate Safe(s: State) {
    && s.numReaders == |CountedSet(s.threads)| && |s.threads.Keys| < WORD
    && Holders(s)
    && forall t {:trigger ThreadFits(s, t)} :: t in s.threads ==> ThreadFits(s, t)
  }

  /** Moving one thread changes the set by that thread at most. */
  lemma CountStep(threads: map<nat, Pc>, t: nat, pc: Pc)
    requires t in threads
    ensures |CountedSet(threads[t := pc])| ==
            |CountedSet(threads)| + (if Counted(pc) then 1 else 0) - (if Counted(threads[t]) then 1 else 0)
    ensures Counted(threads[t]) ==> |CountedSet(threads)| > 0
    ensures |CountedSet(threads[t := pc])| <= |threads.Keys| == |threads[t := pc].Keys|
    ensures forall u {:trigger threads[u]} :: u in threads && u != t && Counted(threads[u]) && Counted(threads[t]) ==>
            |CountedSet(threads)| > 1
  {
    hide Counted;
    var others := CountedSet(threads) - {t};
    assert CountedSet(threads) == if Counted(threads[t]) then others + {t} else others;
    assert CountedSet(threads[t := pc]) == if Counted(pc) then others + {t} else others;
    forall u {:trigger threads[u]} | u in threads && u != t && Counted(threads[u]) && Counted(threads[t])
      ensures |CountedSet(threads)| > 1
    {
      assert u in others;
    }
    CountedBound(threads[t := pc]);
    assert threads[t := pc].Keys == threads.Keys;
  }

  lemma CountedBound(threads: map<nat, Pc>)
    ensures |CountedSet(threads)| <= |threads.Keys|
  {
    var counted := CountedSet(threads);
    assert threads.Keys == counted + (threads.Keys - counted);
  }

  lemma SomeCounted(threads: map<nat, Pc>, u: nat)
    requires u in threads
    ensures Counted(threads[u]) ==> |CountedSet(threads)| > 0
  {
    assert Counted(threads[u]) ==> u in CountedSet(threads);
  }

  lemma ReadKeeps(s: State, t: nat, r: State)
    requires Safe(s) && t in s.threads && ReadStep(s, t, r)
    ensures Safe(r)
  {
    hide CountedSet;
    assert ThreadFits(s, t);
    CountStep(s.threads, t, r.threads[t]);
    assert ThreadFits(r, t);
    forall u {:trigger ThreadFits(r, u)} | u in r.threads && u != t
      ensures ThreadFits(r, u)
    {
      assert ThreadFits(s, u);
    }
  }

  lemma UnlockKeeps(s: State, t: nat, r: State)
    requires Safe(s) && t in s.threads && UnlockStep(s, t, r)
    ensures Safe(r)
  {
    hide CountedSet;
    assert ThreadFits(s, t);
    CountStep(s.threads, t, r.threads[t]);
    assert ThreadFits(r, t);
    forall u {:trigger ThreadFits(r, u)} | u in r.threads && u != t
      ensures ThreadFits(r, u)
    {
      assert ThreadFits(s, u);
      SomeCounted(s.threads, u);
    }
  }

  lemma WriteKeeps(s: State, t: nat, r: State)
    requires Safe(s) && t in s.threads && WriteStep(s, t, r)
    ensures Safe(r)
  {
    hide CountedSet;
    assert ThreadFits(s, t);
    CountStep(s.threads, t, r.threads[t]);
    assert ThreadFits(r, t);
    forall u {:trigger ThreadFits(r, u)} | u in r.threads && u != t
      ensures ThreadFits(r, u)
    {
      assert ThreadFits(s, u);
    }
  }

  lemma InitSafe(s: State)
    requires Init(s)
    ensures Safe(s)
  {
    assert CountedSet(s.threads) == {};
    forall t {:trigger ThreadFits(s, t)} | t in s.threads
      ensures ThreadFits(s, t)
    {
      assert s.threads[t].Idle?;
    }
  }

  lemma NextSafe(s: State, r: State)
    requires Safe(s) && Next(s, r)
    ensures Safe(r)
  {
    hide Safe, ReadStep, UnlockStep, WriteStep;
    var t :| t in s.threads && (ReadStep(s, t, r) || UnlockStep(s, t, r) || WriteStep(s, t, r));
    if ReadStep(s, t, r) {
      ReadKeeps(s, t, r);
    } else if UnlockStep(s, t, r) {
      UnlockKeeps(s, t, r);
    } else {
      WriteKeeps(s, t, r);
    }
  }

  /** Every state of every run is safe. */
  lemma {:induction false} RunSafe(states: seq<State>, i: nat)
    requires Run(states) && i < |states|
    ensures Safe(states[i])
  {
    hide Safe, Init, Next;
    if i == 0 {
      InitSafe(states[0]);
    } else {
      RunSafe(states, i - 1);
      assert Next(states[i - 1], states[i - 1 + 1]);
      NextSafe(states[i - 1], states[i]);
    }
  }

  /** A writer is alone: no reader and no other writer is inside with it. */
  lemma WriterAlone(states: seq<State>, i: nat, t: nat, u: nat)
    requires Run(states) && i < |states| && t in states[i].threads && u in states[i].threads && t != u
    requires states[i].threads[t].Writing?
    ensures !states[i].threads[u].Writing? && !Inside(states[i].threads[u])
  {
    RunSafe(states, i);
    assert ThreadFits(states[i], t) && ThreadFits(states[i], u);
  }

  /**
   Between steps of readers, the count is the number of readers and the write mutex is held for them or for a writer.
   */
  lemma CountExact(states: seq<State>, i: nat)
    requires Run(states) && i < |states| && !Held(states[i].readMutex)
    ensures var s := states[i];
            var readers := set t | t in s.threads && Inside(s.threads[t]);
            && s.numReaders == |readers|
            && (Held(s.writeMutex) <==> readers != {} || exists t :: t in s.threads && s.threads[t].Writing?)
  {
    RunSafe(states, i);
    var s := states[i];
    var readers := set t | t in s.threads && Inside(s.threads[t]);
    forall t | t in s.threads
      ensures Inside(s.threads[t]) == Counted(s.threads[t])
    {
      assert ThreadFits(s, t);
    }
    assert readers == CountedSet(s.threads);
    if t :| t in s.threads && (Inside(s.threads[t]) || s.threads[t].Writing?) {
      assert ThreadFits(s, t);
    }
    if s.writeMutex.By? {
      assert ThreadFits(s, s.writeMutex.thread);
    }
  }
}
