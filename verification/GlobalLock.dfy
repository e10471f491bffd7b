/**
 The ACPI Global Lock (src/uacpi/mutex.c:13-116, src/uacpi/event.c:2088-2113; section 5.2.10.1 of the ACPI
 specification): one 32-bit word that the operating system and the firmware change by compare-and-exchange.
 Every read, every compare-and-exchange and every action of the waiting protocol is one step, and the steps of
 the system, the firmware and the interrupt handler interleave in any order.
 */
module GlobalLock {

  // -------------------------------------------------------------------------
  // The word

  /** The word without its two low bits. */
  function Masked(value: nat): (r: nat) {
    value / 4 * 4
  }

  /** Bit 1. */
  predicate OwnedBit(value: nat) {
    value / 2 % 2 == 1
  }

  /** Bit 0. */
  predicate PendingBit(value: nat) {
    value % 2 == 1
  }

  /** The word that an attempt to acquire tries to store: owned set, pending set if it was owned. */
  function ClaimedBits(value: nat): (r: nat) {
    Masked(value) + 2 + (if OwnedBit(value) then 1 else 0)
  }

  /** The word that a release tries to store. */
  function ReleasedBits(value: nat): (r: nat) {
    Masked(value)
  }

  /** The two bits that matter. */
  datatype Word = Word(owned: bool, pending: bool)

  function Parts(v: nat): (w: Word) {
    Word(OwnedBit(v), PendingBit(v))
  }

  /** Owned, and pending if it was owned already. */
  function Claimed(w: Word): (r: Word) {
    Word(true, w.owned)
  }

  /** Neither owned nor pending. */
  function Released(w: Word): (r: Word) {
    Word(false, false)
  }

  /**
   The masks do this to the two bits and leave those above them alone, so comparing words is comparing the two bits.
   */
  lemma PartsOfBits(v: nat, w: nat)
    ensures Parts(ClaimedBits(v)) == Claimed(Parts(v)) && Masked(ClaimedBits(v)) == Masked(v)
    ensures Parts(ReleasedBits(v)) == Released(Parts(v)) && Masked(ReleasedBits(v)) == Masked(v)
    ensures Masked(v) == Masked(w) ==> (Parts(v) == Parts(w) <==> v == w)
  {
  }

  // -------------------------------------------------------------------------
  // States

  /** Where the system is in `uacpi_acquire_global_lock_from_firmware` and its counterpart. */
  datatype Os = Idle | WantSpin | TryRead | TryExchange(value: Word) | Failed | FlagSet | Waiting
              | GaveUp | Acquired | Owner | ReleaseRead | ReleaseExchange(value: Word) | OsReleased(pending: bool)

  /** The firmware follows the same protocol, and waits for the release register instead of an event. */
  datatype Firmware = FwIdle | FwRead | FwExchange(value: Word) | FwWaiting
                    | FwOwner | FwReleaseRead | FwReleaseExchange(value: Word) | FwReleased(pending: bool)

  /** Where the interrupt handler `handle_global_lock` is. */
  datatype Handler = NoInterrupt | Entered | Checking | Signalled | Leaving

  datatype Holder = Nobody | ByOs | ByHandler

  /**
   The shared state: the word, the spinlock, `global_lock_pending`, the event's count, the two notifications in
   flight, the attempts so far, and whether an attempt has failed since the lock was last acquired.
   */
  datatype State = State(word: Word, os: Os, fw: Firmware, handler: Handler, spinlock: Holder, flag: bool,
                         event: nat, interrupt: bool, releaseRegister: bool, spins: nat, failed: bool)

  predicate OsOwns(s: State) {
    s.os.Acquired? || s.os.Owner? || s.os.ReleaseRead? || s.os.ReleaseExchange?
  }

  predicate FwOwns(s: State) {
    s.fw.FwOwner? || s.fw.FwReleaseRead? || s.fw.FwReleaseExchange?
  }

  predicate OsHoldsSpinlock(s: State) {
    s.os.TryRead? || s.os.TryExchange? || s.os.Failed? || s.os.FlagSet? || s.os.GaveUp? || s.os.Acquired?
  }

  predicate HandlerHoldsSpinlock(s: State) {
    s.handler.Checking? || s.handler.Signalled? || s.handler.Leaving?
  }

  /** The system starts with nobody waiting, and the lock free or with the firmware. */
  ghost predicate Init(s: State) {
    && s.os.Idle? && s.handler.NoInterrupt? && s.spinlock.Nobody? && !s.flag && !s.failed
    && (s.fw.FwIdle? || s.fw.FwOwner?) && (s.word.owned <==> s.fw.FwOwner?) && !s.word.pending
  }

  // -------------------------------------------------------------------------
  // Steps

  /** A compare-and-exchange by an attempt: it takes the lock, or fails and marks it pending. */
  function Attempt(s: State): (r: State) {
    s.(word := Claimed(s.word), failed := s.word.owned)
  }

  /** `try_acquire_global_lock_from_firmware`, under the spinlock. */
  ghost predicate OsTryStep(s: State, t: State) {
    match s.os
    case Idle => t == s.(os := WantSpin, spins := 0)
    case WantSpin => s.spinlock.Nobody? && t == s.(os := TryRead, spinlock := ByOs, spins := (s.spins + 1) % 0x10000)
    case TryRead => t == s.(os := TryExchange(s.word))
    case TryExchange(value) =>
      if s.word != value then t == s.(os := TryExchange(s.word))
      else if !value.owned then t == Attempt(s).(os := Acquired)
      else t == Attempt(s).(os := if s.spins == 0xFFFF then GaveUp else Failed)
    case _ => false
  }

  /** What follows an attempt: raising the flag and waiting for the event, or letting go of the spinlock. */
  ghost predicate OsWaitStep(s: State, t: State) {
    match s.os
    case Failed => t == s.(os := FlagSet, flag := true)
    case FlagSet => t == s.(os := Waiting, spinlock := Nobody)
    case Waiting => s.event > 0 && t == s.(os := WantSpin, event := s.event - 1)
    case GaveUp => t == s.(os := Idle, flag := false, spinlock := Nobody)
    case Acquired => t == s.(os := Owner, flag := false, spinlock := Nobody)
    case _ => false
  }

  /** `uacpi_release_global_lock_to_firmware`. */
  ghost predicate OsReleaseStep(s: State, t: State) {
    match s.os
    case Owner => t == s.(os := ReleaseRead)
    case ReleaseRead => t == s.(os := ReleaseExchange(s.word))
    case ReleaseExchange(value) =>
      if s.word != value then t == s.(os := ReleaseExchange(s.word))
      else t == s.(word := Released(value), os := OsReleased(value.pending))
    case OsReleased(pending) => t == s.(os := Idle, releaseRegister := s.releaseRegister || pending)
    case _ => false
  }

  ghost predicate FwTryStep(s: State, t: State) {
    match s.fw
    case FwIdle => t == s.(fw := FwRead)
    case FwRead => t == s.(fw := FwExchange(s.word))
    case FwExchange(value) =>
      if s.word != value then t == s.(fw := FwExchange(s.word))
      else t == Attempt(s).(fw := if value.owned then FwWaiting else FwOwner)
    case FwWaiting => s.releaseRegister && t == s.(fw := FwRead, releaseRegister := false)
    case _ => false
  }

  ghost predicate FwReleaseStep(s: State, t: State) {
    match s.fw
    case FwOwner => t == s.(fw := FwReleaseRead)
    case FwReleaseRead => t == s.(fw := FwReleaseExchange(s.word))
    case FwReleaseExchange(value) =>
      if s.word != value then t == s.(fw := FwReleaseExchange(s.word))
      else t == s.(word := Released(value), fw := FwReleased(value.pending))
    case FwReleased(pending) => t == s.(fw := FwIdle, interrupt := s.interrupt || pending)
    case _ => false
  }

  ghost predicate HandlerStep(s: State, t: State) {
    match s.handler
    case NoInterrupt => s.interrupt && t == s.(handler := Entered, interrupt := false)
    case Entered => s.spinlock.Nobody? && t == s.(handler := Checking, spinlock := ByHandler)
    case Checking => t == if s.flag then s.(handler := Signalled, event := s.event + 1) else s.(handler := Leaving)
    case Signalled => t == s.(handler := Leaving, flag := false)
    case Leaving => t == s.(handler := NoInterrupt, spinlock := Nobody)
  }

  ghost predicate Next(s: State, t: State) {
    || OsTryStep(s, t) || OsWaitStep(s, t) || OsReleaseStep(s, t)
    || FwTryStep(s, t) || FwReleaseStep(s, t) || HandlerStep(s, t)
  }

  ghost predicate Run(states: seq<State>) {
    |states| > 0 && Init(states[0]) && forall i {:trigger states[i]} :: 0 <= i < |states| - 1 ==>
      Next(states[i], states[i + 1])
  }

  // -------------------------------------------------------------------------
  // What every run keeps

  /** The word says whether someone owns the lock, never both do, and it is pending exactly if an attempt has failed. */
  ghost predicate Exclusive(s: State) {
    && (s.word.owned <==> OsOwns(s) || FwOwns(s))
    && !(OsOwns(s) && FwOwns(s))
    && (s.word.owned ==> (s.word.pending <==> s.failed))
  }

  ghost predicate SpinlockHeld(s: State) {
    && (s.spinlock.ByOs? <==> OsHoldsSpinlock(s))
    && (s.spinlock.ByHandler? <==> HandlerHoldsSpinlock(s))
  }

  /** A release by the firmware is still to come or to be acted on. */
  ghost predicate ReleaseOnItsWay(s: State) {
    || (FwOwns(s) && s.word.pending) || s.fw == FwReleased(true)
    || s.interrupt || s.handler.Entered? || s.handler.Checking?
  }

  /** A system that waits without a signal has its flag set, and the signal is on its way. */
  ghost predicate SystemWakes(s: State) {
    && ((s.os.Failed? || s.os.FlagSet? || s.os.Waiting?) && s.event == 0 ==> ReleaseOnItsWay(s))
    && ((s.os.FlagSet? || s.os.Waiting?) && s.event == 0 ==> s.flag)
    && (s.os.Waiting? && s.handler.Signalled? ==> s.event > 0)
  }

  /** Likewise for firmware that waits. */
  ghost predicate FirmwareWakes(s: State) {
    s.fw.FwWaiting? ==> (OsOwns(s) && s.word.pending) || s.os == OsReleased(true) || s.releaseRegister
  }

  ghost predicate Safe(s: State) {
    Exclusive(s) && SpinlockHeld(s) && SystemWakes(s) && FirmwareWakes(s)
  }

  lemma OsTryKeeps(s: State, t: State)
    requires Safe(s) && OsTryStep(s, t)
    ensures Safe(t)
  {
  }

  lemma OsWaitKeeps(s: State, t: State)
    requires Safe(s) && OsWaitStep(s, t)
    ensures Safe(t)
  {
  }

  lemma OsReleaseKeeps(s: State, t: State)
    requires Safe(s) && OsReleaseStep(s, t)
    ensures Safe(t)
  {
  }

  lemma FwTryKeeps(s: State, t: State)
    requires Safe(s) && FwTryStep(s, t)
    ensures Safe(t)
  {
  }

  lemma FwReleaseKeeps(s: State, t: State)
    requires Safe(s) && FwReleaseStep(s, t)
    ensures Safe(t)
  {
  }

  lemma HandlerKeeps(s: State, t: State)
    requires Safe(s) && HandlerStep(s, t)
    ensures Safe(t)
  {
  }

  /** Every state of every run is safe. */
  lemma {:induction false} RunSafe(states: seq<State>, i: nat)
    requires Run(states) && i < |states|
    ensures Safe(states[i])
  {
    if i > 0 {
      RunSafe(states, i - 1);
      var s, t := states[i - 1], states[i];
      assert Next(s, t);
      hide Safe, OsTryStep, OsWaitStep, OsReleaseStep, FwTryStep, FwReleaseStep, HandlerStep;
      if OsTryStep(s, t) {
        OsTryKeeps(s, t);
      } else if OsWaitStep(s, t) {
        OsWaitKeeps(s, t);
      } else if OsReleaseStep(s, t) {
        OsReleaseKeeps(s, t);
      } else if FwTryStep(s, t) {
        FwTryKeeps(s, t);
      } else if FwReleaseStep(s, t) {
        FwReleaseKeeps(s, t);
      } else {
        HandlerKeeps(s, t);
      }
    }
  }

  /** The lock is never owned by both, in any interleaving. */
  lemma MutualExclusion(states: seq<State>, i: nat)
    requires Run(states) && i < |states|
    ensures !(OsOwns(states[i]) && FwOwns(states[i]))
  {
    RunSafe(states, i);
  }

  /** A release, by either side, reports pending exactly if an attempt failed since the lock was acquired. */
  lemma ReleaseSeesPending(states: seq<State>, i: nat)
    requires Run(states) && i + 1 < |states|
    ensures states[i].os.ReleaseExchange? && states[i + 1].os.OsReleased? ==>
            states[i + 1].os.pending == states[i].failed
    ensures states[i].fw.FwReleaseExchange? && states[i + 1].fw.FwReleased? ==>
            states[i + 1].fw.pending == states[i].failed
  {
    RunSafe(states, i);
    assert Exclusive(states[i]);
    var s, t := states[i], states[i + 1];
    assert Next(s, t);
    hide Safe, SystemWakes, FirmwareWakes, SpinlockHeld, Run, Next;
    if s.os.ReleaseExchange? && t.os.OsReleased? {
      OsSeesPending(s, t);
    }
    if s.fw.FwReleaseExchange? && t.fw.FwReleased? {
      FwSeesPending(s, t);
    }
  }

  lemma OsSeesPending(s: State, t: State)
    requires Exclusive(s) && Next(s, t) && s.os.ReleaseExchange? && t.os.OsReleased?
    ensures t.os.pending == s.failed
  {
    assert OsReleaseStep(s, t);
  }

  lemma FwSeesPending(s: State, t: State)
    requires Exclusive(s) && Next(s, t) && s.fw.FwReleaseExchange? && t.fw.FwReleased?
    ensures t.fw.pending == s.failed
  {
    assert FwReleaseStep(s, t);
  }

  /** When firmware and handler have nothing left to do, a waiting system has been signalled. */
  lemma NotificationNotLost(states: seq<State>, i: nat)
    requires Run(states) && i < |states|
    requires states[i].os.Waiting? && !FwOwns(states[i]) && !states[i].fw.FwReleased?
    requires !states[i].interrupt && (states[i].handler.NoInterrupt? || states[i].handler.Leaving?)
    ensures states[i].event > 0
  {
    RunSafe(states, i);
  }
}
