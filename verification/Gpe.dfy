/**
 General-purpose events (src/uacpi/event.c:335-376, 698-736, 1170-1304): eight events to a register, a count of
 users per event, masks per register, and the enable register of the hardware, which may fail to read or write.
 */
module Gpe {
  import opened Bits

  datatype Status = Ok | InvalidArgument | IoError

  datatype Wanted = Enabled | EnabledConditionally | Disabled

  /** Whether the register can be read and written during a call. */
  datatype Io = Io(readOk: bool, writeOk: bool)

  datatype Action = DisableAll | EnableAllForRuntime | EnableAllForWake | ClearAll

  /** The bit of event `e` in a row of registers. */
  predicate BitAt(s: seq<byte>, e: nat)
    requires e < 8 * |s|
  {
    TestBit(s[e / 8], e % 8)
  }

  /** One bit written, all others kept. */
  ghost predicate OneBit(before: seq<byte>, after: seq<byte>, e: nat, b: bool) {
    && |after| == |before| && e < 8 * |before|
    && forall k: nat {:trigger BitAt(after, k)} :: k < 8 * |before| ==> BitAt(after, k) == if k == e then b
       else BitAt(before, k)
  }

  lemma WriteBit(s: seq<byte>, e: nat, b: bool)
    requires e < 8 * |s|
    ensures OneBit(s, s[e / 8 := WithBit(s[e / 8], e % 8, b)], e, b)
  {
    hide WithBit, TestBit;
    var r := s[e / 8 := WithBit(s[e / 8], e % 8, b)];
    forall k: nat {:trigger BitAt(r, k)} | k < 8 * |s|
      ensures BitAt(r, k) == if k == e then b else BitAt(s, k)
    {
      WithBitAt(s[e / 8], e % 8, b, k % 8);
    }
  }

  /** `value & ~mask` in one register, and the value written by a block action. */
  function ActionValue(action: Action, runtime: byte, wake: byte, masked: byte, enable: byte): (r: byte) {
    match action
    case DisableAll => 0
    case EnableAllForRuntime => runtime & !masked
    case EnableAllForWake => wake
    case ClearAll => enable
  }

  lemma ActionBit(action: Action, runtime: byte, wake: byte, masked: byte, enable: byte, j: nat)
    requires j < 8
    ensures TestBit(ActionValue(action, runtime, wake, masked, enable), j) ==
            match action
            case DisableAll => false
            case EnableAllForRuntime => TestBit(runtime, j) && !TestBit(masked, j)
            case EnableAllForWake => TestBit(wake, j)
            case ClearAll => TestBit(enable, j)
  {
    AndNot(runtime, masked, Small(j));
  }

  lemma AndNot(a: byte, b: byte, j: bv8)
    requires j < 8
    ensures ((a & !b) >> j) & 1 == if (a >> j) & 1 == 1 && (b >> j) & 1 == 0 then 1 else 0
    ensures (0 as bv8 >> j) & 1 == 0
  {
    if j == 0 {} else if j == 1 {} else if j == 2 {} else if j == 3 {}
    else if j == 4 {} else if j == 5 {} else if j == 6 {} else {}
  }

  ghost predicate UsedAt(runtime: seq<byte>, users: seq<nat>, e: nat)
    requires |users| == 8 * |runtime| && e < |users|
  {
    users[e] <= 0xFF && (BitAt(runtime, e) <==> users[e] > 0)
  }

  ghost predicate Used(runtime: seq<byte>, users: seq<nat>) {
    |users| == 8 * |runtime| && forall e: nat {:trigger UsedAt(runtime, users, e)} :: e < |users| ==>
      UsedAt(runtime, users, e)
  }

  ghost predicate OffAt(masked: seq<byte>, enable: seq<byte>, e: nat)
    requires |masked| == |enable| && e < 8 * |masked|
  {
    BitAt(masked, e) ==> !BitAt(enable, e)
  }

  ghost predicate Off(masked: seq<byte>, enable: seq<byte>) {
    |masked| == |enable| && forall e: nat {:trigger OffAt(masked, enable, e)} :: e < 8 * |masked| ==>
      OffAt(masked, enable, e)
  }

  lemma UsedStep(before: seq<byte>, after: seq<byte>, users: seq<nat>, e: nat, n: nat)
    requires Used(before, users) && e < |users| && n <= 0xFF && OneBit(before, after, e, n > 0)
    ensures Used(after, users[e := n])
  {
    hide BitAt;
    forall k: nat {:trigger UsedAt(after, users[e := n], k)} | k < |users|
      ensures UsedAt(after, users[e := n], k)
    {
      assert UsedAt(before, users, k);
    }
  }

  lemma UsedMore(runtime: seq<byte>, users: seq<nat>, e: nat, n: nat)
    requires Used(runtime, users) && e < |users| && n <= 0xFF && (n > 0 <==> users[e] > 0)
    ensures Used(runtime, users[e := n])
  {
    hide BitAt;
    forall k: nat {:trigger UsedAt(runtime, users[e := n], k)} | k < |users|
      ensures UsedAt(runtime, users[e := n], k)
    {
      assert UsedAt(runtime, users, k);
    }
  }

  lemma OneBitTwice(a: seq<byte>, b: seq<byte>, c: seq<byte>, e: nat, v: bool, w: bool)
    requires OneBit(a, b, e, v) && OneBit(b, c, e, w)
    ensures OneBit(a, c, e, w)
  {
    hide BitAt;
    forall k: nat {:trigger BitAt(c, k)} | k < 8 * |a|
      ensures BitAt(c, k) == if k == e then w else BitAt(a, k)
    {
      assert BitAt(b, k) == if k == e then v else BitAt(a, k);
    }
  }

  lemma OffEnable(masked: seq<byte>, before: seq<byte>, after: seq<byte>, e: nat, b: bool)
    requires Off(masked, before) && OneBit(before, after, e, b) && (b ==> !BitAt(masked, e))
    ensures Off(masked, after)
  {
    hide BitAt;
    forall k: nat {:trigger OffAt(masked, after, k)} | k < 8 * |masked|
      ensures OffAt(masked, after, k)
    {
      assert OffAt(masked, before, k);
    }
  }

  /** Masking one more event keeps masked events off exactly if that one is off. */
  lemma OffMask(before: seq<byte>, after: seq<byte>, enable: seq<byte>, e: nat, b: bool)
    requires Off(before, enable) && OneBit(before, after, e, b)
    ensures Off(after, enable) <==> (b ==> !BitAt(enable, e))
  {
    hide BitAt;
    assert OffAt(after, enable, e) <==> (b ==> !BitAt(enable, e));
    if b ==> !BitAt(enable, e) {
      forall k: nat {:trigger OffAt(after, enable, k)} | k < 8 * |after|
        ensures OffAt(after, enable, k)
      {
        assert OffAt(before, enable, k);
      }
    }
  }

  /** A GPE block: its registers, and for each event its users and whether interrupts are blocked for it. */
  class Block {
    const registers: nat
    var runtime: seq<byte>
    var wake: seq<byte>
    var masked: seq<byte>
    var current: seq<byte>
    var enable: seq<byte>
    var users: seq<nat>
    var blockInterrupts: seq<bool>

    constructor (registers: nat)
      ensures this.registers == registers && Valid() && MaskedOff()
      ensures users == seq(8 * registers, _ => 0) && blockInterrupts == seq(8 * registers, _ => false)
      ensures masked == enable == current == seq(registers, _ => 0)
    {
      this.registers := registers;
      runtime, wake, masked := seq(registers, _ => 0), seq(registers, _ => 0), seq(registers, _ => 0);
      current, enable := seq(registers, _ => 0), seq(registers, _ => 0);
      users, blockInterrupts := seq(8 * registers, _ => 0), seq(8 * registers, _ => false);
      new;
      AllClear(runtime, users, masked, enable);
    }

    ghost predicate Shape()
      reads this
    {
      && |runtime| == |wake| == |masked| == |current| == |enable| == registers
      && |users| == |blockInterrupts| == 8 * registers
    }

    /** An event is in the runtime mask exactly if it has users. */
    ghost predicate Valid()
      reads this
    {
      Shape() && Used(runtime, users)
    }

    /** A masked event is not enabled in hardware. */
    ghost predicate MaskedOff()
      reads this
    {
      Off(masked, enable)
    }

    /** `set_gpe_state` acts on the hardware, rather than leaving a masked or unwanted event alone. */
    predicate Acts(e: nat, wanted: Wanted)
      requires Shape() && e < 8 * registers
      reads this
    {
      wanted.Disabled? || (!BitAt(masked, e) && (wanted.Enabled? || BitAt(current, e)))
    }

    /** `set_gpe_state`. */
    method SetState(e: nat, wanted: Wanted, io: Io) returns (status: Status)
      requires Shape() && e < 8 * registers
      modifies this`enable
      ensures Shape() && (status == if old(Acts(e, wanted)) && !(io.readOk && io.writeOk) then IoError else Ok)
      ensures if old(Acts(e, wanted)) && io.readOk && io.writeOk then OneBit(old(enable), enable, e, !wanted.Disabled?)
              else enable == old(enable)
    {
      hide TestBit, OneBit;
      var state := wanted;
      if !state.Disabled? && BitAt(masked, e) {
        return Ok;
      }
      if state.EnabledConditionally? {
        if !BitAt(current, e) {
          return Ok;
        }
        state := Enabled;
      }
      if !io.readOk {
        return IoError;
      }
      var value := WithBit(enable[e / 8], e % 8, state.Enabled?);
      if !io.writeOk {
        return IoError;
      }
      WriteBit(enable, e, state.Enabled?);
      enable := enable[e / 8 := value];
      return Ok;
    }

    /** `gp_event_toggle_masks`. */
    method ToggleMasks(e: nat, setOn: bool)
      requires Shape() && e < 8 * registers
      modifies this`runtime, this`current
      ensures Shape() && OneBit(old(runtime), runtime, e, setOn)
      ensures current == old(current)[e / 8 := runtime[e / 8]]
    {
      WriteBit(runtime, e, setOn);
      runtime := runtime[e / 8 := WithBit(runtime[e / 8], e % 8, setOn)];
      current := current[e / 8 := runtime[e / 8]];
    }

    /** `gpe_add_user`: the first user puts the event into the masks and enables it, or nothing happens. */
    method AddUser(e: nat, io: Io) returns (status: Status)
      requires Valid() && e < 8 * registers
      modifies this`users, this`runtime, this`current, this`enable
      ensures Valid() && (old(MaskedOff()) ==> MaskedOff())
      ensures status == if old(users[e]) == 0xFF then InvalidArgument
                        else if old(users[e]) == 0 && !BitAt(masked, e) && !(io.readOk && io.writeOk) then IoError
                            else Ok
      ensures users == if status.Ok? then old(users)[e := old(users[e]) + 1] else old(users)
      ensures if old(users[e]) == 0 && status.Ok? && !BitAt(masked, e) then OneBit(old(enable), enable, e, true)
              else enable == old(enable)
    {
      hide BitAt, Used, Off, OneBit;
      UsedFact(runtime, users, e);
      if users[e] == 0xFF {
        return InvalidArgument;
      }
      status := Ok;
      ghost var before, usersBefore := runtime, users;
      users := users[e := users[e] + 1];
      if users[e] == 1 {
        ToggleMasks(e, true);
        ghost var between := runtime;
        status := SetState(e, Enabled, io);
        if !status.Ok? {
          ToggleMasks(e, false);
          users := users[e := users[e] - 1];
          OneBitTwice(before, between, runtime, e, true, false);
          assert users == usersBefore[e := 0] == usersBefore;
        } else if Off(masked, old(enable)) && !BitAt(masked, e) {
          OffEnable(masked, old(enable), enable, e, true);
        }
        UsedStep(before, runtime, usersBefore, e, users[e]);
      } else {
        UsedMore(runtime, usersBefore, e, users[e]);
      }
    }

    /** `gpe_remove_user`: the last user takes the event out of the masks and disables it, or nothing happens. */
    method RemoveUser(e: nat, io: Io) returns (status: Status)
      requires Valid() && e < 8 * registers
      modifies this`users, this`runtime, this`current, this`enable
      ensures Valid() && (old(MaskedOff()) ==> MaskedOff())
      ensures status == if old(users[e]) == 0 then InvalidArgument
                        else if old(users[e]) == 1 && !(io.readOk && io.writeOk) then IoError else Ok
      ensures users == if status.Ok? then old(users)[e := old(users[e]) - 1] else old(users)
      ensures if old(users[e]) == 1 && status.Ok? then OneBit(old(enable), enable, e, false) else enable == old(enable)
    {
      hide BitAt, Used, Off, OneBit;
      UsedFact(runtime, users, e);
      if users[e] == 0 {
        return InvalidArgument;
      }
      status := Ok;
      ghost var before, usersBefore := runtime, users;
      users := users[e := users[e] - 1];
      if users[e] == 0 {
        ToggleMasks(e, false);
        ghost var between := runtime;
        status := SetState(e, Disabled, io);
        if !status.Ok? {
          ToggleMasks(e, true);
          users := users[e := users[e] + 1];
          OneBitTwice(before, between, runtime, e, false, true);
          assert users == usersBefore[e := 1] == usersBefore;
        } else if Off(masked, old(enable)) {
          OffEnable(masked, old(enable), enable, e, false);
        }
        UsedStep(before, runtime, usersBefore, e, users[e]);
      } else {
        UsedMore(runtime, usersBefore, e, users[e]);
      }
    }

    /**
     `gpe_mask_unmask`: the result of the register access is ignored, so a masked event is off afterwards exactly if
     the access worked or it was off before; an unmasked one is enabled again only if it is in the current mask.
     */
    method MaskUnmask(e: nat, shouldMask: bool, io: Io) returns (status: Status)
      requires Valid() && e < 8 * registers
      modifies this`masked, this`enable
      ensures Valid() && (status == if shouldMask == old(BitAt(masked, e)) then InvalidArgument else Ok)
      ensures if status.Ok? then OneBit(old(masked), masked, e, shouldMask)
              else masked == old(masked) && enable == old(enable)
      ensures old(MaskedOff()) ==>
                (MaskedOff() <==> !status.Ok? || !shouldMask || (io.readOk && io.writeOk) || !old(BitAt(enable, e)))
      ensures status.Ok? && !shouldMask ==>
                if !blockInterrupts[e] && users[e] > 0 && BitAt(current, e) && io.readOk && io.writeOk
                then OneBit(old(enable), enable, e, true) else enable == old(enable)
    {
      hide Used, Off, OneBit, BitAt;
      if shouldMask == BitAt(masked, e) {
        return InvalidArgument;
      }
      WriteBit(masked, e, shouldMask);
      ghost var before := masked;
      masked := masked[e / 8 := WithBit(masked[e / 8], e % 8, shouldMask)];
      OneBitFact(before, masked, e, shouldMask);
      ghost var written := io.readOk && io.writeOk &&
        (shouldMask || (!blockInterrupts[e] && users[e] > 0 && BitAt(current, e)));
      if shouldMask {
        var _ := SetState(e, Disabled, io);
      } else if !blockInterrupts[e] && users[e] > 0 {
        var _ := SetState(e, EnabledConditionally, io);
      }
      if Off(before, old(enable)) {
        OffMaskEnable(before, masked, old(enable), enable, e, shouldMask, written);
      }
      return Ok;
    }

    /**
     `gpe_block_apply_action`; `writes` says which register writes work. It stops at the first that does not. Registers
     written are in the state the action asks for, and the current masks of those reached follow it.
     */
    method ApplyAction(action: Action, writes: seq<bool>) returns (status: Status)
      requires Valid() && |writes| == registers
      modifies this`current, this`enable
      ensures Valid() && (status == if false in writes then IoError else Ok)
      ensures forall e: nat {:trigger BitAt(enable, e)} :: e < 8 * registers ==>
                BitAt(enable, e) == if Reached(writes, e / 8)
                  then ActionAt(action, runtime, wake, masked, old(enable), e) else BitAt(old(enable), e)
      ensures forall e: nat {:trigger BitAt(current, e)} ::
              e < 8 * registers && !action.ClearAll? && Reached(writes, e / 8) ==>
                BitAt(current, e) == BitAt(enable, e)
      ensures action != EnableAllForWake && old(MaskedOff()) ==> MaskedOff()
    {
      hide TestBit, ActionValue, Used;
      var i := 0;
      while i < registers
        invariant 0 <= i <= registers && Shape() && forall j :: 0 <= j < i ==> writes[j]
        invariant forall j {:trigger current[j]} :: 0 <= j < i && !action.ClearAll? ==> current[j] == enable[j]
        invariant forall j {:trigger enable[j]} :: 0 <= j < registers ==>
                    enable[j] == if j < i then ActionValue(action, runtime[j], wake[j], masked[j], old(enable)[j])
                      else old(enable)[j]
      {
        var value := ActionValue(action, runtime[i], wake[i], masked[i], enable[i]);
        if !action.ClearAll? {
          current := current[i := value];
        }
        if !writes[i] {
          ActionBits(action, runtime, wake, masked, old(enable), enable, writes, i);
          return IoError;
        }
        enable := enable[i := value];
        i := i + 1;
      }
      ActionBits(action, runtime, wake, masked, old(enable), enable, writes, i);
      return Ok;
    }

    /**
     `gpe_enable_disable_for_wake`, without its checks. Disabling keeps the event's own bit and clears the other seven
     of its register.
     */
    method EnableDisableForWake(e: nat, enabled: bool)
      requires Valid() && e < 8 * registers
      modifies this`wake
      ensures Valid()
      ensures enabled ==> OneBit(old(wake), wake, e, true)
      ensures !enabled ==> forall k: nat {:trigger BitAt(wake, k)} :: k < 8 * registers ==>
                             BitAt(wake, k) == (BitAt(old(wake), k) && (k / 8 != e / 8 || k == e))
    {
      hide TestBit, Used;
      if enabled {
        WriteBit(wake, e, true);
        wake := wake[e / 8 := WithBit(wake[e / 8], e % 8, true)];
      } else {
        var value := wake[e / 8] & (1 << Small(e % 8));
        wake := wake[e / 8 := value];
        forall k: nat {:trigger BitAt(wake, k)} | k < 8 * registers
          ensures BitAt(wake, k) == (BitAt(old(wake), k) && (k / 8 != e / 8 || k == e))
        {
          OnlyBit(old(wake)[e / 8], e % 8, k % 8);
        }
      }
    }

    method Perform(call: Call)
      requires Valid() && Fits(call, registers)
      modifies this
      ensures Valid() && (old(MaskedOff()) && Plain(call) ==> MaskedOff())
    {
      hide Used, Off;
      match call
      case Add(e, io) => var _ := AddUser(e, io);
      case Remove(e, io) => var _ := RemoveUser(e, io);
      case Mask(e, on, io) => var _ := MaskUnmask(e, on, io);
      case All(action, writes) => var _ := ApplyAction(action, writes);
      case Wake(e, on) => EnableDisableForWake(e, on);
    }

    /** Whole runs: the runtime mask always tells who has users; without failing accesses masked events stay off. */
    method Play(calls: seq<Call>)
      requires Valid() && forall i {:trigger calls[i]} :: 0 <= i < |calls| ==> Fits(calls[i], registers)
      modifies this
      ensures Valid()
      ensures old(MaskedOff()) && (forall i {:trigger calls[i]} :: 0 <= i < |calls| ==> Plain(calls[i])) ==> MaskedOff()
    {
      hide Used, Off;
      var i := 0;
      while i < |calls|
        invariant 0 <= i <= |calls| && Valid()
        invariant old(MaskedOff()) && (forall j {:trigger calls[j]} :: 0 <= j < i ==> Plain(calls[j])) ==> MaskedOff()
      {
        Perform(calls[i]);
        i := i + 1;
      }
    }
  }

  datatype Call = Add(e: nat, io: Io) | Remove(e: nat, io: Io) | Mask(e: nat, on: bool, io: Io)
                | All(action: Action, writes: seq<bool>) | Wake(e: nat, on: bool)

  predicate Fits(call: Call, registers: nat) {
    match call
    case All(_, writes) => |writes| == registers
    case Add(e, _) => e < 8 * registers
    case Remove(e, _) => e < 8 * registers
    case Mask(e, _, _) => e < 8 * registers
    case Wake(e, _) => e < 8 * registers
  }

  /** Register access works when the call masks an event, and the call does not enable everything for wake. */
  predicate Plain(call: Call) {
    match call
    case Mask(_, on, io) => !on || (io.readOk && io.writeOk)
    case All(action, _) => action != EnableAllForWake
    case _ => true
  }

  /** Register `r` is written: no write up to it fails. */
  ghost predicate Reached(writes: seq<bool>, r: nat)
    requires r < |writes|
  {
    forall j :: 0 <= j <= r ==> writes[j]
  }

  /** What an action asks of event `e`. */
  ghost predicate ActionAt(action: Action, runtime: seq<byte>, wake: seq<byte>, masked: seq<byte>, enable: seq<byte>,
                           e: nat)
    requires |runtime| == |wake| == |masked| == |enable| && e < 8 * |runtime|
  {
    match action
    case DisableAll => false
    case EnableAllForRuntime => BitAt(runtime, e) && !BitAt(masked, e)
    case EnableAllForWake => BitAt(wake, e)
    case ClearAll => BitAt(enable, e)
  }

  lemma ActionBits(action: Action, runtime: seq<byte>, wake: seq<byte>, masked: seq<byte>, before: seq<byte>,
                   after: seq<byte>, writes: seq<bool>, n: nat)
    requires |runtime| == |wake| == |masked| == |before| == |after| == |writes| && n <= |writes|
    requires (forall j :: 0 <= j < n ==> writes[j]) && (n < |writes| ==> !writes[n])
    requires forall j {:trigger after[j]} :: 0 <= j < |after| ==>
               after[j] == if j < n then ActionValue(action, runtime[j], wake[j], masked[j], before[j]) else before[j]
    ensures forall e: nat {:trigger BitAt(after, e)} :: e < 8 * |after| ==>
              BitAt(after, e) == if Reached(writes, e / 8) then ActionAt(action, runtime, wake, masked, before, e)
                else BitAt(before, e)
    ensures action != EnableAllForWake && Off(masked, before) ==> Off(masked, after)
  {
    hide TestBit, ActionValue;
    forall e: nat {:trigger BitAt(after, e)} | e < 8 * |after|
      ensures BitAt(after, e) == if Reached(writes, e / 8) then ActionAt(action, runtime, wake, masked, before, e)
              else BitAt(before, e)
    {
      ActionBit(action, runtime[e / 8], wake[e / 8], masked[e / 8], before[e / 8], e % 8);
    }
    if action != EnableAllForWake && Off(masked, before) {
      forall e: nat {:trigger OffAt(masked, after, e)} | e < 8 * |masked|
        ensures OffAt(masked, after, e)
      {
        assert OffAt(masked, before, e);
      }
    }
  }

  lemma OnlyBit(v: byte, j: nat, k: nat)
    requires j < 8 && k < 8
    ensures TestBit(v & (1 << Small(j)), k) == (k == j && TestBit(v, k))
  {
    KeepBit(v, Small(j), Small(k));
    SmallLess(j, k);
    SmallLess(k, j);
  }

  lemma KeepBit(b: byte, j: bv8, k: bv8)
    requires j < 8 && k < 8
    ensures ((b & (1 << j)) >> k) & 1 == if k == j then (b >> k) & 1 else 0
  {
    if j == 0 {} else if j == 1 {} else if j == 2 {} else if j == 3 {}
    else if j == 4 {} else if j == 5 {} else if j == 6 {} else {}
  }

  lemma AllClear(runtime: seq<byte>, users: seq<nat>, masked: seq<byte>, enable: seq<byte>)
    requires |users| == 8 * |runtime| && |masked| == |enable|
    requires (forall i {:trigger runtime[i]} :: 0 <= i < |runtime| ==> runtime[i] == 0) &&
             (forall i {:trigger users[i]} :: 0 <= i < |users| ==> users[i] == 0)
    requires forall i {:trigger masked[i]} :: 0 <= i < |masked| ==> masked[i] == 0
    ensures Used(runtime, users) && Off(masked, enable)
  {
    forall e: nat | e < 8
      ensures !TestBit(0, e)
    {
      AndNot(0, 0, Small(e));
    }
  }

  /**
   Enabling everything for runtime while an event is masked drops the event from the current mask, and unmasking it
   afterwards does not enable it: it has a user, it is not masked, no access has failed, and it is off.
   */
  method LostUnmask() returns (b: Block)
    ensures fresh(b) && b.Valid() && b.registers == 1
    ensures b.users[0] == 1 && !b.blockInterrupts[0] && !BitAt(b.masked, 0) && !BitAt(b.enable, 0)
  {
    hide TestBit, Used, Off;
    var io := Io(true, true);
    b := new Block(1);
    var _ := b.AddUser(0, io);
    var _ := b.MaskUnmask(0, true, io);
    var _ := b.ApplyAction(EnableAllForRuntime, [true]);
    var _ := b.MaskUnmask(0, false, io);
  }

  lemma UsedFact(runtime: seq<byte>, users: seq<nat>, e: nat)
    requires Used(runtime, users) && e < |users|
    ensures users[e] <= 0xFF && (BitAt(runtime, e) <==> users[e] > 0)
  {
    assert UsedAt(runtime, users, e);
  }

  lemma OneBitFact(before: seq<byte>, after: seq<byte>, e: nat, b: bool)
    requires OneBit(before, after, e, b)
    ensures BitAt(after, e) == b
  {
  }

  lemma OffMaskEnable(m0: seq<byte>, m1: seq<byte>, e0: seq<byte>, e1: seq<byte>, e: nat, b: bool, written: bool)
    requires Off(m0, e0) && OneBit(m0, m1, e, b) && e < 8 * |e0|
    requires if written then OneBit(e0, e1, e, !b) else e1 == e0
    ensures Off(m1, e1) <==> !b || written || !BitAt(e0, e)
  {
    hide BitAt, Off, OneBit;
    OneBitFact(m0, m1, e, b);
    if !b {
      OffMask(m0, m1, e0, e, b);
      if written {
        OffEnable(m1, e0, e1, e, true);
      }
    } else if written {
      OffEnable(m0, e0, e1, e, false);
      OneBitFact(e0, e1, e, false);
      OffMask(m0, m1, e1, e, b);
    } else {
      OffMask(m0, m1, e0, e, b);
    }
  }
}
