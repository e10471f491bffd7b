/**
 Laying out the fields of one `Field` list (src/uacpi/interpreter.c:1612-1868) and what the
 layout gives the fields: over a plain region each behaves as a variable of its own.
 */
module FieldLayout {
  import opened Bits
  import opened BitCopy
  import opened FieldUnit
  import opened Arith

  /** An entry of the list; lengths are PkgLength values (section 20.2.4 of the ACPI 6.5 specification). */
  datatype Item =
    | NamedField(length: nat)
    | ReservedField(length: nat)
    | AccessField(accessType: nat)
    | ConnectField
    | UnknownItem
  {
    predicate Valid() {
      match this
      case NamedField(n) => n < 0x1000_0000
      case ReservedField(n) => n < 0x1000_0000
      case AccessField(t) => t < 16
      case ConnectField => true
      case UnknownItem => true
    }

    function Bits(): nat {
      match this
      case NamedField(n) => n
      case ReservedField(n) => n
      case _ => 0
    }
  }

  datatype LayoutStatus = Laid | BadEncoding | InvalidItem

  /** The access width of an access type; types 6 to 15 are reserved. */
  function AccessWidth(accessType: nat): (width: nat) {
    if accessType in {0, 1, 5} then 1 else if accessType == 2 then 2
    else if accessType == 3 then 4 else if accessType == 4 then 8 else 0
  }

  /** Bits taken by the first `i` items. */
  function BitsBefore(items: seq<Item>, i: nat): nat
    requires i <= |items|
  {
    if i == 0 then 0 else BitsBefore(items, i - 1) + items[i - 1].Bits()
  }

  /** Named fields among the first `i` items. */
  function NamedBefore(items: seq<Item>, i: nat): nat
    requires i <= |items|
  {
    if i == 0 then 0 else NamedBefore(items, i - 1) + (if items[i - 1].NamedField? then 1 else 0)
  }

  /** The field that starts at `bitOffset`; the byte offset is kept in 32 bits. */
  function FieldAt(bitOffset: nat, length: nat, width: nat, rule: UpdateRule): Field
    requires 0 < width
  {
    Field((bitOffset / 8 - (bitOffset / 8) % width) % 0x1_0000_0000, bitOffset % (8 * width), length, width, rule)
  }

  /** A field starts where it was laid out exactly when its byte offset fits in 32 bits. */
  lemma FieldAtStart(bitOffset: nat, length: nat, width: nat, rule: UpdateRule)
    requires width in {1, 2, 4, 8} && length < 0x1000_0000
    ensures FieldAt(bitOffset, length, width, rule).Valid()
    ensures FieldAt(bitOffset, length, width, rule).Start() == bitOffset <==> bitOffset < 0x8_0000_0000
  {
    AlignedSplit(bitOffset, width);
    AlignedDown(bitOffset / 8, width);
    var aligned := bitOffset / 8 - (bitOffset / 8) % width;
    if aligned < 0x1_0000_0000 {
      assert aligned % 0x1_0000_0000 == aligned;
    } else {
      assert aligned % 0x1_0000_0000 < aligned;
    }
  }

  /** Aligning down and keeping 32 bits leaves a multiple of the width. */
  lemma AlignedDown(q: nat, width: nat)
    requires width in {1, 2, 4, 8}
    ensures Aligned((q - q % width) % WORD32, width)
  {
    var a := q - q % width;
    var k, m, r := q / width, a / WORD32, a % WORD32;
    DivMod(q, width);
    DivMod(a, WORD32);
    if width == 2 {
      DivModUnique(r, 2, k - 0x8000_0000 * m, 0);
    } else if width == 4 {
      DivModUnique(r, 4, k - 0x4000_0000 * m, 0);
    } else if width == 8 {
      DivModUnique(r, 8, k - 0x2000_0000 * m, 0);
    }
  }

  lemma AlignedSplit(bitOffset: nat, width: nat)
    requires width in {1, 2, 4, 8}
    ensures var aligned := bitOffset / 8 - (bitOffset / 8) % width;
            && 0 <= aligned && 8 * aligned + bitOffset % (8 * width) == bitOffset
            && (aligned < 0x1_0000_0000 <==> bitOffset < 0x8_0000_0000)
  {
    var q := bitOffset / 8;
    var k, r := q / width, q % width;
    DivMod(q, width);
    Distribute(width, k, 0);
    assert bitOffset == (8 * width) * k + (8 * r + bitOffset % 8);
    DivModUnique(bitOffset, 8 * width, k, 8 * r + bitOffset % 8);
    BlockBelow(width, k, 0x1_0000_0000 / width, q);
  }

  lemma {:induction false} BitsBeforeMonotone(items: seq<Item>, i: nat, j: nat)
    requires i <= j <= |items|
    ensures BitsBefore(items, i) <= BitsBefore(items, j)
    ensures NamedBefore(items, i) <= NamedBefore(items, j) <= j
    decreases j
  {
    if i < j {
      BitsBeforeMonotone(items, i, j - 1);
    } else if 0 < j {
      BitsBeforeMonotone(items, i - 1, j - 1);
    }
  }

  /** Each named item has its field, as long as the item and at the sum of the lengths before it. */
  ghost predicate LaidOut(items: seq<Item>, n: nat, fields: seq<Field>, rule: UpdateRule)
    requires n <= |items|
  {
    && |fields| == NamedBefore(items, n)
    && forall i :: 0 <= i < n && items[i].NamedField? ==>
         && NamedBefore(items, i) < |fields|
         && var f := fields[NamedBefore(items, i)];
            && f.Valid() && f.rule == rule && f.bitLength == items[i].length
            && (f.Start() == BitsBefore(items, i) <==> BitsBefore(items, i) < 0x8_0000_0000)
  }

  /** The access type in force for item `i`: that of the last access item before it, or the one of the whole list. */
  function TypeAt(items: seq<Item>, i: nat, accessType0: nat): (r: nat)
    requires i <= |items|
  {
    if i == 0 then accessType0 else if items[i - 1].AccessField? then items[i - 1].accessType
    else TypeAt(items, i - 1, accessType0)
  }

  /** An item that stops the layout: one of no known kind, or a field while a reserved access type is in force. */
  predicate Offends(items: seq<Item>, i: nat, accessType0: nat)
    requires i < |items|
  {
    items[i].UnknownItem? || (items[i].NamedField? && AccessWidth(TypeAt(items, i, accessType0)) == 0)
  }

  ghost predicate WidthsInForce(items: seq<Item>, n: nat, fields: seq<Field>, accessType0: nat)
    requires n <= |items|
  {
    forall i {:trigger items[i]} :: 0 <= i < n && items[i].NamedField? ==>
      NamedBefore(items, i) < |fields| &&
        fields[NamedBefore(items, i)].width == AccessWidth(TypeAt(items, i, accessType0))
  }

  /**
   The layout loop of `handle_create_field`. The first item that offends stops it; without one, all fields are laid
   out.
   */
  method LayOut(accessType0: nat, rule: UpdateRule, items: seq<Item>)
    returns (status: LayoutStatus, fields: seq<Field>, stopped: nat)
    requires accessType0 < 16 && forall i :: 0 <= i < |items| ==> items[i].Valid()
    ensures stopped <= |items| && (status == Laid <==> stopped == |items|)
    ensures forall i {:trigger Offends(items, i, accessType0)} :: 0 <= i < stopped ==> !Offends(items, i, accessType0)
    ensures stopped < |items| ==>
      Offends(items, stopped, accessType0) && status == if items[stopped].UnknownItem? then InvalidItem else BadEncoding
    ensures LaidOut(items, stopped, fields, rule) && WidthsInForce(items, stopped, fields, accessType0)
  {
    hide Offends, LaidOut, WidthsInForce, FieldAt;
    var i, bitOffset, accessType := 0, 0, accessType0;
    fields := [];
    LaidOutNone(items, rule, accessType0);
    while i < |items|
      invariant i <= |items| && bitOffset == BitsBefore(items, i) && accessType == TypeAt(items, i, accessType0)
      invariant forall k {:trigger Offends(items, k, accessType0)} :: 0 <= k < i ==> !Offends(items, k, accessType0)
      invariant LaidOut(items, i, fields, rule) && WidthsInForce(items, i, fields, accessType0)
    {
      OffendsFact(items, i, accessType0);
      if !items[i].NamedField? {
        LaidOutSkip(items, i, fields, rule, accessType0);
      }
      match items[i] {
      case NamedField(length) =>
        var width := AccessWidth(accessType);
        if width == 0 {
          return BadEncoding, fields, i;
        }
        LaidOutNamed(items, i, fields, rule, accessType0);
        fields := fields + [FieldAt(bitOffset, length, width, rule)];
        bitOffset := bitOffset + length;
      case ReservedField(length) =>
        bitOffset := bitOffset + length;
      case AccessField(t) =>
        accessType := t;
      case ConnectField =>
      case UnknownItem =>
        return InvalidItem, fields, i;
      }
      i := i + 1;
    }
    return Laid, fields, i;
  }

  lemma OffendsFact(items: seq<Item>, i: nat, accessType0: nat)
    requires i < |items|
    ensures Offends(items, i, accessType0) <==>
            items[i].UnknownItem? || (items[i].NamedField? && AccessWidth(TypeAt(items, i, accessType0)) == 0)
  {
  }

  lemma LaidOutNone(items: seq<Item>, rule: UpdateRule, accessType0: nat)
    ensures LaidOut(items, 0, [], rule) && WidthsInForce(items, 0, [], accessType0)
  {
  }

  lemma LaidOutSkip(items: seq<Item>, n: nat, fields: seq<Field>, rule: UpdateRule, accessType0: nat)
    requires n < |items| && !items[n].NamedField? && LaidOut(items, n, fields, rule) &&
             WidthsInForce(items, n, fields, accessType0)
    ensures LaidOut(items, n + 1, fields, rule) && WidthsInForce(items, n + 1, fields, accessType0)
  {
  }

  lemma LaidOutNamed(items: seq<Item>, n: nat, fields: seq<Field>, rule: UpdateRule, accessType0: nat)
    requires n < |items| && items[n].NamedField? && items[n].Valid() && AccessWidth(TypeAt(items, n, accessType0)) != 0
    requires LaidOut(items, n, fields, rule) && WidthsInForce(items, n, fields, accessType0)
    ensures var f := FieldAt(BitsBefore(items, n), items[n].length, AccessWidth(TypeAt(items, n, accessType0)), rule);
            LaidOut(items, n + 1, fields + [f], rule) && WidthsInForce(items, n + 1, fields + [f], accessType0)
  {
    FieldAtStart(BitsBefore(items, n), items[n].length, AccessWidth(TypeAt(items, n, accessType0)), rule);
    hide TypeAt, AccessWidth, BitsBefore;
    NamedBeforeBelow(items, n);
  }

  lemma NamedBeforeBelow(items: seq<Item>, n: nat)
    requires n < |items| && items[n].NamedField?
    ensures forall i {:trigger NamedBefore(items, i)} :: 0 <= i < n && items[i].NamedField? ==>
            NamedBefore(items, i) < NamedBefore(items, n)
  {
    forall i {:trigger NamedBefore(items, i)} | 0 <= i < n && items[i].NamedField?
      ensures NamedBefore(items, i) < NamedBefore(items, n)
    {
      BitsBeforeMonotone(items, i + 1, n);
    }
  }

  // -------------------------------------------------------------------------
  // Fields as independent variables

  /** The item a laid-out field came from. */
  lemma {:induction false} ItemOfField(items: seq<Item>, n: nat, m: nat) returns (i: nat)
    requires n <= |items| && m < NamedBefore(items, n)
    ensures i < n && items[i].NamedField? && NamedBefore(items, i) == m
  {
    if NamedBefore(items, n - 1) == m {
      i := n - 1;
    } else {
      i := ItemOfField(items, n - 1, m);
    }
  }

  /** All bits of the list are within reach of a 32-bit byte offset. */
  predicate Addressable(items: seq<Item>) {
    BitsBefore(items, |items|) <= 0x8_0000_0000
  }

  /** Two fields of one list never share a bit, and all lie within the bits of the list. */
  lemma FieldsDisjoint(items: seq<Item>, fields: seq<Field>, rule: UpdateRule, a: nat, b: nat)
    requires LaidOut(items, |items|, fields, rule) && Addressable(items)
    requires a < |fields| && b < |fields|
    ensures fields[a].bitLength > 0 ==> fields[a].Start() + fields[a].bitLength <= BitsBefore(items, |items|)
    ensures a != b ==> Disjoint(fields[a], fields[b])
  {
    var i := ItemOfField(items, |items|, a);
    var j := ItemOfField(items, |items|, b);
    BitsBeforeMonotone(items, i + 1, |items|);
    BitsBeforeMonotone(items, j + 1, |items|);
    if i < j {
      BitsBeforeMonotone(items, i + 1, j);
    } else if j < i {
      BitsBeforeMonotone(items, j + 1, i);
    }
  }

  /** A store to one of the fields. */
  datatype Store = Store(field: nat, value: seq<byte>)

  /** The last value stored to field `m`, if any. */
  function LastStore(ops: seq<Store>, m: nat): (r: seq<seq<byte>>)
    ensures |r| <= 1
  {
    if ops == [] then []
    else if ops[|ops| - 1].field == m then [ops[|ops| - 1].value]
    else LastStore(ops[..|ops| - 1], m)
  }

  /** One successful store, as `FieldUnit.Write` leaves the region. */
  ghost predicate StoreStep(fields: seq<Field>, op: Store, before: seq<byte>, after: seq<byte>, end: nat) {
    && op.field < |fields|
    && var f := fields[op.field];
       f.Valid() && Stored(BitsOf(before), BitsOf(after), f, Fit(BitsOf(op.value), f.bitLength), end, f.bitLength) &&
         end <= 8 * f.End()
  }

  /** A run of successful stores over one region: `states` are the contents in between. */
  ghost predicate Run(fields: seq<Field>, ops: seq<Store>, states: seq<seq<byte>>, ends: seq<nat>) {
    && |states| == |ops| + 1 && |ends| == |ops|
    && forall t {:trigger ops[t]} :: 0 <= t < |ops| ==> StoreStep(fields, ops[t], states[t], states[t + 1], ends[t])
  }

  /**
   Every run of stores: each field of the list reads as the last value stored to it, cut or padded
   to its length, or as it did at the start if there was none.
   */
  lemma {:induction false} FieldsAreVariables(items: seq<Item>, fields: seq<Field>, ops: seq<Store>,
                                              states: seq<seq<byte>>,
                                              ends: seq<nat>, m: nat)
    requires LaidOut(items, |items|, fields, Preserve) && Addressable(items)
    requires Run(fields, ops, states, ends)
    requires BitsBefore(items, |items|) <= 8 * |states[0]|
    requires m < |fields| && fields[m].bitLength > 0
    ensures |states[|ops|]| == |states[0]| && fields[m].Start() + fields[m].bitLength <= 8 * |states[0]|
    ensures Value(states[|ops|], fields[m])
         == if LastStore(ops, m) == [] then Value(states[0], fields[m])
            else Fit(BitsOf(LastStore(ops, m)[0]), fields[m].bitLength)
    decreases |ops|
  {
    hide BitsOf, Fit, Value, Written, Stored, BitsBefore, LaidOut, Field.Valid, Field.End, Field.Start;
    FieldsDisjoint(items, fields, Preserve, m, m);
    if ops != [] {
      var n := |ops| - 1;
      assert StoreStep(fields, ops[n], states[n], states[n + 1], ends[n]);
      FieldsAreVariables(items, fields, ops[..n], states[..|ops|], ends[..n], m);
      var op := ops[n];
      var f := fields[op.field];
      StoredInReach(items, fields, op.field, BitsOf(states[n]), BitsOf(states[n + 1]),
                    Fit(BitsOf(op.value), f.bitLength), ends[n]);
      RulesKept(items, fields, Preserve, op.field);
      if op.field == m {
        ReadBack(states[n], states[n + 1], f, Fit(BitsOf(op.value), f.bitLength), ends[n]);
      } else {
        FieldsDisjoint(items, fields, Preserve, op.field, m);
        OtherFieldsKept(states[n], states[n + 1], f, Fit(BitsOf(op.value), f.bitLength), ends[n], f.bitLength,
                        fields[m]);
      }
    }
  }

  /** Stores to the fields of a list within reach do not wrap. */
  lemma StoredInReach(items: seq<Item>, fields: seq<Field>, m: nat, before: bits, after: bits, value: bits, end: nat)
    requires LaidOut(items, |items|, fields, Preserve) && Addressable(items) && m < |fields| && fields[m].Valid()
    requires Stored(before, after, fields[m], value, end, fields[m].bitLength) && end <= 8 * fields[m].End()
    ensures Written(before, after, fields[m], value, end, fields[m].bitLength)
  {
    var f := fields[m];
    FieldsDisjoint(items, fields, Preserve, m, m);
    EndsBelow(f);
    hide Stored, Written, LaidOut, BitsBefore;
    AlignedBelow(f.byteOffset, f.width);
    hide Field.End;
    StoredWritten(before, after, f, value, end, f.bitLength);
  }

  /** A field of a list within reach: where its accesses end, and what reading around 2^32 bytes gives. */
  lemma FieldInReach(items: seq<Item>, fields: seq<Field>, m: nat)
    requires LaidOut(items, |items|, fields, Preserve) && Addressable(items) && m < |fields|
    ensures fields[m].Valid() && fields[m].rule == Preserve
    ensures fields[m].bitLength > 0 ==>
              && fields[m].End() <= WORD32
              && fields[m].End() == fields[m].byteOffset + fields[m].width * fields[m].ReadUnits()
  {
    var i := ItemOfField(items, |items|, m);
    FieldsDisjoint(items, fields, Preserve, m, m);
    EndsBelow(fields[m]);
    hide LaidOut;
    if fields[m].bitLength > 0 {
      SomeUnits(fields[m]);
    }
  }

  lemma SomeUnits(f: Field)
    requires f.Valid() && f.bitLength > 0
    ensures f.Units() > 0
  {
  }

  /** The accesses of all fields of a list lie inside the region. */
  ghost predicate InBounds(fields: seq<Field>, size: nat) {
    forall m {:trigger fields[m]} :: 0 <= m < |fields| && fields[m].Valid() && fields[m].bitLength > 0 ==>
      fields[m].End() <= size
  }

  /** One store through the code is a step of a run. */
  method Perform(items: seq<Item>, fields: seq<Field>, region: array<byte>, op: Store)
    returns (status: Status, ghost end: nat)
    requires LaidOut(items, |items|, fields, Preserve) && Addressable(items) && op.field < |fields|
    modifies region
    ensures status == Ok ==> StoreStep(fields, op, old(region[..]), region[..], end)
    ensures InBounds(fields, region.Length) ==> status == Ok
  {
    hide BitsOf, Fit, Stored, LaidOut, BitsBefore, Field.Valid, Field.End;
    FieldInReach(items, fields, op.field);
    var src := new byte[|op.value|](i requires 0 <= i < |op.value| => op.value[i]);
    assert src[..] == op.value;
    ghost var done;
    status, end, done := Write(fields[op.field], region, src);
  }

  /**
   Stores to the fields of a list, made by the code one after the other, and then a read of one of them by the code: it
   gives the last value stored to that field, cut or padded to its length, or what the field held at the start. Nothing
   fails if the accesses of all fields lie inside the region.
   */
  method Play(items: seq<Item>, fields: seq<Field>, region: array<byte>, ops: seq<Store>, m: nat, dst: array<byte>)
    returns (status: Status)
    requires LaidOut(items, |items|, fields, Preserve) && Addressable(items) &&
             BitsBefore(items, |items|) <= 8 * region.Length
    requires region != dst && m < |fields| && fields[m].bitLength > 0
    requires forall t {:trigger ops[t]} :: 0 <= t < |ops| ==> ops[t].field < |fields|
    modifies region, dst
    ensures InBounds(fields, region.Length) ==> status == Ok
    ensures fields[m].Start() + fields[m].bitLength <= 8 * region.Length
    ensures status == Ok ==>
              var last := LastStore(ops, m);
              var value := if last == [] then Value(old(region[..]), fields[m])
                  else Fit(BitsOf(last[0]), fields[m].bitLength);
              BitsOf(dst[..]) == Fit(value, 8 * dst.Length)
  {
    hide BitsOf, Fit, Value, LaidOut, BitsBefore, StoreStep, Field.Valid, Field.End, Field.Start, Around;
    ghost var states, ends := [region[..]], [];
    FieldsDisjoint(items, fields, Preserve, m, m);
    FieldInReach(items, fields, m);
    var t := 0;
    while t < |ops|
      invariant 0 <= t <= |ops| && |states| == t + 1 && |ends| == t
      invariant states[0] == old(region[..]) && states[t] == region[..]
      invariant forall k {:trigger ops[k]} :: 0 <= k < t ==>
                StoreStep(fields, ops[k], states[k], states[k + 1], ends[k])
    {
      ghost var end;
      status, end := Perform(items, fields, region, ops[t]);
      if status != Ok {
        return;
      }
      states, ends := states + [region[..]], ends + [end];
      t := t + 1;
    }
    FieldsAreVariables(items, fields, ops, states, ends, m);
    ReadRight(region[..], fields[m]);
    status := Read(fields[m], region, dst);
  }

  /**
   A field of sixteen bits, the first eight of them the last ones below 2^32 bytes: on a region of just that length a
   store to it succeeds and its other half lands on the first byte of the region.
   */
  method WrapsAround(region: array<byte>, src: array<byte>) returns (status: Status)
    requires region.Length == WORD32 && src.Length == 2 && region != src
    modifies region
    ensures status == Ok && region[0] == src[1]
  {
    hide BitsOf, Stored, Fit, ByteBits;
    var f := FieldAt(0x7_FFFF_FFF8, 16, 1, Preserve);
    FieldAtStart(0x7_FFFF_FFF8, 16, 1, Preserve);
    assert f == Field(0xFFFF_FFFF, 0, 16, 1, Preserve) && f.End() == WORD32 + 1;
    ghost var end, done;
    status, end, done := Write(f, region, src);
    LandsOnFirst(BitsOf(old(region[..])), region[..], src[..], f, end);
  }

  lemma LandsOnFirst(before: bits, region: seq<byte>, src: seq<byte>, f: Field, end: nat)
    requires f == Field(0xFFFF_FFFF, 0, 16, 1, Preserve) && |src| == 2 && 0 < |region|
    requires Stored(before, BitsOf(region), f, Fit(BitsOf(src), 16), end, 16)
    ensures region[0] == src[1]
  {
    hide BitsOf, ByteBits;
    assert Fit(BitsOf(src), 16) == BitsOf(src);
    forall j | 0 <= j < 8
      ensures ByteBits(region[0])[j] == ByteBits(src[1])[j]
    {
      BitsOfIndex(region, 0, j);
      BitsOfIndex(src, 1, j);
      assert Turn(f, j) == j + REACH;
      assert BitsOf(region)[j] == BitsOf(src)[j + 8];
    }
    ByteBitsInjective(region[0], src[1]);
  }

  lemma RulesKept(items: seq<Item>, fields: seq<Field>, rule: UpdateRule, m: nat)
    requires LaidOut(items, |items|, fields, rule) && m < |fields|
    ensures fields[m].rule == rule
  {
    var i := ItemOfField(items, |items|, m);
  }
}
