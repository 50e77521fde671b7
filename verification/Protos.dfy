/** Messages of nanopb (pb.h) and their encoding: the Protocol Buffers wire format, sections "Base 128
    Varints", "Message Structure" and "Signed Integers" of its encoding specification.

    A descriptor lists the fields of a message type in order.  The value of a static field is modelled by
    what it means: a has_ flag or which_ member that says "unset" hides the storage, a count hides the
    rest of an array, and a string ends at its terminator. */
module Protos {
  import opened Keys
  import opened Coding

  // ---------------------------------------------------------------- descriptors

  datatype LType = Bool | Varint | UVarint | SVarint | Fixed32 | Fixed64 | Bytes | String | Submessage | FixedLengthBytes {
    // PB_LTYPE_LAST_PACKABLE
    predicate Packable() {
      Bool? || Varint? || UVarint? || SVarint? || Fixed32? || Fixed64?
    }
  }

  /** Singular is an optional field without a has_ flag (proto3); the members of a oneof share a union. */
  datatype HType = Required | Optional | Singular | Repeated | Oneof(union: nat)

  /** dataSize is that of one entry, in bytes. */
  datatype Field = Field(tag: nat, ltype: LType, htype: HType, dataSize: nat, arraySize: nat, sub: Descriptor)

  datatype Descriptor = Descriptor(fields: seq<Field>)

  // pb_size_t has 32 bits; PB_BYTES_ARRAY_T begins with one.
  const SIZE_MAX: nat := 0xffff_ffff
  const BYTES_HEADER: nat := 4

  predicate WellFormed(d: Descriptor) {
    && (forall i: nat {:trigger d.fields[i]} :: i < |d.fields| ==> WellFormedField(d.fields[i]))
    && (forall i: nat, j: nat {:trigger d.fields[i], d.fields[j]} :: i < j < |d.fields| ==> d.fields[i].tag != d.fields[j].tag)
  }

  predicate WellFormedField(f: Field) {
    && 1 <= f.tag < 0x2000_0000 && f.dataSize <= SIZE_MAX
    && (f.ltype.Varint? || f.ltype.UVarint? || f.ltype.SVarint? ==> f.dataSize in {1, 2, 4, 8})
    && (f.ltype.Bytes? ==> f.dataSize >= BYTES_HEADER) && (f.ltype.String? ==> f.dataSize > 0)
    && (f.ltype.Submessage? ==> WellFormed(f.sub))
  }

  function RequiredBefore(d: Descriptor, i: nat): nat
    requires i <= |d.fields|
  {
    if i == 0 then 0 else RequiredBefore(d, i - 1) + if d.fields[i - 1].htype.Required? then 1 else 0
  }

  /** pb_field_iter_t: walks the fields in a circle and counts the required ones it has passed. */
  class FieldIter {
    const d: Descriptor
    var pos: nat
    var requiredFieldIndex: nat

    ghost predicate Valid()
      reads this
    {
      if d.fields == [] then pos == 0 && requiredFieldIndex == 0 else pos < |d.fields| && requiredFieldIndex == RequiredBefore(d, pos)
    }

    constructor (d: Descriptor)
      ensures Valid() && this.d == d && pos == 0
    {
      this.d, pos, requiredFieldIndex := d, 0, 0;
    }

    method Begin() returns (nonEmpty: bool)
      modifies this
      ensures Valid() && pos == 0 && nonEmpty == (d.fields != [])
    {
      pos, requiredFieldIndex := 0, 0;
      nonEmpty := |d.fields| > 0;
    }

    /** Wraps around to the first field, and then says false. */
    method Next() returns (more: bool)
      requires Valid()
      modifies this
      ensures Valid() && more == (old(pos) + 1 < |d.fields|)
      ensures pos == if more then old(pos) + 1 else 0
    {
      if |d.fields| == 0 {
        return false;
      }
      var prev := d.fields[pos];
      pos := pos + 1;
      if pos == |d.fields| {
        var _ := Begin();
        return false;
      }
      if prev.htype.Required? {
        requiredFieldIndex := requiredFieldIndex + 1;
      }
      return true;
    }

    // Fields from a to b in the circle, b not included
    ghost predicate Passed(a: nat, b: nat, i: nat) {
      if a <= b then a <= i < b else a <= i < |d.fields| || i < b
    }

    /** Looks once around the circle, from where it is. */
    method Find(tag: nat) returns (found: bool)
      requires Valid()
      modifies this
      ensures Valid()
      ensures found ==> pos < |d.fields| && d.fields[pos].tag == tag
      ensures !found ==> forall i: nat {:trigger d.fields[i]} :: i < |d.fields| ==> d.fields[i].tag != tag
    {
      if |d.fields| == 0 {
        return false;
      }
      var start := pos;
      ghost var steps := 0;
      while true
        invariant Valid() && |d.fields| > 0 && start < |d.fields| && steps < |d.fields|
        invariant pos == if start + steps < |d.fields| then start + steps else start + steps - |d.fields|
        invariant forall i: nat {:trigger d.fields[i]} :: i < |d.fields| && Passed(start, pos, i) ==> d.fields[i].tag != tag
        decreases |d.fields| - steps
      {
        if d.fields[pos].tag == tag {
          return true;
        }
        var _ := Next();
        if pos == start {
          return false;
        }
        steps := steps + 1;
      }
    }
  }

  // ---------------------------------------------------------------- values

  datatype Value = Num(n: int) | Data(b: Bytes) | Struct(slots: seq<Slot>)

  datatype Slot = One(v: Value) | Maybe(o: Option<Value>) | Many(vs: seq<Value>)

  function Bound(dataSize: nat): (r: int)
    ensures r > 0
  {
    if dataSize == 1 then 0x80 else if dataSize == 2 then 0x8000 else if dataSize == 4 then 0x8000_0000 else 0x8000_0000_0000_0000
  }

  predicate SignedFits(n: int, dataSize: nat) {
    -Bound(dataSize) <= n < Bound(dataSize)
  }

  predicate UnsignedFits(n: int, dataSize: nat) {
    0 <= n < 2 * Bound(dataSize)
  }

  /** The value has the type of the field. */
  predicate ValueOk(f: Field, v: Value)
    decreases f, 1
  {
    match f.ltype
    case Bool => v.Num? && 0 <= v.n <= 1
    case Varint => v.Num? && SignedFits(v.n, f.dataSize)
    case UVarint => v.Num? && UnsignedFits(v.n, f.dataSize)
    case SVarint => v.Num? && SignedFits(v.n, f.dataSize)
    case Fixed32 => v.Num? && UnsignedFits(v.n, 4)
    case Fixed64 => v.Num? && UnsignedFits(v.n, 8)
    case Bytes => v.Data?
    case String => v.Data? && |v.b| <= f.dataSize && forall i: nat :: i < |v.b| ==> v.b[i] != 0
    case Submessage => v.Struct? && SlotsOk(f.sub, v.slots)
    case FixedLengthBytes => v.Data? && |v.b| == f.dataSize
  }

  predicate SlotOk(f: Field, s: Slot)
    decreases f, 2
  {
    match f.htype
    case Required => s.One? && ValueOk(f, s.v)
    case Singular => s.One? && ValueOk(f, s.v)
    case Repeated => s.Many? && forall i: nat {:trigger s.vs[i]} :: i < |s.vs| ==> ValueOk(f, s.vs[i])
    case _ => s.Maybe? && (s.o.Some? ==> ValueOk(f, s.o.value))
  }

  predicate SlotsOk(d: Descriptor, m: seq<Slot>)
    decreases d, 0
  {
    && |m| == |d.fields|
    && forall i: nat {:trigger m[i]} :: i < |m| ==> SlotOk(d.fields[i], m[i])
  }

  /** Counts, bytes and strings fit the storage of the field, and at most one member of a union is set. */
  predicate ValueFits(f: Field, v: Value)
    requires ValueOk(f, v)
    decreases f, 1
  {
    match f.ltype
    case Bytes => |v.b| + BYTES_HEADER <= f.dataSize
    case String => |v.b| < f.dataSize
    case Submessage => SlotsFit(f.sub, v.slots)
    case _ => true
  }

  predicate SlotFits(f: Field, s: Slot)
    requires SlotOk(f, s)
    decreases f, 2
  {
    match f.htype
    case Required => ValueFits(f, s.v)
    case Singular => ValueFits(f, s.v)
    case Repeated => |s.vs| <= f.arraySize && forall i: nat {:trigger s.vs[i]} :: i < |s.vs| ==> ValueFits(f, s.vs[i])
    case _ => s.o.Some? ==> ValueFits(f, s.o.value)
  }

  predicate SlotsFit(d: Descriptor, m: seq<Slot>)
    requires SlotsOk(d, m)
    decreases d, 0
  {
    UnionsOk(d, m) && forall i: nat {:trigger m[i]} :: i < |m| ==> SlotFits(d.fields[i], m[i])
  }

  predicate UnionsOk(d: Descriptor, m: seq<Slot>)
    requires |m| == |d.fields|
  {
    forall i: nat, j: nat {:trigger m[i], m[j]} :: i < j < |m| && d.fields[i].htype.Oneof? && d.fields[i].htype == d.fields[j].htype ==>
        m[i] == Maybe(None) || m[j] == Maybe(None)
  }

  // ---------------------------------------------------------------- defaults

  function DefaultValue(f: Field): Value
    decreases f, 0
  {
    match f.ltype
    case Bytes => Data([])
    case String => Data([])
    case FixedLengthBytes => Data(seq(f.dataSize, _ => 0))
    case Submessage => Struct(Defaults(f.sub))
    case _ => Num(0)
  }

  function DefaultSlot(f: Field): Slot
    decreases f, 1
  {
    match f.htype
    case Required => One(DefaultValue(f))
    case Singular => One(DefaultValue(f))
    case Repeated => Many([])
    case _ => Maybe(None)
  }

  // pb_message_set_to_defaults, where no field has a default of its own
  function Defaults(d: Descriptor): (m: seq<Slot>)
    ensures |m| == |d.fields|
    decreases d
  {
    seq(|d.fields|, i requires 0 <= i < |d.fields| => DefaultSlot(d.fields[i]))
  }

  // pb_check_proto3_default_value
  predicate IsDefaultValue(f: Field, v: Value)
    requires ValueOk(f, v)
    decreases f, 1
  {
    match f.ltype
    case Bytes => v.b == []
    case String => v.b == []
    case FixedLengthBytes => f.dataSize == 0
    case Submessage => AllDefault(f.sub, v.slots)
    case _ => v.n == 0
  }

  predicate AllDefault(d: Descriptor, m: seq<Slot>)
    requires SlotsOk(d, m)
    decreases d, 0
  {
    forall i: nat {:trigger m[i]} :: i < |m| ==> IsDefaultSlot(d.fields[i], m[i])
  }

  predicate IsDefaultSlot(f: Field, s: Slot)
    requires SlotOk(f, s)
    decreases f, 2
  {
    match f.htype
    case Required => false
    case Singular => IsDefaultValue(f, s.v)
    case Repeated => s.vs == []
    case _ => s.o.None?
  }

  /** A field of this type can be left out: nothing in it is required or of fixed length. */
  predicate Omittable(f: Field)
    decreases f
  {
    match f.ltype
    case FixedLengthBytes => f.dataSize == 0
    case Submessage => AllOmittable(f.sub)
    case _ => true
  }

  predicate AllOmittable(d: Descriptor)
    decreases d
  {
    forall i: nat {:trigger d.fields[i]} :: i < |d.fields| ==>
      !d.fields[i].htype.Required? && (d.fields[i].htype.Singular? ==> Omittable(d.fields[i]))
  }

  /** The check calls a field default exactly if it has its default value and can be left out, so that leaving it out
      loses nothing. */
  lemma {:induction false} DefaultCheckExact(f: Field, v: Value)
    requires ValueOk(f, v)
    ensures IsDefaultValue(f, v) <==> v == DefaultValue(f) && Omittable(f)
    decreases f
  {
    if f.ltype.Submessage? {
      AllDefaultExact(f.sub, v.slots);
    }
  }

  lemma {:induction false} AllDefaultExact(d: Descriptor, m: seq<Slot>)
    requires SlotsOk(d, m)
    ensures AllDefault(d, m) <==> m == Defaults(d) && AllOmittable(d)
    decreases d
  {
    forall i: nat | i < |m|
      ensures IsDefaultSlot(d.fields[i], m[i]) <==>
                m[i] == Defaults(d)[i] && !d.fields[i].htype.Required? && (d.fields[i].htype.Singular? ==> Omittable(d.fields[i]))
    {
      var g := d.fields[i];
      assert SlotOk(g, m[i]);
      if g.htype.Singular? {
        DefaultCheckExact(g, m[i].v);
      }
    }
    if AllDefault(d, m) {
      assert forall i: nat {:trigger m[i]} :: i < |m| ==> IsDefaultSlot(d.fields[i], m[i]);
      assert m == Defaults(d);
    }
  }

  lemma {:induction false} DefaultValueOk(f: Field)
    requires WellFormedField(f)
    ensures ValueOk(f, DefaultValue(f)) && ValueFits(f, DefaultValue(f))
    decreases f
  {
    if f.ltype.Submessage? {
      DefaultsOk(f.sub);
    }
  }

  /** Default messages fit. */
  lemma {:induction false} DefaultsOk(d: Descriptor)
    requires WellFormed(d)
    ensures SlotsOk(d, Defaults(d)) && SlotsFit(d, Defaults(d))
    decreases d
  {
    var m := Defaults(d);
    forall i: nat | i < |m|
      ensures SlotOk(d.fields[i], m[i]) && SlotFits(d.fields[i], m[i])
    {
      assert WellFormedField(d.fields[i]);
      DefaultValueOk(d.fields[i]);
    }
  }

  // ---------------------------------------------------------------- what the encoder checks

  predicate Checked(f: Field, v: Value)
    requires ValueOk(f, v)
    decreases f, 1
  {
    match f.ltype
    case Bytes => |v.b| + BYTES_HEADER <= f.dataSize
    case Submessage => CheckedFrom(f.sub, v.slots, 0)
    case _ => true
  }

  predicate CheckedAll(f: Field, vs: seq<Value>, i: nat)
    requires i <= |vs| && forall j: nat {:trigger vs[j]} :: j < |vs| ==> ValueOk(f, vs[j])
    decreases f, 2, |vs| - i
  {
    i == |vs| || (Checked(f, vs[i]) && CheckedAll(f, vs, i + 1))
  }

  predicate CheckedSlot(f: Field, s: Slot)
    requires SlotOk(f, s)
    decreases f, 3
  {
    match f.htype
    case Required => Checked(f, s.v)
    case Singular => IsDefaultValue(f, s.v) || Checked(f, s.v)
    case Repeated => |s.vs| <= f.arraySize && CheckedAll(f, s.vs, 0)
    case _ => s.o.Some? ==> Checked(f, s.o.value)
  }

  predicate CheckedFrom(d: Descriptor, m: seq<Slot>, i: nat)
    requires SlotsOk(d, m) && i <= |m|
    decreases d, 0, |m| - i
  {
    i == |m| || (CheckedSlot(d.fields[i], m[i]) && CheckedFrom(d, m, i + 1))
  }

  // ---------------------------------------------------------------- encoding

  function WireType(t: LType): nat {
    match t
    case Fixed32 => 5
    case Fixed64 => 1
    case Bytes => 2
    case String => 2
    case Submessage => 2
    case FixedLengthBytes => 2
    case _ => 0
  }

  function Tag(f: Field, wireType: nat): Bytes {
    Coding.Varint(f.tag * 8 + wireType)
  }

  // The value as an unsigned 64-bit number
  function ToUnsigned(n: int): nat
    requires -0x8000_0000_0000_0000 <= n < 0x8000_0000_0000_0000
  {
    if n < 0 then n + 0x1_0000_0000_0000_0000 else n
  }

  function ZigZag(n: int): nat {
    if n < 0 then -2 * n - 1 else 2 * n
  }

  function EncodeValue(f: Field, v: Value): Bytes
    requires ValueOk(f, v)
    decreases f, 1, 0
  {
    match f.ltype
    case Bool => Coding.Varint(v.n)
    case Varint => Coding.Varint(ToUnsigned(v.n))
    case UVarint => Coding.Varint(v.n)
    case SVarint => Coding.Varint(ZigZag(v.n))
    case Fixed32 => EncodeFixed32(v.n)
    case Fixed64 => EncodeFixed64(v.n)
    case Submessage => Delimited(EncodeMessage(f.sub, v.slots, 0))
    case _ => Delimited(v.b)
  }

  // The entries of an array from the i-th on, without and with tags
  function EncodePacked(f: Field, vs: seq<Value>, i: nat): Bytes
    requires i <= |vs| && forall j: nat {:trigger vs[j]} :: j < |vs| ==> ValueOk(f, vs[j])
    decreases f, 2, |vs| - i
  {
    if i == |vs| then [] else EncodeValue(f, vs[i]) + EncodePacked(f, vs, i + 1)
  }

  function EncodeTagged(f: Field, vs: seq<Value>, i: nat): Bytes
    requires i <= |vs| && forall j: nat {:trigger vs[j]} :: j < |vs| ==> ValueOk(f, vs[j])
    decreases f, 2, |vs| - i
  {
    if i == |vs| then [] else Tag(f, WireType(f.ltype)) + EncodeValue(f, vs[i]) + EncodeTagged(f, vs, i + 1)
  }

  function EncodeSlot(f: Field, s: Slot): Bytes
    requires SlotOk(f, s)
    decreases f, 3, 0
  {
    match f.htype
    case Required => Tag(f, WireType(f.ltype)) + EncodeValue(f, s.v)
    case Singular => if IsDefaultValue(f, s.v) then [] else Tag(f, WireType(f.ltype)) + EncodeValue(f, s.v)
    case Repeated =>
      if s.vs == [] then []
      else if f.ltype.Packable() then Tag(f, 2) + Delimited(EncodePacked(f, s.vs, 0))
      else EncodeTagged(f, s.vs, 0)
    case _ => if s.o.None? then [] else Tag(f, WireType(f.ltype)) + EncodeValue(f, s.o.value)
  }

  /** The fields from the i-th on, in order */
  function EncodeMessage(d: Descriptor, m: seq<Slot>, i: nat): Bytes
    requires SlotsOk(d, m) && i <= |m|
    decreases d, 0, |m| - i
  {
    if i == |m| then [] else EncodeSlot(d.fields[i], m[i]) + EncodeMessage(d, m, i + 1)
  }
}
