/** What the bytes of a message mean to a receiver with a given descriptor (pb_decode.c), as a function of the bytes:
    records are read one after the other, those with a tag of the descriptor set a field, all others are passed
    over by their wire type. */
module ProtoParsing {
  import opened Keys
  import opened Coding
  import opened Protos
  import opened Wire

  // ---------------------------------------------------------------- numbers

  function LowBits(n: int, size: nat): int {
    if size == 1 then n % 0x100
    else if size == 2 then n % 0x1_0000
    else if size == 4 then n % 0x1_0000_0000
    else n % 0x1_0000_0000_0000_0000
  }

  // A cast to the signed type of the size
  function AsSigned(n: int, size: nat): int {
    var m := LowBits(n, size);
    if m < Bound(size) then m else m - 2 * Bound(size)
  }

  function UnZigZag(n: nat): int {
    var half: int := n / 2;
    if n % 2 == 1 then -half - 1 else half
  }

  // Small signed fields take the low 32 bits, so that the sign of a 32-bit number is right however it was encoded.
  function FromUnsigned(n: nat, dataSize: nat): int {
    AsSigned(n, if dataSize == 8 then 8 else 4)
  }

  /** A number is read if it fits the field. */
  ghost function ParseNumber(f: Field, data: Bytes, pos: nat, end: nat): (r: Option<(Value, nat)>)
    requires pos <= end <= |data| && f.ltype.Packable() && WellFormedField(f)
    ensures r.Some? ==> ValueOk(f, r.value.0) && ValueFits(f, r.value.0) && pos < r.value.1 <= end
  {
    if f.ltype.Bool? then
      match ReadVarint32(data, pos, end)
      case None => None
      case Some((n, next)) => Some((Num(if n == 0 then 0 else 1), next))
    else if f.ltype.Fixed32? then
      if pos + 4 <= end then Some((Num(DecodeFixed32(data[pos..pos + 4])), pos + 4)) else None
    else if f.ltype.Fixed64? then
      if pos + 8 <= end then Some((Num(ReadFixed64(data[pos..pos + 8])), pos + 8)) else None
    else
      match ReadVarint64(data, pos, end)
      case None => None
      case Some((n, next)) =>
        var v := if f.ltype.Varint? then FromUnsigned(n, f.dataSize) else if f.ltype.SVarint? then UnZigZag(n) else n;
        if ValueOk(f, Num(v)) then Some((Num(v), next)) else None
  }

  ghost function ReadFixed64(b: Bytes): (r: Uint64)
    requires |b| == 8
    ensures r == DecodeFixed64(b)
  {
    Fixed64Below(b);
    DecodeFixed64(b)
  }

  lemma Fixed64Below(b: Bytes)
    requires |b| == 8
    ensures DecodeFixed64(b) < 0x1_0000_0000_0000_0000
  {
  }

  // ---------------------------------------------------------------- bytes and strings

  // A string ends at its first zero byte.
  function Terminated(b: Bytes): (r: Bytes)
    ensures |r| <= |b| && forall i: nat :: i < |r| ==> r[i] != 0
    ensures (forall i: nat :: i < |b| ==> b[i] != 0) ==> r == b
  {
    if b == [] || b[0] == 0 then [] else [b[0]] + Terminated(b[1..])
  }

  // Bytes and strings that fit their storage; bytes of fixed length may be left out.
  ghost function ParseBytes(f: Field, b: Bytes): (r: Option<Bytes>)
    requires f.ltype.Bytes? || f.ltype.String? || f.ltype.FixedLengthBytes?
    ensures r.Some? ==> ValueOk(f, Data(r.value)) && ValueFits(f, Data(r.value))
  {
    if f.ltype.Bytes? then (if |b| + BYTES_HEADER <= f.dataSize then Some(b) else None)
    else if f.ltype.String? then (if |b| < f.dataSize then Some(Terminated(b)) else None)
    else if |b| == f.dataSize then Some(b)
    else if b == [] then Some(seq(f.dataSize, _ => 0))
    else None
  }

  ghost function ParseContent(f: Field, data: Bytes, pos: nat, end: nat): (r: Option<(Bytes, nat)>)
    requires pos <= end <= |data| && (f.ltype.Bytes? || f.ltype.String? || f.ltype.FixedLengthBytes?)
    ensures r.Some? ==> ValueOk(f, Data(r.value.0)) && ValueFits(f, Data(r.value.0)) && pos < r.value.1 <= end
  {
    match Region(data, pos, end)
    case None => None
    case Some((start, stop)) =>
      match ParseBytes(f, data[start..stop])
      case None => None
      case Some(b) => Some((b, stop))
  }

  // ---------------------------------------------------------------- values

  /** A submessage is merged into base, what the field holds before. */
  ghost function ParseValue(f: Field, base: Value, data: Bytes, pos: nat, end: nat): (r: Option<(Value, nat)>)
    requires pos <= end <= |data| && WellFormedField(f)
    requires f.ltype.Submessage? ==> ValueOk(f, base) && ValueFits(f, base)
    ensures r.Some? ==> ValueOk(f, r.value.0) && ValueFits(f, r.value.0) && pos < r.value.1 <= end
    decreases f, 1, 0
  {
    if f.ltype.Packable() then ParseNumber(f, data, pos, end)
    else if f.ltype.Submessage? then
      match ParseSubmessage(f.sub, base.slots, data, pos, end)
      case None => None
      case Some((m, next)) => Some((Struct(m), next))
    else
      match ParseContent(f, data, pos, end)
      case None => None
      case Some((b, next)) => Some((Data(b), next))
  }

  // A message with its length in front; what is left of it after a terminator is passed over.
  ghost function ParseSubmessage(d: Descriptor, base: seq<Slot>, data: Bytes, pos: nat, end: nat): (r: Option<(seq<Slot>, nat)>)
    requires pos <= end <= |data| && WellFormed(d) && SlotsOk(d, base) && SlotsFit(d, base)
    ensures r.Some? ==> SlotsOk(d, r.value.0) && SlotsFit(d, r.value.0) && pos < r.value.1 <= end
    decreases d, 2, 0
  {
    match Region(data, pos, end)
    case None => None
    case Some((start, stop)) =>
      match ParseMessage(d, base, data, start, stop)
      case None => None
      case Some(m) => Some((m, stop))
  }

  // The entries of a packed array, as many as there is room for, have to use up its bytes.
  ghost function ParsePacked(f: Field, vs: seq<Value>, data: Bytes, pos: nat, end: nat): (r: Option<seq<Value>>)
    requires pos <= end <= |data| && WellFormedField(f) && f.htype.Repeated? && f.ltype.Packable()
    requires SlotOk(f, Many(vs)) && SlotFits(f, Many(vs))
    ensures r.Some? ==> SlotOk(f, Many(r.value)) && SlotFits(f, Many(r.value))
    decreases end - pos
  {
    if pos == end then Some(vs)
    else if |vs| >= f.arraySize then None
    else
      match ParseNumber(f, data, pos, end)
      case None => None
      case Some((v, next)) => ParsePacked(f, vs + [v], data, next, end)
  }

  /** What one record does to the field of its tag.  An array takes its entries packed or one by one. */
  ghost function ParseField(f: Field, slot: Slot, wireType: nat, data: Bytes, pos: nat, end: nat): (r: Option<(Slot, nat)>)
    requires pos <= end <= |data| && WellFormedField(f) && SlotOk(f, slot) && SlotFits(f, slot)
    ensures r.Some? ==> SlotOk(f, r.value.0) && SlotFits(f, r.value.0) && pos < r.value.1 <= end
    decreases f, 2, 0
  {
    if f.htype.Repeated? && wireType == 2 && f.ltype.Packable() then
      match Region(data, pos, end)
      case None => None
      case Some((start, stop)) =>
        match ParsePacked(f, slot.vs, data, start, stop)
        case None => None
        case Some(vs) => Some((Many(vs), stop))
    else if f.htype.Repeated? && |slot.vs| >= f.arraySize then None
    else
      match ParseValue(f, Base(f, slot), data, pos, end)
      case None => None
      case Some((v, next)) => Some((Store(f, slot, v), next))
  }

  // What a submessage is merged into
  ghost function Base(f: Field, slot: Slot): (r: Value)
    requires WellFormedField(f) && SlotOk(f, slot) && SlotFits(f, slot)
    ensures ValueOk(f, r) && ValueFits(f, r)
  {
    DefaultValueOk(f);
    match f.htype
    case Required => slot.v
    case Singular => slot.v
    case Optional => if slot.o.Some? then slot.o.value else DefaultValue(f)
    case _ => DefaultValue(f)
  }

  ghost function Store(f: Field, slot: Slot, v: Value): (r: Slot)
    requires SlotOk(f, slot) && SlotFits(f, slot) && ValueOk(f, v) && ValueFits(f, v)
    requires f.htype.Repeated? ==> |slot.vs| < f.arraySize
    ensures SlotOk(f, r) && SlotFits(f, r)
  {
    match f.htype
    case Required => One(v)
    case Singular => One(v)
    case Repeated => Many(slot.vs + [v])
    case _ => Maybe(Some(v))
  }

  // ---------------------------------------------------------------- messages

  // The first field from the i-th on with a tag
  function Lookup(d: Descriptor, tag: nat, i: nat): (r: Option<nat>)
    requires i <= |d.fields|
    ensures r.Some? ==> i <= r.value < |d.fields| && d.fields[r.value].tag == tag
    ensures r.None? ==> forall j: nat {:trigger d.fields[j]} :: i <= j < |d.fields| ==> d.fields[j].tag != tag
    decreases |d.fields| - i
  {
    if i == |d.fields| then None else if d.fields[i].tag == tag then Some(i) else Lookup(d, tag, i + 1)
  }

  lemma LookupIs(d: Descriptor, i: nat)
    requires WellFormed(d) && i < |d.fields|
    ensures Lookup(d, d.fields[i].tag, 0) == Some(i)
  {
  }

  // Setting a member of a union clears the others: they share which_ and the storage.
  function WithSlot(d: Descriptor, m: seq<Slot>, i: nat, s: Slot): (r: seq<Slot>)
    requires i < |m| == |d.fields|
    ensures |r| == |m|
  {
    seq(|m|, j requires 0 <= j < |m| =>
      if j == i then s
      else if d.fields[i].htype.Oneof? && d.fields[j].htype == d.fields[i].htype then Maybe(None)
      else m[j])
  }

  lemma WithSlotOk(d: Descriptor, m: seq<Slot>, i: nat, s: Slot)
    requires i < |m| && SlotsOk(d, m) && SlotsFit(d, m) && SlotOk(d.fields[i], s) && SlotFits(d.fields[i], s)
    ensures SlotsOk(d, WithSlot(d, m, i, s)) && SlotsFit(d, WithSlot(d, m, i, s))
  {
    var r := WithSlot(d, m, i, s);
    forall j: nat | j < |r|
      ensures SlotOk(d.fields[j], r[j]) && SlotFits(d.fields[j], r[j])
    {
      assert SlotOk(d.fields[j], m[j]) && SlotFits(d.fields[j], m[j]);
    }
    assert SlotsOk(d, r);
    forall a: nat, b: nat | a < b < |r| && d.fields[a].htype.Oneof? && d.fields[a].htype == d.fields[b].htype
      ensures r[a] == Maybe(None) || r[b] == Maybe(None)
    {
      assert m[a] == Maybe(None) || m[b] == Maybe(None);
    }
  }

  // A message as far as it has been read, and the fields of which records have been read
  datatype Parsed = Parsed(slots: seq<Slot>, seen: set<nat>)

  ghost predicate ParsedOk(d: Descriptor, p: Parsed) {
    SlotsOk(d, p.slots) && SlotsFit(d, p.slots)
  }

  ghost function ParseFields(d: Descriptor, p: Parsed, data: Bytes, pos: nat, end: nat): (r: Option<Parsed>)
    requires pos <= end <= |data| && WellFormed(d) && ParsedOk(d, p)
    ensures r.Some? ==> ParsedOk(d, r.value)
    decreases d, 0, end - pos
  {
    if pos == end then Some(p)
    else
      match ReadTag(data, pos, end)
      case NoTag => None
      case Terminator => Some(p)
      case Tagged(wireType, tag, next) =>
        match Lookup(d, tag, 0)
        case None =>
          (match Skip(data, next, end, wireType)
           case None => None
           case Some(after) => ParseFields(d, p, data, after, end))
        case Some(i) =>
          (match ParseInto(d, p, i, wireType, data, next, end)
           case None => None
           case Some((q, after)) => ParseFields(d, q, data, after, end))
  }

  ghost function ParseInto(d: Descriptor, p: Parsed, i: nat, wireType: nat, data: Bytes, pos: nat, end: nat): (r: Option<(Parsed, nat)>)
    requires pos <= end <= |data| && WellFormed(d) && ParsedOk(d, p) && i < |d.fields|
    ensures r.Some? ==> ParsedOk(d, r.value.0) && pos < r.value.1 <= end
    decreases d, 0, end - pos
  {
    var f, slot := d.fields[i], p.slots[i];
    match ParseField(f, slot, wireType, data, pos, end)
    case None => None
    case Some((s, after)) =>
      WithSlotOk(d, p.slots, i, s);
      Some((Parsed(WithSlot(d, p.slots, i, s), p.seen + {i}), after))
  }

  /** The required fields, up to the 64th, have been seen. */
  ghost predicate Complete(d: Descriptor, seen: set<nat>) {
    forall i: nat {:trigger RequiredBefore(d, i)} :: i < |d.fields| && d.fields[i].htype.Required? && RequiredBefore(d, i) < 64 ==> i in seen
  }

  /** The bytes as a message on top of base, or None if they cannot be read or a required field is missing. */
  ghost function ParseMessage(d: Descriptor, base: seq<Slot>, data: Bytes, pos: nat, end: nat): (r: Option<seq<Slot>>)
    requires pos <= end <= |data| && WellFormed(d) && SlotsOk(d, base) && SlotsFit(d, base)
    ensures r.Some? ==> SlotsOk(d, r.value) && SlotsFit(d, r.value)
    decreases d, 1, 0
  {
    match ParseFields(d, Parsed(base, {}), data, pos, end)
    case None => None
    case Some(p) => if Complete(d, p.seen) then Some(p.slots) else None
  }

  /** What a whole buffer means to pb_decode. */
  ghost function Meaning(d: Descriptor, data: Bytes): (r: Option<seq<Slot>>)
    requires WellFormed(d)
    ensures r.Some? ==> SlotsOk(d, r.value) && SlotsFit(d, r.value)
  {
    DefaultsOk(d);
    ParseMessage(d, Defaults(d), data, 0, |data|)
  }
}
