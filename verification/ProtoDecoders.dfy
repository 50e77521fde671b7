/** The decoder of nanopb (pb_decode.c): loops over bytes with shifts and substreams, a field iterator and a bitmap
    of the required fields.  It computes what ProtoParsing says the bytes mean, and fails on all other bytes. */
module ProtoDecoders {
  import opened Keys
  import opened Coding
  import opened Protos
  import opened Wire
  import opened ProtoParsing

  // ---------------------------------------------------------------- pb_istream_t

  class IStream {
    const data: Bytes
    var pos: nat
    var left: nat

    ghost predicate Valid()
      reads this
    {
      pos + left <= |data|
    }

    ghost function End(): nat
      reads this
    {
      pos + left
    }

    // Success or failure, value and position are those of p; after a failure the stream is not used again.
    ghost predicate Gives<T>(p: Option<(T, nat)>, ok: bool, r: T, end: nat)
      reads this
    {
      Valid() && End() <= end && (ok <==> p.Some?) && (ok ==> p.value == (r, pos) && End() == end)
    }

    constructor (data: Bytes, pos: nat, left: nat)
      requires pos + left <= |data|
      ensures Valid() && this.data == data && this.pos == pos && this.left == left
    {
      this.data, this.pos, this.left := data, pos, left;
    }

    // pb_read; it can also skip
    method Read(count: nat) returns (ok: bool, b: Bytes)
      requires Valid()
      modifies this
      ensures Valid() && End() == old(End()) && (ok <==> count <= old(left))
      ensures ok ==> pos == old(pos) + count && b == data[old(pos)..pos]
      ensures !ok ==> pos == old(pos)
    {
      if left < count {
        return false, [];
      }
      b := data[pos..pos + count];
      pos, left := pos + count, left - count;
      ok := true;
    }

    method ReadByte() returns (ok: bool, b: Byte)
      requires Valid()
      modifies this
      ensures Valid() && End() == old(End()) && (ok <==> old(left) > 0)
      ensures if ok then pos == old(pos) + 1 && b == data[old(pos)] else pos == old(pos)
    {
      if left == 0 {
        return false, 0;
      }
      b := data[pos];
      pos, left := pos + 1, left - 1;
      ok := true;
    }

    /** pb_decode_varint32_eof */
    method DecodeVarint32() returns (ok: bool, r: Uint32, eof: bool)
      requires Valid()
      modifies this
      ensures Gives(old(ReadVarint32(data, pos, End())), ok, r, old(End()))
      ensures eof <==> old(left) == 0
    {
      r, eof := 0, false;
      var b: Byte;
      ok, b := ReadByte();
      if !ok {
        eof := left == 0;
        return;
      }
      if b < 128 {
        r := b;
        OneByte(data, pos - 1, End());
        return;
      }
      ok, r := DecodeMore(b);
    }

    // The bytes after the first
    method DecodeMore(first: Byte) returns (ok: bool, r: Uint32)
      requires Valid() && pos > 0 && first == data[pos - 1] && first >= 128
      modifies this
      ensures Gives(old(ReadVarint32(data, pos - 1, End())), ok, r, old(End()))
    {
      ghost var start, end := pos - 1, End();
      r := first % 128;
      var bitpos: nat, pow: nat, more: bool, b: Byte := 7, 128, true, first;
      FirstLow32(data, start);
      while more
        invariant Valid() && End() == end && start < pos && bitpos == 7 * (pos - start) && pow == Power(pos - start)
        invariant b == data[pos - 1] && more == (b >= 128)
        invariant VarintEnd(data, start, end) == if more then VarintEnd(data, pos, end) else Some(pos)
        invariant r == Low32(data, start, pos) && PaddedTo(data, start, pos, r)
        decreases left, more
      {
        NextLow32(data, start, pos);
        ok, b := ReadByte();
        if !ok {
          return;
        }
        if bitpos >= 32 {
          var signExtension := if bitpos < 63 then 0xff else 0x01;
          if b % 128 != 0 && (r < 0x8000_0000 || b != signExtension) {
            BadPadding(data, start, pos - 1, end, r);
            return false, 0;
          }
        } else {
          r := WithBits(r, b, pow);
        }
        bitpos, pow, more := bitpos + 7, pow * 128, b >= 128;
      }
      // The last byte was at bitpos 28, so only the bottom 4 bits fit.
      if bitpos == 35 && b / 16 % 8 != 0 {
        return false, 0;
      }
      ok := true;
    }

    /** pb_decode_varint */
    method DecodeVarint() returns (ok: bool, r: Uint64)
      requires Valid()
      modifies this
      ensures Gives(old(ReadVarint64(data, pos, End())), ok, r, old(End()))
    {
      ghost var start, end := pos, End();
      r := 0;
      var bitpos: nat, pow: nat, more: bool := 0, 1, true;
      while more
        invariant Valid() && End() == end && start <= pos && pos - start <= 10 && bitpos == 7 * (pos - start) && pow == Power(pos - start)
        invariant VarintEnd(data, start, end) == if more then VarintEnd(data, pos, end) else Some(pos)
        invariant r == Digits(data, start, pos) % 0x1_0000_0000_0000_0000
        decreases left, more
      {
        if bitpos >= 64 {
          return false, 0;
        }
        var b: Byte;
        ok, b := ReadByte();
        if !ok {
          return;
        }
        NextDigits(data, start, pos - 1);
        r := WithBits64(r, b, pow);
        bitpos, pow, more := bitpos + 7, pow * 128, b >= 128;
      }
      ok := true;
    }

    /** pb_dec_varint: small fields are cast to 32 bits first. */
    method DecodeSigned(f: Field) returns (ok: bool, r: int)
      requires Valid() && f.ltype.Varint? && WellFormedField(f)
      modifies this
      ensures Gives(old(ParseNumber(f, data, pos, End())), ok, Num(r), old(End()))
    {
      var value;
      r := 0;
      ok, value := DecodeVarint();
      if !ok {
        return;
      }
      var svalue := if f.dataSize == 8 then AsSigned(value, 8) else AsSigned(value, 4);
      var clamped := AsSigned(svalue, f.dataSize);
      ClampedFits(svalue, f.dataSize);
      return clamped == svalue, clamped;
    }

    // pb_dec_uvarint
    method DecodeUnsigned(f: Field) returns (ok: bool, r: int)
      requires Valid() && f.ltype.UVarint? && WellFormedField(f)
      modifies this
      ensures Gives(old(ParseNumber(f, data, pos, End())), ok, Num(r), old(End()))
    {
      var value;
      r := 0;
      ok, value := DecodeVarint();
      if !ok {
        return;
      }
      var clamped := LowBits(value, f.dataSize);
      return clamped == value, clamped;
    }

    // pb_decode_svarint and pb_dec_svarint
    method DecodeZigZag(f: Field) returns (ok: bool, r: int)
      requires Valid() && f.ltype.SVarint? && WellFormedField(f)
      modifies this
      ensures Gives(old(ParseNumber(f, data, pos, End())), ok, Num(r), old(End()))
    {
      var value;
      r := 0;
      ok, value := DecodeVarint();
      if !ok {
        return;
      }
      var half: int := value / 2;
      var svalue := if value % 2 == 1 then -half - 1 else half;
      var clamped := AsSigned(svalue, f.dataSize);
      ClampedFits(svalue, f.dataSize);
      return clamped == svalue, clamped;
    }

    // pb_dec_bool
    method DecodeBool(f: Field) returns (ok: bool, r: int)
      requires Valid() && f.ltype.Bool? && WellFormedField(f)
      modifies this
      ensures Gives(old(ParseNumber(f, data, pos, End())), ok, Num(r), old(End()))
    {
      var temp, eof;
      ok, temp, eof := DecodeVarint32();
      r := if temp != 0 then 1 else 0;
    }

    // pb_decode_fixed32 and pb_decode_fixed64
    method DecodeFixed(f: Field) returns (ok: bool, r: int)
      requires Valid() && (f.ltype.Fixed32? || f.ltype.Fixed64?) && WellFormedField(f)
      modifies this
      ensures Gives(old(ParseNumber(f, data, pos, End())), ok, Num(r), old(End()))
    {
      var bytes;
      r := 0;
      ok, bytes := Read(if f.ltype.Fixed32? then 4 else 8);
      if ok {
        r := if f.ltype.Fixed32? then DecodeFixed32(bytes) else DecodeFixed64(bytes);
      }
    }

    // Numbers
    method DecodeNumber(f: Field) returns (ok: bool, r: Value)
      requires Valid() && WellFormedField(f) && f.ltype.Packable()
      modifies this
      ensures Gives(old(ParseNumber(f, data, pos, End())), ok, r, old(End()))
    {
      var value: int := 0;
      if f.ltype.Bool? {
        ok, value := DecodeBool(f);
      } else if f.ltype.Varint? {
        ok, value := DecodeSigned(f);
      } else if f.ltype.UVarint? {
        ok, value := DecodeUnsigned(f);
      } else if f.ltype.SVarint? {
        ok, value := DecodeZigZag(f);
      } else {
        ok, value := DecodeFixed(f);
      }
      r := Num(value);
    }

    // pb_dec_bytes
    method DecodeBytes(f: Field) returns (ok: bool, r: Bytes)
      requires Valid() && f.ltype.Bytes?
      modifies this
      ensures Gives(old(ParseContent(f, data, pos, End())), ok, r, old(End()))
    {
      var size, eof;
      r := [];
      ok, size, eof := DecodeVarint32();
      if !ok {
        return;
      }
      var allocSize: nat := size + BYTES_HEADER;
      if allocSize > f.dataSize {
        return false, [];
      }
      ok, r := Read(size);
    }

    // pb_dec_string: the string ends at its first zero byte.
    method DecodeString(f: Field) returns (ok: bool, r: Bytes)
      requires Valid() && f.ltype.String?
      modifies this
      ensures Gives(old(ParseContent(f, data, pos, End())), ok, r, old(End()))
    {
      var size, eof;
      r := [];
      ok, size, eof := DecodeVarint32();
      if !ok {
        return;
      }
      var length: nat := size;
      if length + 1 > f.dataSize {
        return false, [];
      }
      ok, r := Read(size);
      r := Terminated(r);
    }

    // pb_dec_fixed_length_bytes
    method DecodeFixedLength(f: Field) returns (ok: bool, r: Bytes)
      requires Valid() && f.ltype.FixedLengthBytes?
      modifies this
      ensures Gives(old(ParseContent(f, data, pos, End())), ok, r, old(End()))
    {
      var size, eof;
      r := [];
      ok, size, eof := DecodeVarint32();
      if !ok {
        return;
      }
      if size == 0 {
        assert data[pos..pos] == [];
        r := seq(f.dataSize, _ => 0);
        assert f.dataSize == 0 ==> r == [];
        return;
      }
      if size != f.dataSize {
        return false, [];
      }
      ok, r := Read(size);
    }

    /** The decoder of the type; base is what a submessage holds before. */
    method DecodeValue(f: Field, base: Value) returns (ok: bool, r: Value)
      requires Valid() && WellFormedField(f)
      requires f.ltype.Submessage? ==> ValueOk(f, base) && ValueFits(f, base)
      modifies this
      ensures Gives(old(ParseValue(f, base, data, pos, End())), ok, r, old(End()))
      decreases f, 0
    {
      var bytes;
      match f.ltype
      case Bytes =>
        ok, bytes := DecodeBytes(f);
        r := Data(bytes);
      case String =>
        ok, bytes := DecodeString(f);
        r := Data(bytes);
      case Submessage =>
        var slots;
        ok, slots := DecodeSubmessage(f.sub, base.slots);
        r := Struct(slots);
      case FixedLengthBytes =>
        ok, bytes := DecodeFixedLength(f);
        r := Data(bytes);
      case _ =>
        ok, r := DecodeNumber(f);
    }

    /** pb_dec_submessage: the message is decoded from a substream of its length, and the rest of the substream is skipped. */
    method DecodeSubmessage(d: Descriptor, base: seq<Slot>) returns (ok: bool, r: seq<Slot>)
      requires Valid() && WellFormed(d) && SlotsOk(d, base) && SlotsFit(d, base)
      modifies this
      ensures Gives(old(ParseSubmessage(d, base, data, pos, End())), ok, r, old(End()))
      decreases d, 3
    {
      var size, eof;
      ok, size, eof := DecodeVarint32();
      r := base;
      if !ok {
        return;
      }
      if left < size {
        return false, base;
      }
      var substream := new IStream(data, pos, size);
      left := left - size;
      ok, r := substream.Decode(d, base);
      var _, skipped := substream.Read(substream.left);
      pos := substream.pos;
    }

    // pb_decode_tag
    method DecodeTag() returns (ok: bool, wireType: nat, tag: nat, eof: bool)
      requires Valid() && left > 0
      modifies this
      ensures Valid() && End() <= old(End()) && (ok || eof ==> End() == old(End()))
      ensures old(ReadTag(data, pos, End())) == if ok then Tagged(wireType, tag, pos) else if eof then Terminator else NoTag
    {
      var temp: nat;
      ok, temp, eof := DecodeVarint32();
      wireType, tag := 0, 0;
      if !ok {
        return;
      }
      if temp == 0 {
        return false, 0, 0, true;
      }
      wireType, tag, eof := temp % 8, temp / 8, false;
    }

    // pb_skip_varint
    method SkipVarint() returns (ok: bool)
      requires Valid()
      modifies this
      ensures var p := old(VarintEnd(data, pos, End()));
              Valid() && End() <= old(End()) && (ok <==> p.Some?) && (ok ==> pos == p.value && End() == old(End()))
    {
      ghost var start, end := pos, End();
      var more := true;
      ok := true;
      while more
        invariant Valid() && ok && End() == end && start <= pos
        invariant VarintEnd(data, start, end) == if more then VarintEnd(data, pos, end) else Some(pos)
        decreases left, more
      {
        var b;
        ok, b := ReadByte();
        if !ok {
          return;
        }
        more := b >= 128;
      }
    }

    // pb_skip_string
    method SkipString() returns (ok: bool)
      requires Valid()
      modifies this
      ensures var p := old(Region(data, pos, End()));
              Valid() && End() <= old(End()) && (ok <==> p.Some?) && (ok ==> pos == p.value.1 && End() == old(End()))
    {
      var length, eof, bytes;
      ok, length, eof := DecodeVarint32();
      if ok {
        ok, bytes := Read(length);
      }
    }

    /** pb_skip_field: a field is skipped if all of it is there. */
    method SkipField(wireType: nat) returns (ok: bool)
      requires Valid()
      modifies this
      ensures var p := old(Skip(data, pos, End(), wireType));
              Valid() && End() <= old(End()) && (ok <==> p.Some?) && (ok ==> pos == p.value && End() == old(End()))
    {
      var bytes;
      if wireType == 0 {
        ok := SkipVarint();
      } else if wireType == 1 {
        ok, bytes := Read(8);
      } else if wireType == 2 {
        ok := SkipString();
      } else if wireType == 5 {
        ok, bytes := Read(4);
      } else {
        ok := false;
      }
    }

    // As long as there is room for them, entries are read up to the end of the stream.
    method DecodePackedEntries(f: Field, before: seq<Value>) returns (status: bool, r: seq<Value>)
      requires Valid() && WellFormedField(f) && f.htype.Repeated? && f.ltype.Packable()
      requires SlotOk(f, Many(before)) && SlotFits(f, Many(before))
      modifies this
      ensures Valid() && End() <= old(End()) && (status ==> End() == old(End()))
      ensures old(ParsePacked(f, before, data, pos, End())) == if status && left == 0 then Some(r) else None
      decreases f, 1
    {
      ghost var start, end := pos, End();
      status, r := true, before;
      while status && left > 0 && |r| < f.arraySize
        invariant Valid() && End() <= end && (status ==> End() == end) && SlotOk(f, Many(r)) && SlotFits(f, Many(r))
        invariant ParsePacked(f, before, data, start, end) == if status then ParsePacked(f, r, data, pos, end) else None
        decreases status, f.arraySize - |r|
      {
        var value;
        status, value := DecodeValue(f, Num(0));
        if status {
          r := r + [value];
        }
      }
    }

    /** A packed array is read from a substream, which has to be used up. */
    method DecodePackedArray(f: Field, before: seq<Value>, slot: Slot) returns (ok: bool, r: Slot)
      requires Valid() && WellFormedField(f) && f.htype.Repeated? && f.ltype.Packable()
      requires slot == Many(before) && SlotOk(f, slot) && SlotFits(f, slot)
      modifies this
      ensures Gives(old(ParseField(f, slot, 2, data, pos, End())), ok, r, old(End()))
      decreases f, 2
    {
      var size, eof;
      r := slot;
      ok, size, eof := DecodeVarint32();
      if !ok {
        return;
      }
      if left < size {
        return false, slot;
      }
      var substream := new IStream(data, pos, size);
      left := left - size;
      var values;
      ok, values := substream.DecodePackedEntries(f, before);
      if substream.left != 0 {
        return false, slot;
      }
      pos := substream.pos;
      r := Many(values);
    }

    // decode_static_field
    method DecodeField(f: Field, slot: Slot, wireType: nat) returns (ok: bool, r: Slot)
      requires Valid() && WellFormedField(f) && SlotOk(f, slot) && SlotFits(f, slot)
      modifies this
      ensures Gives(old(ParseField(f, slot, wireType, data, pos, End())), ok, r, old(End()))
      decreases f, 3
    {
      DefaultValueOk(f);
      var value;
      r := slot;
      match f.htype
      case Required =>
        ok, value := DecodeValue(f, slot.v);
        r := One(value);
      case Singular =>
        ok, value := DecodeValue(f, slot.v);
        r := One(value);
      case Optional =>
        var base := if slot.o.Some? then slot.o.value else DefaultValue(f);
        ok, value := DecodeValue(f, base);
        r := Maybe(Some(value));
      case Repeated =>
        if wireType == 2 && f.ltype.Packable() {
          ok, r := DecodePackedArray(f, slot.vs, slot);
        } else {
          if |slot.vs| >= f.arraySize {
            return false, slot;
          }
          ok, value := DecodeValue(f, DefaultValue(f));
          r := Many(slot.vs + [value]);
        }
      case Oneof(_) =>
        ok, value := DecodeValue(f, DefaultValue(f));
        r := Maybe(Some(value));
    }

    // The field of the record is decoded and stored.
    method DecodeIntoField(d: Descriptor, i: nat, before: seq<Slot>, wireType: nat, ghost seen: set<nat>)
      returns (ok: bool, r: seq<Slot>)
      requires Valid() && WellFormed(d) && i < |d.fields| && ParsedOk(d, Parsed(before, seen))
      modifies this
      ensures Gives(old(ParseInto(d, Parsed(before, seen), i, wireType, data, pos, End())), ok, Parsed(r, seen + {i}), old(End()))
      decreases d, 0
    {
      r := before;
      var slot;
      assert WellFormedField(d.fields[i]) && SlotOk(d.fields[i], before[i]) && SlotFits(d.fields[i], before[i]);
      ok, slot := DecodeField(d.fields[i], before[i], wireType);
      if !ok {
        return;
      }
      r := WithSlot(d, before, i, slot);
    }

    /** One round of the loop of pb_decode_noinit */
    method DecodeRecord(d: Descriptor, before: seq<Slot>, iter: FieldIter, words: seq<set<nat>>, ghost seen: set<nat>)
      returns (step: Step, r: seq<Slot>, words': seq<set<nat>>, ghost seen': set<nat>)
      requires Valid() && left > 0 && WellFormed(d) && ParsedOk(d, Parsed(before, seen))
      requires iter.Valid() && iter.d == d && BitsOf(d, words, seen)
      modifies this, iter
      ensures Valid() && End() <= old(End()) && iter.Valid()
      ensures !step.Fail? ==> End() == old(End()) && ParsedOk(d, Parsed(r, seen')) && BitsOf(d, words', seen')
      ensures step.More? ==> left < old(left)
      ensures old(ParseFields(d, Parsed(before, seen), data, pos, End())) ==
                match step
                case Fail => None
                case Stop => Some(Parsed(r, seen'))
                case More => ParseFields(d, Parsed(r, seen'), data, pos, End())
      decreases d, 1
    {
      r, words', seen' := before, words, seen;
      var ok, wireType, tag, eof := DecodeTag();
      if !ok {
        return if eof then Stop else Fail, r, words', seen';
      }
      var found := iter.Find(tag);
      if !found {
        ok := SkipField(wireType);
        return if ok then More else Fail, r, words', seen';
      }
      LookupIs(d, iter.pos);
      words' := MarkSeen(iter, words, seen);
      ok, r := DecodeIntoField(d, iter.pos, before, wireType, seen);
      seen' := seen + {iter.pos};
      step := if ok then More else Fail;
    }

    /** pb_decode_noinit */
    method Decode(d: Descriptor, dest: seq<Slot>) returns (ok: bool, r: seq<Slot>)
      requires Valid() && WellFormed(d) && SlotsOk(d, dest) && SlotsFit(d, dest)
      modifies this
      ensures Valid() && End() <= old(End()) && (ok <==> old(ParseMessage(d, dest, data, pos, End())).Some?)
      ensures ok ==> End() == old(End()) && old(ParseMessage(d, dest, data, pos, End())) == Some(r)
      decreases d, 2
    {
      ghost var start, end := pos, End();
      var fieldsSeen: seq<set<nat>> := [{}, {}];
      var iter := new FieldIter(d);
      r := dest;
      ghost var seen: set<nat> := {};
      var step := More;
      while left > 0 && step.More?
        invariant Valid() && End() == end && ParsedOk(d, Parsed(r, seen)) && !step.Fail?
        invariant iter.Valid() && iter.d == d && fresh(iter) && BitsOf(d, fieldsSeen, seen)
        invariant ParseFields(d, Parsed(dest, {}), data, start, end) ==
                  if step.More? then ParseFields(d, Parsed(r, seen), data, pos, end) else Some(Parsed(r, seen))
        decreases step.More?, left
      {
        step, r, fieldsSeen, seen := DecodeRecord(d, r, iter, fieldsSeen, seen);
        if step.Fail? {
          return false, r;
        }
      }
      BitsComplete(d, fieldsSeen, seen);
      ok := RequiredPresent(iter, fieldsSeen);
    }
  }

  // What a round of decoding says: go on, stop at the end of the message, or give up
  datatype Step = More | Stop | Fail

  // ---------------------------------------------------------------- varints

  lemma OneByte(data: Bytes, pos: nat, end: nat)
    requires pos < end <= |data| && data[pos] < 128
    ensures ReadVarint32(data, pos, end) == Some((data[pos], pos + 1))
  {
    assert Digits(data, pos + 1, pos + 1) == 0;
  }

  lemma FirstLow32(data: Bytes, start: nat)
    requires start < |data|
    ensures Low32(data, start, start + 1) == data[start] % 128
  {
    assert Digits(data, start + 1, start + 1) == 0;
  }

  ghost predicate PaddedTo(data: Bytes, start: nat, end: nat, r: nat)
    requires end <= |data|
  {
    forall q :: start + 5 <= q < end ==> Padding(data[q], q - start, r)
  }

  // result | (b & 0x7f) << bitpos; the bits do not overlap.
  function WithBits(result: Uint32, b: Byte, pow: nat): Uint32 {
    (result + b % 128 * pow) % 0x1_0000_0000
  }

  function WithBits64(result: Uint64, b: Byte, pow: nat): Uint64 {
    (result + b % 128 * pow) % 0x1_0000_0000_0000_0000
  }

  lemma NextLow32(data: Bytes, start: nat, pos: nat)
    requires start <= pos <= |data|
    ensures pos < |data| && pos - start < 5 ==> Low32(data, start, pos + 1) == WithBits(Low32(data, start, pos), data[pos], Power(pos - start))
    ensures pos < |data| && pos - start >= 5 ==> Low32(data, start, pos + 1) == Low32(data, start, pos)
  {
    if pos < |data| && pos - start < 5 {
      DigitsNext(data, start, pos);
      AddBits32(Digits(data, start, pos), data[pos], Power(pos - start));
    }
  }

  lemma NextDigits(data: Bytes, start: nat, pos: nat)
    requires start <= pos < |data|
    ensures WithBits64(Digits(data, start, pos) % 0x1_0000_0000_0000_0000, data[pos], Power(pos - start))
            == Digits(data, start, pos + 1) % 0x1_0000_0000_0000_0000
  {
    DigitsNext(data, start, pos);
    AddBits64(Digits(data, start, pos), data[pos], Power(pos - start));
  }

  lemma AddBits64(a: nat, b: Byte, pow: nat)
    ensures WithBits64(a % 0x1_0000_0000_0000_0000, b, pow) == (a + pow * (b % 128)) % 0x1_0000_0000_0000_0000
  {
    var digit: nat := b % 128;
    AddModulo64(a, digit * pow);
  }

  lemma AddBits32(a: nat, b: Byte, pow: nat)
    ensures WithBits(a % 0x1_0000_0000, b, pow) == (a + pow * (b % 128)) % 0x1_0000_0000
  {
    var digit: nat := b % 128;
    AddModulo32(a, digit * pow);
  }

  lemma AddModulo32(a: nat, x: nat)
    ensures (a % 0x1_0000_0000 + x) % 0x1_0000_0000 == (a + x) % 0x1_0000_0000
  {
  }

  lemma AddModulo64(a: nat, x: nat)
    ensures (a % 0x1_0000_0000_0000_0000 + x) % 0x1_0000_0000_0000_0000 == (a + x) % 0x1_0000_0000_0000_0000
  {
  }

  // A byte that is not padding spoils the varint.
  lemma BadPadding(data: Bytes, start: nat, q: nat, end: nat, r: nat)
    requires start + 5 <= q < end <= |data| && VarintEnd(data, start, end) == VarintEnd(data, q, end)
    requires r == Low32(data, start, q) && !Padding(data[q], q - start, r)
    ensures ReadVarint32(data, start, end) == None
  {
  }

  lemma ClampedFits(n: int, size: nat)
    requires size in {1, 2, 4, 8}
    ensures AsSigned(n, size) == n <==> SignedFits(n, size)
  {
  }

  // ---------------------------------------------------------------- required fields

  // Bit k of the fields_seen words
  predicate HasBit(words: seq<set<nat>>, k: nat) {
    k / 32 < |words| && k % 32 in words[k / 32]
  }

  function RequiredCount(d: Descriptor): nat {
    RequiredBefore(d, |d.fields|)
  }

  // Only bits of required fields are set.
  ghost predicate BitsOk(d: Descriptor, words: seq<set<nat>>) {
    |words| == 2 && forall w: nat, k: nat {:trigger k in words[w]} :: w < 2 && k in words[w] ==> k < 32 && 32 * w + k < RequiredCount(d)
  }

  // The bits say which required fields have been seen, as far as there are bits for them.
  ghost predicate BitsOf(d: Descriptor, words: seq<set<nat>>, seen: set<nat>) {
    BitsOk(d, words) && forall j: nat {:trigger BitIs(d, words, seen, j)} :: j < |d.fields| ==> BitIs(d, words, seen, j)
  }

  ghost predicate BitIs(d: Descriptor, words: seq<set<nat>>, seen: set<nat>, j: nat)
    requires j < |d.fields|
  {
    d.fields[j].htype.Required? && RequiredBefore(d, j) < 64 ==> (HasBit(words, RequiredBefore(d, j)) <==> j in seen)
  }

  function AllBits(n: nat): (r: set<nat>)
    ensures forall k: nat :: k in r <==> k < n
  {
    if n == 0 then {} else AllBits(n - 1) + {n - 1}
  }

  /** Marks the field the iterator is at, if it is required and there is a bit for it. */
  method MarkSeen(iter: FieldIter, words: seq<set<nat>>, ghost seen: set<nat>) returns (r: seq<set<nat>>)
    requires iter.Valid() && iter.pos < |iter.d.fields| && BitsOf(iter.d, words, seen)
    ensures BitsOf(iter.d, r, seen + {iter.pos})
  {
    r := words;
    var d := iter.d;
    if d.fields[iter.pos].htype.Required? && iter.requiredFieldIndex < 64 {
      RequiredMonotone(d, iter.pos + 1, |d.fields|);
      var word := iter.requiredFieldIndex / 32;
      r := words[word := words[word] + {iter.requiredFieldIndex % 32}];
    }
    forall j: nat | j < |d.fields|
      ensures BitIs(d, r, seen + {iter.pos}, j)
    {
      assert BitIs(d, words, seen, j);
      if d.fields[j].htype.Required? && d.fields[iter.pos].htype.Required? {
        RequiredDiffer(d, j, iter.pos);
      }
    }
  }

  /** The check of pb_decode_noinit: whole words first, then the remaining bits. */
  method RequiredPresent(iter: FieldIter, words: seq<set<nat>>) returns (ok: bool)
    requires iter.Valid() && BitsOk(iter.d, words)
    modifies iter
    ensures ok <==> forall k: nat {:trigger HasBit(words, k)} :: k < RequiredCount(iter.d) && k < 64 ==> HasBit(words, k)
  {
    var reqFieldCount, lastRequired, more := 0, false, true;
    while more
      invariant iter.Valid()
      invariant !more ==> reqFieldCount + (if lastRequired && |iter.d.fields| > 0 then 1 else 0) == RequiredCount(iter.d)
      decreases more, |iter.d.fields| - iter.pos
    {
      reqFieldCount := iter.requiredFieldIndex;
      // The type of the terminator is that of a required field.
      lastRequired := |iter.d.fields| == 0 || iter.d.fields[iter.pos].htype.Required?;
      more := iter.Next();
    }
    if lastRequired && |iter.d.fields| > 0 {
      reqFieldCount := reqFieldCount + 1;
    }
    if reqFieldCount > 64 {
      reqFieldCount := 64;
    }
    ok := WordsPresent(iter.d, words, reqFieldCount);
  }

  method WordsPresent(d: Descriptor, words: seq<set<nat>>, count: nat) returns (ok: bool)
    requires BitsOk(d, words) && count == if RequiredCount(d) > 64 then 64 else RequiredCount(d)
    ensures ok <==> forall k: nat {:trigger HasBit(words, k)} :: k < count ==> HasBit(words, k)
  {
    for i := 0 to count / 32
      invariant forall w: nat :: w < i ==> words[w] == AllBits(32)
    {
      if words[i] != AllBits(32) {
        MissingBit(d, words, i, 32);
        return false;
      }
    }
    if count % 32 != 0 {
      if words[count / 32] != AllBits(count % 32) {
        MissingBit(d, words, count / 32, count % 32);
        return false;
      }
    }
    return true;
  }

  lemma MissingBit(d: Descriptor, words: seq<set<nat>>, w: nat, n: nat)
    requires BitsOk(d, words) && w < 2 && n <= 32 && words[w] != AllBits(n)
    requires n == 32 || 32 * w + n == RequiredCount(d)
    ensures exists k: nat :: 32 * w <= k < 32 * w + n && !HasBit(words, k)
  {
    assert words[w] <= AllBits(n);
    var k :| k in AllBits(n) && k !in words[w];
    assert !HasBit(words, 32 * w + k);
  }

  // All bits are set exactly if all required fields that have one have been seen.
  lemma BitsComplete(d: Descriptor, words: seq<set<nat>>, seen: set<nat>)
    requires BitsOf(d, words, seen)
    ensures Complete(d, seen) <==> forall k: nat {:trigger HasBit(words, k)} :: k < RequiredCount(d) && k < 64 ==> HasBit(words, k)
  {
    if Complete(d, seen) {
      forall k: nat | k < RequiredCount(d) && k < 64
        ensures HasBit(words, k)
      {
        var j := RequiredField(d, |d.fields|, k);
        assert BitIs(d, words, seen, j);
      }
    }
    if forall k: nat {:trigger HasBit(words, k)} :: k < RequiredCount(d) && k < 64 ==> HasBit(words, k) {
      forall j: nat | j < |d.fields| && d.fields[j].htype.Required? && RequiredBefore(d, j) < 64
        ensures j in seen
      {
        RequiredMonotone(d, j + 1, |d.fields|);
        assert BitIs(d, words, seen, j) && HasBit(words, RequiredBefore(d, j));
      }
    }
  }

  lemma {:induction false} RequiredField(d: Descriptor, i: nat, k: nat) returns (j: nat)
    requires i <= |d.fields| && k < RequiredBefore(d, i)
    ensures j < i && d.fields[j].htype.Required? && RequiredBefore(d, j) == k
    decreases i
  {
    if d.fields[i - 1].htype.Required? && RequiredBefore(d, i - 1) == k {
      j := i - 1;
    } else {
      j := RequiredField(d, i - 1, k);
    }
  }

  lemma {:induction false} RequiredMonotone(d: Descriptor, a: nat, b: nat)
    requires a <= b <= |d.fields|
    ensures RequiredBefore(d, a) <= RequiredBefore(d, b)
    decreases b
  {
    if a < b {
      RequiredMonotone(d, a, b - 1);
    }
  }

  lemma RequiredDiffer(d: Descriptor, a: nat, b: nat)
    requires a < |d.fields| && b < |d.fields| && d.fields[a].htype.Required? && d.fields[b].htype.Required?
    ensures a != b ==> RequiredBefore(d, a) != RequiredBefore(d, b)
  {
    if a < b {
      RequiredMonotone(d, a + 1, b);
    } else if b < a {
      RequiredMonotone(d, b + 1, a);
    }
  }
}
