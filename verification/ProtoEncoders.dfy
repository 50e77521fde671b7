/** The encoder of nanopb (pb_encode.c).  Encoding on a sizing stream counts exactly the bytes that encoding
    on a writing stream writes, at every depth; encoding fails exactly if an array or a bytes field is
    larger than its storage or the stream is too short. */
module ProtoEncoders {
  import opened Keys
  import opened Coding
  import opened Protos

  /** pb_ostream_t.  A sizing stream has no callback; out is what the buffer holds up to state. */
  class OStream {
    const sizing: bool
    const maxSize: nat
    var out: Bytes
    var bytesWritten: nat

    constructor (sizing: bool, maxSize: nat, out: Bytes)
      ensures Valid() && this.sizing == sizing && this.maxSize == maxSize && this.out == out && bytesWritten == 0
    {
      this.sizing, this.maxSize, this.out, bytesWritten := sizing, maxSize, out, 0;
    }

    ghost predicate Valid()
      reads this
    {
      sizing || bytesWritten <= maxSize
    }

    ghost predicate Room(n: nat)
      reads this
    {
      sizing || bytesWritten + n <= maxSize
    }

    twostate predicate Appended(b: Bytes)
      reads this
    {
      bytesWritten == old(bytesWritten) + |b| && out == if sizing then old(out) else old(out) + b
    }

    // pb_write
    method Write(buf: Bytes) returns (ok: bool)
      requires Valid()
      modifies this
      ensures Valid() && (ok <==> old(Room(|buf|))) && (ok ==> Appended(buf))
    {
      if |buf| > 0 && !sizing {
        if bytesWritten + |buf| > maxSize {
          return false;
        }
        out := out + buf;
      }
      bytesWritten := bytesWritten + |buf|;
      return true;
    }

    // pb_write without a buffer
    method Skip(count: nat)
      requires Valid() && sizing
      modifies this
      ensures Valid() && bytesWritten == old(bytesWritten) + count && out == old(out)
    {
      bytesWritten := bytesWritten + count;
    }

    method EncodeVarint(v: nat) returns (ok: bool)
      requires Valid()
      modifies this
      ensures Valid() && (ok <==> old(Room(|Coding.Varint(v)|))) && (ok ==> Appended(Coding.Varint(v)))
    {
      if v <= 0x7f {
        ok := Write([v]);
        return;
      }
      var buffer: Bytes := [];
      var value: nat := v;
      while value > 0
        invariant value > 0 ==> buffer + Coding.Varint(value) == Coding.Varint(v)
        invariant value == 0 ==> |buffer| > 0 && buffer[|buffer| - 1] >= 128 &&
                                 buffer[..|buffer| - 1] + [buffer[|buffer| - 1] - 128] == Coding.Varint(v)
      {
        buffer := buffer + [value % 128 + 128];
        value := value / 128;
      }
      buffer := buffer[|buffer| - 1 := buffer[|buffer| - 1] - 128];
      ok := Write(buffer);
    }

    method EncodeTag(wireType: nat, f: Field) returns (ok: bool)
      requires Valid()
      modifies this
      ensures Valid() && (ok <==> old(Room(|Tag(f, wireType)|))) && (ok ==> Appended(Tag(f, wireType)))
    {
      ok := EncodeVarint(f.tag * 8 + wireType);
    }

    method EncodeString(b: Bytes) returns (ok: bool)
      requires Valid()
      modifies this
      ensures Valid() && (ok <==> old(Room(|Delimited(b)|))) && (ok ==> Appended(Delimited(b)))
    {
      ok := EncodeVarint(|b|);
      if ok {
        ok := Write(b);
      }
    }

    // pb_encode_submessage: the size first, then the bytes on a substream that has just that size
    method EncodeSubmessage(d: Descriptor, m: seq<Slot>) returns (ok: bool)
      requires Valid() && SlotsOk(d, m)
      modifies this
      ensures Valid()
      ensures var b := Delimited(EncodeMessage(d, m, 0)); (ok <==> CheckedFrom(d, m, 0) && old(Room(|b|))) && (ok ==> Appended(b))
      decreases d, 1
    {
      var sizeStream := new OStream(true, 0, []);
      ok := sizeStream.Encode(d, m);
      if !ok {
        return;
      }
      var size := sizeStream.bytesWritten;
      ok := EncodeVarint(size);
      if !ok {
        return;
      }
      if sizing {
        Skip(size);
        return;
      }
      if bytesWritten + size > maxSize {
        return false;
      }
      var substream := new OStream(false, size, out);
      var status := substream.Encode(d, m);
      bytesWritten := bytesWritten + substream.bytesWritten;
      out := substream.out;
      ok := status && substream.bytesWritten == size;
    }

    method EncodeValue(f: Field, v: Value) returns (ok: bool)
      requires Valid() && ValueOk(f, v)
      modifies this
      ensures Valid()
      ensures var b := Protos.EncodeValue(f, v); (ok <==> Checked(f, v) && old(Room(|b|))) && (ok ==> Appended(b))
      decreases f, 1
    {
      match f.ltype
      case Bool => ok := EncodeVarint(v.n);
      case Varint => ok := EncodeVarint(ToUnsigned(v.n));
      case UVarint => ok := EncodeVarint(v.n);
      case SVarint => ok := EncodeVarint(ZigZag(v.n));
      case Fixed32 => ok := Write(EncodeFixed32(v.n));
      case Fixed64 => ok := Write(EncodeFixed64(v.n));
      case Bytes =>
        if |v.b| + BYTES_HEADER > f.dataSize {
          return false;
        }
        ok := EncodeString(v.b);
      case String => ok := EncodeString(v.b);
      case Submessage => ok := EncodeSubmessage(f.sub, v.slots);
      case FixedLengthBytes => ok := EncodeString(v.b);
    }

    // The tag and the value
    method EncodeTagged(f: Field, v: Value) returns (ok: bool)
      requires Valid() && ValueOk(f, v)
      modifies this
      ensures Valid()
      ensures var b := Tag(f, WireType(f.ltype)) + Protos.EncodeValue(f, v); (ok <==> Checked(f, v) && old(Room(|b|))) && (ok ==> Appended(b))
      decreases f, 2
    {
      ok := EncodeTag(WireType(f.ltype), f);
      if ok {
        ok := EncodeValue(f, v);
      }
    }

    // Entries one after the other
    method EncodeEntries(f: Field, vs: seq<Value>) returns (ok: bool)
      requires Valid() && forall i: nat {:trigger vs[i]} :: i < |vs| ==> ValueOk(f, vs[i])
      modifies this
      ensures Valid()
      ensures var b := EncodePacked(f, vs, 0); (ok <==> CheckedAll(f, vs, 0) && old(Room(|b|))) && (ok ==> Appended(b))
      decreases f, 2
    {
      var i := 0;
      while i < |vs|
        invariant i <= |vs| && Valid()
        invariant bytesWritten + |EncodePacked(f, vs, i)| == old(bytesWritten) + |EncodePacked(f, vs, 0)|
        invariant if sizing then out == old(out) else out + EncodePacked(f, vs, i) == old(out) + EncodePacked(f, vs, 0)
        invariant CheckedAll(f, vs, 0) <==> CheckedAll(f, vs, i)
      {
        ok := EncodeValue(f, vs[i]);
        if !ok {
          return;
        }
        i := i + 1;
      }
      ok := true;
    }

    method EncodeUnpacked(f: Field, vs: seq<Value>) returns (ok: bool)
      requires Valid() && forall i: nat {:trigger vs[i]} :: i < |vs| ==> ValueOk(f, vs[i])
      modifies this
      ensures Valid()
      ensures var b := Protos.EncodeTagged(f, vs, 0); (ok <==> CheckedAll(f, vs, 0) && old(Room(|b|))) && (ok ==> Appended(b))
      decreases f, 3
    {
      var i := 0;
      while i < |vs|
        invariant i <= |vs| && Valid()
        invariant bytesWritten + |Protos.EncodeTagged(f, vs, i)| == old(bytesWritten) + |Protos.EncodeTagged(f, vs, 0)|
        invariant if sizing then out == old(out) else out + Protos.EncodeTagged(f, vs, i) == old(out) + Protos.EncodeTagged(f, vs, 0)
        invariant CheckedAll(f, vs, 0) <==> CheckedAll(f, vs, i)
      {
        ok := EncodeTagged(f, vs[i]);
        if !ok {
          return;
        }
        i := i + 1;
      }
      ok := true;
    }

    // encode_array
    method EncodeArray(f: Field, vs: seq<Value>) returns (ok: bool)
      requires Valid() && f.htype.Repeated? && SlotOk(f, Many(vs))
      modifies this
      ensures Valid()
      ensures var b := EncodeSlot(f, Many(vs)); (ok <==> CheckedSlot(f, Many(vs)) && old(Room(|b|))) && (ok ==> Appended(b))
      decreases f, 5
    {
      if |vs| == 0 {
        return true;
      }
      if |vs| > f.arraySize {
        return false;
      }
      if f.ltype.Packable() {
        ok := EncodePackedArray(f, vs);
      } else {
        ok := EncodeUnpacked(f, vs);
      }
    }

    // The size of a packed array, by a sizing stream unless the entries have a fixed size
    method PackedSize(f: Field, vs: seq<Value>) returns (ok: bool, size: nat)
      requires f.ltype.Packable() && forall i: nat {:trigger vs[i]} :: i < |vs| ==> ValueOk(f, vs[i])
      ensures ok && size == |EncodePacked(f, vs, 0)| && CheckedAll(f, vs, 0)
      decreases f, 3
    {
      PackableSize(f, vs, 0);
      if f.ltype.Fixed32? {
        return true, 4 * |vs|;
      } else if f.ltype.Fixed64? {
        return true, 8 * |vs|;
      }
      var sizeStream := new OStream(true, 0, []);
      ok := sizeStream.EncodeEntries(f, vs);
      size := sizeStream.bytesWritten;
    }

    method EncodePackedArray(f: Field, vs: seq<Value>) returns (ok: bool)
      requires Valid() && f.ltype.Packable() && forall i: nat {:trigger vs[i]} :: i < |vs| ==> ValueOk(f, vs[i])
      modifies this
      ensures Valid()
      ensures var b := Tag(f, 2) + Delimited(EncodePacked(f, vs, 0));
              (ok <==> CheckedAll(f, vs, 0) && old(Room(|b|))) && (ok ==> Appended(b))
      decreases f, 4
    {
      ok := EncodeTag(2, f);
      if !ok {
        return;
      }
      var size;
      ok, size := PackedSize(f, vs);
      if ok {
        ok := EncodeVarint(size);
      }
      if !ok {
        return;
      }
      if sizing {
        Skip(size);
        return;
      }
      ok := EncodeEntries(f, vs);
    }

    // encode_basic_field
    method EncodeField(f: Field, s: Slot) returns (ok: bool)
      requires Valid() && SlotOk(f, s)
      modifies this
      ensures Valid()
      ensures var b := EncodeSlot(f, s); (ok <==> CheckedSlot(f, s) && old(Room(|b|))) && (ok ==> Appended(b))
      decreases f, 6
    {
      match f.htype
      case Required => ok := EncodeTagged(f, s.v);
      case Singular =>
        var implicitHas := !IsDefaultValue(f, s.v);
        ok := true;
        if implicitHas {
          ok := EncodeTagged(f, s.v);
        }
      case Repeated => ok := EncodeArray(f, s.vs);
      case _ =>
        ok := true;
        if s.o.Some? {
          ok := EncodeTagged(f, s.o.value);
        }
    }

    /** pb_encode: the fields in the order of the descriptor */
    method Encode(d: Descriptor, m: seq<Slot>) returns (ok: bool)
      requires Valid() && SlotsOk(d, m)
      modifies this
      ensures Valid()
      ensures var b := EncodeMessage(d, m, 0); (ok <==> CheckedFrom(d, m, 0) && old(Room(|b|))) && (ok ==> Appended(b))
      decreases d, 0
    {
      var iter := new FieldIter(d);
      var more := iter.Begin();
      ghost var i := 0;
      while more
        invariant iter.Valid() && iter.d == d && fresh(iter) && i <= |m| && Valid()
        invariant more <==> i < |m|
        invariant more ==> iter.pos == i
        invariant bytesWritten + |EncodeMessage(d, m, i)| == old(bytesWritten) + |EncodeMessage(d, m, 0)|
        invariant if sizing then out == old(out) else out + EncodeMessage(d, m, i) == old(out) + EncodeMessage(d, m, 0)
        invariant CheckedFrom(d, m, 0) <==> CheckedFrom(d, m, i)
        decreases |m| - i
      {
        ok := EncodeField(d.fields[iter.pos], m[iter.pos]);
        if !ok {
          return;
        }
        more := iter.Next();
        i := i + 1;
      }
      ok := true;
    }
  }

  lemma {:induction false} PackableSize(f: Field, vs: seq<Value>, i: nat)
    requires f.ltype.Packable()
    requires i <= |vs| && forall j: nat {:trigger vs[j]} :: j < |vs| ==> ValueOk(f, vs[j])
    ensures CheckedAll(f, vs, i)
    ensures f.ltype.Fixed32? ==> |EncodePacked(f, vs, i)| == 4 * (|vs| - i)
    ensures f.ltype.Fixed64? ==> |EncodePacked(f, vs, i)| == 8 * (|vs| - i)
    decreases |vs| - i
  {
    if i < |vs| {
      PackableSize(f, vs, i + 1);
    }
  }
}
