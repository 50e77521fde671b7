/** Encoding a message of nanopb and decoding it again (pb_encode.c, pb_decode.c). */
module ProtoRoundTrips {
  import opened Keys
  import opened Coding
  import opened Protos
  import opened ProtoParsing
  import opened ProtoProjections
  import E = ProtoEncoders
  import D = ProtoDecoders

  // ---------------------------------------------------------------- what fits passes the checks of the encoder

  lemma {:induction false} ValueChecked(f: Field, v: Value)
    requires ValueOk(f, v) && ValueFits(f, v)
    ensures Checked(f, v)
    decreases f, 0
  {
    if f.ltype.Submessage? {
      MessageChecked(f.sub, v.slots, 0);
    }
  }

  lemma {:induction false} ArrayChecked(f: Field, vs: seq<Value>, i: nat)
    requires i <= |vs| && forall j: nat {:trigger vs[j]} :: j < |vs| ==> ValueOk(f, vs[j]) && ValueFits(f, vs[j])
    ensures CheckedAll(f, vs, i)
    decreases f, 1, |vs| - i
  {
    if i < |vs| {
      ValueChecked(f, vs[i]);
      ArrayChecked(f, vs, i + 1);
    }
  }

  lemma {:induction false} SlotChecked(f: Field, s: Slot)
    requires SlotOk(f, s) && SlotFits(f, s)
    ensures CheckedSlot(f, s)
    decreases f, 2
  {
    match s
    case One(v) => ValueChecked(f, v);
    case Maybe(o) =>
      if o.Some? {
        ValueChecked(f, o.value);
      }
    case Many(vs) => ArrayChecked(f, vs, 0);
  }

  lemma {:induction false} MessageChecked(d: Descriptor, m: seq<Slot>, i: nat)
    requires SlotsOk(d, m) && SlotsFit(d, m) && i <= |m|
    ensures CheckedFrom(d, m, i)
    decreases d, |m| - i
  {
    if i < |m| {
      assert SlotOk(d.fields[i], m[i]) && SlotFits(d.fields[i], m[i]);
      SlotChecked(d.fields[i], m[i]);
      MessageChecked(d, m, i + 1);
    }
  }

  // ---------------------------------------------------------------- pb_get_encoded_size, pb_encode, pb_decode

  /** The sizing pass gives the number of bytes that the writing pass writes. */
  method GetEncodedSize(d: Descriptor, m: seq<Slot>) returns (ok: bool, size: nat)
    requires SlotsOk(d, m)
    ensures (ok <==> CheckedFrom(d, m, 0)) && (ok ==> size == |EncodeMessage(d, m, 0)|)
  {
    var stream := new E.OStream(true, 0, []);
    ok := stream.Encode(d, m);
    size := stream.bytesWritten;
  }

  /** Whatever the bytes, decoding gives what they mean; that has the types of the descriptor and fits its storage. */
  method Decode(d: Descriptor, data: Bytes) returns (ok: bool, r: seq<Slot>)
    requires WellFormed(d)
    ensures Meaning(d, data) == if ok then Some(r) else None
    ensures ok ==> SlotsOk(d, r) && SlotsFit(d, r)
  {
    var stream := new D.IStream(data, 0, |data|);
    DefaultsOk(d);
    ok, r := stream.Decode(d, Defaults(d));
  }

  /** A receiver whose descriptor the sender's extends restores from the sender's bytes what it knows of the message,
      whatever else the message holds at any depth. */
  lemma KnownIsRestored(e: Descriptor, d: Descriptor, m: seq<Slot>)
    requires WellFormed(e) && WellFormed(d) && Extends(e, d) && SlotsOk(e, m)
    requires SlotsOk(d, Project(e, d, m)) && SlotsFit(d, Project(e, d, m)) && |EncodeMessage(e, m, 0)| < 0x1_0000_0000
    ensures Meaning(d, EncodeMessage(e, m, 0)) == Some(Project(e, d, m))
  {
    var data := EncodeMessage(e, m, 0);
    assert data[0..|data|] == data;
    DefaultsOk(d);
    MessageParsed(e, d, m, data, 0, |data|);
  }

  /** A message from a sender to a receiver with another descriptor: encoding fails exactly if a count or size is out of
      bounds or the buffer is too small, and the receiver restores the fields it knows. */
  method Exchange(e: Descriptor, d: Descriptor, m: seq<Slot>, bufferSize: nat) returns (encoded: bool, decoded: bool, r: seq<Slot>)
    requires WellFormed(e) && WellFormed(d) && Extends(e, d) && SlotsOk(e, m) && bufferSize < 0x1_0000_0000
    requires SlotsOk(d, Project(e, d, m)) && SlotsFit(d, Project(e, d, m))
    ensures encoded <==> CheckedFrom(e, m, 0) && |EncodeMessage(e, m, 0)| <= bufferSize
    ensures encoded ==> decoded && r == Project(e, d, m)
  {
    var stream := new E.OStream(false, bufferSize, []);
    encoded := stream.Encode(e, m);
    decoded, r := false, [];
    if encoded {
      assert stream.out == EncodeMessage(e, m, 0);
      KnownIsRestored(e, d, m);
      decoded, r := Decode(d, stream.out);
    }
  }

  /** A message that fits its storage is restored from a buffer that is large enough; with a smaller buffer
      encoding fails. */
  method EncodeAndDecode(d: Descriptor, m: seq<Slot>, bufferSize: nat) returns (encoded: bool, decoded: bool, r: seq<Slot>)
    requires WellFormed(d) && SlotsOk(d, m) && SlotsFit(d, m) && bufferSize < 0x1_0000_0000
    ensures encoded <==> |EncodeMessage(d, m, 0)| <= bufferSize
    ensures encoded ==> decoded && r == m
  {
    MessageChecked(d, m, 0);
    ExtendsItself(d);
    ProjectsToItself(d, m);
    encoded, decoded, r := Exchange(d, d, m, bufferSize);
  }

  /** A reader that knows no field at all lands exactly at the end of a message. */
  lemma TagsAloneSuffice(e: Descriptor, m: seq<Slot>)
    requires WellFormed(e) && SlotsOk(e, m) && |EncodeMessage(e, m, 0)| < 0x1_0000_0000
    ensures Meaning(Descriptor([]), EncodeMessage(e, m, 0)) == Some([])
  {
    KnownIsRestored(e, Descriptor([]), m);
    assert Project(e, Descriptor([]), m) == [];
  }
}
