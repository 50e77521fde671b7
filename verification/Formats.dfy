/** The file and message formats on concrete input, byte by byte, in the numbers of their definitions: what any
    other implementation of LevelDB or of Protocol Buffers writes for the same input. */
module Formats {
  import opened Keys
  import opened Coding
  import opened Checksums
  import L = Logs
  import B = Batches
  import V = VersionEdits
  import K = Blocks
  import T = Tables
  import P = Protos

  // ---------------------------------------------------------------- logs

  /** Three records of a log that spans four blocks of 32 KiB.  The first is written whole behind a header of seven bytes;
      the second takes the rest of its block, a whole block, and a part of the third, at the end of which six bytes are
      left over for zeros; the third record is the first of the fourth block. */
  lemma LogInFourBlocks(a: Bytes, b: Bytes, c: Bytes)
    requires |a| == 1000 && |b| == 97270 && |c| == 8000
    ensures L.CutAll(0, [a, b, c]) == [L.Piece(0, 1, a), L.Piece(0, 2, b[..31754]), L.Piece(0, 3, b[31754..64515]),
                                       L.Piece(0, 4, b[64515..]), L.Piece(6, 1, c)]
  {
    var b1, b2 := b[31754..], b[64515..];
    assert b1[..32761] == b[31754..64515] && b1[32761..] == b2;
    WholeRecord(0, a);
    Fragment(1007, b, true);
    Fragment(32768, b1, false);
    WholeTail(32768, b2);
    WholeRecord(32762, c);
    assert L.Cut(1007, b, true) == [L.Piece(0, 2, b[..31754])] + ([L.Piece(0, 3, b[31754..64515])] + [L.Piece(0, 4, b2)]);
    assert L.End(1007, 97270) == L.End(32768, 65516) == L.End(32768, 32755) == 32762;
    CutNext(0, a, [b, c]);
    CutNext(1007, b, [c]);
    CutNext(32762, c, []);
  }

  lemma CutNext(offset: nat, record: Bytes, records: seq<Bytes>)
    requires offset <= 32768
    ensures L.CutAll(offset, [record] + records) == L.Cut(offset, record, true) + L.CutAll(L.End(offset, |record|), records)
  {
    assert ([record] + records)[1..] == records;
  }

  lemma WholeRecord(offset: nat, data: Bytes)
    requires offset <= 32768 && |data| <= 32768 - 7 - L.Start(offset)
    ensures L.Cut(offset, data, true) == [L.Piece(L.Trailer(offset), 1, data)]
    ensures L.End(offset, |data|) == L.Start(offset) + 7 + |data|
  {
    assert data[..|data|] == data;
  }

  lemma WholeTail(offset: nat, data: Bytes)
    requires offset <= 32768 && |data| <= 32768 - 7 - L.Start(offset)
    ensures L.Cut(offset, data, false) == [L.Piece(L.Trailer(offset), 4, data)]
  {
    assert data[..|data|] == data;
  }

  lemma Fragment(offset: nat, data: Bytes, begin: bool)
    requires offset <= 32768
    requires var n := 32768 - 7 - L.Start(offset); n < |data|
    ensures var n := 32768 - 7 - L.Start(offset);
            L.Cut(offset, data, begin) == [L.Piece(L.Trailer(offset), if begin then 2 else 3, data[..n])] + L.Cut(32768, data[n..], false)
  {
  }

  /** A header is a checksum of type and payload, the length, and the type. */
  lemma LogHeader(crc: Checksum, payload: Bytes)
    requires |payload| == 0x0302
    ensures L.Header(crc, 1, payload) == crc.stored([1] + payload) + [0x02, 0x03, 1]
  {
  }

  /** The stored checksum is rotated right by 15 bits and has a constant added. */
  lemma MaskedChecksum()
    ensures Mask(0x1234_5678) == 0x4f73_0f40
  {
  }

  // ---------------------------------------------------------------- batches and version edits

  /** A batch of sequence number 100 that stores 1 under a and deletes b */
  lemma BatchOfTwo()
    ensures B.Rep(100, 2, B.OpsBytes([B.Put([97], [49]), B.Delete([98])]))
            == [100, 0, 0, 0, 0, 0, 0, 0] + [2, 0, 0, 0] + [1, 1, 97, 1, 49] + [0, 1, 98]
  {
    var x, y := B.Put([97], [49]), B.Delete([98]);
    B.OpsConcat([x], [y]);
    assert [x] + [y] == [x, y];
    B.OneOp(x);
    B.OneOp(y);
  }

  /** The tags of the records of a version edit, which leave out 8 */
  lemma EditRecords()
    ensures V.RecordBytes(V.Comparator([99])) == [1, 1, 99]
    ensures V.RecordBytes(V.LogNumber(300)) == [2, 0xac, 2]
    ensures V.RecordBytes(V.PrevLogNumber(5)) == [9, 5]
    ensures V.RecordBytes(V.NextFileNumber(5)) == [3, 5]
    ensures V.RecordBytes(V.LastSequence(5)) == [4, 5]
    ensures V.RecordBytes(V.CompactPointer(6, [107])) == [5, 6, 1, 107]
    ensures V.RecordBytes(V.DeletedFile(6, 5)) == [6, 6, 5]
    ensures V.RecordBytes(V.AddedFile(V.NewFile(6, 5, 4, [97], [122]))) == [7, 6, 5, 4, 1, 97, 1, 122]
  {
    assert Varint(300) == [0xac, 2];
    FlatOne(Varint(5));
    FlatOne(Varint(300));
    FlatOne(Delimited([99]));
    assert Flat([Varint(6), Delimited([107])], 2) == [] && Flat([Varint(6), Varint(5)], 2) == [];
    var parts := [Varint(6), Varint(5), Varint(4), Delimited([97]), Delimited([122])];
    assert Flat(parts, 5) == [] && Flat(parts, 4) == [1, 122] && Flat(parts, 3) == [1, 97, 1, 122];
  }

  lemma FlatOne(b: Bytes)
    ensures Flat([b], 0) == b
  {
    assert Flat([b], 1) == [];
  }

  // ---------------------------------------------------------------- tables

  /** A block entry: bytes shared with the key before it, bytes not shared, bytes of the value, and these bytes */
  lemma BlockEntry()
    ensures K.EntryBytes(K.Pair([97, 98, 99], [49, 50]), 2) == [2, 1, 2] + [99] + [49, 50]
  {
  }

  /** Behind a block stand its type, 0 for one that is not compressed, and its checksum. */
  lemma BlockTrailer(crc: Checksum, data: Bytes)
    ensures T.Stored(crc, data) == data + [0] + crc.stored(data + [0])
  {
  }

  /** The footer holds two places, is filled up to forty bytes, and ends with eight magic ones. */
  lemma TableFooter()
    ensures T.FooterBytes(T.BlockHandle(1, 2), T.BlockHandle(300, 4))
            == [1, 2, 0xac, 2, 4] + seq(35, _ => 0) + [0x57, 0xfb, 0x80, 0x8b, 0x24, 0x75, 0x47, 0xdb]
  {
    TwoHandles();
    Magic();
    assert T.Zeros(35) == seq(35, _ => 0);
  }

  lemma TwoHandles()
    ensures T.HandleBytes(T.BlockHandle(1, 2)) == [1, 2] && T.HandleBytes(T.BlockHandle(300, 4)) == [0xac, 2, 4]
    ensures T.HandleBytes(T.BlockHandle(1, 2)) + T.HandleBytes(T.BlockHandle(300, 4)) == [1, 2, 0xac, 2, 4]
  {
    assert Varint(300) == [0xac, 2];
  }

  lemma Magic()
    ensures T.MagicBytes() == [0x57, 0xfb, 0x80, 0x8b, 0x24, 0x75, 0x47, 0xdb]
  {
  }

  // ---------------------------------------------------------------- messages

  /** google.type.LatLng: two doubles with tags 1 and 2, here of bit patterns 5 and 6 */
  lemma TwoDoubles()
    ensures var d := P.Descriptor([P.Field(1, P.Fixed64, P.Singular, 8, 0, P.Descriptor([])),
                                   P.Field(2, P.Fixed64, P.Singular, 8, 0, P.Descriptor([]))]);
            var m := [P.One(P.Num(5)), P.One(P.Num(6))];
            P.SlotsOk(d, m) && P.EncodeMessage(d, m, 0) == [0x09, 5, 0, 0, 0, 0, 0, 0, 0] + [0x11, 6, 0, 0, 0, 0, 0, 0, 0]
  {
  }

  /** google.protobuf.Timestamp: a negative number of seconds takes ten bytes, nanoseconds of zero are left out. */
  lemma NegativeSeconds()
    ensures var d := P.Descriptor([P.Field(1, P.Varint, P.Singular, 8, 0, P.Descriptor([])),
                                   P.Field(2, P.Varint, P.Singular, 4, 0, P.Descriptor([]))]);
            var m := [P.One(P.Num(-1)), P.One(P.Num(0))];
            P.SlotsOk(d, m) && P.EncodeMessage(d, m, 0) == [0x08, 0xff, 0xff, 0xff, 0xff, 0xff, 0xff, 0xff, 0xff, 0xff, 1]
  {
  }
}
