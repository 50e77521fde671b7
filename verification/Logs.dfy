/** The write-ahead log (db/log_format.h, log_writer.cc, log_reader.cc).  Records are cut into fragments
    that never cross a block boundary; the reader puts them together again.  Reading any byte prefix of
    a log gives exactly the records that lie wholly inside the prefix, and reports no corruption.

    The CRC is an arbitrary function of the bytes it covers, and is stored masked. */
module Logs {
  import opened Coding
  import opened Checksums

  const BLOCK_SIZE: nat := 32768
  const HEADER_SIZE: nat := 7

  const ZERO_TYPE: Byte := 0
  const FULL_TYPE: Byte := 1
  const FIRST_TYPE: Byte := 2
  const MIDDLE_TYPE: Byte := 3
  const LAST_TYPE: Byte := 4
  // What ReadPhysicalRecord returns besides the type of a record
  const EOF: Byte := 5
  const BAD_RECORD: Byte := 6

  // ---------------------------------------------------------------- the format

  function Zeros(n: nat): (r: Bytes)
    ensures |r| == n
  {
    seq(n, _ => 0)
  }

  // A fragment is never put where its header does not fit: the rest of the block is a trailer of zeros.
  function Trailer(offset: nat): nat
    requires offset <= BLOCK_SIZE
  {
    if BLOCK_SIZE - offset < HEADER_SIZE then BLOCK_SIZE - offset else 0
  }

  function Start(offset: nat): (r: nat)
    requires offset <= BLOCK_SIZE
    ensures r + HEADER_SIZE <= BLOCK_SIZE
  {
    if BLOCK_SIZE - offset < HEADER_SIZE then 0 else offset
  }

  function FragmentLength(offset: nat, left: nat): nat
    requires offset <= BLOCK_SIZE
  {
    var avail := BLOCK_SIZE - Start(offset) - HEADER_SIZE;
    if left < avail then left else avail
  }

  function TypeOf(begin: bool, end: bool): Byte {
    if begin && end then FULL_TYPE else if begin then FIRST_TYPE else if end then LAST_TYPE else MIDDLE_TYPE
  }

  function Header(crc: Checksum, kind: Byte, payload: Bytes): (r: Bytes)
    requires |payload| <= 0xffff
    ensures |r| == HEADER_SIZE
  {
    crc.stored([kind] + payload) + [|payload| % 0x100, |payload| / 0x100, kind]
  }

  // A fragment of a record as it lies in the file, with the trailer of the block before it
  datatype Piece = Piece(trailer: nat, kind: Byte, payload: Bytes)

  function NewPiece(offset: nat, data: Bytes, begin: bool): Piece
    requires offset <= BLOCK_SIZE
  {
    var k := FragmentLength(offset, |data|);
    Piece(Trailer(offset), TypeOf(begin, k == |data|), data[..k])
  }

  function After(offset: nat, left: nat): (r: nat)
    requires offset <= BLOCK_SIZE
    ensures r <= BLOCK_SIZE
  {
    Start(offset) + HEADER_SIZE + FragmentLength(offset, left)
  }

  /** The fragments of a record, or of the rest of one, written at a block offset. */
  function Cut(offset: nat, data: Bytes, begin: bool): (r: seq<Piece>)
    requires offset <= BLOCK_SIZE
    ensures |r| > 0
    decreases |data|, Start(offset)
  {
    var k := FragmentLength(offset, |data|);
    [NewPiece(offset, data, begin)] + if k == |data| then [] else Cut(After(offset, |data|), data[k..], false)
  }

  // The block offset after it
  function End(offset: nat, left: nat): (r: nat)
    requires offset <= BLOCK_SIZE
    ensures r <= BLOCK_SIZE
    decreases left, Start(offset)
  {
    var k := FragmentLength(offset, left);
    if k == left then After(offset, left) else End(After(offset, left), left - k)
  }

  /** The fragments of a sequence of records. */
  function CutAll(offset: nat, records: seq<Bytes>): seq<Piece>
    requires offset <= BLOCK_SIZE
    decreases |records|
  {
    if records == [] then [] else Cut(offset, records[0], true) + CutAll(End(offset, |records[0]|), records[1..])
  }

  function EndAll(offset: nat, records: seq<Bytes>): (r: nat)
    requires offset <= BLOCK_SIZE
    ensures r <= BLOCK_SIZE
    decreases |records|
  {
    if records == [] then offset else EndAll(End(offset, |records[0]|), records[1..])
  }

  predicate Fits(p: Piece) {
    p.trailer < HEADER_SIZE && HEADER_SIZE + |p.payload| <= BLOCK_SIZE && ZERO_TYPE < p.kind < EOF
  }

  function PieceBytes(crc: Checksum, p: Piece): (r: Bytes)
    requires Fits(p)
    ensures |r| == p.trailer + HEADER_SIZE + |p.payload|
  {
    Zeros(p.trailer) + Header(crc, p.kind, p.payload) + p.payload
  }

  /** The bytes of a sequence of fragments. */
  function Laid(crc: Checksum, ps: seq<Piece>): Bytes
    requires forall i :: 0 <= i < |ps| ==> Fits(ps[i])
  {
    if ps == [] then [] else PieceBytes(crc, ps[0]) + Laid(crc, ps[1..])
  }

  // The fragments lie where the format puts them, starting at this block offset.
  predicate Placed(offset: nat, ps: seq<Piece>)
    decreases |ps|
  {
    && offset <= BLOCK_SIZE
    && (ps != [] ==>
          && Fits(ps[0]) && ps[0].trailer == Trailer(offset)
          && Start(offset) + HEADER_SIZE + |ps[0].payload| <= BLOCK_SIZE
          && Placed(Start(offset) + HEADER_SIZE + |ps[0].payload|, ps[1..]))
  }

  // The fragments with index in [i, j) are those of one record; unless complete, its last ones are missing.
  predicate Tagged(ps: seq<Piece>, i: nat, j: nat, complete: bool) {
    j <= |ps| && forall k: nat :: i <= k < j ==> ps[k].kind == TypeOf(k == i, complete && k == j - 1)
  }

  function Join(ps: seq<Piece>, i: nat, j: nat): Bytes
    requires j <= |ps|
  {
    if j <= i then [] else Join(ps, i, j - 1) + ps[j - 1].payload
  }

  // ---------------------------------------------------------------- fragments and bytes

  lemma {:induction false} PlacedFits(offset: nat, ps: seq<Piece>)
    requires Placed(offset, ps)
    ensures forall i :: 0 <= i < |ps| ==> Fits(ps[i])
    decreases |ps|
  {
    if ps != [] {
      PlacedFits(Start(offset) + HEADER_SIZE + |ps[0].payload|, ps[1..]);
      assert ps == [ps[0]] + ps[1..];
    }
  }

  lemma {:induction false} LaidConcat(crc: Checksum, a: seq<Piece>, b: seq<Piece>)
    requires forall i :: 0 <= i < |a| ==> Fits(a[i])
    requires forall i :: 0 <= i < |b| ==> Fits(b[i])
    ensures forall i :: 0 <= i < |a + b| ==> Fits((a + b)[i])
    ensures Laid(crc, a + b) == Laid(crc, a) + Laid(crc, b)
  {
    if a == [] {
      assert a + b == b;
    } else {
      LaidConcat(crc, a[1..], b);
      assert (a + b)[1..] == a[1..] + b;
    }
  }

  lemma {:induction false} JoinWithin(a: seq<Piece>, b: seq<Piece>, c: seq<Piece>, j: nat)
    requires j <= |b|
    ensures Join(a + b + c, |a|, |a| + j) == Join(b, 0, j)
    decreases j
  {
    if j > 0 {
      JoinWithin(a, b, c, j - 1);
    }
  }

  lemma {:induction false} JoinFirst(ps: seq<Piece>, j: nat)
    requires 0 < j <= |ps|
    ensures Join(ps, 0, j) == ps[0].payload + Join(ps[1..], 0, j - 1)
    decreases j
  {
    if j > 1 {
      JoinFirst(ps, j - 1);
    }
  }

  lemma CutStep(offset: nat, data: Bytes, begin: bool) returns (p: Piece, more: seq<Piece>)
    requires offset <= BLOCK_SIZE
    ensures var k := FragmentLength(offset, |data|);
            && p == NewPiece(offset, data, begin) && Cut(offset, data, begin) == [p] + more
            && p.payload == data[..k] && p.kind == TypeOf(begin, k == |data|)
            && if k == |data| then more == [] else more == Cut(After(offset, |data|), data[k..], false)
  {
    var k := FragmentLength(offset, |data|);
    p := NewPiece(offset, data, begin);
    more := if k == |data| then [] else Cut(After(offset, |data|), data[k..], false);
  }

  /** Cutting a record loses nothing. */
  lemma {:induction false} CutJoins(offset: nat, data: Bytes, begin: bool)
    requires offset <= BLOCK_SIZE
    ensures var ps := Cut(offset, data, begin); Join(ps, 0, |ps|) == data
    decreases |data|, Start(offset)
  {
    var k, ps := FragmentLength(offset, |data|), Cut(offset, data, begin);
    var p, more := CutStep(offset, data, begin);
    JoinFirst(ps, |ps|);
    assert ps[1..] == more && data == data[..k] + data[k..];
    if k < |data| {
      CutJoins(After(offset, |data|), data[k..], false);
    }
  }

  /** The fragments of a record are tagged first, middle and last, or full. */
  lemma {:induction false} CutTagged(offset: nat, data: Bytes, begin: bool)
    requires offset <= BLOCK_SIZE
    ensures var ps := Cut(offset, data, begin); forall i :: 0 <= i < |ps| ==> ps[i].kind == TypeOf(begin && i == 0, i == |ps| - 1)
    decreases |data|, Start(offset)
  {
    var k := FragmentLength(offset, |data|);
    var p, more := CutStep(offset, data, begin);
    if k < |data| {
      CutTagged(After(offset, |data|), data[k..], false);
    }
  }

  /** Each fragment lies in one block, where the format puts it. */
  lemma {:induction false} CutPlaced(offset: nat, data: Bytes, begin: bool, rest: seq<Piece>)
    requires offset <= BLOCK_SIZE && Placed(End(offset, |data|), rest)
    ensures Placed(offset, Cut(offset, data, begin) + rest)
    decreases |data|, Start(offset)
  {
    var k := FragmentLength(offset, |data|);
    var p, more := CutStep(offset, data, begin);
    if k < |data| {
      CutPlaced(After(offset, |data|), data[k..], false, rest);
    } else {
      assert more + rest == rest;
    }
    PlacedStep(offset, p, more + rest);
    assert [p] + (more + rest) == Cut(offset, data, begin) + rest;
  }

  lemma PlacedStep(offset: nat, p: Piece, ps: seq<Piece>)
    requires offset <= BLOCK_SIZE && Fits(p) && p.trailer == Trailer(offset)
    requires Start(offset) + HEADER_SIZE + |p.payload| <= BLOCK_SIZE && Placed(Start(offset) + HEADER_SIZE + |p.payload|, ps)
    ensures Placed(offset, [p] + ps)
  {
    assert ([p] + ps)[1..] == ps;
  }

  lemma {:induction false} CutAllPlaced(offset: nat, records: seq<Bytes>)
    requires offset <= BLOCK_SIZE
    ensures Placed(offset, CutAll(offset, records))
    decreases |records|
  {
    if records != [] {
      CutAllPlaced(End(offset, |records[0]|), records[1..]);
      CutPlaced(offset, records[0], true, CutAll(End(offset, |records[0]|), records[1..]));
    }
  }

  lemma {:induction false} EndAllConcat(offset: nat, a: seq<Bytes>, b: seq<Bytes>)
    requires offset <= BLOCK_SIZE
    ensures EndAll(offset, a + b) == EndAll(EndAll(offset, a), b)
    decreases |a|
  {
    if a == [] {
      assert a + b == b;
    } else {
      EndAllConcat(End(offset, |a[0]|), a[1..], b);
      assert (a + b)[1..] == a[1..] + b;
    }
  }

  lemma {:induction false} CutAllConcat(offset: nat, a: seq<Bytes>, b: seq<Bytes>)
    requires offset <= BLOCK_SIZE
    ensures CutAll(offset, a + b) == CutAll(offset, a) + CutAll(EndAll(offset, a), b)
    decreases |a|
  {
    if a == [] {
      assert a + b == b;
    } else {
      var next := End(offset, |a[0]|);
      CutAllConcat(next, a[1..], b);
      Joined(Cut(offset, a[0], true), CutAll(next, a[1..]), CutAll(EndAll(next, a[1..]), b));
      assert (a + b)[0] == a[0] && (a + b)[1..] == a[1..] + b;
    }
  }

  lemma Joined(x: seq<Piece>, y: seq<Piece>, z: seq<Piece>)
    ensures x + (y + z) == x + y + z
  {
  }

  // ---------------------------------------------------------------- the writer

  // What AddRecord has written so far, and what it has yet to write
  predicate Progress(offset0: nat, record: Bytes, done: seq<Piece>, offset: nat, data: Bytes, begin: bool, more: bool)
    requires offset0 <= BLOCK_SIZE && offset <= BLOCK_SIZE
  {
    && Cut(offset0, record, true) == done + (if more then Cut(offset, data, begin) else [])
    && End(offset0, |record|) == if more then End(offset, |data|) else offset
  }

  lemma Advance(offset0: nat, record: Bytes, done: seq<Piece>, offset: nat, data: Bytes, begin: bool)
    requires offset0 <= BLOCK_SIZE && offset <= BLOCK_SIZE && Progress(offset0, record, done, offset, data, begin, true)
    ensures var k := FragmentLength(offset, |data|);
            Progress(offset0, record, done + [NewPiece(offset, data, begin)], After(offset, |data|), data[k..], false, k < |data|)
  {
    var p, more := CutStep(offset, data, begin);
    assert done + ([p] + more) == done + [p] + more;
  }

  lemma LaidAppend(crc: Checksum, start: Bytes, done: seq<Piece>, p: Piece)
    requires Fits(p) && forall i :: 0 <= i < |done| ==> Fits(done[i])
    ensures start + Laid(crc, done + [p]) == start + Laid(crc, done) + PieceBytes(crc, p)
  {
    LaidConcat(crc, done, [p]);
    var x := PieceBytes(crc, p);
    assert Laid(crc, [p]) == x + [] == x;
  }

  lemma Finished(offset: nat, record: Bytes, done: seq<Piece>, offset': nat, data: Bytes, begin: bool)
    requires offset <= BLOCK_SIZE && offset' <= BLOCK_SIZE && Progress(offset, record, done, offset', data, begin, false)
    ensures Cut(offset, record, true) == done && End(offset, |record|) == offset'
  {
    assert done + [] == done;
  }

  class Writer {
    const crc: Checksum
    var dest: Bytes
    var blockOffset: nat
    ghost var blockStart: nat

    // A writer may take up a file that already holds a log.
    constructor (crc: Checksum, dest: Bytes)
      ensures Valid() && this.crc == crc && this.dest == dest && blockOffset == |dest| % BLOCK_SIZE
    {
      this.crc, this.dest := crc, dest;
      blockOffset := |dest| % BLOCK_SIZE;
      blockStart := |dest| - |dest| % BLOCK_SIZE;
    }

    ghost predicate Valid()
      reads this
    {
      blockOffset <= BLOCK_SIZE && blockStart % BLOCK_SIZE == 0 && |dest| == blockStart + blockOffset
    }

    // Before a fragment: switch to a new block if the header does not fit in this one.
    method FillTrailer()
      requires Valid()
      modifies this
      ensures Valid() && blockOffset == Start(old(blockOffset))
      ensures dest == old(dest) + Zeros(Trailer(old(blockOffset)))
    {
      var leftover := BLOCK_SIZE - blockOffset;
      if leftover < HEADER_SIZE {
        dest := dest + Zeros(leftover);
        blockOffset := 0;
        blockStart := blockStart + BLOCK_SIZE;
      }
    }

    method EmitPhysicalRecord(kind: Byte, payload: Bytes)
      requires Valid() && blockOffset + HEADER_SIZE + |payload| <= BLOCK_SIZE
      modifies this
      ensures Valid() && blockOffset == old(blockOffset) + HEADER_SIZE + |payload|
      ensures dest == old(dest) + Header(crc, kind, payload) + payload
    {
      dest := dest + Header(crc, kind, payload);
      dest := dest + payload;
      blockOffset := blockOffset + HEADER_SIZE + |payload|;
    }

    /** Appends the fragments of one record. */
    method AddRecord(record: Bytes)
      requires Valid()
      modifies this
      ensures Valid() && blockOffset == End(old(blockOffset), |record|)
      ensures forall p :: p in Cut(old(blockOffset), record, true) ==> Fits(p)
      ensures dest == old(dest) + Laid(crc, Cut(old(blockOffset), record, true))
    {
      var data, begin, more := record, true, true;
      ghost var done: seq<Piece> := [];
      while more
        invariant Valid() && forall i :: 0 <= i < |done| ==> Fits(done[i])
        invariant dest == old(dest) + Laid(crc, done)
        invariant Progress(old(blockOffset), record, done, blockOffset, data, begin, more)
        decreases more, |data|, Start(blockOffset)
      {
        ghost var p := NewPiece(blockOffset, data, begin);
        Advance(old(blockOffset), record, done, blockOffset, data, begin);
        var length := EmitFragment(data, begin);
        LaidAppend(crc, old(dest), done, p);
        done := done + [p];
        data := data[length..];
        begin := false;
        more := |data| > 0;
      }
      Finished(old(blockOffset), record, done, blockOffset, data, begin);
    }

    // One turn of AddRecord's loop
    method EmitFragment(data: Bytes, begin: bool) returns (length: nat)
      requires Valid()
      modifies this
      ensures Valid() && length == FragmentLength(old(blockOffset), |data|) && blockOffset == After(old(blockOffset), |data|)
      ensures Fits(NewPiece(old(blockOffset), data, begin))
      ensures dest == old(dest) + PieceBytes(crc, NewPiece(old(blockOffset), data, begin))
    {
      FillTrailer();
      var avail := BLOCK_SIZE - blockOffset - HEADER_SIZE;
      length := if |data| < avail then |data| else avail;
      var end := |data| == length;
      var kind := if begin && end then FULL_TYPE else if begin then FIRST_TYPE else if end then LAST_TYPE else MIDDLE_TYPE;
      EmitPhysicalRecord(kind, data[..length]);
      Associate(old(dest), Zeros(Trailer(old(blockOffset))), Header(crc, kind, data[..length]), data[..length]);
    }
  }

  lemma Associate(a: Bytes, b: Bytes, c: Bytes, d: Bytes)
    ensures a + b + c + d == a + (b + c + d)
  {
  }

  // ---------------------------------------------------------------- the reader

  predicate CrcMatches(crc: Checksum, buffer: Bytes, length: nat)
    requires HEADER_SIZE + length <= |buffer|
  {
    crc.matches(buffer[..4], buffer[6..HEADER_SIZE + length])
  }

  // The header at the head of the buffer belongs to this fragment, of which as much follows as the buffer holds.
  predicate HeaderSays(crc: Checksum, kind: Byte, payload: Bytes, buffer: Bytes)
    requires |buffer| >= HEADER_SIZE
  {
    && buffer[4] as nat + buffer[5] as nat * 0x100 == |payload| && buffer[6] == kind
    && (HEADER_SIZE + |payload| <= |buffer| ==>
          buffer[HEADER_SIZE..HEADER_SIZE + |payload|] == payload && CrcMatches(crc, buffer, |payload|))
  }

  lemma HeaderParses(crc: Checksum, kind: Byte, payload: Bytes, rest: Bytes, buffer: Bytes)
    requires |payload| <= 0xffff && |buffer| >= HEADER_SIZE && buffer <= Header(crc, kind, payload) + payload + rest
    ensures HeaderSays(crc, kind, payload, buffer)
  {
    var stored, whole := crc.stored([kind] + payload), Header(crc, kind, payload) + payload + rest;
    assert forall i :: 0 <= i < HEADER_SIZE ==> buffer[i] == whole[i] == Header(crc, kind, payload)[i];
    assert buffer[..4] == stored;
    assert HEADER_SIZE + |payload| <= |buffer| ==> buffer[6..HEADER_SIZE + |payload|] == [kind] + payload;
  }

  /** From pos on, the file holds the fragments with index in [i, c), and then a part, short of the whole, of
      the fragment c, if there is one. */
  ghost predicate Ahead(crc: Checksum, offset: nat, ps: seq<Piece>, i: nat, c: nat, file: Bytes, pos: nat)
    decreases c - i
  {
    && i <= c <= |ps| && offset <= BLOCK_SIZE && pos <= |file|
    && if i == |ps| then pos == |file|
       else
         var p := ps[i];
         var end := pos + p.trailer + HEADER_SIZE + |p.payload|;
         && Fits(p) && p.trailer == Trailer(offset) && Start(offset) + HEADER_SIZE + |p.payload| <= BLOCK_SIZE
         && if i == c then |file| < end && file[pos..] <= PieceBytes(crc, p)
            else end <= |file| && file[pos..end] == PieceBytes(crc, p)
                 && Ahead(crc, Start(offset) + HEADER_SIZE + |p.payload|, ps, i + 1, c, file, end)
  }

  // The fragment p comes next, though the file may end before its end.
  predicate Next(crc: Checksum, offset: nat, p: Piece, file: Bytes, pos: nat) {
    && offset <= BLOCK_SIZE && ZERO_TYPE < p.kind < EOF && Start(offset) + HEADER_SIZE + |p.payload| <= BLOCK_SIZE
    && (pos + Trailer(offset) + HEADER_SIZE <= |file| ==> HeaderSays(crc, p.kind, p.payload, file[pos + Trailer(offset)..]))
  }

  lemma InFile(file: Bytes, start: nat, buffer: Bytes, pos: nat)
    requires start + |buffer| == pos <= |file| && buffer == file[start..pos]
    ensures buffer <= file[start..]
  {
  }

  lemma InBuffer(crc: Checksum, kind: Byte, payload: Bytes, buffer: Bytes, unread: Bytes)
    requires HEADER_SIZE <= |buffer| && buffer <= unread && HeaderSays(crc, kind, payload, unread)
    ensures HeaderSays(crc, kind, payload, buffer)
  {
    var end := HEADER_SIZE + |payload|;
    if end <= |buffer| {
      assert buffer[HEADER_SIZE..end] == unread[HEADER_SIZE..end] && buffer[6..end] == unread[6..end];
      assert buffer[..4] == unread[..4];
    }
  }

  /** A fragment is taken from a place in the file where its header stands in front of it; if checksums are to be
      checked, the one in the header is right. */
  predicate FragmentAt(crc: Checksum, checksum: bool, file: Bytes, start: nat, kind: Byte, fragment: Bytes) {
    var end := start + HEADER_SIZE + |fragment|;
    && end <= |file| && file[start + 4] as nat + file[start + 5] as nat * 0x100 == |fragment| && file[start + 6] == kind
    && file[start + HEADER_SIZE..end] == fragment && (checksum ==> crc.matches(file[start..start + 4], file[start + 6..end]))
  }

  lemma SliceOfSlice(file: Bytes, start: nat, pos: nat, a: nat, b: nat)
    requires start <= pos <= |file| && a <= b <= pos - start
    ensures file[start..pos][a..b] == file[start + a..start + b]
  {
    var buffer := file[start..pos];
    var x, y := buffer[a..b], file[start + a..start + b];
    forall k | 0 <= k < b - a
      ensures x[k] == y[k]
    {
      assert x[k] == buffer[a + k] == file[start + a + k];
    }
    assert |x| == |y|;
  }

  // What the buffer holds of a fragment is what the file holds.
  lemma BufferInFile(crc: Checksum, checksum: bool, file: Bytes, start: nat, buffer: Bytes, pos: nat, length: nat)
    requires start + |buffer| == pos <= |file| && buffer == file[start..pos] && HEADER_SIZE + length <= |buffer|
    requires length == buffer[4] as nat + buffer[5] as nat * 0x100 && (checksum ==> CrcMatches(crc, buffer, length))
    ensures FragmentAt(crc, checksum, file, start, buffer[6], buffer[HEADER_SIZE..HEADER_SIZE + length])
  {
    SliceOfSlice(file, start, pos, 0, 4);
    SliceOfSlice(file, start, pos, 6, HEADER_SIZE + length);
    SliceOfSlice(file, start, pos, HEADER_SIZE, HEADER_SIZE + length);
  }

  datatype Status = More | Complete | AtEof

  class Reader {
    const crc: Checksum
    const checksum: bool
    const file: Bytes
    var pos: nat                 // how much of the file has been read into the buffer
    var buffer: Bytes
    var eof: bool
    var corruptions: seq<nat>    // the sizes of the drops reported

    constructor (crc: Checksum, file: Bytes, checksum: bool)
      ensures this.crc == crc && this.file == file && corruptions == []
      ensures InBlock(BLOCK_SIZE) && Position() == 0
    {
      this.crc, this.file, this.checksum := crc, file, checksum;
      pos, buffer, eof, corruptions := 0, [], false, [];
    }

    /** The unread part of the buffer begins at this offset of its block. */
    ghost predicate InBlock(offset: nat)
      reads this
    {
      && |buffer| <= pos <= |file| && buffer == file[pos - |buffer|..pos] && offset + |buffer| <= BLOCK_SIZE
      && (if eof then pos == |file| else offset + |buffer| == BLOCK_SIZE)
    }

    // How much of the file has been consumed
    ghost function Position(): nat
      requires |buffer| <= pos
      reads this
    {
      pos - |buffer|
    }

    ghost predicate InLog(offset: nat, ps: seq<Piece>, i: nat, c: nat)
      requires |buffer| <= pos
      reads this
    {
      Ahead(crc, offset, ps, i, c, file, Position())
    }

    method ReportCorruption(bytes: nat)
      modifies this`corruptions
      ensures corruptions == old(corruptions) + [bytes]
    {
      corruptions := corruptions + [bytes];
    }

    // Makes a whole header available, skipping the trailer of a block; false at the end of the file.
    method FillBuffer(ghost offset: nat) returns (more: bool)
      requires InBlock(offset)
      modifies this`pos, this`buffer, this`eof
      ensures if more then InBlock(Start(offset)) && |buffer| >= HEADER_SIZE && Position() == old(Position()) + Trailer(offset)
              else InBlock(BLOCK_SIZE) && Position() == |file| < old(Position()) + Trailer(offset) + HEADER_SIZE
    {
      ghost var at, before := offset, Position();
      while |buffer| < HEADER_SIZE
        invariant InBlock(at)
        invariant if at == offset then Position() == before else at == 0 == Start(offset) && Position() == before + Trailer(offset)
        decreases |file| - pos, !eof
      {
        if eof {
          buffer := [];
          return false;
        }
        ReadBlock(at);
        at := 0;
      }
      return true;
    }

    // file_->Read(kBlockSize, ...)
    method ReadBlock(ghost offset: nat)
      requires InBlock(offset) && !eof
      modifies this`pos, this`buffer, this`eof
      ensures InBlock(0) && Position() == old(pos) && pos == if |file| < old(pos) + BLOCK_SIZE then |file| else old(pos) + BLOCK_SIZE
    {
      buffer := file[pos..if pos + BLOCK_SIZE < |file| then pos + BLOCK_SIZE else |file|];
      pos := pos + |buffer|;
      eof := |buffer| < BLOCK_SIZE;
    }

    // Drops what is left of the buffer.
    method Discard(ghost offset: nat)
      requires InBlock(offset)
      modifies this`buffer
      ensures InBlock(BLOCK_SIZE) && Position() == old(pos)
    {
      buffer := [];
    }

    method RemovePrefix(n: nat, ghost offset: nat)
      requires InBlock(offset) && n <= |buffer|
      modifies this`buffer
      ensures InBlock(offset + n) && Position() == old(Position()) + n
    {
      buffer := buffer[n..];
    }

    // Looks at the header at the head of the buffer, reporting what is wrong with it.
    method CheckHeader(ghost kind0: Byte, ghost payload: Bytes, ghost inLog: bool) returns (good: bool, kind: Byte, length: nat)
      requires |buffer| >= HEADER_SIZE && (inLog ==> ZERO_TYPE < kind0 < EOF && HeaderSays(crc, kind0, payload, buffer))
      modifies this`corruptions
      ensures length == buffer[4] as nat + buffer[5] as nat * 0x100
      ensures good <==> HEADER_SIZE + length <= |buffer| && !(buffer[6] == ZERO_TYPE && length == 0)
                        && (checksum ==> CrcMatches(crc, buffer, length))
      ensures kind == if good then buffer[6] else if HEADER_SIZE + length > |buffer| && eof then EOF else BAD_RECORD
      ensures good ==> corruptions == old(corruptions)
      ensures !good && HEADER_SIZE + length <= |buffer| && !(buffer[6] == ZERO_TYPE && length == 0)
              ==> corruptions == old(corruptions) + [|buffer|]
      ensures HEADER_SIZE + length > |buffer| ==> corruptions == old(corruptions) + if eof then [] else [|buffer|]
      ensures inLog ==>
                if HEADER_SIZE + |payload| <= |buffer| then
                  good && kind == kind0 && length == |payload| && corruptions == old(corruptions)
                else eof ==> !good && kind == EOF && corruptions == old(corruptions)
    {
      good, kind, length := false, BAD_RECORD, buffer[4] as nat + buffer[5] as nat * 0x100;
      if HEADER_SIZE + length > |buffer| {
        if !eof {
          ReportCorruption(|buffer|);
        } else {
          kind := EOF;
        }
      } else if buffer[6] == ZERO_TYPE && length == 0 {
        // produced by preallocated file regions; skipped silently
      } else if checksum && !CrcMatches(crc, buffer, length) {
        ReportCorruption(|buffer|);
      } else {
        good, kind := true, buffer[6];
      }
    }

    method TakeFragment(length: nat, ghost offset: nat) returns (fragment: Bytes)
      requires InBlock(offset) && HEADER_SIZE + length <= |buffer| && length == buffer[4] as nat + buffer[5] as nat * 0x100
      requires checksum ==> CrcMatches(crc, buffer, length)
      modifies this`buffer
      ensures InBlock(offset + HEADER_SIZE + length) && Position() == old(Position()) + HEADER_SIZE + length
      ensures fragment == old(buffer)[HEADER_SIZE..HEADER_SIZE + length]
      ensures FragmentAt(crc, checksum, file, old(Position()), old(buffer)[6], fragment)
    {
      fragment := buffer[HEADER_SIZE..HEADER_SIZE + length];
      BufferInFile(crc, checksum, file, Position(), buffer, pos, length);
      RemovePrefix(HEADER_SIZE + length, offset);
    }

    /** The type and payload of the next fragment, or the end of the file if not all of it is there, in
        which case nothing is reported. */
    method ReadPhysicalRecord(ghost offset: nat, ghost p: Piece, ghost inLog: bool) returns (kind: Byte, fragment: Bytes, ghost offset': nat)
      requires InBlock(offset) && (inLog ==> Next(crc, offset, p, file, Position()))
      modifies this
      ensures InBlock(offset')
      ensures old(Position()) <= Position() && (kind != EOF ==> old(Position()) < Position())
      ensures kind != EOF && kind != BAD_RECORD ==> FragmentAt(crc, checksum, file, old(Position()) + Trailer(offset), kind, fragment)
      ensures inLog ==>
                && corruptions == old(corruptions)
                && var end := old(Position()) + Trailer(offset) + HEADER_SIZE + |p.payload|;
                   if |file| < end then kind == EOF
                   else kind == p.kind && fragment == p.payload && Position() == end
                        && offset' == Start(offset) + HEADER_SIZE + |p.payload|
    {
      ghost var start := Position();
      fragment := [];
      var more := FillBuffer(offset);
      if !more { return EOF, [], BLOCK_SIZE; }
      if inLog {
        InFile(file, start + Trailer(offset), buffer, pos);
        InBuffer(crc, p.kind, p.payload, buffer, file[start + Trailer(offset)..]);
      }
      var good, length;
      good, kind, length := CheckHeader(p.kind, p.payload, inLog);
      if !good {
        Discard(Start(offset));
        offset' := BLOCK_SIZE;
      } else {
        fragment := TakeFragment(length, Start(offset));
        offset' := Start(offset) + HEADER_SIZE + length;
      }
    }

    /** What ReadRecord reports when a fragment comes: what it drops.  The end of the file drops a record silently. */
    function Lost(kind: Byte, fragment: nat, scratch: nat, inFragmented: bool): seq<nat> {
      if kind == FULL_TYPE || kind == FIRST_TYPE then (if inFragmented && scratch > 0 then [scratch] else [])
      else if kind == MIDDLE_TYPE || kind == LAST_TYPE then (if inFragmented then [] else [fragment])
      else if kind == EOF then []
      else if kind == BAD_RECORD then (if inFragmented then [scratch] else [])
      else [fragment + if inFragmented then scratch else 0]
    }

    // What ReadRecord does with one fragment
    method AddFragment(kind: Byte, fragment: Bytes, scratch: Bytes, inFragmented: bool)
      returns (status: Status, scratch': Bytes, inFragmented': bool)
      modifies this`corruptions
      ensures kind == FULL_TYPE ==> status.Complete? && scratch' == fragment
      ensures kind == FIRST_TYPE ==> status.More? && inFragmented' && scratch' == fragment
      ensures kind == MIDDLE_TYPE && inFragmented ==> status.More? && inFragmented' && scratch' == scratch + fragment
      ensures kind == LAST_TYPE && inFragmented ==> status.Complete? && scratch' == scratch + fragment
      ensures kind == MIDDLE_TYPE || kind == LAST_TYPE ==> inFragmented || (status.More? && !inFragmented' && scratch' == scratch)
      ensures kind == EOF <==> status.AtEof?
      ensures kind !in {FULL_TYPE, FIRST_TYPE, MIDDLE_TYPE, LAST_TYPE, EOF} ==> status.More? && !inFragmented' && scratch' == []
      ensures corruptions == old(corruptions) + Lost(kind, |fragment|, |scratch|, inFragmented)
    {
      status, scratch', inFragmented' := More, scratch, inFragmented;
      if kind == FULL_TYPE || kind == FIRST_TYPE {
        // An earlier writer could leave an empty first fragment at the end of a block.
        if inFragmented && scratch != [] {
          ReportCorruption(|scratch|);
        }
        scratch', inFragmented' := fragment, true;
        if kind == FULL_TYPE {
          status := Complete;
        }
      } else if kind == MIDDLE_TYPE || kind == LAST_TYPE {
        if !inFragmented {
          ReportCorruption(|fragment|);
        } else {
          scratch' := scratch + fragment;
          if kind == LAST_TYPE {
            status := Complete;
          }
        }
      } else if kind == EOF {
        // The writer may have died between fragments: the record is ignored and nothing is reported.
        status := AtEof;
      } else {
        if kind != BAD_RECORD {
          ReportCorruption(|fragment| + if inFragmented then |scratch| else 0);
        } else if inFragmented {
          ReportCorruption(|scratch|);
        }
        scratch', inFragmented' := [], false;
      }
    }

    // In a log, ReadPhysicalRecord gives the next fragment written.
    method NextFragment(ghost offset: nat, ghost ps: seq<Piece>, ghost i: nat, ghost c: nat, ghost inLog: bool)
      returns (kind: Byte, fragment: Bytes, ghost offset': nat)
      requires InBlock(offset) && (inLog ==> InLog(offset, ps, i, c))
      modifies this
      ensures InBlock(offset')
      ensures old(Position()) <= Position() && (kind != EOF ==> old(Position()) < Position())
      ensures inLog ==> i <= c <= |ps| && corruptions == old(corruptions)
      ensures inLog && i == c ==> kind == EOF
      ensures inLog && i < c ==> kind == ps[i].kind && fragment == ps[i].payload && InLog(offset', ps, i + 1, c)
    {
      ghost var p := Piece(0, FULL_TYPE, []);
      if inLog {
        p := NextAhead(crc, offset, ps, i, c, file, Position());
      }
      kind, fragment, offset' := ReadPhysicalRecord(offset, p, inLog);
    }

    /** The next record.  In a log, the fragments that make up a record are put together; if the file ends
        before the last of them, so do the records.  Nothing is reported. */
    method ReadRecord(ghost offset: nat, ghost ps: seq<Piece>, ghost c: nat, ghost i0: nat, ghost i1: nat, ghost complete: bool, ghost inLog: bool)
      returns (ok: bool, record: Bytes, ghost offset': nat)
      requires InBlock(offset)
      requires inLog ==>
                 && InLog(offset, ps, i0, c) && Tagged(ps, i0, i1, complete)
                 && (if complete then i0 < i1 <= c else i1 == c)
      modifies this
      ensures InBlock(offset')
      ensures ok ==> old(Position()) < Position()
      ensures inLog ==>
                && corruptions == old(corruptions) && ok == complete
                && (complete ==> record == Join(ps, i0, i1) && InLog(offset', ps, i1, c))
    {
      ghost var i: nat, before := i0, Position();
      var scratch: Bytes, inFragmented, status := [], false, More;
      offset' := offset;
      while status.More?
        invariant InBlock(offset') && before <= Position() && (status.Complete? ==> before < Position())
        invariant inLog ==> corruptions == old(corruptions) && i0 <= i <= i1 <= |ps|
        invariant inLog ==> if status.AtEof? then i == i1 && !complete else scratch == Join(ps, i0, i) && InLog(offset', ps, i, c)
        invariant inLog && status.More? ==> inFragmented == (i > i0) && (complete ==> i < i1)
        invariant inLog && status.Complete? ==> complete && i == i1
        decreases |file| - Position(), status.More?
      {
        var kind, fragment;
        kind, fragment, offset' := NextFragment(offset', ps, i, c, inLog);
        status, scratch, inFragmented := AddFragment(kind, fragment, scratch, inFragmented);
        i := if status.AtEof? then i else i + 1;
      }
      ok, record := status.Complete?, if status.Complete? then scratch else [];
    }
  }

  lemma NextAhead(crc: Checksum, offset: nat, ps: seq<Piece>, i: nat, c: nat, file: Bytes, pos: nat) returns (p: Piece)
    requires Ahead(crc, offset, ps, i, c, file, pos)
    ensures Next(crc, offset, p, file, pos)
    ensures var end := pos + Trailer(offset) + HEADER_SIZE + |p.payload|;
            && (i == c <==> |file| < end)
            && (i < c ==> p == ps[i] && Ahead(crc, Start(offset) + HEADER_SIZE + |p.payload|, ps, i + 1, c, file, end))
  {
    p := if i == |ps| then Piece(Trailer(offset), FULL_TYPE, []) else ps[i];
    var start, end := pos + p.trailer, pos + p.trailer + HEADER_SIZE + |p.payload|;
    if start + HEADER_SIZE <= |file| {
      var rest := if i == c then [] else file[end..];
      assert file[pos..] <= PieceBytes(crc, p) + rest;
      PastTrailer(crc, p, file[pos..], rest);
      assert file[pos..][p.trailer..] == file[start..];
      HeaderParses(crc, p.kind, p.payload, rest, file[start..]);
    }
  }

  lemma PastTrailer(crc: Checksum, p: Piece, before: Bytes, rest: Bytes)
    requires Fits(p) && before <= PieceBytes(crc, p) + rest && p.trailer <= |before|
    ensures before[p.trailer..] <= Header(crc, p.kind, p.payload) + p.payload + rest
  {
    assert (PieceBytes(crc, p) + rest)[p.trailer..] == Header(crc, p.kind, p.payload) + p.payload + rest;
  }

  // ---------------------------------------------------------------- whole logs

  /** The log that holds these records, written from an empty file. */
  function LogBytes(crc: Checksum, records: seq<Bytes>): Bytes {
    CutAllPlaced(0, records);
    PlacedFits(0, CutAll(0, records));
    Laid(crc, CutAll(0, records))
  }

  method WriteLog(crc: Checksum, records: seq<Bytes>) returns (file: Bytes)
    ensures file == LogBytes(crc, records)
  {
    var w := new Writer(crc, []);
    for m := 0 to |records|
      invariant fresh(w) && w.Valid() && w.crc == crc
      invariant w.blockOffset == EndAll(0, records[..m]) && w.dest == LogBytes(crc, records[..m])
    {
      w.AddRecord(records[m]);
      LogAppend(crc, records[..m], records[m]);
      assert records[..m + 1] == records[..m] + [records[m]];
    }
    assert records[..|records|] == records;
    file := w.dest;
  }

  lemma LogAppend(crc: Checksum, records: seq<Bytes>, record: Bytes)
    ensures EndAll(0, records + [record]) == End(EndAll(0, records), |record|)
    ensures forall p :: p in Cut(EndAll(0, records), record, true) ==> Fits(p)
    ensures LogBytes(crc, records + [record]) == LogBytes(crc, records) + Laid(crc, Cut(EndAll(0, records), record, true))
  {
    var offset := EndAll(0, records);
    var ps := Cut(offset, record, true);
    CutAllConcat(0, records, [record]);
    EndAllConcat(0, records, [record]);
    assert CutAll(offset, [record]) == ps + [] == ps;
    CutPlaced(offset, record, true, []);
    assert ps + [] == ps;
    PlacedFits(offset, ps);
    CutAllPlaced(0, records);
    PlacedFits(0, CutAll(0, records));
    LaidConcat(crc, CutAll(0, records), ps);
  }

  /** A prefix of laid-out fragments holds some of them, and a part of the one that follows. */
  lemma {:induction false} PrefixAhead(crc: Checksum, offset: nat, ps: seq<Piece>, i: nat, file: Bytes, pos: nat) returns (c: nat)
    requires i <= |ps| && pos <= |file| && Placed(offset, ps[i..]) && forall k :: 0 <= k < |ps| ==> Fits(ps[k])
    requires file[pos..] <= Laid(crc, ps[i..])
    ensures Ahead(crc, offset, ps, i, c, file, pos)
    decreases |ps| - i
  {
    if i == |ps| {
      c := i;
    } else {
      var p := ps[i];
      var end := pos + |PieceBytes(crc, p)|;
      PlacedFirst(offset, ps, i);
      LaidFirst(crc, ps, i, |ps|);
      assert ps[i..|ps|] == ps[i..] && ps[i + 1..|ps|] == ps[i + 1..];
      if |file| < end {
        c := i;
        PrefixOfFirst(file[pos..], PieceBytes(crc, p), Laid(crc, ps[i + 1..]));
      } else {
        PrefixOfRest(file, pos, end, PieceBytes(crc, p), Laid(crc, ps[i + 1..]));
        c := PrefixAhead(crc, Start(offset) + HEADER_SIZE + |p.payload|, ps, i + 1, file, end);
      }
    }
  }

  lemma {:induction false} AheadLength(crc: Checksum, offset: nat, ps: seq<Piece>, i: nat, c: nat, file: Bytes, pos: nat)
    requires Ahead(crc, offset, ps, i, c, file, pos) && forall k :: 0 <= k < |ps| ==> Fits(ps[k])
    ensures pos + |Laid(crc, ps[i..c])| <= |file| && (c < |ps| ==> |file| < pos + |Laid(crc, ps[i..c + 1])|)
    decreases c - i
  {
    if i < |ps| {
      if i < c {
        AheadLength(crc, Start(offset) + HEADER_SIZE + |ps[i].payload|, ps, i + 1, c, file, pos + |PieceBytes(crc, ps[i])|);
        LaidFirst(crc, ps, i, c);
      }
      if c < |ps| {
        LaidFirst(crc, ps, i, c + 1);
      }
    }
  }

  lemma PlacedFirst(offset: nat, ps: seq<Piece>, i: nat)
    requires i < |ps| && Placed(offset, ps[i..])
    ensures offset <= BLOCK_SIZE && Fits(ps[i]) && ps[i].trailer == Trailer(offset)
    ensures Start(offset) + HEADER_SIZE + |ps[i].payload| <= BLOCK_SIZE
    ensures Placed(Start(offset) + HEADER_SIZE + |ps[i].payload|, ps[i + 1..])
  {
    assert ps[i..][0] == ps[i] && ps[i..][1..] == ps[i + 1..];
  }

  lemma LaidFirst(crc: Checksum, ps: seq<Piece>, i: nat, j: nat)
    requires i < j <= |ps| && forall k :: 0 <= k < |ps| ==> Fits(ps[k])
    ensures Laid(crc, ps[i..j]) == PieceBytes(crc, ps[i]) + Laid(crc, ps[i + 1..j])
  {
    assert ps[i..j][1..] == ps[i + 1..j];
  }

  lemma PrefixOfFirst(unread: Bytes, first: Bytes, rest: Bytes)
    requires unread <= first + rest && |unread| < |first|
    ensures unread <= first
  {
  }

  lemma PrefixOfRest(file: Bytes, pos: nat, end: nat, first: Bytes, rest: Bytes)
    requires pos + |first| == end <= |file| && file[pos..] <= first + rest
    ensures file[pos..end] == first && file[end..] <= rest
  {
    assert file[pos..][..|first|] == file[pos..end] && file[pos..][|first|..] == file[end..];
    assert (first + rest)[|first|..] == rest;
  }

  lemma LaidGrows(crc: Checksum, ps: seq<Piece>, a: nat, b: nat)
    requires a <= b <= |ps| && forall i :: 0 <= i < |ps| ==> Fits(ps[i])
    ensures |Laid(crc, ps[..a])| <= |Laid(crc, ps[..b])|
  {
    assert ps[..b] == ps[..a] + ps[a..b];
    LaidConcat(crc, ps[..a], ps[a..b]);
  }

  lemma CutPrefix(records: seq<Bytes>, k: nat)
    requires k <= |records|
    ensures CutAll(0, records[..k]) <= CutAll(0, records)
  {
    assert records == records[..k] + records[k..];
    CutAllConcat(0, records[..k], records[k..]);
  }

  function Count(records: seq<Bytes>, m: nat): nat
    requires m <= |records|
  {
    |CutAll(0, records[..m])|
  }

  lemma Within(a: seq<Piece>, b: seq<Piece>, c: seq<Piece>)
    requires Tagged(b, 0, |b|, true)
    ensures Tagged(a + b + c, |a|, |a + b|, true) && Join(a + b + c, |a|, |a + b|) == Join(b, 0, |b|)
  {
    JoinWithin(a, b, c, |b|);
    forall k: nat | |a| <= k < |a + b|
      ensures (a + b + c)[k] == b[k - |a|]
    {
    }
  }

  // Where the fragments of record m lie among all
  lemma RecordPieces(records: seq<Bytes>, m: nat)
    requires m < |records|
    ensures Count(records, m) < Count(records, m + 1) <= |CutAll(0, records)|
    ensures Tagged(CutAll(0, records), Count(records, m), Count(records, m + 1), true)
    ensures Join(CutAll(0, records), Count(records, m), Count(records, m + 1)) == records[m]
  {
    var before, offset := CutAll(0, records[..m]), EndAll(0, records[..m]);
    var cut := Cut(offset, records[m], true);
    assert records[..m + 1] == records[..m] + [records[m]];
    CutAllConcat(0, records[..m], [records[m]]);
    assert CutAll(offset, [records[m]]) == cut + [] == cut;
    CutTagged(offset, records[m], true);
    CutJoins(offset, records[m], true);
    CutPrefix(records, m + 1);
    var rest := CutAll(0, records)[|before + cut|..];
    assert CutAll(0, records) == before + cut + rest;
    Within(before, cut, rest);
  }

  // What the reader will find after m records, if the first c fragments are there as a whole
  lemma NextRecord(records: seq<Bytes>, m: nat, c: nat) returns (i1: nat, complete: bool)
    requires m <= |records| && Count(records, m) <= c <= |CutAll(0, records)|
    ensures Tagged(CutAll(0, records), Count(records, m), i1, complete) && (if complete then Count(records, m) < i1 <= c else i1 == c)
    ensures complete ==> m < |records| && i1 == Count(records, m + 1) && Join(CutAll(0, records), Count(records, m), i1) == records[m]
    ensures !complete && m < |records| ==> c < Count(records, m + 1)
  {
    if m == |records| {
      assert records[..m] == records;
      i1, complete := c, false;
    } else {
      RecordPieces(records, m);
      complete := Count(records, m + 1) <= c;
      i1 := if complete then Count(records, m + 1) else c;
    }
  }

  // The loop of RecoverLogFile, on a log of whose fragments the first c are there as a whole
  method ReadRecords(reader: Reader, ghost offset: nat, ghost records: seq<Bytes>, ghost c: nat, ghost inLog: bool) returns (out: seq<Bytes>)
    requires reader.InBlock(offset)
    requires inLog ==> reader.InLog(offset, CutAll(0, records), 0, c)
    modifies reader
    ensures inLog ==> reader.corruptions == old(reader.corruptions) && FirstRecords(records, c, out)
  {
    ghost var at := offset;
    assert records[..0] == [];
    out := [];
    while true
      invariant reader.InBlock(at)
      invariant inLog ==>
                  && reader.corruptions == old(reader.corruptions)
                  && |out| <= |records| && out == records[..|out|] && Count(records, |out|) <= c
                  && reader.InLog(at, CutAll(0, records), Count(records, |out|), c)
      decreases |reader.file| - reader.Position()
    {
      ghost var i0, i1, complete := 0, 0, false;
      if inLog {
        i0 := Count(records, |out|);
        i1, complete := NextRecord(records, |out|, c);
      }
      var ok, record;
      ok, record, at := reader.ReadRecord(at, CutAll(0, records), c, i0, i1, complete, inLog);
      if !ok { break; }
      out := out + [record];
    }
  }

  ghost predicate FirstRecords(records: seq<Bytes>, c: nat, out: seq<Bytes>) {
    && |out| <= |records| && out == records[..|out|] && Count(records, |out|) <= c
    && (|out| < |records| ==> c < Count(records, |out| + 1))
  }

  /** Reads a log until the reader has no more: exactly the records that are there as a whole. */
  method ReadLog(crc: Checksum, file: Bytes, checksum: bool, ghost records: seq<Bytes>) returns (out: seq<Bytes>, corruptions: seq<nat>)
    ensures file <= LogBytes(crc, records) ==>
              && corruptions == [] && out <= records && |LogBytes(crc, out)| <= |file|
              && (|out| < |records| ==> |file| < |LogBytes(crc, records[..|out| + 1])|)
  {
    var reader := new Reader(crc, file, checksum);
    ghost var c, inLog := 0, file <= LogBytes(crc, records);
    if inLog {
      c := BeginLog(crc, file, records);
    }
    out := ReadRecords(reader, BLOCK_SIZE, records, c, inLog);
    corruptions := reader.corruptions;
    if inLog {
      WholeRecords(crc, file, records, c, |out|);
    }
  }

  lemma BeginLog(crc: Checksum, file: Bytes, records: seq<Bytes>) returns (c: nat)
    requires file <= LogBytes(crc, records)
    ensures Ahead(crc, BLOCK_SIZE, CutAll(0, records), 0, c, file, 0)
    ensures var all := CutAll(0, records);
            && c <= |all| && (forall i :: 0 <= i < |all| ==> Fits(all[i]))
            && |Laid(crc, all[..c])| <= |file| && (c < |all| ==> |file| < |Laid(crc, all[..c + 1])|)
  {
    var all := CutAll(0, records);
    CutAllPlaced(0, records);
    PlacedFits(0, all);
    assert all[0..] == all && file[0..] == file;
    c := PrefixAhead(crc, BLOCK_SIZE, all, 0, file, 0);
    AheadLength(crc, BLOCK_SIZE, all, 0, c, file, 0);
    assert all[0..c] == all[..c] && (c < |all| ==> all[0..c + 1] == all[..c + 1]);
  }

  lemma WholeRecords(crc: Checksum, file: Bytes, records: seq<Bytes>, c: nat, m: nat)
    requires var all := CutAll(0, records);
             && c <= |all| && (forall i :: 0 <= i < |all| ==> Fits(all[i]))
             && |Laid(crc, all[..c])| <= |file| && (c < |all| ==> |file| < |Laid(crc, all[..c + 1])|)
    requires m <= |records| && Count(records, m) <= c && (m < |records| ==> c < Count(records, m + 1))
    ensures |LogBytes(crc, records[..m])| <= |file|
    ensures m < |records| ==> |file| < |LogBytes(crc, records[..m + 1])|
  {
    var all, j := CutAll(0, records), |CutAll(0, records[..m])|;
    CutPrefix(records, m);
    assert all[..j] == CutAll(0, records[..m]);
    LaidGrows(crc, all, j, c);
    if m < |records| {
      CutPrefix(records, m + 1);
      var k := |CutAll(0, records[..m + 1])|;
      assert all[..k] == CutAll(0, records[..m + 1]);
      LaidGrows(crc, all, c + 1, k);
    }
  }

  /** Durability of the log: whatever the records and wherever the file is cut off, reading it gives
      exactly the records that lie wholly in what is left, in order, and reports no corruption. */
  method WriteTruncateRead(value: Bytes -> Uint32, records: seq<Bytes>, n: nat, checksum: bool) returns (out: seq<Bytes>, corruptions: seq<nat>)
    requires n <= |LogBytes(MaskedCrc(value), records)|
    ensures corruptions == [] && out <= records && |LogBytes(MaskedCrc(value), out)| <= n
    ensures |out| < |records| ==> n < |LogBytes(MaskedCrc(value), records[..|out| + 1])|
    ensures n == |LogBytes(MaskedCrc(value), records)| ==> out == records
  {
    var crc := MaskedCrc(value);
    var file := WriteLog(crc, records);
    out, corruptions := ReadLog(crc, file[..n], checksum, records);
    ghost var all := CutAll(0, records);
    if |out| < |records| {
      var more := records[..|out| + 1];
      assert records == more + records[|out| + 1..];
      CutAllConcat(0, more, records[|out| + 1..]);
      CutAllPlaced(0, records);
      PlacedFits(0, all);
      assert all[..|CutAll(0, more)|] == CutAll(0, more) && all[..|all|] == all;
      LaidGrows(crc, all, |CutAll(0, more)|, |all|);
    }
  }
}
