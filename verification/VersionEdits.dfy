/** The encoding of version edits (db/version_edit.cc).  Decoding into a cleared edit restores the edit
    that was encoded, except that clearing keeps the compaction pointers. */
module VersionEdits {
  import opened Keys
  import opened Coding

  const NUM_LEVELS: nat := 7

  datatype NewFile = NewFile(level: nat, number: nat, fileSize: nat, smallest: Bytes, largest: Bytes)

  /** What an edit says */
  datatype Edit = Edit(comparator: Option<Bytes>, logNumber: Option<nat>, prevLogNumber: Option<nat>, nextFileNumber: Option<nat>,
                       lastSequence: Option<nat>, compactPointers: seq<(nat, Bytes)>, deletedFiles: set<(nat, nat)>, newFiles: seq<NewFile>)

  const EMPTY: Edit := Edit(None, None, None, None, None, [], {}, [])

  // VersionEdit::Clear
  function Cleared(e: Edit): Edit {
    EMPTY.(compactPointers := e.compactPointers)
  }

  // ---------------------------------------------------------------- records

  datatype Record =
    | Comparator(name: Bytes)
    | LogNumber(n: nat)
    | PrevLogNumber(n: nat)
    | NextFileNumber(n: nat)
    | LastSequence(n: nat)
    | CompactPointer(level: nat, key: Bytes)
    | DeletedFile(level: nat, n: nat)
    | AddedFile(file: NewFile)

  function Tag(r: Record): nat {
    match r
    case Comparator(_) => 1
    case LogNumber(_) => 2
    case NextFileNumber(_) => 3
    case LastSequence(_) => 4
    case CompactPointer(_, _) => 5
    case DeletedFile(_, _) => 6
    case AddedFile(_) => 7
    case PrevLogNumber(_) => 9
  }

  // What follows the tag, piece by piece
  function Body(r: Record): seq<Bytes> {
    match r
    case Comparator(name) => [Delimited(name)]
    case CompactPointer(level, key) => [Varint(level), Delimited(key)]
    case DeletedFile(level, n) => [Varint(level), Varint(n)]
    case AddedFile(f) => [Varint(f.level), Varint(f.number), Varint(f.fileSize), Delimited(f.smallest), Delimited(f.largest)]
    case _ => [Varint(r.n)]
  }

  function RecordBytes(r: Record): Bytes {
    Varint(Tag(r)) + Flat(Body(r), 0)
  }

  function Parts(rs: seq<Record>): (p: seq<Bytes>)
    ensures |p| == |rs|
  {
    seq(|rs|, i requires 0 <= i < |rs| => RecordBytes(rs[i]))
  }

  predicate Number(n: nat) {
    n < 0x1_0000_0000_0000_0000
  }

  predicate Short(b: Bytes) {
    |b| < 0x1_0000_0000
  }

  predicate Storable(r: Record) {
    match r
    case Comparator(name) => Short(name)
    case CompactPointer(level, key) => level < NUM_LEVELS && Short(key)
    case DeletedFile(level, n) => level < NUM_LEVELS && Number(n)
    case AddedFile(f) => f.level < NUM_LEVELS && Number(f.number) && Number(f.fileSize) && Short(f.smallest) && Short(f.largest)
    case _ => Number(r.n)
  }

  // What the record does to the edit that is being decoded
  function Apply(e: Edit, r: Record): Edit {
    match r
    case Comparator(name) => e.(comparator := Some(name))
    case LogNumber(n) => e.(logNumber := Some(n))
    case PrevLogNumber(n) => e.(prevLogNumber := Some(n))
    case NextFileNumber(n) => e.(nextFileNumber := Some(n))
    case LastSequence(n) => e.(lastSequence := Some(n))
    case CompactPointer(level, key) => e.(compactPointers := e.compactPointers + [(level, key)])
    case DeletedFile(level, n) => e.(deletedFiles := e.deletedFiles + {(level, n)})
    case AddedFile(f) => e.(newFiles := e.newFiles + [f])
  }

  function Applied(e: Edit, rs: seq<Record>, k: nat): Edit
    requires k <= |rs|
  {
    if k == 0 then e else Apply(Applied(e, rs, k - 1), rs[k - 1])
  }

  lemma {:induction false} AppliedPrefix(e: Edit, rs: seq<Record>, more: seq<Record>, k: nat)
    requires k <= |rs|
    ensures Applied(e, rs + more, k) == Applied(e, rs, k)
  {
    if k > 0 {
      AppliedPrefix(e, rs, more, k - 1);
    }
  }

  /** Compaction pointers that were there stay in front; nothing else depends on them. */
  lemma {:induction false} AppliedAfter(pointers: seq<(nat, Bytes)>, rs: seq<Record>, k: nat)
    requires k <= |rs|
    ensures var e := Applied(EMPTY, rs, k);
            Applied(EMPTY.(compactPointers := pointers), rs, k) == e.(compactPointers := pointers + e.compactPointers)
  {
    if k > 0 {
      AppliedAfter(pointers, rs, k - 1);
    }
  }

  // ---------------------------------------------------------------- EncodeTo

  // The bytes of the records that say e
  ghost predicate Written(dst: Bytes, rs: seq<Record>, e: Edit) {
    && AllStorable(rs)
    && dst == Flat(Parts(rs), 0) && Applied(EMPTY, rs, |rs|) == e
  }

  method PutRecord(dst: Bytes, r: Record, ghost rs: seq<Record>, ghost e: Edit) returns (to: Bytes, ghost rs': seq<Record>)
    requires Storable(r) && Written(dst, rs, e)
    ensures Written(to, rs', Apply(e, r))
  {
    rs' := rs + [r];
    AppliedPrefix(EMPTY, rs, [r], |rs|);
    OneMore(rs, r);
    to := dst + ([Tag(r)] + Flat(Body(r), 0));
  }

  lemma OneMore(rs: seq<Record>, r: Record)
    ensures Flat(Parts(rs + [r]), 0) == Flat(Parts(rs), 0) + ([Tag(r)] + Flat(Body(r), 0))
  {
    var one := Parts([r]);
    FlatConcat(Parts(rs), one, 0);
    assert Parts(rs + [r]) == Parts(rs) + one;
    assert Flat(one, 1) == [] && one[0] == RecordBytes(r);
    assert Varint(Tag(r)) == [Tag(r)];
  }

  ghost predicate EditStorable(e: Edit) {
    && (e.comparator.Some? ==> Short(e.comparator.value))
    && (e.logNumber.Some? ==> Number(e.logNumber.value)) && (e.prevLogNumber.Some? ==> Number(e.prevLogNumber.value))
    && (e.nextFileNumber.Some? ==> Number(e.nextFileNumber.value)) && (e.lastSequence.Some? ==> Number(e.lastSequence.value))
    && (forall i: nat {:trigger e.compactPointers[i]} :: i < |e.compactPointers| ==>
          Storable(CompactPointer(e.compactPointers[i].0, e.compactPointers[i].1)))
    && (forall x {:trigger x in e.deletedFiles} :: x in e.deletedFiles ==> Storable(DeletedFile(x.0, x.1)))
    && (forall i: nat {:trigger e.newFiles[i]} :: i < |e.newFiles| ==> Storable(AddedFile(e.newFiles[i])))
  }

  // The single fields, those that are set
  method EncodeFields(e: Edit) returns (dst: Bytes, ghost rs: seq<Record>)
    requires EditStorable(e)
    ensures Written(dst, rs, e.(compactPointers := [], deletedFiles := {}, newFiles := []))
  {
    dst, rs := [], [];
    ghost var w := EMPTY;
    if e.comparator.Some? {
      dst, rs := PutRecord(dst, Comparator(e.comparator.value), rs, w);
      w := w.(comparator := e.comparator);
    }
    if e.logNumber.Some? {
      dst, rs := PutRecord(dst, LogNumber(e.logNumber.value), rs, w);
      w := w.(logNumber := e.logNumber);
    }
    if e.prevLogNumber.Some? {
      dst, rs := PutRecord(dst, PrevLogNumber(e.prevLogNumber.value), rs, w);
      w := w.(prevLogNumber := e.prevLogNumber);
    }
    if e.nextFileNumber.Some? {
      dst, rs := PutRecord(dst, NextFileNumber(e.nextFileNumber.value), rs, w);
      w := w.(nextFileNumber := e.nextFileNumber);
    }
    if e.lastSequence.Some? {
      dst, rs := PutRecord(dst, LastSequence(e.lastSequence.value), rs, w);
      w := w.(lastSequence := e.lastSequence);
    }
  }

  method EncodePointers(dst0: Bytes, pointers: seq<(nat, Bytes)>, ghost rs0: seq<Record>, ghost w: Edit) returns (dst: Bytes, ghost rs: seq<Record>)
    requires Written(dst0, rs0, w) && w.compactPointers == []
    requires forall i: nat {:trigger pointers[i]} :: i < |pointers| ==> Storable(CompactPointer(pointers[i].0, pointers[i].1))
    ensures Written(dst, rs, w.(compactPointers := pointers))
  {
    dst, rs := dst0, rs0;
    assert w == w.(compactPointers := pointers[..0]);
    for i := 0 to |pointers|
      invariant Written(dst, rs, w.(compactPointers := pointers[..i]))
    {
      var r := CompactPointer(pointers[i].0, pointers[i].1);
      dst, rs := PutRecord(dst, r, rs, w.(compactPointers := pointers[..i]));
      assert pointers[..i] + [pointers[i]] == pointers[..i + 1];
    }
    assert pointers[..|pointers|] == pointers;
  }

  // The deleted files come in the order of the set, which does not matter.
  method EncodeDeleted(dst0: Bytes, files: set<(nat, nat)>, ghost rs0: seq<Record>, ghost w: Edit) returns (dst: Bytes, ghost rs: seq<Record>)
    requires Written(dst0, rs0, w) && w.deletedFiles == {}
    requires forall x {:trigger x in files} :: x in files ==> Storable(DeletedFile(x.0, x.1))
    ensures Written(dst, rs, w.(deletedFiles := files))
  {
    dst, rs := dst0, rs0;
    var left := files;
    ghost var done: set<(nat, nat)> := {};
    assert w == w.(deletedFiles := done);
    while left != {}
      invariant left <= files && done == files - left && Written(dst, rs, w.(deletedFiles := done))
      decreases |left|
    {
      var x :| x in left;
      dst, rs := PutRecord(dst, DeletedFile(x.0, x.1), rs, w.(deletedFiles := done));
      left := left - {x};
      done := done + {x};
    }
    assert done == files;
  }

  method EncodeNewFiles(dst0: Bytes, files: seq<NewFile>, ghost rs0: seq<Record>, ghost w: Edit) returns (dst: Bytes, ghost rs: seq<Record>)
    requires Written(dst0, rs0, w) && w.newFiles == []
    requires forall i: nat {:trigger files[i]} :: i < |files| ==> Storable(AddedFile(files[i]))
    ensures Written(dst, rs, w.(newFiles := files))
  {
    dst, rs := dst0, rs0;
    assert w == w.(newFiles := files[..0]);
    for i := 0 to |files|
      invariant Written(dst, rs, w.(newFiles := files[..i]))
    {
      dst, rs := PutRecord(dst, AddedFile(files[i]), rs, w.(newFiles := files[..i]));
      assert files[..i] + [files[i]] == files[..i + 1];
    }
    assert files[..|files|] == files;
  }

  /** The bytes are those of records that say what the edit says. */
  method EncodeTo(e: Edit) returns (dst: Bytes, ghost rs: seq<Record>)
    requires EditStorable(e)
    ensures Written(dst, rs, e)
  {
    dst, rs := EncodeFields(e);
    ghost var w := e.(compactPointers := [], deletedFiles := {}, newFiles := []);
    dst, rs := EncodePointers(dst, e.compactPointers, rs, w);
    w := w.(compactPointers := e.compactPointers);
    dst, rs := EncodeDeleted(dst, e.deletedFiles, rs, w);
    w := w.(deletedFiles := e.deletedFiles);
    dst, rs := EncodeNewFiles(dst, e.newFiles, rs, w);
  }

  // ---------------------------------------------------------------- DecodeFrom

  // pieces[i..] are what the data holds from p on.
  ghost predicate PiecesAt(data: Bytes, p: nat, pieces: seq<Bytes>, i: nat) {
    i <= |pieces| && p + |Flat(pieces, i)| <= |data| && data[p..p + |Flat(pieces, i)|] == Flat(pieces, i)
  }

  lemma NextPiece(data: Bytes, p: nat, pieces: seq<Bytes>, i: nat)
    requires PiecesAt(data, p, pieces, i) && i < |pieces|
    ensures p + |pieces[i]| <= |data| && data[p..p + |pieces[i]|] == pieces[i] && PiecesAt(data, p + |pieces[i]|, pieces, i + 1)
    ensures |Flat(pieces, i)| == |pieces[i]| + |Flat(pieces, i + 1)|
  {
    FlatFront(data, p, p + |Flat(pieces, i)|, pieces, i);
  }

  // GetLevel, GetVarint64 and GetInternalKey, for the i-th piece of a record
  method GetLevel(data: Bytes, p: nat, ghost level: nat, ghost pieces: seq<Bytes>, ghost i: nat) returns (r: Option<(nat, nat)>)
    requires p <= |data|
    ensures r.Some? ==> p < r.value.1 <= |data| && r.value.0 < NUM_LEVELS
    ensures PiecesAt(data, p, pieces, i) && i < |pieces| && pieces[i] == Varint(level) && level < NUM_LEVELS ==>
              r.Some? && r.value.0 == level && PiecesAt(data, r.value.1, pieces, i + 1) && r.value.1 + |Flat(pieces, i + 1)| == p + |Flat(pieces, i)|
  {
    if PiecesAt(data, p, pieces, i) && i < |pieces| {
      NextPiece(data, p, pieces, i);
    }
    var v := GetVarint32(data, p, |data|, level);
    if v.None? || v.value.0 >= NUM_LEVELS {
      return None;
    }
    return Some((v.value.0, v.value.1));
  }

  method GetNumber(data: Bytes, p: nat, ghost n: nat, ghost pieces: seq<Bytes>, ghost i: nat) returns (r: Option<(nat, nat)>)
    requires p <= |data|
    ensures r.Some? ==> p < r.value.1 <= |data|
    ensures PiecesAt(data, p, pieces, i) && i < |pieces| && pieces[i] == Varint(n) && Number(n) ==>
              r.Some? && r.value.0 == n && PiecesAt(data, r.value.1, pieces, i + 1) && r.value.1 + |Flat(pieces, i + 1)| == p + |Flat(pieces, i)|
  {
    if PiecesAt(data, p, pieces, i) && i < |pieces| {
      NextPiece(data, p, pieces, i);
    }
    r := GetVarint64(data, p, |data|, n);
  }

  method GetString(data: Bytes, p: nat, ghost b: Bytes, ghost pieces: seq<Bytes>, ghost i: nat) returns (r: Option<(Bytes, nat)>)
    requires p <= |data|
    ensures r.Some? ==> p < r.value.1 <= |data|
    ensures PiecesAt(data, p, pieces, i) && i < |pieces| && pieces[i] == Delimited(b) && Short(b) ==>
              r.Some? && r.value.0 == b && PiecesAt(data, r.value.1, pieces, i + 1) && r.value.1 + |Flat(pieces, i + 1)| == p + |Flat(pieces, i)|
  {
    if PiecesAt(data, p, pieces, i) && i < |pieces| {
      NextPiece(data, p, pieces, i);
    }
    r := GetLengthPrefixed(data, p, |data|, b);
  }

  method GetNewFile(data: Bytes, p: nat, ghost f: NewFile) returns (r: Option<(NewFile, nat)>)
    requires p <= |data|
    ensures r.Some? ==> p < r.value.1 <= |data|
    ensures PiecesAt(data, p, Body(AddedFile(f)), 0) && Storable(AddedFile(f)) ==> r == Some((f, p + |Flat(Body(AddedFile(f)), 0)|))
  {
    ghost var pieces := Body(AddedFile(f));
    var level := GetLevel(data, p, f.level, pieces, 0);
    if level.None? {
      return None;
    }
    var number := GetNumber(data, level.value.1, f.number, pieces, 1);
    if number.None? {
      return None;
    }
    var fileSize := GetNumber(data, number.value.1, f.fileSize, pieces, 2);
    if fileSize.None? {
      return None;
    }
    var smallest := GetString(data, fileSize.value.1, f.smallest, pieces, 3);
    if smallest.None? {
      return None;
    }
    var largest := GetString(data, smallest.value.1, f.largest, pieces, 4);
    if largest.None? {
      return None;
    }
    return Some((NewFile(level.value.0, number.value.0, fileSize.value.0, smallest.value.0, largest.value.0), largest.value.1));
  }

  /** One record after its tag */
  method GetBody(tag: nat, data: Bytes, p: nat, ghost r: Record) returns (x: Option<(Record, nat)>)
    requires p <= |data|
    ensures x.Some? ==> p < x.value.1 <= |data|
    ensures PiecesAt(data, p, Body(r), 0) && Storable(r) && tag == Tag(r) ==> x == Some((r, p + |Flat(Body(r), 0)|))
  {
    ghost var pieces := Body(r);
    ghost var n := if r.LogNumber? || r.PrevLogNumber? || r.NextFileNumber? || r.LastSequence? || r.DeletedFile? then r.n else 0;
    x := None;
    if tag == 1 {
      var name := GetString(data, p, if r.Comparator? then r.name else [], pieces, 0);
      if name.Some? {
        x := Some((Comparator(name.value.0), name.value.1));
      }
    } else if tag == 2 || tag == 3 || tag == 4 || tag == 9 {
      var m := GetNumber(data, p, n, pieces, 0);
      if m.Some? {
        var v := m.value.0;
        x := Some((if tag == 2 then LogNumber(v) else if tag == 3 then NextFileNumber(v) else if tag == 4 then LastSequence(v) else PrevLogNumber(v),
                   m.value.1));
      }
    } else if tag == 5 {
      var level := GetLevel(data, p, if r.CompactPointer? then r.level else 0, pieces, 0);
      if level.Some? {
        var key := GetString(data, level.value.1, if r.CompactPointer? then r.key else [], pieces, 1);
        if key.Some? {
          x := Some((CompactPointer(level.value.0, key.value.0), key.value.1));
        }
      }
    } else if tag == 6 {
      var level := GetLevel(data, p, if r.DeletedFile? then r.level else 0, pieces, 0);
      if level.Some? {
        var m := GetNumber(data, level.value.1, n, pieces, 1);
        if m.Some? {
          x := Some((DeletedFile(level.value.0, m.value.0), m.value.1));
        }
      }
    } else if tag == 7 {
      var f := GetNewFile(data, p, if r.AddedFile? then r.file else NewFile(0, 0, 0, [], []));
      if f.Some? {
        x := Some((AddedFile(f.value.0), f.value.1));
      }
    }
  }

  predicate AllStorable(rs: seq<Record>) {
    forall i: nat {:trigger rs[i]} :: i < |rs| ==> Storable(rs[i])
  }

  // The records from the k-th on are what is left.
  ghost predicate RecordsAhead(data: Bytes, p: nat, rs: seq<Record>, k: nat) {
    AllStorable(rs) && k <= |rs| && p <= |data| && data[p..|data|] == Flat(Parts(rs), k)
  }

  lemma NextRecord(data: Bytes, p: nat, rs: seq<Record>, k: nat)
    requires RecordsAhead(data, p, rs, k)
    ensures k == |rs| <==> p == |data|
    ensures k < |rs| ==>
              var r := rs[k];
              && Storable(r) && HasVarint(data, p, |data|, Tag(r)) && |Varint(Tag(r))| == 1
              && PiecesAt(data, p + 1, Body(r), 0) && RecordsAhead(data, p + 1 + |Flat(Body(r), 0)|, rs, k + 1)
  {
    if k < |rs| {
      var r := rs[k];
      FlatFront(data, p, |data|, Parts(rs), k);
      RecordAhead(data, p, r);
    }
  }

  lemma RecordAhead(data: Bytes, p: nat, r: Record)
    requires p + |RecordBytes(r)| <= |data| && data[p..p + |RecordBytes(r)|] == RecordBytes(r)
    ensures HasVarint(data, p, |data|, Tag(r)) && |Varint(Tag(r))| == 1
    ensures PiecesAt(data, p + 1, Body(r), 0) && |RecordBytes(r)| == 1 + |Flat(Body(r), 0)|
  {
    assert Varint(Tag(r)) == [Tag(r)];
    Split(data, p, p + |RecordBytes(r)|, Varint(Tag(r)), Flat(Body(r), 0));
  }

  // The next record; nothing at the end of the data or if it is damaged, and then damaged says which.
  method GetRecord(data: Bytes, p: nat, ghost rs: seq<Record>, ghost k: nat) returns (x: Option<(Record, nat)>, damaged: bool)
    requires p <= |data|
    ensures x.Some? ==> p < x.value.1 <= |data|
    ensures RecordsAhead(data, p, rs, k) ==> !damaged
    ensures RecordsAhead(data, p, rs, k) && k < |rs| ==> x.Some? && x.value.0 == rs[k] && RecordsAhead(data, x.value.1, rs, k + 1)
    ensures RecordsAhead(data, p, rs, k) && k == |rs| ==> x.None?
  {
    ghost var r := if k < |rs| then rs[k] else LogNumber(0);
    if RecordsAhead(data, p, rs, k) {
      NextRecord(data, p, rs, k);
    }
    var tag := GetVarint32(data, p, |data|, Tag(r));
    if tag.None? {
      // Something that is not a tag is left.
      return None, p < |data|;
    }
    x := GetBody(tag.value.0, data, tag.value.1, r);
    damaged := x.None?;
  }

  /** DecodeFrom: every record does its part, in order; the edit that was there counts only through its
      compaction pointers. */
  method DecodeFrom(before: Edit, src: Bytes, ghost rs: seq<Record>) returns (ok: bool, e: Edit)
    ensures AllStorable(rs) && src == Flat(Parts(rs), 0) ==> ok && e == Applied(Cleared(before), rs, |rs|)
  {
    ghost var good := AllStorable(rs) && src == Flat(Parts(rs), 0);
    ghost var k := 0;
    e := Cleared(before);
    var p := 0;
    assert src[0..|src|] == src;
    while true
      invariant p <= |src|
      invariant good ==> RecordsAhead(src, p, rs, k) && e == Applied(Cleared(before), rs, k)
      decreases |src| - p
    {
      var r, damaged := GetRecord(src, p, rs, k);
      if r.None? {
        return !damaged, e;
      }
      e, p, k := Apply(e, r.value.0), r.value.1, k + 1;
    }
  }

  /** Encoding an edit and decoding it into any other one restores it, with the old compaction pointers in front of
      its own: exactly the edit if there were none. */
  method EncodeAndDecode(e: Edit, before: Edit) returns (ok: bool, r: Edit)
    requires EditStorable(e)
    ensures ok && r == e.(compactPointers := before.compactPointers + e.compactPointers)
    ensures r == e <==> before.compactPointers == []
  {
    ghost var rs;
    var dst;
    dst, rs := EncodeTo(e);
    ok, r := DecodeFrom(before, dst, rs);
    AppliedAfter(before.compactPointers, rs, |rs|);
    if before.compactPointers != [] {
      assert |r.compactPointers| > |e.compactPointers|;
    }
  }
}
