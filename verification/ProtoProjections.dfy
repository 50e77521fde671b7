/** Messages between sender and receiver with different descriptors.  Whatever further fields the sender's message
    types have, at any depth, the receiver restores the fields it knows: a record it does not know is passed over,
    because its wire type alone says where it ends (pb_encode.c, pb_decode.c). */
module ProtoProjections {
  import opened Keys
  import opened Coding
  import opened Protos
  import opened Wire
  import opened ProtoParsing

  // ---------------------------------------------------------------- what a receiver knows of a message

  // Storage sizes need not agree.
  predicate Knows(g: Field, f: Field)
    decreases f
  {
    g.tag == f.tag && g.ltype == f.ltype && g.htype == f.htype && (f.ltype.Submessage? ==> Extends(g.sub, f.sub))
  }

  /** Message type e has the fields of d that are required there, and whatever both have is the same in both. */
  predicate Extends(e: Descriptor, d: Descriptor)
    decreases d
  {
    forall j: nat {:trigger d.fields[j]} :: j < |d.fields| ==>
      match Lookup(e, d.fields[j].tag, 0)
      case None => !d.fields[j].htype.Required?
      case Some(i) => Knows(e.fields[i], d.fields[j])
  }

  function ProjectValue(g: Field, f: Field, v: Value): Value
    requires Knows(g, f) && ValueOk(g, v)
    decreases f, 1
  {
    if f.ltype.Submessage? then Struct(Project(g.sub, f.sub, v.slots)) else v
  }

  function ProjectValues(g: Field, f: Field, vs: seq<Value>): (r: seq<Value>)
    requires Knows(g, f) && forall i: nat {:trigger vs[i]} :: i < |vs| ==> ValueOk(g, vs[i])
    ensures |r| == |vs|
    decreases f, 2
  {
    seq(|vs|, i requires 0 <= i < |vs| => ProjectValue(g, f, vs[i]))
  }

  function ProjectSlot(g: Field, f: Field, s: Slot): Slot
    requires Knows(g, f) && SlotOk(g, s)
    decreases f, 3
  {
    match s
    case One(v) => One(ProjectValue(g, f, v))
    case Maybe(o) => Maybe(if o.None? then None else Some(ProjectValue(g, f, o.value)))
    case Many(vs) => Many(ProjectValues(g, f, vs))
  }

  function ProjectField(e: Descriptor, d: Descriptor, m: seq<Slot>, j: nat): Slot
    requires Extends(e, d) && SlotsOk(e, m) && j < |d.fields|
    decreases d, 0
  {
    var f := d.fields[j];
    match Lookup(e, f.tag, 0)
    case None => DefaultSlot(f)
    case Some(i) => ProjectSlot(e.fields[i], f, m[i])
  }

  /** What is left of a message in the receiver's type; fields the sender does not have are default. */
  function Project(e: Descriptor, d: Descriptor, m: seq<Slot>): (r: seq<Slot>)
    requires Extends(e, d) && SlotsOk(e, m)
    ensures |r| == |d.fields|
    decreases d, 1
  {
    seq(|d.fields|, j requires 0 <= j < |d.fields| => ProjectField(e, d, m, j))
  }

  /** A receiver with the sender's own descriptor knows everything. */
  lemma {:induction false} ExtendsItself(d: Descriptor)
    requires WellFormed(d)
    ensures Extends(d, d)
    decreases d
  {
    forall j: nat | j < |d.fields|
      ensures Lookup(d, d.fields[j].tag, 0) == Some(j) && Knows(d.fields[j], d.fields[j])
    {
      LookupIs(d, j);
      assert WellFormedField(d.fields[j]);
      if d.fields[j].ltype.Submessage? {
        ExtendsItself(d.fields[j].sub);
      }
    }
  }

  lemma {:induction false} ProjectsToItself(d: Descriptor, m: seq<Slot>)
    requires WellFormed(d) && SlotsOk(d, m) && Extends(d, d)
    ensures Project(d, d, m) == m
    decreases d, 1
  {
    forall j: nat | j < |m|
      ensures ProjectField(d, d, m, j) == m[j]
    {
      var f := d.fields[j];
      LookupIs(d, j);
      assert WellFormedField(f) && SlotOk(f, m[j]);
      SlotToItself(f, m[j]);
    }
  }

  lemma {:induction false} SlotToItself(f: Field, s: Slot)
    requires WellFormedField(f) && Knows(f, f) && SlotOk(f, s)
    ensures ProjectSlot(f, f, s) == s
    decreases f, 2
  {
    match s
    case One(v) => ValueToItself(f, v);
    case Maybe(o) =>
      if o.Some? {
        ValueToItself(f, o.value);
      }
    case Many(vs) =>
      forall i: nat | i < |vs|
        ensures ProjectValue(f, f, vs[i]) == vs[i]
      {
        ValueToItself(f, vs[i]);
      }
      assert ProjectValues(f, f, vs) == vs;
  }

  lemma {:induction false} ValueToItself(f: Field, v: Value)
    requires WellFormedField(f) && Knows(f, f) && ValueOk(f, v)
    ensures ProjectValue(f, f, v) == v
    decreases f, 1
  {
    if f.ltype.Submessage? {
      ProjectsToItself(f.sub, v.slots);
    }
  }

  // ---------------------------------------------------------------- the records of a message

  /** Slot s of a message is encoded as records, one after the other.  Only arrays that are not packed have more
      than one. */
  predicate Entries(f: Field) {
    f.htype.Repeated? && !f.ltype.Packable()
  }

  ghost predicate NextRecord(f: Field, s: Slot, c: nat) {
    SlotOk(f, s) && EncodeSlot(f, s) != [] && if Entries(f) then c < |s.vs| else c == 0
  }

  ghost function RecordWireType(f: Field): nat {
    if f.htype.Repeated? && f.ltype.Packable() then 2 else WireType(f.ltype)
  }

  // What follows the tag
  ghost function Payload(f: Field, s: Slot, c: nat): Bytes
    requires NextRecord(f, s, c)
  {
    match f.htype
    case Required => EncodeValue(f, s.v)
    case Singular => EncodeValue(f, s.v)
    case Repeated => if f.ltype.Packable() then Delimited(EncodePacked(f, s.vs, 0)) else EncodeValue(f, s.vs[c])
    case _ => EncodeValue(f, s.o.value)
  }

  // c records of field i have been read, and all fields before it.
  datatype Progress = Progress(i: nat, c: nat)

  ghost predicate ProgressOk(e: Descriptor, m: seq<Slot>, p: Progress) {
    && SlotsOk(e, m) && p.i <= |m|
    && (p.c > 0 ==> p.i < |m| && Entries(e.fields[p.i]) && NextRecord(e.fields[p.i], m[p.i], p.c))
  }

  ghost function Rest(e: Descriptor, m: seq<Slot>, p: Progress): Bytes
    requires ProgressOk(e, m, p)
  {
    if p.c == 0 then EncodeMessage(e, m, p.i)
    else EncodeTagged(e.fields[p.i], m[p.i].vs, p.c) + EncodeMessage(e, m, p.i + 1)
  }

  ghost function Next(e: Descriptor, m: seq<Slot>, p: Progress): Progress
    requires ProgressOk(e, m, p) && p.i < |m|
  {
    if Entries(e.fields[p.i]) && m[p.i].Many? && p.c + 1 < |m[p.i].vs| then Progress(p.i, p.c + 1) else Progress(p.i + 1, 0)
  }

  /** One record further */
  lemma Advance(e: Descriptor, m: seq<Slot>, p: Progress)
    requires ProgressOk(e, m, p) && p.i < |m| && NextRecord(e.fields[p.i], m[p.i], p.c)
    ensures var f := e.fields[p.i];
            var q := Next(e, m, p);
            && ProgressOk(e, m, q)
            && Rest(e, m, p) == Tag(f, RecordWireType(f)) + Payload(f, m[p.i], p.c) + Rest(e, m, q)
  {
    var f, s := e.fields[p.i], m[p.i];
    var q := Next(e, m, p);
    if Entries(f) {
      assert EncodeSlot(f, s) == EncodeTagged(f, s.vs, 0);
      assert q.c == 0 ==> EncodeTagged(f, s.vs, p.c + 1) == [];
    }
  }

  // ---------------------------------------------------------------- every value is as long as its wire type says

  /** A reader that has only the tag lands exactly behind the value. */
  lemma ValueSpan(f: Field, v: Value, data: Bytes, pos: nat, end: nat)
    requires ValueOk(f, v) && |EncodeValue(f, v)| < 0x1_0000_0000 && HasBytes(data, pos, end, EncodeValue(f, v))
    ensures Skip(data, pos, end, WireType(f.ltype)) == Some(pos + |EncodeValue(f, v)|)
  {
    match f.ltype
    case Bool => EncodedVarint(data, pos, end, v.n);
    case Varint => EncodedVarint(data, pos, end, ToUnsigned(v.n));
    case UVarint => EncodedVarint(data, pos, end, v.n);
    case SVarint => EncodedVarint(data, pos, end, ZigZag(v.n));
    case Fixed32 =>
    case Fixed64 =>
    case Submessage => EncodedRegion(data, pos, end, EncodeMessage(f.sub, v.slots, 0));
    case _ => EncodedRegion(data, pos, end, v.b);
  }

  lemma PayloadSpan(f: Field, s: Slot, c: nat, data: Bytes, pos: nat, end: nat)
    requires NextRecord(f, s, c) && |Payload(f, s, c)| < 0x1_0000_0000 && HasBytes(data, pos, end, Payload(f, s, c))
    ensures Skip(data, pos, end, RecordWireType(f)) == Some(pos + |Payload(f, s, c)|)
  {
    if f.htype.Repeated? && f.ltype.Packable() {
      EncodedRegion(data, pos, end, EncodePacked(f, s.vs, 0));
    } else {
      ValueSpan(f, if f.htype.Repeated? then s.vs[c] else if s.One? then s.v else s.o.value, data, pos, end);
    }
  }

  // ---------------------------------------------------------------- values are restored

  lemma SignedBack(n: int, size: nat)
    requires SignedFits(n, size) && size in {1, 2, 4, 8}
    ensures FromUnsigned(ToUnsigned(n), size) == n
  {
  }

  lemma NumberParsed(f: Field, v: Value, data: Bytes, pos: nat, end: nat)
    requires WellFormedField(f) && f.ltype.Packable() && ValueOk(f, v) && HasBytes(data, pos, end, EncodeValue(f, v))
    ensures ParseNumber(f, data, pos, end) == Some((v, pos + |EncodeValue(f, v)|))
  {
    match f.ltype
    case Bool => EncodedVarint32(data, pos, end, v.n);
    case Varint =>
      SignedBack(v.n, f.dataSize);
      EncodedVarint64(data, pos, end, ToUnsigned(v.n));
    case UVarint => EncodedVarint64(data, pos, end, v.n);
    case SVarint => EncodedVarint64(data, pos, end, ZigZag(v.n));
    case Fixed32 => Fixed32RoundTrip(v.n);
    case Fixed64 => Fixed64RoundTrip(v.n);
  }

  // What storage a value of the receiver's field needs
  ghost predicate Stored(f: Field, v: Value) {
    ValueOk(f, v) && ValueFits(f, v)
  }

  lemma {:induction false} ValueParsed(g: Field, f: Field, v: Value, data: Bytes, pos: nat, end: nat)
    requires WellFormedField(g) && WellFormedField(f) && Knows(g, f) && ValueOk(g, v)
    requires Stored(f, ProjectValue(g, f, v)) && Stored(f, DefaultValue(f))
    requires |EncodeValue(g, v)| < 0x1_0000_0000 && HasBytes(data, pos, end, EncodeValue(g, v))
    ensures ParseValue(f, DefaultValue(f), data, pos, end) == Some((ProjectValue(g, f, v), pos + |EncodeValue(g, v)|))
    decreases g, 0, 0
  {
    if f.ltype.Packable() {
      assert EncodeValue(f, v) == EncodeValue(g, v);
      NumberParsed(f, v, data, pos, end);
    } else if f.ltype.Submessage? {
      var b := EncodeMessage(g.sub, v.slots, 0);
      EncodedRegion(data, pos, end, b);
      var start := pos + |Coding.Varint(|b|)|;
      MessageParsed(g.sub, f.sub, v.slots, data, start, start + |b|);
    } else {
      EncodedRegion(data, pos, end, v.b);
    }
  }

  ghost predicate SlotStored(f: Field, s: Slot) {
    SlotOk(f, s) && SlotFits(f, s)
  }

  lemma {:induction false} PackedParsed(g: Field, f: Field, vs: seq<Value>, before: seq<Value>, k: nat, data: Bytes, pos: nat, end: nat)
    requires WellFormedField(f) && Knows(g, f) && f.htype.Repeated? && f.ltype.Packable() && k <= |vs| && pos <= end <= |data|
    requires SlotOk(g, Many(vs)) && SlotStored(f, Many(vs)) && data[pos..end] == EncodePacked(g, vs, k)
    requires before == vs[..k] && SlotStored(f, Many(before))
    ensures ParsePacked(f, before, data, pos, end) == Some(vs)
    decreases |vs| - k
  {
    if k == |vs| {
      assert vs[..k] == vs;
    } else {
      var v := vs[k];
      SameNumber(g, f, v);
      StoredNext(f, vs, k);
      var a, b := EncodeValue(g, v), EncodePacked(g, vs, k + 1);
      Split(data, pos, end, a, b);
      NumberParsed(f, v, data, pos, end);
      assert vs[..k + 1] == before + [v];
      OneNumber(f, before, v, data, pos, pos + |a|, end);
      assert data[pos + |a|..end] == b;
      PackedParsed(g, f, vs, before + [v], k + 1, data, pos + |a|, end);
    }
  }

  lemma SameNumber(g: Field, f: Field, v: Value)
    requires Knows(g, f) && f.ltype.Packable() && ValueOk(g, v) && ValueOk(f, v)
    ensures EncodeValue(f, v) == EncodeValue(g, v)
  {
  }

  lemma StoredNext(f: Field, vs: seq<Value>, k: nat)
    requires SlotStored(f, Many(vs)) && k < |vs|
    ensures SlotStored(f, Many(vs[..k + 1])) && k < f.arraySize
  {
    var front := vs[..k + 1];
    forall i: nat | i < |front|
      ensures ValueOk(f, front[i]) && ValueFits(f, front[i])
    {
      assert front[i] == vs[i];
    }
  }

  lemma OneNumber(f: Field, before: seq<Value>, v: Value, data: Bytes, pos: nat, next: nat, end: nat)
    requires WellFormedField(f) && f.htype.Repeated? && f.ltype.Packable() && pos < next <= end <= |data|
    requires SlotStored(f, Many(before)) && SlotStored(f, Many(before + [v])) && |before| < f.arraySize
    requires ParseNumber(f, data, pos, end) == Some((v, next))
    ensures ParsePacked(f, before, data, pos, end) == ParsePacked(f, before + [v], data, next, end)
  {
  }

  // What the field of the receiver holds before and after a record
  ghost function SlotBefore(g: Field, f: Field, s: Slot, c: nat): Slot
    requires Knows(g, f) && NextRecord(g, s, c)
  {
    if c == 0 then DefaultSlot(f) else Many(ProjectValues(g, f, s.vs)[..c])
  }

  ghost function SlotAfter(g: Field, f: Field, s: Slot, c: nat): Slot
    requires Knows(g, f) && NextRecord(g, s, c)
  {
    if Entries(g) then Many(ProjectValues(g, f, s.vs)[..c + 1]) else ProjectSlot(g, f, s)
  }

  lemma {:induction false} FieldParsed(g: Field, f: Field, s: Slot, c: nat, data: Bytes, pos: nat, end: nat)
    requires WellFormedField(g) && WellFormedField(f) && Knows(g, f) && NextRecord(g, s, c)
    requires SlotStored(f, ProjectSlot(g, f, s)) && SlotStored(f, SlotBefore(g, f, s, c))
    requires |Payload(g, s, c)| < 0x1_0000_0000 && HasBytes(data, pos, end, Payload(g, s, c))
    ensures ParseField(f, SlotBefore(g, f, s, c), RecordWireType(g), data, pos, end) == Some((SlotAfter(g, f, s, c), pos + |Payload(g, s, c)|))
    decreases g, 0, 2
  {
    DefaultValueOk(f);
    if Entries(g) {
      EntryParsed(g, f, s.vs, c, data, pos, end);
    } else if g.htype.Repeated? {
      ArrayParsed(g, f, s.vs, data, pos, end);
    } else {
      ValueParsed(g, f, if s.One? then s.v else s.o.value, data, pos, end);
    }
  }

  lemma {:induction false} EntryParsed(g: Field, f: Field, vs: seq<Value>, c: nat, data: Bytes, pos: nat, end: nat)
    requires WellFormedField(g) && WellFormedField(f) && Knows(g, f) && Entries(g) && NextRecord(g, Many(vs), c)
    requires SlotStored(f, ProjectSlot(g, f, Many(vs))) && SlotStored(f, SlotBefore(g, f, Many(vs), c))
    requires |EncodeValue(g, vs[c])| < 0x1_0000_0000 && HasBytes(data, pos, end, EncodeValue(g, vs[c]))
    ensures ParseField(f, SlotBefore(g, f, Many(vs), c), RecordWireType(g), data, pos, end)
            == Some((SlotAfter(g, f, Many(vs), c), pos + |EncodeValue(g, vs[c])|))
    decreases g, 0, 1
  {
    DefaultValueOk(f);
    var ws := ProjectValues(g, f, vs);
    assert ws[c] == ProjectValue(g, f, vs[c]);
    ValueParsed(g, f, vs[c], data, pos, end);
    assert ws[..c + 1] == ws[..c] + [ws[c]];
  }

  lemma ArrayParsed(g: Field, f: Field, vs: seq<Value>, data: Bytes, pos: nat, end: nat)
    requires WellFormedField(f) && Knows(g, f) && g.htype.Repeated? && g.ltype.Packable() && SlotOk(g, Many(vs))
    requires SlotStored(f, ProjectSlot(g, f, Many(vs)))
    requires var b := EncodePacked(g, vs, 0); |b| < 0x1_0000_0000 && HasBytes(data, pos, end, Delimited(b))
    ensures SlotStored(f, DefaultSlot(f))
    ensures ParseField(f, DefaultSlot(f), 2, data, pos, end)
            == Some((ProjectSlot(g, f, Many(vs)), pos + |Delimited(EncodePacked(g, vs, 0))|))
  {
    assert ProjectValues(g, f, vs) == vs;
    EntriesParsed(g, f, vs, data, pos, end);
    ArrayField(f, vs, data, pos, end);
  }

  lemma ArrayField(f: Field, vs: seq<Value>, data: Bytes, pos: nat, end: nat)
    requires WellFormedField(f) && f.htype.Repeated? && f.ltype.Packable() && pos <= end <= |data| && SlotStored(f, Many([]))
    requires var r := Region(data, pos, end);
             r.Some? && ParsePacked(f, [], data, r.value.0, r.value.1) == Some(vs)
    ensures ParseField(f, Many([]), 2, data, pos, end) == Some((Many(vs), Region(data, pos, end).value.1))
  {
  }

  // The entries of a packed array, behind their length
  lemma EntriesParsed(g: Field, f: Field, vs: seq<Value>, data: Bytes, pos: nat, end: nat)
    requires WellFormedField(f) && Knows(g, f) && f.htype.Repeated? && f.ltype.Packable() && SlotOk(g, Many(vs)) && SlotStored(f, Many(vs))
    requires var b := EncodePacked(g, vs, 0); |b| < 0x1_0000_0000 && HasBytes(data, pos, end, Delimited(b))
    ensures SlotStored(f, Many([]))
    ensures var b := EncodePacked(g, vs, 0);
            var r := Region(data, pos, end);
            r.Some? && r.value.1 == pos + |Delimited(b)| && ParsePacked(f, [], data, r.value.0, r.value.1) == Some(vs)
  {
    var b := EncodePacked(g, vs, 0);
    EncodedRegion(data, pos, end, b);
    var start := pos + |Coding.Varint(|b|)|;
    NothingStored(f);
    PackedParsed(g, f, vs, [], 0, data, start, start + |b|);
  }

  lemma NothingStored(f: Field)
    requires f.htype.Repeated?
    ensures SlotStored(f, Many([]))
  {
  }

  // ---------------------------------------------------------------- messages are restored

  // What field j of the receiver holds when p of the sender's message has been read
  ghost function PartialField(e: Descriptor, d: Descriptor, m: seq<Slot>, p: Progress, j: nat): Slot
    requires Extends(e, d) && ProgressOk(e, m, p) && j < |d.fields|
  {
    var f := d.fields[j];
    match Lookup(e, f.tag, 0)
    case None => DefaultSlot(f)
    case Some(i) =>
      if i < p.i then ProjectSlot(e.fields[i], f, m[i])
      else if i == p.i && p.c > 0 then Many(ProjectValues(e.fields[i], f, m[i].vs)[..p.c])
      else DefaultSlot(f)
  }

  ghost function Partial(e: Descriptor, d: Descriptor, m: seq<Slot>, p: Progress): (r: seq<Slot>)
    requires Extends(e, d) && ProgressOk(e, m, p)
    ensures |r| == |d.fields|
  {
    seq(|d.fields|, j requires 0 <= j < |d.fields| => PartialField(e, d, m, p, j))
  }

  // Required fields of the receiver that are among the first n of the sender have been seen.
  ghost predicate SeenTo(e: Descriptor, d: Descriptor, n: nat, seen: set<nat>) {
    forall j: nat {:trigger d.fields[j]} :: j < |d.fields| && d.fields[j].htype.Required? && SentBefore(e, d.fields[j].tag, n) ==> j in seen
  }

  ghost predicate SentBefore(e: Descriptor, tag: nat, n: nat) {
    var i := Lookup(e, tag, 0);
    i.Some? && i.value < n
  }

  /** Fields without records have their default value already. */
  lemma {:induction false} SkipEmpty(e: Descriptor, d: Descriptor, m: seq<Slot>, p: Progress, seen: set<nat>) returns (q: Progress)
    requires WellFormed(e) && Extends(e, d) && ProgressOk(e, m, p) && SlotsOk(d, Project(e, d, m))
    ensures ProgressOk(e, m, q) && Rest(e, m, q) == Rest(e, m, p) && Partial(e, d, m, q) == Partial(e, d, m, p)
    ensures q.i == |m| || NextRecord(e.fields[q.i], m[q.i], q.c)
    ensures q.i == |m| <==> Rest(e, m, p) == []
    ensures SeenTo(e, d, p.i, seen) ==> SeenTo(e, d, q.i, seen)
    decreases |m| - p.i
  {
    q := p;
    if p.i < |m| && !NextRecord(e.fields[p.i], m[p.i], p.c) {
      var n := Progress(p.i + 1, 0);
      EmptyRest(e, m, p);
      forall j: nat | j < |d.fields|
        ensures PartialField(e, d, m, n, j) == PartialField(e, d, m, p, j)
        ensures d.fields[j].htype.Required? && SentBefore(e, d.fields[j].tag, p.i + 1) ==> SentBefore(e, d.fields[j].tag, p.i)
      {
        EmptyField(e, d, m, p.i, j);
      }
      assert Partial(e, d, m, n) == Partial(e, d, m, p);
      assert SeenTo(e, d, p.i, seen) ==> SeenTo(e, d, n.i, seen);
      q := SkipEmpty(e, d, m, n, seen);
    }
  }

  lemma EmptyRest(e: Descriptor, m: seq<Slot>, p: Progress)
    requires ProgressOk(e, m, p) && p.i < |m| && !NextRecord(e.fields[p.i], m[p.i], p.c)
    ensures p.c == 0 && EncodeSlot(e.fields[p.i], m[p.i]) == []
    ensures ProgressOk(e, m, Progress(p.i + 1, 0)) && Rest(e, m, Progress(p.i + 1, 0)) == Rest(e, m, p)
  {
    assert SlotOk(e.fields[p.i], m[p.i]);
    var rest := EncodeMessage(e, m, p.i + 1);
    assert [] + rest == rest;
  }

  lemma EmptyField(e: Descriptor, d: Descriptor, m: seq<Slot>, i: nat, j: nat)
    requires WellFormed(e) && Extends(e, d) && SlotsOk(e, m) && i < |m| && j < |d.fields| && SlotsOk(d, Project(e, d, m))
    requires EncodeSlot(e.fields[i], m[i]) == []
    ensures Lookup(e, d.fields[j].tag, 0) == Some(i) ==>
              !d.fields[j].htype.Required? && ProjectSlot(e.fields[i], d.fields[j], m[i]) == DefaultSlot(d.fields[j])
  {
    var g, f := e.fields[i], d.fields[j];
    assert SlotOk(g, m[i]) && WellFormedField(g);
    if Lookup(e, f.tag, 0) == Some(i) {
      assert Knows(g, f) && Project(e, d, m)[j] == ProjectSlot(g, f, m[i]) && SlotOk(f, Project(e, d, m)[j]);
      if g.htype.Singular? {
        DefaultCheckExact(g, m[i].v);
        DefaultProjects(g, f);
      } else if g.htype.Repeated? {
        assert ProjectValues(g, f, m[i].vs) == [];
      }
    }
  }

  // A value the sender leaves out is default for the receiver, too.
  lemma {:induction false} DefaultProjects(g: Field, f: Field)
    requires Knows(g, f) && ValueOk(g, DefaultValue(g)) && IsDefaultValue(g, DefaultValue(g))
    requires ValueOk(f, ProjectValue(g, f, DefaultValue(g)))
    ensures ProjectValue(g, f, DefaultValue(g)) == DefaultValue(f)
    decreases g
  {
    if f.ltype.Submessage? {
      var e, d := g.sub, f.sub;
      var m := Defaults(e);
      forall j: nat | j < |d.fields|
        ensures ProjectField(e, d, m, j) == DefaultSlot(d.fields[j])
      {
        var i := Lookup(e, d.fields[j].tag, 0);
        if i.Some? {
          DefaultSlotProjects(e, d, i.value, j);
        }
      }
      assert Project(e, d, m) == Defaults(d);
    }
  }

  lemma {:induction false} DefaultSlotProjects(e: Descriptor, d: Descriptor, i: nat, j: nat)
    requires Extends(e, d) && SlotsOk(e, Defaults(e)) && AllDefault(e, Defaults(e)) && SlotsOk(d, Project(e, d, Defaults(e)))
    requires j < |d.fields| && Lookup(e, d.fields[j].tag, 0) == Some(i)
    ensures ProjectField(e, d, Defaults(e), j) == DefaultSlot(d.fields[j])
    decreases e
  {
    var g, f, m := e.fields[i], d.fields[j], Defaults(e);
    assert Knows(g, f) && SlotOk(g, m[i]) && IsDefaultSlot(g, m[i]);
    assert m[i] == DefaultSlot(g);
    assert SlotOk(f, Project(e, d, m)[j]) && Project(e, d, m)[j] == ProjectSlot(g, f, m[i]);
    if g.htype.Singular? {
      DefaultProjects(g, f);
    } else if g.htype.Repeated? {
      assert ProjectValues(g, f, []) == [];
    }
  }

  // The tag of the next record
  lemma TagParsed(f: Field, data: Bytes, pos: nat, end: nat)
    requires WellFormedField(f) && HasBytes(data, pos, end, Tag(f, RecordWireType(f)))
    ensures ReadTag(data, pos, end) == Tagged(RecordWireType(f), f.tag, pos + |Tag(f, RecordWireType(f))|)
  {
    EncodedVarint32(data, pos, end, f.tag * 8 + RecordWireType(f));
  }

  // A record the receiver does not know changes nothing.
  lemma UnknownField(e: Descriptor, d: Descriptor, m: seq<Slot>, p: Progress, seen: set<nat>)
    requires WellFormed(e) && Extends(e, d) && ProgressOk(e, m, p) && p.i < |m| && NextRecord(e.fields[p.i], m[p.i], p.c)
    requires Lookup(d, e.fields[p.i].tag, 0).None? && ProgressOk(e, m, Next(e, m, p))
    ensures Partial(e, d, m, Next(e, m, p)) == Partial(e, d, m, p)
    ensures SeenTo(e, d, p.i, seen) ==> SeenTo(e, d, Next(e, m, p).i, seen)
  {
    forall j: nat | j < |d.fields|
      ensures Lookup(e, d.fields[j].tag, 0) != Some(p.i)
      ensures PartialField(e, d, m, Next(e, m, p), j) == PartialField(e, d, m, p, j)
    {
    }
  }

  // The field of the receiver takes what the record holds; while a message is restored, no other member of its
  // union is set.
  lemma KnownField(e: Descriptor, d: Descriptor, m: seq<Slot>, p: Progress, j: nat, seen: set<nat>)
    requires WellFormed(e) && WellFormed(d) && Extends(e, d) && ProgressOk(e, m, p) && p.i < |m| && NextRecord(e.fields[p.i], m[p.i], p.c)
    requires Lookup(d, e.fields[p.i].tag, 0) == Some(j) && ProgressOk(e, m, Next(e, m, p))
    requires SlotsOk(d, Project(e, d, m)) && UnionsOk(d, Project(e, d, m))
    ensures Lookup(e, d.fields[j].tag, 0) == Some(p.i) && Knows(e.fields[p.i], d.fields[j])
    ensures Partial(e, d, m, p)[j] == SlotBefore(e.fields[p.i], d.fields[j], m[p.i], p.c)
    ensures WithSlot(d, Partial(e, d, m, p), j, SlotAfter(e.fields[p.i], d.fields[j], m[p.i], p.c)) == Partial(e, d, m, Next(e, m, p))
    ensures SeenTo(e, d, p.i, seen) ==> SeenTo(e, d, Next(e, m, p).i, seen + {j})
  {
    LookupIs(e, p.i);
    var g, f, s := e.fields[p.i], d.fields[j], m[p.i];
    assert Knows(g, f);
    var after := SlotAfter(g, f, s, p.c);
    var q := Next(e, m, p);
    AfterIsPartial(g, f, s, p.c);
    forall k: nat | k < |d.fields|
      ensures WithSlot(d, Partial(e, d, m, p), j, after)[k] == PartialField(e, d, m, q, k)
    {
      if k != j {
        OtherField(e, d, m, p, j, k);
      }
    }
    assert WithSlot(d, Partial(e, d, m, p), j, after) == Partial(e, d, m, q);
  }

  lemma AfterIsPartial(g: Field, f: Field, s: Slot, c: nat)
    requires Knows(g, f) && NextRecord(g, s, c)
    ensures Entries(g) && c + 1 == |s.vs| ==> SlotAfter(g, f, s, c) == ProjectSlot(g, f, s)
  {
    if Entries(g) && c + 1 == |s.vs| {
      assert ProjectValues(g, f, s.vs)[..c + 1] == ProjectValues(g, f, s.vs);
    }
  }

  lemma OtherField(e: Descriptor, d: Descriptor, m: seq<Slot>, p: Progress, j: nat, k: nat)
    requires WellFormed(e) && WellFormed(d) && Extends(e, d) && ProgressOk(e, m, p) && p.i < |m| && NextRecord(e.fields[p.i], m[p.i], p.c)
    requires j < |d.fields| && k < |d.fields| && j != k && Lookup(e, d.fields[j].tag, 0) == Some(p.i)
    requires ProgressOk(e, m, Next(e, m, p)) && SlotsOk(d, Project(e, d, m)) && UnionsOk(d, Project(e, d, m))
    ensures PartialField(e, d, m, Next(e, m, p), k) == PartialField(e, d, m, p, k)
    ensures d.fields[j].htype.Oneof? && d.fields[k].htype == d.fields[j].htype ==> PartialField(e, d, m, p, k) == Maybe(None)
  {
    assert Lookup(e, d.fields[k].tag, 0) != Some(p.i);
    if d.fields[j].htype.Oneof? && d.fields[k].htype == d.fields[j].htype {
      assert Knows(e.fields[p.i], d.fields[j]) && SlotOk(e.fields[p.i], m[p.i]);
      assert ProjectField(e, d, m, j) == ProjectSlot(e.fields[p.i], d.fields[j], m[p.i]);
      UnionEmpty(d, Project(e, d, m), j, k);
      assert ProjectField(e, d, m, k) == Maybe(None);
    }
  }

  lemma UnionEmpty(d: Descriptor, m: seq<Slot>, j: nat, k: nat)
    requires j < |m| == |d.fields| && k < |m| && j != k && UnionsOk(d, m)
    requires d.fields[j].htype.Oneof? && d.fields[k].htype == d.fields[j].htype && m[j] != Maybe(None)
    ensures m[k] == Maybe(None)
  {
    var a, b := if j < k then j else k, if j < k then k else j;
    assert m[a] == Maybe(None) || m[b] == Maybe(None);
  }

  /** The rest of the sender's message restores the rest of what the receiver knows. */
  lemma {:induction false} RestParsed(e: Descriptor, d: Descriptor, m: seq<Slot>, p: Progress, parsed: Parsed,
                                      data: Bytes, pos: nat, end: nat)
    requires WellFormed(e) && WellFormed(d) && Extends(e, d) && SlotsOk(e, m)
    requires SlotsOk(d, Project(e, d, m)) && SlotsFit(d, Project(e, d, m))
    requires ProgressOk(e, m, p) && ParsedOk(d, parsed) && parsed.slots == Partial(e, d, m, p) && SeenTo(e, d, p.i, parsed.seen)
    requires pos <= end <= |data| && end - pos < 0x1_0000_0000 && data[pos..end] == Rest(e, m, p)
    ensures var r := ParseFields(d, parsed, data, pos, end);
            r.Some? && r.value.slots == Project(e, d, m) && SeenTo(e, d, |m|, r.value.seen)
    decreases e, end - pos, 1
  {
    var q := SkipEmpty(e, d, m, p, parsed.seen);
    if q.i == |m| {
      assert Partial(e, d, m, q) == Project(e, d, m);
    } else {
      var g := e.fields[q.i];
      assert WellFormedField(g);
      Advance(e, m, q);
      var a, b, c := Tag(g, RecordWireType(g)), Payload(g, m[q.i], q.c), Rest(e, m, Next(e, m, q));
      assert data[pos..end] == a + (b + c) by { assert a + b + c == a + (b + c); }
      Split(data, pos, end, a, b + c);
      Split(data, pos + |a|, end, b, c);
      TagParsed(g, data, pos, end);
      RecordParsed(e, d, m, q, parsed, data, pos, pos + |a|, pos + |a| + |b|, end);
    }
  }

  lemma {:induction false} RecordParsed(e: Descriptor, d: Descriptor, m: seq<Slot>, q: Progress, parsed: Parsed,
                                        data: Bytes, pos: nat, next: nat, after: nat, end: nat)
    requires WellFormed(e) && WellFormed(d) && Extends(e, d) && SlotsOk(e, m)
    requires SlotsOk(d, Project(e, d, m)) && SlotsFit(d, Project(e, d, m))
    requires ProgressOk(e, m, q) && ParsedOk(d, parsed) && parsed.slots == Partial(e, d, m, q) && SeenTo(e, d, q.i, parsed.seen)
    requires q.i < |m| && NextRecord(e.fields[q.i], m[q.i], q.c) && ProgressOk(e, m, Next(e, m, q))
    requires pos < next <= after <= end <= |data| && end - pos < 0x1_0000_0000
    requires ReadTag(data, pos, end) == Tagged(RecordWireType(e.fields[q.i]), e.fields[q.i].tag, next)
    requires data[next..after] == Payload(e.fields[q.i], m[q.i], q.c) && data[after..end] == Rest(e, m, Next(e, m, q))
    ensures var r := ParseFields(d, parsed, data, pos, end);
            r.Some? && r.value.slots == Project(e, d, m) && SeenTo(e, d, |m|, r.value.seen)
    decreases e, end - pos, 0
  {
    var g, n := e.fields[q.i], Next(e, m, q);
    match Lookup(d, g.tag, 0)
    case None =>
      PayloadSpan(g, m[q.i], q.c, data, next, end);
      UnknownField(e, d, m, q, parsed.seen);
      StepOver(d, parsed, data, pos, next, after, end);
      RestParsed(e, d, m, n, parsed, data, after, end);
    case Some(j) =>
      var f := d.fields[j];
      KnownField(e, d, m, q, j, parsed.seen);
      assert WellFormedField(g) && WellFormedField(f);
      assert Project(e, d, m)[j] == ProjectSlot(g, f, m[q.i]);
      assert SlotStored(f, Project(e, d, m)[j]) && SlotStored(f, parsed.slots[j]);
      FieldParsed(g, f, m[q.i], q.c, data, next, end);
      var parsed' := StepInto(d, parsed, j, SlotAfter(g, f, m[q.i], q.c), data, pos, next, after, end);
      RestParsed(e, d, m, n, parsed', data, after, end);
  }

  lemma StepOver(d: Descriptor, parsed: Parsed, data: Bytes, pos: nat, next: nat, after: nat, end: nat)
    requires WellFormed(d) && ParsedOk(d, parsed) && pos < next <= after <= end <= |data|
    requires var t := ReadTag(data, pos, end);
             t.Tagged? && t.next == next && Lookup(d, t.tag, 0).None? && Skip(data, next, end, t.wireType) == Some(after)
    ensures ParseFields(d, parsed, data, pos, end) == ParseFields(d, parsed, data, after, end)
  {
  }

  lemma StepInto(d: Descriptor, parsed: Parsed, j: nat, slot: Slot, data: Bytes, pos: nat, next: nat, after: nat, end: nat)
    returns (parsed': Parsed)
    requires WellFormed(d) && ParsedOk(d, parsed) && pos < next <= after <= end <= |data| && j < |d.fields|
    requires WellFormedField(d.fields[j]) && SlotStored(d.fields[j], parsed.slots[j])
    requires var t := ReadTag(data, pos, end);
             t.Tagged? && t.next == next && Lookup(d, t.tag, 0) == Some(j)
             && ParseField(d.fields[j], parsed.slots[j], t.wireType, data, next, end) == Some((slot, after))
    ensures parsed' == Parsed(WithSlot(d, parsed.slots, j, slot), parsed.seen + {j}) && ParsedOk(d, parsed')
    ensures ParseFields(d, parsed, data, pos, end) == ParseFields(d, parsed', data, after, end)
  {
    parsed' := Parsed(WithSlot(d, parsed.slots, j, slot), parsed.seen + {j});
    WithSlotOk(d, parsed.slots, j, slot);
    assert ParseInto(d, parsed, j, ReadTag(data, pos, end).wireType, data, next, end) == Some((parsed', after));
  }

  /** The receiver restores from the sender's bytes what it knows of the sender's message. */
  lemma {:induction false} MessageParsed(e: Descriptor, d: Descriptor, m: seq<Slot>, data: Bytes, pos: nat, end: nat)
    requires WellFormed(e) && WellFormed(d) && Extends(e, d) && SlotsOk(e, m)
    requires SlotsOk(d, Project(e, d, m)) && SlotsFit(d, Project(e, d, m)) && SlotsOk(d, Defaults(d)) && SlotsFit(d, Defaults(d))
    requires pos <= end <= |data| && end - pos < 0x1_0000_0000 && data[pos..end] == EncodeMessage(e, m, 0)
    ensures ParseMessage(d, Defaults(d), data, pos, end) == Some(Project(e, d, m))
    decreases e, end - pos, 2
  {
    var p := Progress(0, 0);
    assert Partial(e, d, m, p) == Defaults(d);
    RestParsed(e, d, m, p, Parsed(Defaults(d), {}), data, pos, end);
    var seen := ParseFields(d, Parsed(Defaults(d), {}), data, pos, end).value.seen;
    forall j: nat | j < |d.fields| && d.fields[j].htype.Required?
      ensures j in seen
    {
      assert SentBefore(e, d.fields[j].tag, |m|);
    }
  }
}
