/** Internal keys (dbformat.h, dbformat.cc).

    The user comparator of the database is an arbitrary total order.  Every countable total order
    embeds in the reals, so a user key is represented by a point of the real line and the
    comparator by its order. */
module Keys {
  type UserKey = real

  // kMaxSequenceNumber: eight bits of the tag are reserved for the value type.
  const MAX_SEQUENCE: nat := 0xff_ffff_ffff_ffff

  type SequenceNumber = n: nat | n <= MAX_SEQUENCE

  datatype ValueType = Deletion | Value {
    function Code(): nat { if Deletion? then 0 else 1 }
  }

  // kValueTypeForSeek, the largest type code
  const SEEK_TYPE: ValueType := Value

  datatype InternalKey = InternalKey(user: UserKey, sequence: SequenceNumber, vtype: ValueType)

  datatype Entry = Entry(key: InternalKey, value: string)

  datatype Option<+T> = None | Some(value: T)

  // PackSequenceAndType: (seq << 8) | type
  function Pack(k: InternalKey): nat {
    k.sequence * 256 + k.vtype.Code()
  }

  // InternalKeyComparator::Compare: increasing user key, then decreasing packed tag.
  function Compare(a: InternalKey, b: InternalKey): int {
    if a.user < b.user then -1
    else if a.user > b.user then 1
    else if Pack(a) > Pack(b) then -1
    else if Pack(a) < Pack(b) then 1
    else 0
  }

  /** The order the rest of the model is written in: increasing user key, newest first. */
  predicate Before(a: InternalKey, b: InternalKey) {
    a.user < b.user || (a.user == b.user && a.sequence > b.sequence)
  }

  // LookupKey: the earliest internal key of a user key that is visible at sequence s.
  function SeekKey(user: UserKey, s: SequenceNumber): InternalKey {
    InternalKey(user, s, SEEK_TYPE)
  }

  /** Compare and Before agree on stored keys, which never share both user key and sequence
      number, and whenever the right-hand key is a seek key. */
  lemma CompareAgreesWithBefore(a: InternalKey, b: InternalKey)
    requires a.user == b.user && a.sequence == b.sequence ==> a == b || b.vtype == SEEK_TYPE
    ensures Compare(a, b) < 0 <==> Before(a, b)
    ensures Compare(b, a) > 0 <==> Before(a, b)
    ensures Compare(a, b) == 0 <==> a == b
  {
    if a.user == b.user {
      if a.sequence < b.sequence {
        assert (a.sequence + 1) * 256 <= b.sequence * 256;
      } else if b.sequence < a.sequence {
        assert (b.sequence + 1) * 256 <= a.sequence * 256;
      }
    }
  }

  predicate Sorted(es: seq<Entry>) {
    forall i, j :: 0 <= i < j < |es| ==> Before(es[i].key, es[j].key)
  }
}
