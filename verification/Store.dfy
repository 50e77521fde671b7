/** What a read means: the abstract store is a finite set of entries, and a read of a user key at
    sequence s returns the newest entry at or below s, or nothing if that entry is a deletion.
    Every fast lookup and every rewriting of the tree is judged against this module. */
module Store {
  import opened Keys

  ghost function AsEntries(es: seq<Entry>): set<Entry> {
    set e | e in es
  }

  // No two entries share a user key and a sequence number.
  ghost predicate Unique(es: set<Entry>) {
    forall a, b :: a in es && b in es && a.key.user == b.key.user && a.key.sequence == b.key.sequence ==> a == b
  }

  predicate VisibleTo(e: Entry, u: UserKey, s: SequenceNumber) {
    e.key.user == u && e.key.sequence <= s
  }

  ghost predicate IsLatest(es: set<Entry>, u: UserKey, s: SequenceNumber, e: Entry) {
    && e in es && VisibleTo(e, u, s)
    && forall x :: x in es && VisibleTo(x, u, s) ==> x.key.sequence <= e.key.sequence
  }

  /** The newest entry of u at or below s. */
  ghost function Latest(es: set<Entry>, u: UserKey, s: SequenceNumber): (r: Option<Entry>)
    ensures r.Some? ==> IsLatest(es, u, s, r.value)
    ensures r.None? ==> forall e :: e in es ==> !VisibleTo(e, u, s)
  {
    if exists e :: IsLatest(es, u, s, e) then
      var e :| IsLatest(es, u, s, e); Some(e)
    else
      NewestExists(es, u, s); None
  }

  // The user-visible outcome: a deletion and an absent key read the same.
  function Outcome(e: Option<Entry>): Option<string> {
    if e.Some? && e.value.key.vtype.Value? then Some(e.value.value) else None
  }

  ghost function Read(es: set<Entry>, u: UserKey, s: SequenceNumber): Option<string> {
    Outcome(Latest(es, u, s))
  }

  lemma {:induction false} NewestExists(es: set<Entry>, u: UserKey, s: SequenceNumber)
    ensures (exists e :: e in es && VisibleTo(e, u, s)) ==> exists e :: IsLatest(es, u, s, e)
    decreases |es|
  {
    if e :| e in es && VisibleTo(e, u, s) {
      var rest := es - {e};
      NewestExists(rest, u, s);
      if x :| x in rest && VisibleTo(x, u, s) {
        var m :| IsLatest(rest, u, s, m);
        assert IsLatest(es, u, s, if m.key.sequence < e.key.sequence then e else m);
      } else {
        assert IsLatest(es, u, s, e);
      }
    }
  }

  lemma LatestIs(es: set<Entry>, u: UserKey, s: SequenceNumber, e: Entry)
    requires Unique(es) && IsLatest(es, u, s, e)
    ensures Latest(es, u, s) == Some(e)
  {
  }

  lemma LatestNone(es: set<Entry>, u: UserKey, s: SequenceNumber)
    requires forall e :: e in es ==> !VisibleTo(e, u, s)
    ensures Latest(es, u, s) == None
  {
  }
}
