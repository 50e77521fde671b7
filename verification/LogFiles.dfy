/** The log files of a database, and what a recovery makes of them: the files whose number is not below the
    manifest's log number are read one after the other (Recover in db_impl.cc).  A log file is given by
    the entries of its records, in the order they were appended, and the files by their numbers, which is
    the order they were made in. */
module LogFiles {
  import opened Keys
  import opened Store

  datatype LogFile = LogFile(number: nat, entries: seq<Entry>)

  ghost predicate NumbersAscend(logs: seq<LogFile>) {
    forall i, j :: 0 <= i < j < |logs| ==> logs[i].number < logs[j].number
  }

  // Sequence numbers only go up.
  ghost predicate Ascending(es: seq<Entry>) {
    forall i, j :: 0 <= i < j < |es| ==> es[i].key.sequence < es[j].key.sequence
  }

  /** Everything in the log files numbered from or above, in the order it was written. */
  ghost function Replay(logs: seq<LogFile>, from: nat): seq<Entry> {
    if logs == [] then []
    else
      var last := logs[|logs| - 1];
      Replay(logs[..|logs| - 1], from) + if last.number < from then [] else last.entries
  }

  // The log files an obsolete-file pass keeps
  function KeepFrom(logs: seq<LogFile>, from: nat): seq<LogFile> {
    if logs == [] then []
    else
      var last := logs[|logs| - 1];
      KeepFrom(logs[..|logs| - 1], from) + if last.number < from then [] else [last]
  }

  function AppendTo(logs: seq<LogFile>, es: seq<Entry>): seq<LogFile>
    requires logs != []
  {
    var last := logs[|logs| - 1];
    logs[..|logs| - 1] + [LogFile(last.number, last.entries + es)]
  }

  lemma ReplayPush(logs: seq<LogFile>, log: LogFile, from: nat)
    ensures Replay(logs + [log], from) == Replay(logs, from) + if log.number < from then [] else log.entries
  {
    assert (logs + [log])[..|logs|] == logs;
  }

  lemma ReplayAppend(logs: seq<LogFile>, es: seq<Entry>, from: nat)
    requires logs != [] && from <= logs[|logs| - 1].number
    ensures Replay(AppendTo(logs, es), from) == Replay(logs, from) + es
  {
    var prefix, last := logs[..|logs| - 1], logs[|logs| - 1];
    ReplayPush(prefix, LogFile(last.number, last.entries + es), from);
    assert Replay(prefix, from) + (last.entries + es) == Replay(prefix, from) + last.entries + es;
  }

  lemma {:induction false} ReplayNone(logs: seq<LogFile>, from: nat)
    requires forall i :: 0 <= i < |logs| ==> logs[i].number < from
    ensures Replay(logs, from) == []
  {
    if logs != [] {
      ReplayNone(logs[..|logs| - 1], from);
    }
  }

  lemma ReplayLast(logs: seq<LogFile>)
    requires NumbersAscend(logs) && logs != []
    ensures Replay(logs, logs[|logs| - 1].number) == logs[|logs| - 1].entries
  {
    ReplayNone(logs[..|logs| - 1], logs[|logs| - 1].number);
  }

  /** What a later starting point reads is the end of what an earlier one does. */
  lemma {:induction false} ReplaySuffix(logs: seq<LogFile>, from: nat, to: nat) returns (p: seq<Entry>)
    requires NumbersAscend(logs) && from <= to
    ensures Replay(logs, from) == p + Replay(logs, to)
  {
    p := [];
    if logs != [] {
      var prefix, last := logs[..|logs| - 1], logs[|logs| - 1];
      p := ReplaySuffix(prefix, from, to);
      if last.number < to {
        ReplayNone(prefix, to);
        p := Replay(logs, from);
      } else {
        assert p + Replay(prefix, to) + last.entries == p + (Replay(prefix, to) + last.entries);
      }
    }
  }

  lemma AscendingSuffix(p: seq<Entry>, es: seq<Entry>)
    requires Ascending(p + es)
    ensures Ascending(es)
  {
    forall i, j | 0 <= i < j < |es|
      ensures es[i].key.sequence < es[j].key.sequence
    {
      assert (p + es)[|p| + i] == es[i] && (p + es)[|p| + j] == es[j];
    }
  }

  /** Dropping the log files below a number changes nothing for who reads from there. */
  lemma {:induction false} KeptReplay(logs: seq<LogFile>, keep: nat, from: nat)
    requires keep <= from
    ensures Replay(KeepFrom(logs, keep), from) == Replay(logs, from)
  {
    if logs != [] {
      var prefix, last := logs[..|logs| - 1], logs[|logs| - 1];
      KeptReplay(prefix, keep, from);
      if last.number >= keep {
        ReplayPush(KeepFrom(prefix, keep), last, from);
      } else {
        assert KeepFrom(prefix, keep) + [] == KeepFrom(prefix, keep);
      }
    }
  }

  lemma {:induction false} KeptNumbers(logs: seq<LogFile>, keep: nat)
    requires NumbersAscend(logs)
    ensures NumbersAscend(KeepFrom(logs, keep))
    ensures forall log :: log in KeepFrom(logs, keep) <==> log in logs && log.number >= keep
    ensures logs != [] && logs[|logs| - 1].number >= keep ==>
              KeepFrom(logs, keep) != [] && KeepFrom(logs, keep)[|KeepFrom(logs, keep)| - 1] == logs[|logs| - 1]
  {
    if logs != [] {
      var prefix, last := logs[..|logs| - 1], logs[|logs| - 1];
      KeptNumbers(prefix, keep);
      var kept := KeepFrom(prefix, keep);
      assert forall log :: log in logs <==> log in prefix || log == last;
      assert forall i :: 0 <= i < |kept| ==> kept[i] in prefix;
    }
  }

  // The newest sequence number of es, if it is above base
  ghost function TailLast(es: seq<Entry>, base: SequenceNumber): SequenceNumber {
    if es == [] || es[|es| - 1].key.sequence < base then base else es[|es| - 1].key.sequence
  }

  lemma TailBound(es: seq<Entry>, base: SequenceNumber)
    requires Ascending(es)
    ensures forall e :: e in es ==> e.key.sequence <= TailLast(es, base)
  {
  }
}
