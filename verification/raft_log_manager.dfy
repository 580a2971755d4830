/**
 * The in-memory part of the Raft log manager (cap/raft/log_manager.py): a
 * 0-based list of log records with append, truncation and range queries.
 */
module RaftLogManager {
  import opened Wrappers
  import opened RaftTypes

  /** Python's `max(0, i)`. */
  function NonNeg(i: int): (r: nat)
    ensures r == i || (i < 0 && r == 0)
  {
    if i < 0 then 0 else i
  }

  class LogManager {
    var logs: seq<Log>

    /** A manager whose log file does not exist yet starts with an empty list. */
    constructor ()
      ensures logs == []
    {
      logs := [];
    }

    /** The index of the last record; entries are 0-based, so an empty log gives -1. */
    function LastLogIndex(): (r: int)
      reads this
      ensures r + 1 == |logs|
      ensures r == -1 <==> logs == []
    {
      |logs| - 1
    }

    /** The term of the record at `index`, or -1 when `index` is out of range. */
    function GetTermByIndex(index: int): (r: int)
      reads this
      ensures 0 <= index < |logs| ==> r == logs[index].term
      ensures index < 0 || index >= |logs| ==> r == -1
    {
      if index < 0 || index >= |logs| then -1 else logs[index].term
    }

    /** The term of the last record, or -1 for an empty log. */
    function LastLogTerm(): (r: int)
      reads this
      ensures logs == [] ==> r == -1
      ensures logs != [] ==> r == logs[|logs| - 1].term
    {
      GetTermByIndex(LastLogIndex())
    }

    method AppendLog(log: Log)
      modifies this
      ensures logs == old(logs) + [log]
    {
      logs := logs + [log];
    }

    /** Removes the record at `index` and every later one; a negative index empties the log. */
    method DeleteLogs(index: int)
      modifies this
      ensures index <= 0 ==> logs == []
      ensures 0 <= index <= |old(logs)| ==> logs == old(logs)[..index]
      ensures index >= |old(logs)| ==> logs == old(logs)
    {
      var hi := NonNeg(index);
      if hi > |logs| {
        hi := |logs|;
      }
      logs := logs[..hi];
    }

    /**
     * `logs[max(0, begin):end]` when `end` is truthy (present and non-zero)
     * and at most the length, otherwise `logs[max(0, begin):]`. A negative
     * `end` counts from the back, as a Python slice bound does.
     */
    function GetLogs(begin: int, end: Option<int>): (r: seq<Log>)
      reads this
      // a run of consecutive records starting at the clamped begin index
      ensures forall i :: 0 <= i < |r| ==> NonNeg(begin) + i < |logs| && r[i] == logs[NonNeg(begin) + i]
      // no end, a zero end or one past the length: everything from begin on
      ensures end.None? || end.value == 0 || end.value > |logs| ==> |r| == NonNeg(|logs| - NonNeg(begin))
      // a positive end within the log: up to, not including, that position
      ensures end.Some? && 0 < end.value <= |logs| ==> |r| == NonNeg(end.value - NonNeg(begin))
      // a negative end: counted from the back
      ensures end.Some? && end.value < 0 ==> |r| == NonNeg(end.value + |logs| - NonNeg(begin))
    {
      var lo := NonNeg(begin);
      if end.Some? && end.value != 0 && end.value <= |logs| then
        var hi := if end.value >= 0 then end.value else NonNeg(end.value + |logs|);
        if lo < hi then logs[lo..hi] else []
      else
        if lo < |logs| then logs[lo..] else []
    }

    /** The record at `index`, or `None` when the log is empty or `index` is out of range. */
    function GetLogByIndex(index: int): (r: Option<Log>)
      reads this
      ensures r.Some? <==> 0 <= index < |logs|
      ensures r.Some? ==> r.value == logs[index]
    {
      if |logs| == 0 || index < 0 || index >= |logs| then None else Some(logs[index])
    }
  }

  /** Appending then reading the last position returns the appended record and its term. */
  lemma AppendThenReadLast(m: LogManager, before: seq<Log>, log: Log)
    requires m.logs == before + [log]
    ensures m.LastLogIndex() == |before|
    ensures m.GetLogByIndex(m.LastLogIndex()) == Some(log)
    ensures m.LastLogTerm() == log.term
    ensures m.GetLogs(0, None) == before + [log]
  {
  }

  /** An `end` of 0 is falsy, so it reads the whole suffix from `begin`. */
  lemma ZeroEndReadsSuffix(m: LogManager, begin: nat)
    requires begin <= |m.logs|
    ensures m.GetLogs(begin, Some(0)) == m.logs[begin..]
    ensures m.GetLogs(begin, None) == m.logs[begin..]
  {
  }

  /** After `DeleteLogs(i)` with `0 <= i`, every remaining position is below `i` and still reads the same record. */
  lemma DeleteKeepsPrefix(before: seq<Log>, after: seq<Log>, index: nat, k: int)
    requires index <= |before| && after == before[..index]
    requires 0 <= k < |after|
    ensures k < index && after[k] == before[k]
  {
  }
}
