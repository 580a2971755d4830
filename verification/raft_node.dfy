/**
 * One node of the Raft prototype (cap/raft/node_application.py): its message
 * handlers, the log helpers they use, and the key/value state machine.
 *
 * Messages a handler sends are appended to the node's `outbox` instead of
 * being delivered by nested handler calls. Election timers, the clock and
 * randomness are not modelled.
 */
module RaftNode {
  import opened Wrappers
  import opened RaftTypes

  // ---------------------------------------------------------------------------
  // Log helpers (pure views of the handlers' loops)
  // ---------------------------------------------------------------------------

  /** The (term, index) of the last record, or (0, 0) for an empty log. */
  function LastTermAndIndex(logs: seq<Log>): (int, int)
  {
    if logs == [] then (0, 0) else (logs[|logs| - 1].term, logs[|logs| - 1].index)
  }

  /** The position of the first record whose `index` field is `index`. */
  function FirstPos(logs: seq<Log>, index: int): (r: Option<nat>)
    ensures r.Some? ==> r.value < |logs| && logs[r.value].index == index
    ensures r.Some? ==> forall k :: 0 <= k < r.value ==> logs[k].index != index
    ensures r.None? ==> forall k :: 0 <= k < |logs| ==> logs[k].index != index
  {
    if logs == [] then None
    else if logs[0].index == index then Some(0)
    else match FirstPos(logs[1..], index) {
      case None => None
      case Some(k) => Some(k + 1)
    }
  }

  /** The first record whose `index` field is `index` (find_log_by_index). */
  function FindLog(logs: seq<Log>, index: int): (r: Option<Log>)
    ensures r.Some? ==> r.value in logs && r.value.index == index
    ensures r.None? ==> forall k :: 0 <= k < |logs| ==> logs[k].index != index
  {
    match FirstPos(logs, index) {
      case None => None
      case Some(k) => Some(logs[k])
    }
  }

  /**
   * clear_by_match_index: index 0 empties the log; otherwise the log is cut
   * just after the first record carrying `index`, and left alone when there is none.
   */
  function ClearByMatch(logs: seq<Log>, index: int): (r: seq<Log>)
    ensures index == 0 ==> r == []
    ensures index != 0 && FirstPos(logs, index).None? ==> r == logs
    ensures index != 0 && FirstPos(logs, index).Some? ==>
              r == logs[..FirstPos(logs, index).value + 1] && r[|r| - 1].index == index
  {
    if index == 0 then []
    else match FirstPos(logs, index) {
      case None => logs
      case Some(k) => logs[..k + 1]
    }
  }

  /**
   * On a log indexed 1..n the last index is n, which is the length of the
   * log (0 for an empty one), and a record appended to any log becomes the
   * one whose term and index are reported.
   */
  lemma LastOfContiguous(logs: seq<Log>, log: Log)
    ensures Contiguous(logs) ==> LastTermAndIndex(logs).1 == |logs|
    ensures LastTermAndIndex(logs + [log]) == (log.term, log.index)
  {
    if Contiguous(logs) && logs != [] {
      assert logs[|logs| - 1].index == |logs|;
    }
  }

  /** Records whose `index` fields are 1, 2, 3, ... in order, as `append_request` produces them. */
  ghost predicate Contiguous(logs: seq<Log>)
  {
    forall i :: 0 <= i < |logs| ==> logs[i].index == i + 1
  }

  // ---------------------------------------------------------------------------
  // Decisions taken by the handlers
  // ---------------------------------------------------------------------------

  /** The record `append_request` adds: the current term, one past the last index. */
  function NewLog(logs: seq<Log>, term: int, entries: seq<Entry>): (r: Log)
    ensures r.term == term && r.entries == entries
    ensures r.index == (if logs == [] then 1 else logs[|logs| - 1].index + 1)
  {
    Log(term, LastTermAndIndex(logs).1 + 1, entries)
  }

  /** The request `append_request` broadcasts for `log`, built from the log before it was added. */
  function AppendBroadcast(logs: seq<Log>, term: int, leaderId: int, commit: int, log: Log): (r: Envelope)
    ensures r.ToAll? && r.rpc.AppendRpc? && r.rpc.log == Some(log)
    ensures r.rpc.leaderTerm == Some(term) && r.rpc.leaderId == leaderId && r.rpc.leaderCommitIndex == commit
    ensures logs == [] ==> r.rpc.prevLogIndex == 0 && r.rpc.prevLogTerm == Some(0)
    ensures logs != [] ==> r.rpc.prevLogIndex == logs[|logs| - 1].index
                           && r.rpc.prevLogTerm == Some(logs[|logs| - 1].term)
  {
    var (lastTerm, lastIndex) := LastTermAndIndex(logs);
    ToAll(AppendRpc(Some(term), leaderId, lastIndex, Some(lastTerm), commit, Some(log)))
  }

  /**
   * Whether `deal_append_request` accepts `rpc`: its term is not below the
   * local term, and its previous index is 0 or names a local record with
   * the previous term.
   */
  predicate AcceptsAppend(logs: seq<Log>, currentTerm: int, rpc: Rpc)
    requires rpc.AppendRpc? && rpc.leaderTerm.Some?
  {
    rpc.leaderTerm.value >= currentTerm &&
    (rpc.prevLogIndex == 0 ||
     (FindLog(logs, rpc.prevLogIndex).Some? &&
      Some(FindLog(logs, rpc.prevLogIndex).value.term) == rpc.prevLogTerm))
  }

  /** The log after an accepted append: cut after the previous record, then the carried record if any. */
  function LogsAfterAppend(logs: seq<Log>, rpc: Rpc): (r: seq<Log>)
    requires rpc.AppendRpc?
  {
    ClearByMatch(logs, rpc.prevLogIndex) + (if rpc.log.Some? then [rpc.log.value] else [])
  }

  /** The commit index after an accepted append: min(leader commit, previous index) when the leader's is larger. */
  function CommitAfterAppend(commit: int, rpc: Rpc): (r: int)
    requires rpc.AppendRpc?
    ensures rpc.leaderCommitIndex <= commit ==> r == commit
    ensures rpc.leaderCommitIndex > commit ==> r <= rpc.prevLogIndex && r <= rpc.leaderCommitIndex
    ensures rpc.leaderCommitIndex > commit ==> r == rpc.prevLogIndex || r == rpc.leaderCommitIndex
  {
    if rpc.leaderCommitIndex > commit then
      (if rpc.leaderCommitIndex < rpc.prevLogIndex then rpc.leaderCommitIndex else rpc.prevLogIndex)
    else commit
  }

  /** The candidate's (last term, last index) is lexicographically at least the local pair. */
  predicate UpToDate(candTerm: int, candIndex: int, localTerm: int, localIndex: int)
  {
    candTerm > localTerm || (candTerm == localTerm && candIndex >= localIndex)
  }

  /** Whether `deal_vote_request` grants its vote; an earlier vote in the same term is not consulted. */
  predicate GrantsVote(logs: seq<Log>, currentTerm: int, rpc: Rpc)
    requires rpc.VoteRpc?
  {
    rpc.term >= currentTerm &&
    UpToDate(rpc.lastLogTerm, rpc.lastLogIndex, LastTermAndIndex(logs).0, LastTermAndIndex(logs).1)
  }

  /** `len(node_list) / 2 + 1` with Python 3's true division. */
  function Majority(clusterSize: nat): (r: real)
    ensures 2.0 * (r - 1.0) == clusterSize as real
  {
    clusterSize as real / 2.0 + 1.0
  }

  /** match_index after a failed append response: one less, but never below 0. */
  function BackOff(matched: int): int
  {
    if matched <= 0 then 0 else matched - 1
  }

  /** `k` failed append responses in a row, each backing off the same peer's match index. */
  function BackOffs(matched: int, k: nat): int
  {
    if k == 0 then matched else BackOff(BackOffs(matched, k - 1))
  }

  /**
   * Failed responses walk a peer's match index down one record at a time:
   * from `matched`, the retries visit every earlier index in turn and then
   * stay at 0, so no record is skipped and the walk ends.
   */
  lemma {:induction false} BackOffsCountDown(matched: nat, k: nat)
    ensures BackOffs(matched, k) == if k < matched then matched - k else 0
    ensures k < matched ==> BackOffs(matched, k + 1) == BackOffs(matched, k) - 1
  {
    if k > 0 {
      BackOffsCountDown(matched, k - 1);
    }
  }

  /** The retry request a leader sends after a failed append: no term, and the term in place of the leader id. */
  function RetryRequest(logs: seq<Log>, currentTerm: int, commit: int, next: int, matched: int): (r: Rpc)
    ensures r.AppendRpc? && r.leaderTerm.None? && r.leaderId == currentTerm && r.leaderCommitIndex == commit
    ensures r.log == FindLog(logs, next)
    ensures FindLog(logs, matched).None? ==> r.prevLogIndex == 0 && r.prevLogTerm.None?
    ensures FindLog(logs, matched).Some? ==>
              r.prevLogIndex == matched && r.prevLogTerm == Some(FindLog(logs, matched).value.term)
  {
    var prev := FindLog(logs, matched);
    AppendRpc(None, currentTerm,
              if prev.Some? then prev.value.index else 0,
              if prev.Some? then Some(prev.value.term) else None,
              commit, FindLog(logs, next))
  }

  // ---------------------------------------------------------------------------
  // Properties of the decisions
  // ---------------------------------------------------------------------------

  /**
   * On a log whose records carry indices 1..n, an accepted append keeps
   * exactly the first `prevLogIndex` records and adds the carried record;
   * when that record's index is `prevLogIndex + 1` the result is again
   * contiguous.
   */
  lemma {:induction false} AcceptedAppendOnContiguousLog(logs: seq<Log>, currentTerm: int, rpc: Rpc)
    requires Contiguous(logs)
    requires rpc.AppendRpc? && rpc.leaderTerm.Some? && AcceptsAppend(logs, currentTerm, rpc)
    ensures 0 <= rpc.prevLogIndex <= |logs|
    ensures LogsAfterAppend(logs, rpc) ==
              logs[..rpc.prevLogIndex] + (if rpc.log.Some? then [rpc.log.value] else [])
    ensures rpc.log.Some? && rpc.log.value.index == rpc.prevLogIndex + 1 ==>
              Contiguous(LogsAfterAppend(logs, rpc))
  {
    var p := rpc.prevLogIndex;
    if p != 0 {
      var k := FirstPos(logs, p);
      assert k.Some?;
      assert logs[k.value].index == k.value + 1;
      assert ClearByMatch(logs, p) == logs[..p];
    }
  }

  /**
   * The commit index an accepted append leaves is never above the index of
   * the last record the follower then holds, when the log was contiguous and
   * the carried record follows the previous one. Before the append it may
   * have been above, and then it may also decrease.
   */
  lemma {:induction false} CommitBoundedAfterAppend(logs: seq<Log>, currentTerm: int, commit: int, rpc: Rpc)
    requires Contiguous(logs)
    requires rpc.AppendRpc? && rpc.leaderTerm.Some? && AcceptsAppend(logs, currentTerm, rpc)
    requires rpc.log.Some? && rpc.log.value.index == rpc.prevLogIndex + 1
    requires rpc.leaderCommitIndex > commit
    ensures CommitAfterAppend(commit, rpc) <= LastTermAndIndex(LogsAfterAppend(logs, rpc)).1
  {
    AcceptedAppendOnContiguousLog(logs, currentTerm, rpc);
  }

  /** The vote rule is the lexicographic order on (last term, last index): reflexive and total. */
  lemma UpToDateIsTotal(t1: int, i1: int, t2: int, i2: int)
    ensures UpToDate(t1, i1, t1, i1)
    ensures UpToDate(t1, i1, t2, i2) || UpToDate(t2, i2, t1, i1)
    ensures UpToDate(t1, i1, t2, i2) && UpToDate(t2, i2, t1, i1) ==> t1 == t2 && i1 == i2
  {
  }

  /** Reaching `majority_count` votes means at least `len(node_list)/2 + 1` of them, rounded up. */
  lemma MajorityInIntegers(votes: int, clusterSize: nat)
    ensures votes as real >= Majority(clusterSize) <==> 2 * votes >= clusterSize + 2
  {
  }

  /** `append_request` keeps a contiguous log contiguous. */
  lemma {:induction false} NewLogKeepsContiguous(logs: seq<Log>, term: int, entries: seq<Entry>)
    requires Contiguous(logs)
    ensures Contiguous(logs + [NewLog(logs, term, entries)])
    ensures NewLog(logs, term, entries).index == |logs| + 1
  {
    if logs != [] {
      assert logs[|logs| - 1].index == |logs|;
    }
  }

  // ---------------------------------------------------------------------------
  // State machine
  // ---------------------------------------------------------------------------

  /** The dictionary after writing `entries` in order. */
  function ApplyAll(m: map<string, int>, entries: seq<Entry>): (r: map<string, int>)
  {
    if entries == [] then m
    else ApplyAll(m, entries[..|entries| - 1])[entries[|entries| - 1].key := entries[|entries| - 1].value]
  }

  /** Keys that no entry writes keep their presence and value. */
  lemma {:induction false} ApplyAllKeepsOtherKeys(m: map<string, int>, entries: seq<Entry>, key: string)
    requires forall i :: 0 <= i < |entries| ==> entries[i].key != key
    ensures key in ApplyAll(m, entries) <==> key in m
    ensures key in m ==> ApplyAll(m, entries)[key] == m[key]
  {
    if entries != [] {
      ApplyAllKeepsOtherKeys(m, entries[..|entries| - 1], key);
    }
  }

  /** A written key holds the value of the last entry that writes it. */
  lemma {:induction false} ApplyAllLastWriteWins(m: map<string, int>, entries: seq<Entry>, i: nat)
    requires i < |entries|
    requires forall j :: i < j < |entries| ==> entries[j].key != entries[i].key
    ensures entries[i].key in ApplyAll(m, entries)
    ensures ApplyAll(m, entries)[entries[i].key] == entries[i].value
  {
    if i < |entries| - 1 {
      ApplyAllLastWriteWins(m, entries[..|entries| - 1], i);
    }
  }

  class StateMachine {
    var stateDict: map<string, int>

    constructor ()
      ensures stateDict == map[]
    {
      stateDict := map[];
    }

    method ApplyEntry(entry: Entry)
      modifies this
      ensures stateDict == old(stateDict)[entry.key := entry.value]
    {
      stateDict := stateDict[entry.key := entry.value];
    }

    method ApplyEntries(entries: seq<Entry>)
      modifies this
      ensures stateDict == ApplyAll(old(stateDict), entries)
    {
      for i := 0 to |entries|
        invariant stateDict == ApplyAll(old(stateDict), entries[..i])
      {
        assert entries[..i + 1][..i] == entries[..i];
        ApplyEntry(entries[i]);
      }
      assert entries[..|entries|] == entries;
    }
  }

  // ---------------------------------------------------------------------------
  // The node
  // ---------------------------------------------------------------------------

  class Node {
    const myId: int
    /** `len(config['node_list'])`, 0 when the configuration has none. */
    const clusterSize: nat
    const stateMachine: StateMachine
    /** The manager that registered this node, if any. */
    var communicationManager: object?
    var state: Role
    var currentTerm: int
    var voteFor: Option<int>
    var voteCount: int
    var majorityCount: real
    var lastCommitIndex: int
    var lastApplyIndex: int
    var nextIndex: map<int, int>
    var matchIndex: map<int, int>
    var logs: seq<Log>
    /** Every message this node has handed to its communication manager, oldest first. */
    var outbox: seq<Envelope>

    constructor (myId: int, clusterSize: nat)
      ensures this.myId == myId && this.clusterSize == clusterSize
      ensures fresh(stateMachine) && stateMachine.stateDict == map[]
      ensures communicationManager == null
      ensures state == Candidate && currentTerm == 0 && voteFor == None
      ensures voteCount == 0 && majorityCount == 0.0
      ensures lastCommitIndex == 0 && lastApplyIndex == 0
      ensures nextIndex == map[] && matchIndex == map[]
      ensures logs == [] && outbox == []
    {
      this.myId := myId;
      this.clusterSize := clusterSize;
      stateMachine := new StateMachine();
      communicationManager := null;
      state := Candidate;
      currentTerm := 0;
      voteFor := None;
      voteCount := 0;
      majorityCount := 0.0;
      lastCommitIndex := 0;
      lastApplyIndex := 0;
      nextIndex := map[];
      matchIndex := map[];
      logs := [];
      outbox := [];
    }

    /** find_log_by_index: the first record carrying `index`, by a linear scan. */
    method FindLogByIndex(index: int) returns (r: Option<Log>)
      ensures r == FindLog(logs, index)
    {
      r := None;
      if |logs| > 0 {
        var k := 0;
        while k < |logs|
          invariant 0 <= k <= |logs|
          invariant forall j :: 0 <= j < k ==> logs[j].index != index
        {
          if logs[k].index == index {
            r := Some(logs[k]);
            return;
          }
          k := k + 1;
        }
      }
    }

    /** clear_by_match_index: drop every record after the first one carrying `index`. */
    method ClearByMatchIndex(index: int)
      modifies this`logs
      ensures logs == ClearByMatch(old(logs), index)
    {
      if index == 0 {
        logs := [];
      }
      if |logs| > 0 {
        var k := 0;
        while k < |logs|
          invariant 0 <= k <= |logs|
          invariant logs == old(logs) || (index == 0 && logs == [])
          invariant forall j :: 0 <= j < k ==> logs[j].index != index
        {
          if logs[k].index == index {
            logs := logs[..k + 1];
            return;
          }
          k := k + 1;
        }
      }
    }

    /** reset_majority_count */
    method ResetMajorityCount()
      modifies this`majorityCount
      ensures majorityCount == Majority(clusterSize)
    {
      majorityCount := clusterSize as real / 2.0 + 1.0;
    }

    /**
     * Leader: add one record for `entries` in the current term, one past the
     * last index, and broadcast it with the previous last record's term and
     * index, (0, 0) for an empty log.
     */
    method AppendRequest(entries: seq<Entry>)
      modifies this`logs, this`outbox
      ensures logs == old(logs) + [NewLog(old(logs), currentTerm, entries)]
      ensures outbox == old(outbox) +
                [AppendBroadcast(old(logs), currentTerm, myId, lastCommitIndex, NewLog(old(logs), currentTerm, entries))]
    {
      var (lastTerm, lastIndex) := LastTermAndIndex(logs);
      var log := Log(currentTerm, lastIndex + 1, entries);
      var rpc := AppendRpc(Some(currentTerm), myId, lastIndex, Some(lastTerm), lastCommitIndex, Some(log));
      logs := logs + [log];
      outbox := outbox + [ToAll(rpc)];
    }

    /**
     * change_state: set the role; becoming leader runs one heartbeat at once
     * (an `append_request` with no entries). The timer that repeats the
     * heartbeat is not modelled.
     */
    method ChangeState(target: Role)
      modifies this`state, this`logs, this`outbox
      ensures state == target
      ensures target != Leader ==> logs == old(logs) && outbox == old(outbox)
      ensures target == Leader ==> logs == old(logs) + [NewLog(old(logs), currentTerm, [])]
      ensures target == Leader ==>
                outbox == old(outbox) + [AppendBroadcast(old(logs), currentTerm, myId, lastCommitIndex, NewLog(old(logs), currentTerm, []))]
    {
      state := target;
      if state == Leader {
        AppendRequest([]);
      }
    }

    /**
     * Follower: reject a stale or unmatched request; otherwise cut the log
     * after the matching record, lower or raise the commit index, append the
     * carried record (or mark the reply a heartbeat), and reply success to
     * the leader.
     */
    method DealAppendRequest(rpc: Rpc)
      requires rpc.AppendRpc? && rpc.leaderTerm.Some?
      modifies this`logs, this`lastCommitIndex, this`outbox
      ensures var ok := AcceptsAppend(old(logs), currentTerm, rpc);
              && logs == (if ok then LogsAfterAppend(old(logs), rpc) else old(logs))
              && lastCommitIndex == (if ok then CommitAfterAppend(old(lastCommitIndex), rpc) else old(lastCommitIndex))
              && outbox == old(outbox) +
                   [ToOne(AppendResult(currentTerm, myId, ok, ok && rpc.log.None?), rpc.leaderId)]
    {
      var success := false;
      var heartBeat := false;
      if rpc.leaderTerm.value < currentTerm {
        success := false;
      } else {
        var preLog := FindLogByIndex(rpc.prevLogIndex);
        if rpc.prevLogIndex == 0 || (preLog.Some? && Some(preLog.value.term) == rpc.prevLogTerm) {
          ClearByMatchIndex(rpc.prevLogIndex);
          if rpc.leaderCommitIndex > lastCommitIndex {
            lastCommitIndex := if rpc.leaderCommitIndex < rpc.prevLogIndex then rpc.leaderCommitIndex else rpc.prevLogIndex;
          }
          if rpc.log.Some? {
            logs := logs + [rpc.log.value];
          } else {
            heartBeat := true;
          }
          success := true;
        } else {
          success := false;
        }
      }
      outbox := outbox + [ToOne(AppendResult(currentTerm, myId, success, heartBeat), rpc.leaderId)];
    }

    /**
     * Leader: a response with a higher term turns the node into a follower
     * (its term is kept); a successful non-heartbeat response advances the
     * peer's next and match index by one; a failed one backs both off by one
     * (match not below 0) and sends the peer a retry request.
     */
    method DealAppendResponse(rpc: Rpc)
      requires rpc.AppendResult?
      requires rpc.term <= currentTerm && !(rpc.success && rpc.isHeartBeat) ==>
                 rpc.candidateId in nextIndex && rpc.candidateId in matchIndex
      modifies this`state, this`nextIndex, this`matchIndex, this`outbox
      ensures var peer := rpc.candidateId;
              if rpc.term > currentTerm then
                state == Follower && nextIndex == old(nextIndex) && matchIndex == old(matchIndex)
                && outbox == old(outbox)
              else if rpc.success then
                state == old(state) && outbox == old(outbox)
                && nextIndex == (if rpc.isHeartBeat then old(nextIndex) else old(nextIndex)[peer := old(nextIndex)[peer] + 1])
                && matchIndex == (if rpc.isHeartBeat then old(matchIndex) else old(matchIndex)[peer := old(matchIndex)[peer] + 1])
              else
                state == old(state)
                && nextIndex == old(nextIndex)[peer := old(nextIndex)[peer] - 1]
                && matchIndex == old(matchIndex)[peer := BackOff(old(matchIndex)[peer])]
                && outbox == old(outbox) +
                     [ToOne(RetryRequest(logs, currentTerm, lastCommitIndex, nextIndex[peer], matchIndex[peer]), peer)]
    {
      var peer := rpc.candidateId;
      if rpc.term > currentTerm {
        state := Follower;
      } else if rpc.success {
        if !rpc.isHeartBeat {
          nextIndex := nextIndex[peer := nextIndex[peer] + 1];
          matchIndex := matchIndex[peer := matchIndex[peer] + 1];
        }
      } else {
        nextIndex := nextIndex[peer := nextIndex[peer] - 1];
        matchIndex := matchIndex[peer := if matchIndex[peer] <= 0 then 0 else matchIndex[peer] - 1];
        var newLog := FindLogByIndex(nextIndex[peer]);
        var prevLog := FindLogByIndex(matchIndex[peer]);
        var retry := AppendRpc(None, currentTerm,
                               if prevLog.Some? then prevLog.value.index else 0,
                               if prevLog.Some? then Some(prevLog.value.term) else None,
                               lastCommitIndex, newLog);
        outbox := outbox + [ToOne(retry, peer)];
      }
    }

    /**
     * Candidate: start an election in the next term with a fresh vote count
     * and majority, and broadcast a vote request with the last record's term
     * and index.
     */
    method VoteRequest()
      modifies this`currentTerm, this`voteCount, this`majorityCount, this`outbox
      ensures currentTerm == old(currentTerm) + 1
      ensures voteCount == 0 && majorityCount == Majority(clusterSize)
      ensures outbox == old(outbox) +
                [ToAll(VoteRpc(currentTerm, myId, LastTermAndIndex(logs).1, LastTermAndIndex(logs).0))]
    {
      currentTerm := currentTerm + 1;
      voteCount := 0;
      ResetMajorityCount();
      var (lastTerm, lastIndex) := LastTermAndIndex(logs);
      outbox := outbox + [ToAll(VoteRpc(currentTerm, myId, lastIndex, lastTerm))];
    }

    /**
     * Any role: grant iff the request's term is not below the local term and
     * the candidate's log is at least as up to date; a grant records the
     * candidate and adopts its term. The reply carries the term held before.
     */
    method DealVoteRequest(rpc: Rpc)
      requires rpc.VoteRpc?
      modifies this`voteFor, this`currentTerm, this`outbox
      ensures var granted := GrantsVote(logs, old(currentTerm), rpc);
              && voteFor == (if granted then Some(rpc.candidateId) else old(voteFor))
              && currentTerm == (if granted then rpc.term else old(currentTerm))
              && outbox == old(outbox) + [ToOne(VoteResult(old(currentTerm), granted), rpc.candidateId)]
    {
      var granted := false;
      var termBefore := currentTerm;
      if rpc.term < currentTerm {
        granted := false;
      } else {
        var (lastTerm, lastIndex) := LastTermAndIndex(logs);
        if rpc.lastLogTerm > lastTerm || (rpc.lastLogTerm == lastTerm && rpc.lastLogIndex >= lastIndex) {
          granted := true;
          voteFor := Some(rpc.candidateId);
          currentTerm := rpc.term;
        } else {
          granted := false;
        }
      }
      outbox := outbox + [ToOne(VoteResult(termBefore, granted), rpc.candidateId)];
    }

    /**
     * Candidate: a missing response or a higher term makes the node a
     * follower (its term is kept); a granted response for the current term
     * adds one vote, and a candidate that reaches the majority becomes leader
     * (one heartbeat record) and then sends one more append request.
     */
    method DealVoteResponse(rpc: Option<Rpc>)
      requires rpc.Some? ==> rpc.value.VoteResult?
      modifies this`state, this`voteCount, this`logs, this`outbox
      ensures var stepDown := rpc.None? || rpc.value.term > old(currentTerm);
              var counted := !stepDown && rpc.value.term == old(currentTerm) && rpc.value.voteGranted;
              var wins := counted && (old(voteCount) + 1) as real >= majorityCount && old(state) == Candidate;
              var first := NewLog(old(logs), currentTerm, []);
              var second := NewLog(old(logs) + [first], currentTerm, []);
              && voteCount == (if counted then old(voteCount) + 1 else old(voteCount))
              && state == (if stepDown then Follower else if wins then Leader else old(state))
              && logs == (if wins then old(logs) + [first, second] else old(logs))
              && outbox == (if wins then old(outbox) +
                              [AppendBroadcast(old(logs), currentTerm, myId, lastCommitIndex, first),
                               AppendBroadcast(old(logs) + [first], currentTerm, myId, lastCommitIndex, second)]
                            else old(outbox))
    {
      if rpc.None? || rpc.value.term > currentTerm {
        ChangeState(Follower);
      } else if rpc.value.term == currentTerm && rpc.value.voteGranted {
        voteCount := voteCount + 1;
        if voteCount as real >= majorityCount && state == Candidate {
          ChangeState(Leader);
          AppendRequest([]);
          assert old(logs) + [NewLog(old(logs), currentTerm, [])] + [NewLog(old(logs) + [NewLog(old(logs), currentTerm, [])], currentTerm, [])]
              == old(logs) + [NewLog(old(logs), currentTerm, []), NewLog(old(logs) + [NewLog(old(logs), currentTerm, [])], currentTerm, [])];
        }
      }
    }
  }
}
