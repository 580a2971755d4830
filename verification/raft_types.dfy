/**
 * Records exchanged by the Raft prototype (cap/raft/entry_log.py): key/value
 * writes, log records, the four RPC kinds with their numeric type codes, and
 * the node roles.
 */
module RaftTypes {
  import opened Wrappers

  /** One key/value write applied to the state machine. */
  datatype Entry = Entry(key: string, value: int)

  /**
   * A replicated log record. The source uses `None` for the entries of a
   * heartbeat record; the model uses the empty sequence.
   */
  datatype Log = Log(term: int, index: int, entries: seq<Entry>)

  datatype Role = Leader | Follower | Candidate

  /**
   * The RPC kinds. Fields the source may leave as `None` are `Option`s: the
   * retry request built by a leader after a failed append carries no term and
   * may carry no previous-log term. The term of an append request is named
   * `leaderTerm` here because its type differs from the other kinds' `term`.
   */
  datatype Rpc =
    | AppendRpc(leaderTerm: Option<int>, leaderId: int, prevLogIndex: int, prevLogTerm: Option<int>,
                leaderCommitIndex: int, log: Option<Log>)
    | AppendResult(term: int, candidateId: int, success: bool, isHeartBeat: bool)
    | VoteRpc(term: int, candidateId: int, lastLogIndex: int, lastLogTerm: int)
    | VoteResult(term: int, voteGranted: bool)
  {
    /** The `type` attribute: 1 append, 2 append response, 3 vote, 4 vote response. */
    function TypeCode(): (code: int)
      ensures 1 <= code <= 4
      ensures code == 1 <==> AppendRpc?
      ensures code == 2 <==> AppendResult?
      ensures code == 3 <==> VoteRpc?
    {
      match this
      case AppendRpc(_, _, _, _, _, _) => 1
      case AppendResult(_, _, _, _) => 2
      case VoteRpc(_, _, _, _) => 3
      case VoteResult(_, _) => 4
    }
  }

  /** A message a node hands to its communication manager. */
  datatype Envelope =
    | ToAll(rpc: Rpc)               // send_to_all
    | ToOne(rpc: Rpc, target: int)  // send_to(rpc, target)
}
