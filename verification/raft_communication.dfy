/**
 * The in-process router of the Raft prototype (cap/raft/communication.py):
 * it registers nodes by id, picks the recipients of a broadcast and the
 * handler for each RPC type code.
 *
 * Delivering a message is represented by a `Delivery` value naming the
 * target id and the handler that would run; the handlers themselves are
 * the methods of `RaftNode.Node`.
 */
module RaftCommunication {
  import opened Wrappers
  import opened RaftTypes
  import opened RaftNode

  /** The four node handlers `send_to` can call. */
  datatype Handler = OnAppendRequest | OnAppendResponse | OnVoteRequest | OnVoteResponse

  /** One call `node_dict[target].<handler>(rpc)`. */
  datatype Delivery = Delivery(target: int, handler: Handler, rpc: Rpc)

  /** The RPC type code each handler is registered under in `send_to`. */
  function CodeOf(h: Handler): (code: int)
    ensures 1 <= code <= 4
  {
    match h
    case OnAppendRequest => 1
    case OnAppendResponse => 2
    case OnVoteRequest => 3
    case OnVoteResponse => 4
  }

  /** `send_to`'s if/elif chain on the type code; other codes call nothing. */
  function Dispatch(code: int): (h: Option<Handler>)
    ensures h.Some? <==> 1 <= code <= 4
    ensures h.Some? ==> CodeOf(h.value) == code
  {
    if code == 1 then Some(OnAppendRequest)
    else if code == 2 then Some(OnAppendResponse)
    else if code == 3 then Some(OnVoteRequest)
    else if code == 4 then Some(OnVoteResponse)
    else None
  }

  /** Every RPC reaches the handler for its own kind, and distinct handlers have distinct codes. */
  lemma DispatchMatchesKind(rpc: Rpc, h: Handler, g: Handler)
    ensures Dispatch(rpc.TypeCode()).Some?
    ensures Dispatch(CodeOf(h)) == Some(h)
    ensures CodeOf(h) == CodeOf(g) ==> h == g
    ensures Dispatch(rpc.TypeCode()) == Some(OnAppendRequest) <==> rpc.AppendRpc?
    ensures Dispatch(rpc.TypeCode()) == Some(OnVoteRequest) <==> rpc.VoteRpc?
    ensures Dispatch(rpc.TypeCode()) == Some(OnAppendResponse) <==> rpc.AppendResult?
    ensures Dispatch(rpc.TypeCode()) == Some(OnVoteResponse) <==> rpc.VoteResult?
  {
  }

  /**
   * Whether `send_to_all` sends `rpc` to the node `id`: an append request
   * goes to every node but its leader, a vote request to every node but its
   * candidate, and responses go to no one.
   */
  predicate Receives(rpc: Rpc, id: int)
  {
    (rpc.TypeCode() == 1 && id != rpc.leaderId) || (rpc.TypeCode() == 3 && id != rpc.candidateId)
  }

  /** The deliveries `send_to_all` makes walking `ids` in order. */
  function Fanout(ids: seq<int>, rpc: Rpc): (r: seq<Delivery>)
    ensures |r| <= |ids|
  {
    if ids == [] then []
    else
      var last := ids[|ids| - 1];
      Fanout(ids[..|ids| - 1], rpc) +
      (if Receives(rpc, last) then [Delivery(last, Dispatch(rpc.TypeCode()).value, rpc)] else [])
  }

  /**
   * The broadcast reaches exactly the listed ids that `Receives` admits, each
   * through the handler for the RPC's type.
   */
  lemma {:induction false} FanoutMembers(ids: seq<int>, rpc: Rpc, d: Delivery)
    ensures d in Fanout(ids, rpc) <==>
              d.target in ids && Receives(rpc, d.target) && d.rpc == rpc
              && Some(d.handler) == Dispatch(rpc.TypeCode())
  {
    if ids != [] {
      FanoutMembers(ids[..|ids| - 1], rpc, d);
      assert ids == ids[..|ids| - 1] + [ids[|ids| - 1]];
    }
  }

  /** With distinct ids, no node is reached twice. */
  lemma {:induction false} FanoutOncePerNode(ids: seq<int>, rpc: Rpc)
    requires forall i, j :: 0 <= i < j < |ids| ==> ids[i] != ids[j]
    ensures forall i, j :: 0 <= i < j < |Fanout(ids, rpc)| ==>
              Fanout(ids, rpc)[i].target != Fanout(ids, rpc)[j].target
  {
    if ids != [] {
      var init := ids[..|ids| - 1];
      var last := ids[|ids| - 1];
      FanoutOncePerNode(init, rpc);
      forall d | d in Fanout(init, rpc)
        ensures d.target != last
      {
        FanoutMembers(init, rpc, d);
      }
    }
  }

  /** Responses, whatever their content, are not broadcast. */
  lemma {:induction false} ResponsesAreNotBroadcast(ids: seq<int>, rpc: Rpc)
    requires rpc.AppendResult? || rpc.VoteResult?
    ensures Fanout(ids, rpc) == []
  {
    if ids != [] {
      ResponsesAreNotBroadcast(ids[..|ids| - 1], rpc);
    }
  }

  class CommunicationManager {
    /** `node_dict`: the registered nodes by id. */
    var nodeDict: map<int, Node>
    /** The ids of `nodeDict` in insertion order, the order `node_dict.values()` walks. */
    var order: seq<int>

    ghost predicate Valid()
      reads this
    {
      (forall k :: k in nodeDict <==> k in order) &&
      (forall i, j :: 0 <= i < j < |order| ==> order[i] != order[j]) &&
      (forall k :: k in nodeDict ==> nodeDict[k].myId == k)
    }

    constructor ()
      ensures Valid() && nodeDict == map[] && order == []
    {
      nodeDict := map[];
      order := [];
    }

    /**
     * append_node: register `node` under its id, replacing an earlier node with
     * the same id in place, and point the node back at this manager.
     */
    method AppendNode(node: Node)
      requires Valid()
      modifies this, node`communicationManager
      ensures Valid()
      ensures nodeDict == old(nodeDict)[node.myId := node]
      ensures order == if node.myId in old(nodeDict) then old(order) else old(order) + [node.myId]
      ensures node.communicationManager == this
    {
      if node.myId !in nodeDict {
        order := order + [node.myId];
      }
      nodeDict := nodeDict[node.myId := node];
      node.communicationManager := this;
    }

    /** send_to: the handler of the registered node `id` that receives `rpc`. */
    method SendTo(rpc: Rpc, id: int) returns (d: Option<Delivery>)
      requires id in nodeDict
      ensures d.Some? <==> Dispatch(rpc.TypeCode()).Some?
      ensures d.Some? ==> d.value == Delivery(id, Dispatch(rpc.TypeCode()).value, rpc)
    {
      var code := rpc.TypeCode();
      if code == 1 {
        d := Some(Delivery(id, OnAppendRequest, rpc));
      } else if code == 2 {
        d := Some(Delivery(id, OnAppendResponse, rpc));
      } else if code == 3 {
        d := Some(Delivery(id, OnVoteRequest, rpc));
      } else if code == 4 {
        d := Some(Delivery(id, OnVoteResponse, rpc));
      } else {
        d := None;
      }
    }

    /** send_to_all: one delivery per registered node that `Receives` admits, in registration order. */
    method SendToAll(rpc: Rpc) returns (ds: seq<Delivery>)
      requires Valid()
      ensures ds == Fanout(order, rpc)
    {
      ds := [];
      var code := rpc.TypeCode();
      if code == 1 || code == 3 {
        for i := 0 to |order|
          invariant ds == Fanout(order[..i], rpc)
        {
          var id := order[i];
          assert order[..i + 1][..i] == order[..i];
          if Receives(rpc, id) {
            assert id in nodeDict;
            var d := SendTo(rpc, id);
            ds := ds + [d.value];
          }
        }
        assert order[..|order|] == order;
      } else {
        ResponsesAreNotBroadcast(order, rpc);
      }
    }
  }

  /** A broadcast from a valid manager reaches each registered node it admits exactly once. */
  lemma BroadcastReachesEachOnce(m: CommunicationManager, rpc: Rpc, id: int)
    requires m.Valid()
    ensures |set d | d in Fanout(m.order, rpc) && d.target == id| == (if id in m.nodeDict && Receives(rpc, id) then 1 else 0)
  {
    var s := set d | d in Fanout(m.order, rpc) && d.target == id;
    if id in m.nodeDict && Receives(rpc, id) {
      var d0 := Delivery(id, Dispatch(rpc.TypeCode()).value, rpc);
      FanoutMembers(m.order, rpc, d0);
      forall d | d in s ensures d == d0 {
        FanoutMembers(m.order, rpc, d);
      }
      assert s == {d0};
    } else {
      forall d | d in s ensures false {
        FanoutMembers(m.order, rpc, d);
      }
      assert s == {};
    }
  }
}
