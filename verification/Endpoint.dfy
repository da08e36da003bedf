/**
 The network layer of one node (src/network.c) over its handlers: the list of guids seen and the
 messages written to the peers. Each method takes the member of the network to the state that
 the corresponding step of `Network` says.
 */
module Endpoints {
  import opened Options
  import opened Blocks
  import opened ForkChoice
  import opened Nodes
  import opened Network

  class Endpoint {
    const peer: Peer
    var history: seq<Guid>
    var sent: seq<Message>

    ghost function AsMember(): Member
      reads this, peer, peer.chain, peer.pool
    {
      Member(peer.State(), history, sent)
    }

    ghost predicate Valid()
      reads peer, peer.chain
    {
      peer.Valid()
    }

    constructor (key: Key)
      ensures Valid() && fresh(peer) && fresh(peer.chain) && fresh(peer.pool)
      ensures AsMember() == Member(Node(key, EMPTY, []), [], [])
    {
      peer := new Peer(key);
      history, sent := [], [];
    }

    /** message_history_add: a full list first loses its oldest entry. */
    method MessageHistoryAdd(guid: Guid)
      modifies this`history
      ensures history == HistoryAdd(old(history), guid)
      ensures forall guids :: old(history) == Window(guids) ==> history == Window(guids + [guid])
    {
      ghost var before := history;
      forall guids | before == Window(guids)
        ensures HistoryAdd(before, guid) == Window(guids + [guid])
      {
        HistoryIsSlidingWindow(guids, guid);
      }
      if |history| >= MESSAGE_HISTORY_SIZE {
        history := history[1..];
      }
      history := history + [guid];
    }

    /** message_history_has: a linear search. */
    method MessageHistoryHas(guid: Guid) returns (has: bool)
      ensures has <==> guid in history
    {
      for i := 0 to |history|
        invariant guid !in history[..i]
      {
        if history[i] == guid {
          return true;
        }
      }
      has := false;
    }

    /** Records the guid and writes the message to every peer. */
    method Send(msg: Message)
      modifies this
      ensures history == HistoryAdd(old(history), msg.guid) && sent == old(sent) + [msg]
    {
      MessageHistoryAdd(msg.guid);
      sent := sent + [msg];
    }

    /** broadcast_block, for the block a handler created if it created one. */
    method SendNew(blocks: seq<Block>, newGuid: Guid)
      modifies this
      ensures AsMember() == BroadcastNew(old(AsMember()), blocks, newGuid)
    {
      if blocks != [] {
        Send(Message(newGuid, blocks[0]));
      }
    }

    /**
     handle_message for a block message. With the null guid the handler runs and nothing is relayed; any other
     guid is handled unless the history holds it: the handler runs first, then the message is relayed.
     */
    method HandleMessage(msg: Message, make: Maker, newGuid: Guid)
      requires Valid() && Makes(make, peer.key)
      modifies this, peer.chain, peer.pool
      ensures Valid()
      ensures AsMember() == Receive(old(AsMember()), msg, make, newGuid)
    {
      if msg.guid == GUID_NULL {
        var created := peer.OnBlock(Some(msg.block), make);
        SendNew(created, newGuid);
      } else {
        var seen := MessageHistoryHas(msg.guid);
        if !seen {
          var created := peer.OnBlock(Some(msg.block), make);
          SendNew(created, newGuid);
          Send(msg);
        }
      }
    }

    method OnTimer(make: Maker, newGuid: Guid)
      requires Valid() && Makes(make, peer.key)
      modifies this, peer.chain, peer.pool
      ensures Valid()
      ensures AsMember() == Tick(old(AsMember()), make, newGuid)
    {
      var created := peer.OnTimer(make);
      SendNew(created, newGuid);
    }
  }
}
