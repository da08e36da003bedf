/**
 The event handlers of a node (main/main.c) over its block tree and its pool.

 A block arrives as the outcome of parsing: `None` is a malformed message, and a well-formed
 block is accepted when the node knows the block it builds on. `make` stands for block_create
 at the moment of the event: given a parent and the drained pool it may return a new block.
 */
module Nodes {
  import opened Bytes
  import opened Options
  import opened Blocks
  import opened ForkChoice
  import opened BlockTree
  import opened Pools

  type Maker = (Block, seq<Transaction>) -> Option<Block>

  datatype Node = Node(key: Key, forest: State, pool: seq<Transaction>)

  /** A node after a handler ran, and the blocks the handler broadcast. */
  datatype Reaction = Reaction(node: Node, sent: seq<Block>)

  /** What block_create promises: a block of this node on the given parent with the given transactions. */
  ghost predicate Makes(make: Maker, key: Key) {
    forall p, txns :: make(p, txns).Some? ==>
      var b := make(p, txns).value;
      b.prev == At(p) && b.creator == key && b.transactions == txns
  }

  function Accepted(forest: State, msg: Option<Block>): Option<Block> {
    if msg.Some? && Known(forest.order, msg.value.prev) then msg else None
  }

  predicate HasOwnChild(n: Node, p: Block) {
    exists b :: b in n.forest.order && b.prev == At(p) && b.creator == n.key
  }

  /** blockchain_add_block with on_extended as its callback. */
  function AddBlock(n: Node, b: Block): Node {
    var forest := Add(n.forest, b);
    var pool := if forest.principal == n.forest.principal then n.pool
                else InsertAll(n.pool, Abandoned(n.forest.principal, forest.principal));
    Node(n.key, forest, pool)
  }

  /** The attempt to create a competing block on the parent of a block just accepted. */
  function Compete(n: Node, p: Block, make: Maker): Reaction {
    if HasOwnChild(n, p) then Reaction(n, [])
    else
      match make(p, n.pool)
      case None => Reaction(n.(pool := []), [])
      case Some(next) =>
        Reaction(AddBlock(n.(pool := []), next), if HasHash(n.forest.order, next.hash) then [] else [next])
  }

  function HandleBlock(n: Node, msg: Option<Block>, make: Maker): Reaction {
    match Accepted(n.forest, msg)
    case None => Reaction(n, [])
    case Some(b) =>
      if HasHash(n.forest.order, b.hash) then Reaction(n, [])
      else if b.prev.Null? then Reaction(AddBlock(n, b), [])
      else Compete(AddBlock(n, b), b.prev.block, make)
  }

  /** A response is processed from its last block to its first. */
  function HandleResponse(n: Node, msgs: seq<Option<Block>>, make: Maker): Reaction {
    if msgs == [] then Reaction(n, [])
    else
      var r := HandleResponse(n, msgs[1..], make);
      var s := HandleBlock(r.node, msgs[0], make);
      Reaction(s.node, r.sent + s.sent)
  }

  lemma ResponseStep(n: Node, msgs: seq<Option<Block>>, i: nat, make: Maker)
    requires i < |msgs|
    ensures var r := HandleResponse(n, msgs[i + 1..], make);
            var s := HandleBlock(r.node, msgs[i], make);
            HandleResponse(n, msgs[i..], make) == Reaction(s.node, r.sent + s.sent)
  {
    assert msgs[i..][1..] == msgs[i + 1..];
  }

  function HandleTimer(n: Node, make: Maker): Reaction {
    if n.forest.principal.Null? || HasOwnChild(n, n.forest.principal.block) then Reaction(n, [])
    else
      match make(n.forest.principal.block, n.pool)
      case None => Reaction(n.(pool := []), [])
      case Some(next) => Reaction(AddBlock(n.(pool := []), next), [next])
  }

  /** A transaction from a peer, `None` if it was malformed or not properly signed, or from the send command. */
  function HandleTransaction(n: Node, msg: Option<Transaction>): Node {
    if msg.None? then n else n.(pool := Insert(n.pool, msg.value))
  }

  function HandlePool(n: Node, msgs: seq<Option<Transaction>>): Node {
    if msgs == [] then n else HandleTransaction(HandlePool(n, msgs[..|msgs| - 1]), msgs[|msgs| - 1])
  }

  /** The blocks from l down to the target, or to the root when the branch does not meet it. */
  function Answer(l: Link, target: Link): seq<Block> {
    if l == target || l.Null? then [] else [l.block] + Answer(l.block.prev, target)
  }

  lemma AnswerStep(response: seq<Block>, l: Link, target: Link)
    requires l.At? && l != target
    ensures response + Answer(l, target) == response + [l.block] + Answer(l.block.prev, target)
  {
  }

  /** What blockchain_get_block returns for the hash. */
  ghost predicate Resolves(order: seq<Block>, h: Digest, target: Link) {
    && (target.Null? <==> !HasHash(order, h))
    && (target.At? ==> target.block in order && target.block.hash == h)
  }

  // ---------- the handlers over the mutable objects ----------

  class Peer {
    const key: Key
    const chain: Blockchain
    const pool: Pool

    ghost function State(): Node
      reads this, chain, pool
    {
      Node(key, chain.State(), pool.list)
    }

    ghost predicate Valid()
      reads this, chain
    {
      chain.Valid()
    }

    constructor (key: Key)
      ensures Valid() && State() == Node(key, EMPTY, [])
      ensures fresh(chain) && fresh(pool)
    {
      this.key := key;
      chain := new Blockchain();
      pool := new Pool();
    }

    method Insert(block: Block) returns (added: bool)
      requires Valid() && Known(chain.order, block.prev)
      modifies chain, pool
      ensures Valid()
      ensures State() == AddBlock(old(State()), block)
      ensures added == !HasHash(old(chain.order), block.hash)
    {
      var before := chain.principal;
      var extended;
      added, extended := chain.AddBlock(block);
      if extended {
        pool.PutBack(before, chain.principal);
      }
    }

    /** Drains the pool and calls block_create on the parent. */
    method Create(p: Block, make: Maker) returns (next: Option<Block>)
      requires Makes(make, key)
      modifies pool
      ensures pool.list == [] && next == make(p, old(pool.list))
      ensures next.Some? ==> next.value.prev == At(p)
    {
      var txns := pool.Drain();
      next := make(p, txns);
    }

    method TryCompete(p: Block, make: Maker) returns (sent: seq<Block>)
      requires Valid() && p in chain.order && Makes(make, key)
      modifies chain, pool
      ensures Valid()
      ensures Reaction(State(), sent) == Compete(old(State()), p, make)
    {
      sent := [];
      var child := chain.GetChildWithPublicKey(p, key);
      assert child == Null <==> !HasOwnChild(State(), p);
      if child == Null {
        var next := Create(p, make);
        if next.Some? {
          var added := Insert(next.value);
          if added {
            sent := [next.value];
          }
        }
      }
    }

    /** on_block. */
    method OnBlock(msg: Option<Block>, make: Maker) returns (sent: seq<Block>)
      requires Valid() && Makes(make, key)
      modifies chain, pool
      ensures Valid()
      ensures Reaction(State(), sent) == HandleBlock(old(State()), msg, make)
    {
      sent := [];
      var block := Parse(msg);
      if block.Some? {
        var added := Insert(block.value);
        if added && block.value.prev != Null {
          sent := TryCompete(block.value.prev.block, make);
        }
      }
    }

    /** The part of block_create_from_tuple that depends on this node: looking up the previous block. */
    method Parse(msg: Option<Block>) returns (block: Option<Block>)
      requires Valid()
      ensures block == Accepted(chain.State(), msg)
    {
      block := None;
      if msg.Some? {
        if msg.value.prev == Null {
          block := msg;
        } else {
          var found := chain.GetBlock(msg.value.prev.block.hash);
          if found == msg.value.prev {
            block := msg;
          }
        }
      }
    }

    /** on_blocks_response. */
    method OnBlocksResponse(msgs: seq<Option<Block>>, make: Maker) returns (sent: seq<Block>)
      requires Valid() && Makes(make, key)
      modifies chain, pool
      ensures Valid()
      ensures Reaction(State(), sent) == HandleResponse(old(State()), msgs, make)
    {
      sent := [];
      var i := |msgs|;
      while i > 0
        invariant 0 <= i <= |msgs|
        invariant Valid()
        invariant Reaction(State(), sent) == HandleResponse(old(State()), msgs[i..], make)
      {
        ResponseStep(old(State()), msgs, i - 1, make);
        var s := OnBlock(msgs[i - 1], make);
        sent := sent + s;
        i := i - 1;
      }
      assert msgs[0..] == msgs;
    }

    /** on_timer. */
    method OnTimer(make: Maker) returns (sent: seq<Block>)
      requires Valid() && Makes(make, key)
      modifies chain, pool
      ensures Valid()
      ensures Reaction(State(), sent) == HandleTimer(old(State()), make)
    {
      sent := [];
      var block := chain.principal;
      PrincipalIsKnownLeaf(chain.State());
      if block != Null {
        var child := chain.GetChildWithPublicKey(block.block, key);
        assert child == Null <==> !HasOwnChild(State(), block.block);
        if child == Null {
          var next := Create(block.block, make);
          if next.Some? {
            var _ := Insert(next.value);
            sent := [next.value];
          }
        }
      }
    }

    /** on_transaction. */
    method OnTransaction(msg: Option<Transaction>)
      requires Valid()
      modifies pool
      ensures Valid() && State() == HandleTransaction(old(State()), msg)
    {
      if msg != None {
        pool.Add(msg.value);
      }
    }

    /** on_pool_response. */
    method OnPoolResponse(msgs: seq<Option<Transaction>>)
      requires Valid()
      modifies pool
      ensures Valid() && State() == HandlePool(old(State()), msgs)
    {
      for i := 0 to |msgs|
        invariant Valid() && State() == HandlePool(old(State()), msgs[..i])
      {
        assert msgs[..i + 1][..i] == msgs[..i];
        OnTransaction(msgs[i]);
      }
      assert msgs[..|msgs|] == msgs;
    }

    /** on_blocks_request: the blocks of the principal branch above the requested one, leaf first. */
    method OnBlocksRequest(h: Digest) returns (response: seq<Block>)
      requires Valid()
      ensures exists target :: Resolves(chain.order, h, target) && response == Answer(chain.principal, target)
    {
      var block := chain.GetBlock(h);
      var iter := chain.principal;
      response := [];
      ghost var answer := Answer(iter, block);
      while iter != block && iter != Null
        invariant answer == response + Answer(iter, block)
        decreases Height(iter)
      {
        AnswerStep(response, iter, block);
        response := response + [iter.block];
        iter := iter.block.prev;
      }
      assert response + [] == response;
      assert Resolves(chain.order, h, block);
    }
  }
}
