/**
 The block handlers over tuples (main/main.c), and a chain synchronisation over bytes: the answer is
 written, framed, cut into reads, reassembled, parsed, and its blocks rebuilt one after another, each
 with the tree the ones before it left.
 */
module Synchronisation {
  import opened Bytes
  import opened Options
  import opened Blocks
  import opened Tuples
  import opened Cryptography
  import opened BlockCodec
  import opened Messages
  import opened Framing
  import opened ForkChoice
  import opened BlockTree
  import opened Nodes
  import opened NodeRuns
  import opened Delivery

  /** lookup_block in a tree with the given blocks. */
  function Find(order: seq<Block>, h: Digest): Link {
    if order == [] then Null
    else if order[0].hash == h then At(order[0])
    else Find(order[1..], h)
  }

  function Lookup(order: seq<Block>): Digest -> Link {
    (h: Digest) => Find(order, h)
  }

  lemma {:induction false} LookupResolves(order: seq<Block>, h: Digest)
    ensures Resolves(order, h, Lookup(order)(h))
  {
    if order != [] && order[0].hash != h {
      LookupResolves(order[1..], h);
      assert order == [order[0]] + order[1..];
    }
  }

  /** on_block and one round of on_blocks_response; an element that is no tuple is skipped. */
  function HandleTuple(c: Crypto, n: Node, e: Element, make: Maker): Reaction {
    HandleBlock(n, if e.Tup? then Rebuild(c, e.elems, Lookup(n.forest.order)) else None, make)
  }

  /** on_blocks_response, from the last block to the first. */
  function HandleTuples(c: Crypto, n: Node, es: Tuple, make: Maker): Reaction
    decreases |es|
  {
    if es == [] then Reaction(n, [])
    else
      var r := HandleTuples(c, n, es[1..], make);
      var s := HandleTuple(c, r.node, es[0], make);
      Reaction(s.node, r.sent + s.sent)
  }

  lemma HandleTuplesFrom(c: Crypto, n: Node, es: Tuple, i: nat, make: Maker)
    requires i < |es|
    ensures var r := HandleTuples(c, n, es[i + 1..], make);
            var s := HandleTuple(c, r.node, es[i], make);
            HandleTuples(c, n, es[i..], make) == Reaction(s.node, r.sent + s.sent)
  {
    assert es[i..][1..] == es[i + 1..];
  }

  // ---------- the handlers ----------

  /** Rebuilding looks up one hash only. */
  lemma OneLookup(c: Crypto, tuple: Tuple, find: Digest -> Link, other: Digest -> Link)
    requires BlockIsValid(c, tuple) ==> find(tuple[0].elems[1].bin) == other(tuple[0].elems[1].bin)
    ensures Rebuild(c, tuple, find) == Rebuild(c, tuple, other)
  {
  }

  lemma IndexIsLookup(blocks: map<Digest, Block>, order: seq<Block>, h: Digest)
    requires BlocksIndexed(blocks, order)
    ensures Lookup(order)(h) == if h in blocks then At(blocks[h]) else Null
  {
    LookupResolves(order, h);
  }

  /** on_block: rebuild from the tuple, looking up the previous block in the tree, then handle. */
  method OnBlockTuple(peer: Peer, c: Crypto, e: Element, make: Maker) returns (sent: seq<Block>)
    requires peer.Valid() && Makes(make, peer.key)
    modifies peer.chain, peer.pool
    ensures peer.Valid()
    ensures Reaction(peer.State(), sent) == HandleTuple(c, old(peer.State()), e, make)
  {
    var block := None;
    if e.Tup? {
      var blocks := peer.chain.blocks;
      var find := (h: Digest) => if h in blocks then At(blocks[h]) else Null;
      block := Rebuild(c, e.elems, find);
      if BlockIsValid(c, e.elems) {
        IndexIsLookup(blocks, peer.chain.order, e.elems[0].elems[1].bin);
      }
      OneLookup(c, e.elems, find, Lookup(peer.chain.order));
    }
    sent := peer.OnBlock(block, make);
  }

  method OnBlocksResponseTuples(peer: Peer, c: Crypto, es: Tuple, make: Maker) returns (sent: seq<Block>)
    requires peer.Valid() && Makes(make, peer.key)
    modifies peer.chain, peer.pool
    ensures peer.Valid()
    ensures Reaction(peer.State(), sent) == HandleTuples(c, old(peer.State()), es, make)
  {
    sent := [];
    var i := |es|;
    ghost var n := peer.State();
    while i > 0
      invariant 0 <= i <= |es|
      invariant peer.Valid()
      invariant Reaction(peer.State(), sent) == HandleTuples(c, n, es[i..], make)
    {
      HandleTuplesFrom(c, n, es, i - 1, make);
      var s := OnBlockTuple(peer, c, es[i - 1], make);
      sent := sent + s;
      i := i - 1;
    }
    assert es[0..] == es;
  }

  // ---------- what an answer becomes on the way ----------

  /** The blocks that come back from their own bytes. */
  ghost function Intact(c: Crypto): iset<Block> {
    iset b | WellFormed(c, b)
  }

  /** Its creator did not also sign the block's header without the previous block. */
  ghost predicate SignedInPlace(c: Crypto, b: Block) {
    b.prev.At? ==> |b.signature| == SIGNATURE_BYTES && !c.verify(b.signature, BlockHash(c, b.(prev := Null)), b.creator)
  }

  /** Blocks as nodes hold them: each was accepted somewhere, and has no more transactions than can be counted. */
  ghost predicate AcceptedSomewhere(c: Crypto, universe: iset<Block>) {
    forall b :: b in universe ==>
      Admissible(c, b) && SignedInPlace(c, b) && |b.transactions| < TWO_TO_THE_32 && b.hash != ZERO_DIGEST
  }

  /** A written block reaches the handler as itself if it is well formed and its parent is known, else not at all. */
  lemma WrittenBlockArrives(c: Crypto, universe: iset<Block>, n: Node, b: Block)
    requires WithinUniverse(universe, n) && AcceptedSomewhere(c, universe) && b in universe
    requires b.prev.At? ==> b.prev.block in universe
    ensures Rebuild(c, BlockTuple(b), Lookup(n.forest.order)) ==
            Accepted(n.forest, if b in Intact(c) then Some(b) else None)
  {
    var find := Lookup(n.forest.order);
    if b !in Intact(c) {
      UncommittedIsLost(c, b, find);
    } else {
      ParentIsFound(universe, n, b);
      if Known(n.forest.order, b.prev) {
        WellFormedIsRebuilt(c, b, find);
      } else {
        OrphanIsTakenForRoot(c, b, find);
      }
    }
  }

  lemma ParentIsFound(universe: iset<Block>, n: Node, b: Block)
    requires WithinUniverse(universe, n) && forall x :: x in universe ==> x.hash != ZERO_DIGEST
    requires b.prev.At? ==> b.prev.block in universe
    ensures Lookup(n.forest.order)(LinkHash(b.prev)) == if Known(n.forest.order, b.prev) then b.prev else Null
  {
    var h := LinkHash(b.prev);
    LookupResolves(n.forest.order, h);
    var found := Lookup(n.forest.order)(h);
    if found.At? {
      assert found.block in universe;
    }
  }

  lemma ResponseStaysWithin(universe: iset<Block>, n: Node, msgs: seq<Option<Block>>, make: Maker)
    requires WithinUniverse(universe, n) && ResponseCalls(universe, n, msgs, make)
    requires forall m :: m in msgs && m.Some? ==> m.value in universe
    ensures WithinUniverse(universe, HandleResponse(n, msgs, make).node)
  {
    if msgs != [] {
      ResponseStaysWithin(universe, n, msgs[1..], make);
      assert msgs[0] in msgs;
      HandleBlockAdds(universe, HandleResponse(n, msgs[1..], make).node, msgs[0], make);
    }
  }

  lemma MessagesAreBlocks(bs: seq<Block>, intact: iset<Block>)
    ensures forall m :: m in Incoming(bs, intact) && m.Some? ==> m.value in bs
  {
    if bs != [] {
      MessagesAreBlocks(bs[1..], intact);
    }
  }

  /** Blocks of a universe whose parents are in it too. */
  ghost predicate Within(universe: iset<Block>, bs: seq<Block>) {
    forall b :: b in bs ==> b in universe && (b.prev.At? ==> b.prev.block in universe)
  }

  lemma TupleIsMessage(c: Crypto, universe: iset<Block>, n: Node, b: Block, make: Maker)
    requires WithinUniverse(universe, n) && AcceptedSomewhere(c, universe) && b in universe
    requires b.prev.At? ==> b.prev.block in universe
    ensures HandleTuple(c, n, Tup(BlockTuple(b)), make) == HandleBlock(n, if b in Intact(c) then Some(b) else None, make)
  {
    WrittenBlockArrives(c, universe, n, b);
    AcceptedTwice(n, if b in Intact(c) then Some(b) else None, make);
  }

  lemma AcceptedTwice(n: Node, msg: Option<Block>, make: Maker)
    ensures HandleBlock(n, Accepted(n.forest, msg), make) == HandleBlock(n, msg, make)
  {
  }

  lemma BlockTuplesStep(bs: seq<Block>)
    requires bs != []
    ensures BlockTuples(bs)[0] == Tup(BlockTuple(bs[0])) && BlockTuples(bs)[1..] == BlockTuples(bs[1..])
  {
  }

  lemma HandleTuplesStep(c: Crypto, n: Node, bs: seq<Block>, make: Maker)
    requires bs != []
    ensures var r := HandleTuples(c, n, BlockTuples(bs[1..]), make);
            var s := HandleTuple(c, r.node, Tup(BlockTuple(bs[0])), make);
            HandleTuples(c, n, BlockTuples(bs), make) == Reaction(s.node, r.sent + s.sent)
  {
    BlockTuplesStep(bs);
  }

  /** Handling the tuples of the blocks is handling the blocks that are well formed. */
  lemma {:induction false} TuplesAreMessages(c: Crypto, universe: iset<Block>, n: Node, bs: seq<Block>, make: Maker)
    requires WithinUniverse(universe, n) && AcceptedSomewhere(c, universe) && Within(universe, bs)
    requires ResponseCalls(universe, n, Incoming(bs, Intact(c)), make)
    ensures HandleTuples(c, n, BlockTuples(bs), make) == HandleResponse(n, Incoming(bs, Intact(c)), make)
  {
    if bs != [] {
      var rest := Incoming(bs[1..], Intact(c));
      assert Incoming(bs, Intact(c))[1..] == rest;
      TuplesAreMessages(c, universe, n, bs[1..], make);
      MessagesAreBlocks(bs[1..], Intact(c));
      ResponseStaysWithin(universe, n, rest, make);
      assert bs[0] in bs;
      TupleIsMessage(c, universe, HandleResponse(n, rest, make).node, bs[0], make);
      HandleTuplesStep(c, n, bs, make);
    }
  }

  // ---------- synchronisation ----------

  lemma {:induction false} AnswerIsWithin(universe: iset<Block>, order: seq<Block>, l: Link, target: Link)
    requires Forest(order) && Known(order, l) && forall b :: b in order ==> b in universe
    ensures Within(universe, Answer(l, target))
  {
    if l.At? && l != target {
      ForestIsClosed(order);
      AnswerIsWithin(universe, order, l.block.prev, target);
    }
  }

  /**
   What the requester n has become by processing the answer for l. It has the responder's whole branch exactly
   when every answered block that it did not know commits to its transactions, and then its own principal branch
   is at least as good. In any case it has exactly those answered blocks at and below which nothing is lost.
   */
  ghost predicate Synchronised(c: Crypto, universe: iset<Block>, n: Node, l: Link, target: Link, n': Node) {
    && AnswerAbsorbed(universe, n, l, target, Intact(c), n')
    && ((forall b :: b in Chain(l) ==> b in n'.forest.order)
        <==> (forall b :: b in Answer(l, target) ==> CommitsToTransactions(c, b) || b in n.forest.order))
    && ((forall b :: b in Chain(l) ==> b in n'.forest.order) ==> AtLeastAsGood(Chain(n'.forest.principal), Chain(l)))
  }

  /** A requester may ask with any block it knows, or with none; block_create keeps within the universe along the way. */
  ghost predicate CanSynchronise(c: Crypto, universe: iset<Block>, n: Node, make: Maker, responder: State,
                                 asked: Link, target: Link)
  {
    && WithinUniverse(universe, n) && AcceptedSomewhere(c, universe) && Known(n.forest.order, asked)
    && Consistent(responder) && (forall b :: b in responder.order ==> b in universe)
    && Resolves(responder.order, HashOf(asked), target)
    && NothingForged(n, Answer(responder.principal, target))
    && ResponseCalls(universe, n, Incoming(Answer(responder.principal, target), Intact(c)), make)
  }

  lemma SyncOfTuples(c: Crypto, universe: iset<Block>, n: Node, make: Maker, responder: State, asked: Link, target: Link)
    requires CanSynchronise(c, universe, n, make, responder, asked, target)
    ensures var l := responder.principal;
            Synchronised(c, universe, n, l, target, HandleTuples(c, n, BlockTuples(Answer(l, target)), make).node)
  {
    var l := responder.principal;
    PrincipalIsKnownLeaf(responder);
    AnswerIsWithin(universe, responder.order, l, target);
    TuplesAreMessages(c, universe, n, Answer(l, target), make);
    SyncIsCompleteExactly(universe, n, make, responder, asked, target, Intact(c));
    IntactMeansCommits(c, universe, Answer(l, target));
  }

  /** The bytes of an answer, however they are cut, arrive as one message with the tuples of its blocks. */
  lemma AnswerArrives(c: Crypto, bs: seq<Block>, event: u16, chunks: seq<seq<byte>>)
    requires forall b :: b in bs ==> Admissible(c, b)
    requires |Encode(Tup(BlockTuples(bs)))| < TWO_TO_THE_32
    requires Concat(chunks) == Frame(GUID_NULL, event, Encode(Tup(BlockTuples(bs))))
    ensures var o := Feed([], chunks);
            && o.residue == [] && |o.messages| == 1 && |o.messages[0]| >= MESSAGE_HEADER_SIZE
            && var parsed := ParseTuple(Payload(o.messages[0]));
            && parsed.Done? && parsed.value == BlockTuples(bs)
  {
    var payload := Encode(Tup(BlockTuples(bs)));
    FrameArrives(GUID_NULL, event, payload, chunks);
    ResponseParses(c, bs, []);
    assert payload + [] == payload;
  }

  /** The answer to a request over bytes, however they are cut. */
  lemma SyncOverBytes(c: Crypto, universe: iset<Block>, n: Node, make: Maker, responder: State, asked: Link,
                      target: Link, event: u16, chunks: seq<seq<byte>>)
    requires CanSynchronise(c, universe, n, make, responder, asked, target)
    requires var payload := Encode(Tup(BlockTuples(Answer(responder.principal, target))));
             |payload| < TWO_TO_THE_32 && Concat(chunks) == Frame(GUID_NULL, event, payload)
    ensures var l, o := responder.principal, Feed([], chunks);
            && o.residue == [] && |o.messages| == 1 && |o.messages[0]| >= MESSAGE_HEADER_SIZE
            && var parsed := ParseTuple(Payload(o.messages[0]));
            && parsed.Done?
            && Synchronised(c, universe, n, l, target, HandleTuples(c, n, parsed.value, make).node)
  {
    SyncOfTuples(c, universe, n, make, responder, asked, target);
    AnswerIsAdmissible(c, universe, responder, target);
    AnswerArrives(c, Answer(responder.principal, target), event, chunks);
  }

  lemma AnswerIsAdmissible(c: Crypto, universe: iset<Block>, responder: State, target: Link)
    requires Consistent(responder) && (forall b :: b in responder.order ==> b in universe)
    requires AcceptedSomewhere(c, universe)
    ensures forall b :: b in Answer(responder.principal, target) ==> Admissible(c, b)
  {
    PrincipalIsKnownLeaf(responder);
    AnswerIsWithin(universe, responder.order, responder.principal, target);
  }

  lemma IntactMeansCommits(c: Crypto, universe: iset<Block>, bs: seq<Block>)
    requires AcceptedSomewhere(c, universe) && Within(universe, bs)
    ensures forall b :: b in bs ==> (b in Intact(c) <==> CommitsToTransactions(c, b))
  {
  }
}
