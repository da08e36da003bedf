/**
 A block's way from one node's block_create to another node's handler: written as a tuple,
 framed, cut into arbitrary reads, reassembled, parsed and rebuilt.
 */
module Delivery {
  import opened Bytes
  import opened Options
  import opened Blocks
  import opened Tuples
  import opened Cryptography
  import opened Transactions
  import opened Ledgers
  import opened BlockCodec
  import opened Messages
  import opened Framing
  import opened ForkChoice
  import opened Nodes
  import opened NodeRuns
  import opened Collisions

  /** The buffer handle_message passes to tuple_parse. */
  function Payload(message: seq<byte>): seq<byte>
    requires |message| >= MESSAGE_HEADER_SIZE
  {
    message[MESSAGE_HEADER_SIZE..]
  }

  /** What a handler gets to see of a block message. */
  function Received(c: Crypto, message: seq<byte>, find: Digest -> Link): Option<Block>
    requires |message| >= MESSAGE_HEADER_SIZE
  {
    match ParseTuple(Payload(message))
    case Fail => None
    case Done(tuple, _) => Rebuild(c, tuple, find)
  }

  /** A well-formed block in a frame arrives, however the stream is cut, as one message, and is accepted as itself. */
  lemma WellFormedBlockArrives(c: Crypto, b: Block, guid: Guid, event: u16, chunks: seq<seq<byte>>,
                               find: Digest -> Link)
    requires WellFormed(c, b) && |b.transactions| < TWO_TO_THE_32
    requires |Encode(Tup(BlockTuple(b)))| < TWO_TO_THE_32
    requires Concat(chunks) == Frame(guid, event, Encode(Tup(BlockTuple(b))))
    requires find(LinkHash(b.prev)) == b.prev
    ensures var o := Feed([], chunks);
            && o.residue == [] && |o.messages| == 1 && |o.messages[0]| >= MESSAGE_HEADER_SIZE
            && Received(c, o.messages[0], find) == Some(b)
  {
    FrameArrives(guid, event, Encode(Tup(BlockTuple(b))), chunks);
    BlockTupleFits(b);
    TupleRoundTrip(BlockTuple(b), []);
    assert Encode(Tup(BlockTuple(b))) + [] == Encode(Tup(BlockTuple(b)));
    WellFormedIsRebuilt(c, b, find);
  }

  lemma FrameArrives(guid: Guid, event: u16, payload: seq<byte>, chunks: seq<seq<byte>>)
    requires |payload| < TWO_TO_THE_32 && Concat(chunks) == Frame(guid, event, payload)
    ensures var o := Feed([], chunks);
            && o.residue == [] && |o.messages| == 1 && |o.messages[0]| >= MESSAGE_HEADER_SIZE
            && Payload(o.messages[0]) == payload
  {
    var sent := [Sent(guid, event, payload)];
    OneFrame(sent[0]);
    SentFramesAreReceived(sent, chunks);
    var message := Frame(guid, event, payload);
    FrameFields(guid, event, payload, []);
    assert message + [] == message && Payload(message) == payload;
  }

  /**
   Every block a node makes from signed transactions arrives, however the stream is cut, as one
   message that any node knowing the parent accepts as the very same block.
   */
  lemma CreatedBlockArrives(c: Crypto, public: Digest, secret: Secret, prev: Link, txns: seq<Transaction>, b: Block,
                            guid: Guid, event: u16, chunks: seq<seq<byte>>, find: Digest -> Link)
    requires KeyPair(c, public, secret) && IsCreated(c, public, secret, prev, txns, b)
    requires StakingAllowed(prev, public)
    requires |txns| < TWO_TO_THE_32 && forall t :: t in txns ==> Signed(c, t)
    requires |Encode(Tup(BlockTuple(b)))| < TWO_TO_THE_32
    requires Concat(chunks) == Frame(guid, event, Encode(Tup(BlockTuple(b))))
    requires find(LinkHash(prev)) == prev
    ensures var o := Feed([], chunks);
            && o.residue == [] && |o.messages| == 1 && |o.messages[0]| >= MESSAGE_HEADER_SIZE
            && Received(c, o.messages[0], find) == Some(b)
  {
    CreatedIsWellFormed(c, public, secret, prev, txns, b);
    WellFormedBlockArrives(c, b, guid, event, chunks, find);
  }

  lemma OneFrame(f: Sent)
    ensures Frames([f]) == [Frame(f.guid, f.event, f.payload)]
    ensures Concat(Frames([f])) == Frame(f.guid, f.event, f.payload)
  {
    var frame := Frame(f.guid, f.event, f.payload);
    assert Frames([f]) == [frame] + Frames([]);
    assert Frames([f])[1..] == Frames([]);
    assert Concat(Frames([])) == [] && frame + [] == frame;
  }

  /** The lookup of a node: the block in its tree with the given hash. */
  ghost predicate LooksUp(order: seq<Block>, find: Digest -> Link) {
    forall h :: Resolves(order, h, find(h))
  }

  /** A hash means one block: nothing in the tree has the hash by which b names its parent except that parent. */
  ghost predicate NamesItsParent(order: seq<Block>, b: Block) {
    forall x :: x in order && x.hash == LinkHash(b.prev) ==> At(x) == b.prev
  }

  /**
   What the handlers are told about a well-formed block, its acceptance exactly when the parent is
   known, is what rebuilding it from its tuple yields; an orphan's signature must not fit its header as a root.
   */
  lemma RebuildingIsAcceptance(c: Crypto, b: Block, forest: State, find: Digest -> Link)
    requires WellFormed(c, b) && |b.transactions| < TWO_TO_THE_32
    requires LooksUp(forest.order, find) && NamesItsParent(forest.order, b)
    requires b.prev.At? ==> !c.verify(b.signature, BlockHash(c, b.(prev := Null)), b.creator)
    ensures Rebuild(c, BlockTuple(b), find) == Accepted(forest, Some(b))
  {
    var h := LinkHash(b.prev);
    assert Resolves(forest.order, h, find(h));
    if Known(forest.order, b.prev) {
      WellFormedIsRebuilt(c, b, find);
    } else {
      OrphanIsTakenForRoot(c, b, find);
    }
  }

  /** block_create at a given time, as the parameter of the handlers. */
  function BlockCreator(c: Crypto, public: Digest, secret: Secret, now: u64): Maker {
    (p: Block, txns: seq<Transaction>) => CreatedOn(c, public, secret, At(p), txns, now)
  }

  lemma BlockCreatorMakes(c: Crypto, public: Digest, secret: Secret, now: u64)
    ensures Makes(BlockCreator(c, public, secret, now), public)
  {
  }

  /**
   block_create meets what the handlers and the network ask of one call: from a parent in the universe and
   signed transactions it makes a block that is again in the universe, provided that what it hashes does
   not collide with what was hashed before.
   */
  lemma CreationStaysInUniverse(c: Crypto, strings: iset<seq<byte>>, public: Digest, secret: Secret, now: u64,
                                p: Block, txns: seq<Transaction>)
    requires KeyPair(c, public, secret) && p in Universe(c, strings)
    requires |txns| < TWO_TO_THE_32 && forall t :: t in txns ==> Signed(c, t)
    requires var b := CreatedOn(c, public, secret, At(p), txns, now);
             b.Some? ==> HashedWithin(c, strings, b.value) && b.value.hash != ZERO_DIGEST
    ensures MakesWithin(Universe(c, strings), BlockCreator(c, public, secret, now), p, txns)
  {
    var b := CreatedOn(c, public, secret, At(p), txns, now);
    if b.Some? {
      CreatedOnIsCreated(c, public, secret, At(p), txns, now, b.value);
      CreatedIsWellFormed(c, public, secret, At(p), txns, b.value);
    }
  }

  function BlockTuples(bs: seq<Block>): Tuple {
    seq(|bs|, i requires 0 <= i < |bs| => Tup(BlockTuple(bs[i])))
  }

  /** A blocks_response comes back as the list of the tuples of its blocks. */
  lemma ResponseParses(c: Crypto, bs: seq<Block>, rest: seq<byte>)
    requires forall b :: b in bs ==> Admissible(c, b)
    ensures ParseTuple(Encode(Tup(BlockTuples(bs))) + rest) == Done(BlockTuples(bs), |Encode(Tup(BlockTuples(bs)))|)
  {
    var es := BlockTuples(bs);
    forall i | 0 <= i < |es|
      ensures Fits(es[i])
    {
      assert Admissible(c, bs[i]);
      SignaturesFit(c, bs[i]);
      BlockTupleFits(bs[i]);
    }
    AllFitFrom(es, 0);
    assert es[0..] == es;
    TupleRoundTrip(es, rest);
  }

  lemma SignaturesFit(c: Crypto, b: Block)
    requires Admissible(c, b)
    ensures forall t :: t in b.transactions ==> |t.signature| == SIGNATURE_BYTES
  {
  }
}
