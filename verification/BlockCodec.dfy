/**
 Making blocks, writing them as tuples and rebuilding them (src/block.c).
 */
module BlockCodec {
  import opened Bytes
  import opened Options
  import opened Blocks
  import opened Tuples
  import opened Cryptography
  import opened Merkle
  import opened Transactions
  import opened Ledgers

  // ---------- the parts of a block ----------

  /** block_get_hash: NULL has the hash of all zeros. */
  function LinkHash(l: Link): Digest {
    if l.Null? then ZERO_DIGEST else l.block.hash
  }

  function Header(b: Block): Tuple {
    [U64(b.timestamp), Bin(LinkHash(b.prev)), Bin(b.merkleRoot), Bin(b.creator), Bin(b.proof),
     U32(b.delegate), U32(|b.transactions| % TWO_TO_THE_32)]
  }

  function TransactionTuples(ts: seq<Transaction>): Tuple {
    seq(|ts|, i requires 0 <= i < |ts| => Tup(ToTuple(ts[i])))
  }

  function BlockTuple(b: Block): Tuple {
    [Tup(Header(b)), Bin(b.signature), Tup(TransactionTuples(b.transactions))]
  }

  function BlockHash(c: Crypto, b: Block): Digest {
    c.hash(Encode(Tup(Header(b))))
  }

  function SeedOn(c: Crypto, prev: Link): Digest {
    c.hash(if prev.Null? then BigEndian(64, 0) else prev.block.seed + prev.block.creator)
  }

  function PriorityOf(c: Crypto, output: seq<byte>, delegate: u32): Digest {
    c.hash(output + Word32(delegate))
  }

  /** How many delegates a key may try on top of a block; a root may have one. */
  function DelegatesAt(prev: Link, k: Key): u32 {
    if prev.Null? then 1 else Delegates(BalanceIn(Replay(prev), k))
  }

  function Pair(c: Crypto): Pairing {
    (a: Digest, b: Digest) => c.hash(a + b)
  }

  function Hashes(ts: seq<Transaction>): seq<Digest> {
    seq(|ts|, i requires 0 <= i < |ts| => ts[i].hash)
  }

  // ---------- validity of tuples ----------

  predicate HeaderIsValid(header: Tuple) {
    && |header| == 7
    && header[0].U64?
    && IsDigest(header[1]) && IsDigest(header[2]) && IsDigest(header[3])
    && header[4].Bin? && |header[4].bin| == PROOF_BYTES
    && header[5].U32? && header[6].U32?
  }

  predicate TransactionsAreValid(txns: Tuple) {
    forall i :: 0 <= i < |txns| ==> txns[i].Tup? && TransactionIsValid(txns[i].elems)
  }

  function RawHash(c: Crypto, body: Element): Digest {
    c.hash(Encode(body))
  }

  /** The hashes of the signed parts as they came over the wire. */
  function RawHashes(c: Crypto, txns: Tuple): seq<Digest>
    requires TransactionsAreValid(txns)
  {
    seq(|txns|, i requires 0 <= i < |txns| => RawHash(c, txns[i].elems[0]))
  }

  predicate BlockIsValid(c: Crypto, tuple: Tuple) {
    && |tuple| == 3 && tuple[0].Tup? && tuple[1].Bin? && tuple[2].Tup?
    && HeaderIsValid(tuple[0].elems)
    && BodyIsValid(c, tuple[0].elems, tuple[2].elems)
  }

  /** The header commits to the number of transactions and to the Merkle root of their raw tuples. */
  predicate BodyIsValid(c: Crypto, header: Tuple, txns: Tuple)
    requires HeaderIsValid(header)
  {
    && |txns| == header[6].u32
    && TransactionsAreValid(txns)
    && RootOrZero(Pair(c), RawHashes(c, txns)) == header[2].bin
  }

  /** The signature goes to the beginning of a zeroed field of 64 bytes. */
  function Padded(s: seq<byte>): (r: Signature)
    requires |s| <= SIGNATURE_BYTES
    ensures r[..|s|] == s && forall i :: |s| <= i < 64 ==> r[i] == 0
  {
    BigEndianOfZero(SIGNATURE_BYTES - |s|);
    s + BigEndian(SIGNATURE_BYTES - |s|, 0)
  }

  predicate AllRebuild(c: Crypto, txns: Tuple)
    requires TransactionsAreValid(txns)
  {
    forall i :: 0 <= i < |txns| ==> FromTuple(c, txns[i].elems).Some?
  }

  function RebuiltTransactions(c: Crypto, txns: Tuple): seq<Transaction>
    requires TransactionsAreValid(txns) && AllRebuild(c, txns)
  {
    seq(|txns|, i requires 0 <= i < |txns| => FromTuple(c, txns[i].elems).value)
  }

  /** The block a valid tuple describes on top of a given previous block. */
  function Described(c: Crypto, tuple: Tuple, prev: Link, output: seq<byte>): Block
    requires BlockIsValid(c, tuple) && |tuple[1].bin| <= SIGNATURE_BYTES && AllRebuild(c, tuple[2].elems)
  {
    var h := tuple[0].elems;
    var b := Block(
               prev, h[0].u64, h[2].bin, h[3].bin, h[4].bin, h[5].u32,
               RebuiltTransactions(c, tuple[2].elems), Padded(tuple[1].bin),
               ZERO_DIGEST, SeedOn(c, prev), output, PriorityOf(c, output, h[5].u32));
    b.(hash := BlockHash(c, b))
  }

  /**
   block_create_from_tuple. A signature longer than its field and a transaction that does not
   verify, which the program does not survive, are refused here.
   */
  function Rebuild(c: Crypto, tuple: Tuple, find: Digest -> Link): Option<Block> {
    if !BlockIsValid(c, tuple) || |tuple[1].bin| > SIGNATURE_BYTES then None
    else
      var header, txns := tuple[0].elems, tuple[2].elems;
      var prev, creator := find(header[1].bin), header[3].bin;
      if !StakingAllowed(prev, creator) then None
      else
        match c.vrfVerify(creator, header[4].bin, SeedOn(c, prev))
        case None => None
        case Some(output) =>
          if prev.At? && header[5].u32 >= DelegatesAt(prev, creator) then None
          else if !AllRebuild(c, txns) then None
          else
            var b := Described(c, tuple, prev, output);
            if c.verify(b.signature, b.hash, b.creator) then Some(b) else None
  }

  // ---------- what a block has to satisfy ----------

  ghost predicate Proves(c: Crypto, b: Block)
    requires |b.proof| == PROOF_BYTES
  {
    var output := c.vrfVerify(b.creator, b.proof, b.seed);
    output.Some? && output.value == b.output
  }

  /** Everything the checks establish of a rebuilt block. */
  ghost predicate Admissible(c: Crypto, b: Block) {
    && |b.proof| == PROOF_BYTES && |b.signature| == SIGNATURE_BYTES
    && (forall t :: t in b.transactions ==> Signed(c, t))
    && StakingAllowed(b.prev, b.creator)
    && (b.prev.At? ==> b.delegate < DelegatesAt(b.prev, b.creator))
    && b.seed == SeedOn(c, b.prev)
    && Proves(c, b)
    && b.priority == PriorityOf(c, b.output, b.delegate)
    && b.hash == BlockHash(c, b)
    && c.verify(b.signature, b.hash, b.creator)
  }

  /** The header commits to the transactions the block holds. */
  ghost predicate CommitsToTransactions(c: Crypto, b: Block) {
    b.merkleRoot == RootOrZero(Pair(c), Hashes(b.transactions))
  }

  ghost predicate WellFormed(c: Crypto, b: Block) {
    Admissible(c, b) && CommitsToTransactions(c, b)
  }

  /** The delegate with the lowest priority among the first n, the first of them if there are several. */
  ghost predicate IsBestDelegate(c: Crypto, output: seq<byte>, n: nat, delegate: nat)
    requires n <= TWO_TO_THE_32
  {
    && delegate < n
    && forall i :: 0 <= i < n ==>
         && Value(PriorityOf(c, output, delegate)) <= Value(PriorityOf(c, output, i))
         && (i < delegate ==> Value(PriorityOf(c, output, delegate)) < Value(PriorityOf(c, output, i)))
  }

  ghost predicate IsCreated(c: Crypto, public: Digest, secret: Secret, prev: Link, txns: seq<Transaction>, b: Block) {
    && b.prev == prev && b.transactions == txns && b.creator == public
    && b.merkleRoot == RootOrZero(Pair(c), Hashes(txns))
    && b.seed == SeedOn(c, prev)
    && b.proof == c.prove(secret, b.seed) && b.output == c.proofToHash(b.proof)
    && IsBestDelegate(c, b.output, DelegatesAt(prev, public), b.delegate)
    && b.priority == PriorityOf(c, b.output, b.delegate)
    && b.hash == BlockHash(c, b) && b.signature == c.sign(secret, b.hash)
  }

  // ---------- the block that block_create makes ----------

  function BestDelegate(c: Crypto, output: seq<byte>, n: nat): (delegate: nat)
    requires 0 < n <= TWO_TO_THE_32
    ensures delegate < n
  {
    if n == 1 then 0
    else
      var best := BestDelegate(c, output, n - 1);
      if Value(PriorityOf(c, output, n - 1)) < Value(PriorityOf(c, output, best)) then n - 1 else best
  }

  lemma {:induction false} BestDelegateIsBest(c: Crypto, output: seq<byte>, n: nat)
    requires 0 < n <= TWO_TO_THE_32
    ensures IsBestDelegate(c, output, n, BestDelegate(c, output, n))
  {
    if n > 1 {
      BestDelegateIsBest(c, output, n - 1);
    }
  }

  lemma BestDelegateIsUnique(c: Crypto, output: seq<byte>, n: nat, d: nat, e: nat)
    requires n <= TWO_TO_THE_32 && IsBestDelegate(c, output, n, d) && IsBestDelegate(c, output, n, e)
    ensures d == e
  {
    assert Value(PriorityOf(c, output, d)) <= Value(PriorityOf(c, output, e));
    assert Value(PriorityOf(c, output, e)) <= Value(PriorityOf(c, output, d));
  }

  /** block_create at a given time. */
  function CreatedOn(c: Crypto, public: Digest, secret: Secret, prev: Link, txns: seq<Transaction>, now: u64)
    : (r: Option<Block>)
  {
    if !StakingAllowed(prev, public) then None
    else
      var seed := SeedOn(c, prev);
      var proof := c.prove(secret, seed);
      var output := c.proofToHash(proof);
      var delegate := BestDelegate(c, output, DelegatesAt(prev, public));
      var b := Block(prev, now, RootOrZero(Pair(c), Hashes(txns)), public, proof, delegate, txns,
                     [], ZERO_DIGEST, seed, output, PriorityOf(c, output, delegate));
      Some(b.(hash := BlockHash(c, b), signature := c.sign(secret, BlockHash(c, b))))
  }

  /** Where staking is allowed there is exactly one block that fits the description at a time, the one made. */
  lemma CreatedOnIsCreated(c: Crypto, public: Digest, secret: Secret, prev: Link, txns: seq<Transaction>, now: u64,
                           b: Block)
    requires StakingAllowed(prev, public)
    ensures CreatedOn(c, public, secret, prev, txns, now) == Some(b) <==>
            IsCreated(c, public, secret, prev, txns, b) && b.timestamp == now
  {
    var made := CreatedOn(c, public, secret, prev, txns, now).value;
    assert Header(made) == Header(made.(hash := ZERO_DIGEST, signature := []));
    BestDelegateIsBest(c, made.output, DelegatesAt(prev, public));
    if IsCreated(c, public, secret, prev, txns, b) && b.timestamp == now {
      BestDelegateIsUnique(c, made.output, DelegatesAt(prev, public), b.delegate, made.delegate);
      assert Header(b) == Header(made);
    }
  }

  // ---------- the round trip ----------

  /** Over a list of transactions the two Merkle routes hash the same bytes. */
  lemma RoutesAgree(c: Crypto, ts: seq<Transaction>)
    requires forall t :: t in ts ==> Signed(c, t)
    ensures var txns := TransactionTuples(ts);
            && TransactionsAreValid(txns)
            && RawHashes(c, txns) == Hashes(ts)
            && AllRebuild(c, txns) && RebuiltTransactions(c, txns) == ts
  {
    var txns := TransactionTuples(ts);
    forall i | 0 <= i < |ts|
      ensures TransactionIsValid(txns[i].elems) && FromTuple(c, txns[i].elems) == Some(ts[i])
    {
      assert Signed(c, ts[i]);
      ToTupleFits(ts[i]);
      TransactionRoundTrip(c, ts[i]);
    }
  }

  lemma RebuiltAreSigned(c: Crypto, txns: Tuple)
    requires TransactionsAreValid(txns) && AllRebuild(c, txns)
    ensures forall t :: t in RebuiltTransactions(c, txns) ==> Signed(c, t)
  {
    forall i | 0 <= i < |txns|
      ensures Signed(c, RebuiltTransactions(c, txns)[i])
    {
      RebuiltIsSigned(c, txns[i].elems);
    }
  }

  /** What is rebuilt satisfies everything but possibly the Merkle root of its own transactions. */
  lemma RebuiltIsAdmissible(c: Crypto, tuple: Tuple, find: Digest -> Link)
    requires Rebuild(c, tuple, find).Some?
    ensures Admissible(c, Rebuild(c, tuple, find).value)
  {
    var b := Rebuild(c, tuple, find).value;
    RebuiltAreSigned(c, tuple[2].elems);
    assert Header(b) == Header(b.(hash := ZERO_DIGEST));
  }

  lemma HeaderIsWritten(b: Block)
    requires |b.proof| == PROOF_BYTES
    ensures HeaderIsValid(Header(b))
  {
  }

  lemma BodyIsWritten(c: Crypto, b: Block)
    requires HeaderIsValid(Header(b)) && |b.transactions| < TWO_TO_THE_32
    requires b.merkleRoot == RootOrZero(Pair(c), Hashes(b.transactions))
    requires forall t :: t in b.transactions ==> Signed(c, t)
    ensures BodyIsValid(c, Header(b), TransactionTuples(b.transactions))
  {
    var header, n := Header(b), |b.transactions|;
    assert header[2].bin == b.merkleRoot && header[6].u32 == n;
    RoutesAgree(c, b.transactions);
  }

  lemma BlockTupleIsValid(c: Crypto, b: Block)
    requires WellFormed(c, b) && |b.transactions| < TWO_TO_THE_32
    ensures BlockIsValid(c, BlockTuple(b))
  {
    HeaderIsWritten(b);
    BodyIsWritten(c, b);
  }

  lemma BlockTupleDescribes(c: Crypto, b: Block)
    requires WellFormed(c, b) && BlockIsValid(c, BlockTuple(b)) && AllRebuild(c, TransactionTuples(b.transactions))
    ensures Described(c, BlockTuple(b), b.prev, b.output) == b
  {
    RoutesAgree(c, b.transactions);
    assert Padded(b.signature) == b.signature;
    var d := b.(hash := ZERO_DIGEST);
    assert Header(d) == Header(b);
  }

  /** A well-formed block is accepted unchanged by any node that finds its parent. */
  lemma WellFormedIsRebuilt(c: Crypto, b: Block, find: Digest -> Link)
    requires WellFormed(c, b) && |b.transactions| < TWO_TO_THE_32 && find(LinkHash(b.prev)) == b.prev
    ensures Rebuild(c, BlockTuple(b), find) == Some(b)
  {
    RoutesAgree(c, b.transactions);
    BlockTupleIsValid(c, b);
    BlockTupleDescribes(c, b);
  }

  /** A block comes back from the wire as itself exactly when it is well formed and its parent is found. */
  lemma RoundTripExactly(c: Crypto, b: Block, find: Digest -> Link)
    ensures Rebuild(c, BlockTuple(b), find) == Some(b)
            <==> WellFormed(c, b) && |b.transactions| < TWO_TO_THE_32 && find(LinkHash(b.prev)) == b.prev
  {
    if Rebuild(c, BlockTuple(b), find) == Some(b) {
      RebuiltIsAdmissible(c, BlockTuple(b), find);
      RoutesAgree(c, b.transactions);
    } else if WellFormed(c, b) && |b.transactions| < TWO_TO_THE_32 && find(LinkHash(b.prev)) == b.prev {
      WellFormedIsRebuilt(c, b, find);
    }
  }

  lemma HeaderFits(b: Block)
    requires |b.proof| == PROOF_BYTES
    ensures AllFit(Header(b))
  {
    var h := Header(b);
    AllFitFrom(h, 0);
  }

  lemma {:induction false} AllFitFrom(es: Tuple, k: nat)
    requires k <= |es| && forall i :: k <= i < |es| ==> Fits(es[i])
    ensures AllFit(es[k..])
    decreases |es| - k
  {
    if k < |es| {
      AllFitFrom(es, k + 1);
      assert es[k..][1..] == es[k + 1..];
    }
  }

  lemma TransactionTuplesFit(ts: seq<Transaction>)
    requires forall t :: t in ts ==> |t.signature| == SIGNATURE_BYTES
    ensures AllFit(TransactionTuples(ts))
  {
    var txns := TransactionTuples(ts);
    forall i | 0 <= i < |txns|
      ensures Fits(txns[i])
    {
      assert ts[i] in ts;
      ToTupleFits(ts[i]);
    }
    AllFitFrom(txns, 0);
    assert txns[0..] == txns;
  }

  lemma BlockTupleFits(b: Block)
    requires |b.proof| == PROOF_BYTES && |b.signature| == SIGNATURE_BYTES
    requires forall t :: t in b.transactions ==> |t.signature| == SIGNATURE_BYTES
    ensures AllFit(BlockTuple(b))
  {
    HeaderFits(b);
    TransactionTuplesFit(b.transactions);
    var es := BlockTuple(b);
    assert AllFit(es[1..][1..][1..]) && AllFit(es[1..][1..]) && AllFit(es[1..]);
  }

  lemma CreatedIsWellFormed(c: Crypto, public: Digest, secret: Secret, prev: Link, txns: seq<Transaction>, b: Block)
    requires KeyPair(c, public, secret) && IsCreated(c, public, secret, prev, txns, b)
    requires StakingAllowed(prev, public)
    requires forall t :: t in txns ==> Signed(c, t)
    ensures WellFormed(c, b)
  {
  }

  /**
   Every block that block_create makes from signed transactions, written to bytes, parsed and
   rebuilt where its parent is known, is accepted there as the very same block.
   */
  lemma CreatedBlocksAreAccepted(c: Crypto, public: Digest, secret: Secret, prev: Link, txns: seq<Transaction>,
                                 b: Block, find: Digest -> Link, rest: seq<byte>)
    requires KeyPair(c, public, secret) && IsCreated(c, public, secret, prev, txns, b)
    requires StakingAllowed(prev, public)
    requires |txns| < TWO_TO_THE_32 && forall t :: t in txns ==> Signed(c, t)
    requires find(LinkHash(prev)) == prev
    ensures var parsed := ParseTuple(Encode(Tup(BlockTuple(b))) + rest);
            parsed.Done? && Rebuild(c, parsed.value, find) == Some(b)
  {
    CreatedIsWellFormed(c, public, secret, prev, txns, b);
    BlockTupleFits(b);
    TupleRoundTrip(BlockTuple(b), rest);
    WellFormedIsRebuilt(c, b, find);
  }

  // ---------- the bytes of a block ----------

  lemma EncodeSeven(a: Element, b: Element, d: Element, e: Element, f: Element, g: Element, h: Element)
    ensures EncodeAll([a, b, d, e, f, g, h]) ==
            Encode(a) + (Encode(b) + (Encode(d) + (Encode(e) + (Encode(f) + (Encode(g) + Encode(h))))))
  {
    EncodeTwo(g, h);
    EncodeAllCons(f, [g, h]);
    EncodeAllCons(e, [f] + [g, h]);
    EncodeAllCons(d, [e] + ([f] + [g, h]));
    EncodeAllCons(b, [d] + ([e] + ([f] + [g, h])));
    EncodeAllCons(a, [b] + ([d] + ([e] + ([f] + [g, h]))));
    assert [a, b, d, e, f, g, h] == [a] + ([b] + ([d] + ([e] + ([f] + [g, h]))));
  }

  /** A binary of 32 bytes: tag, length, data. */
  function DigestBytes(d: Digest): seq<byte> {
    ['B' as int] + BigEndian(4, 32) + d
  }

  lemma DigestEncoding(d: Digest)
    ensures Encode(Bin(d)) == DigestBytes(d)
  {
  }

  /** The bytes that are hashed for a block: time, previous hash, Merkle root, key, proof, delegate, count. */
  lemma HeaderLayout(b: Block)
    requires |b.proof| == 80 && |b.transactions| < 0x1_0000_0000
    ensures Encode(Tup(Header(b))) ==
            ['(' as int]
            + ((['U' as int] + BigEndian(8, b.timestamp))
               + (DigestBytes(if b.prev.Null? then ZERO_DIGEST else b.prev.block.hash)
                  + (DigestBytes(b.merkleRoot)
                     + (DigestBytes(b.creator)
                        + ((['B' as int] + BigEndian(4, 80) + b.proof)
                           + ((['u' as int] + BigEndian(4, b.delegate))
                              + (['u' as int] + BigEndian(4, |b.transactions|))))))))
            + [')' as int]
  {
    var n := |b.transactions|;
    assert n % TWO_TO_THE_32 == n;
    DigestEncoding(LinkHash(b.prev));
    DigestEncoding(b.merkleRoot);
    DigestEncoding(b.creator);
    EncodeSeven(U64(b.timestamp), Bin(LinkHash(b.prev)), Bin(b.merkleRoot), Bin(b.creator), Bin(b.proof),
                U32(b.delegate), U32(n));
  }

  /** A block on the wire: header, signature, and the list of its transactions. */
  lemma BlockLayout(b: Block)
    ensures Encode(Tup(BlockTuple(b))) ==
            ['(' as int]
            + (Encode(Tup(Header(b)))
               + ((['B' as int] + BigEndian(4, |b.signature|) + b.signature)
                  + Encode(Tup(TransactionTuples(b.transactions)))))
            + [')' as int]
  {
    var es := BlockTuple(b);
    EncodeTwo(es[1], es[2]);
    EncodeAllCons(es[0], [es[1], es[2]]);
    assert es == [es[0]] + [es[1], es[2]];
  }

  // ---------- other tuples than those block_write writes ----------

  /** Every transaction tuple has exactly the elements that are read from it. */
  predicate NoExtraElements(txns: Tuple)
    requires TransactionsAreValid(txns)
  {
    forall i :: 0 <= i < |txns| ==> |txns[i].elems[0].elems| == 4
  }

  /** The raw and the list route hash the same bytes for every transaction exactly when no tuple has extra elements. */
  lemma RoutesHashTheSameBytes(c: Crypto, txns: Tuple)
    requires TransactionsAreValid(txns) && AllRebuild(c, txns)
    requires forall i :: 0 <= i < |txns| ==> AllFit(txns[i].elems[0].elems)
    ensures NoExtraElements(txns) <==>
            forall i :: 0 <= i < |txns| ==>
              Encode(txns[i].elems[0]) == Encode(Tup(Body(RebuiltTransactions(c, txns)[i])))
    ensures NoExtraElements(txns) ==> RawHashes(c, txns) == Hashes(RebuiltTransactions(c, txns))
  {
    forall i | 0 <= i < |txns|
      ensures |txns[i].elems[0].elems| == 4 <==>
              Encode(txns[i].elems[0]) == Encode(Tup(Body(RebuiltTransactions(c, txns)[i])))
    {
      RawBodyIsBody(c, txns[i].elems);
    }
    if NoExtraElements(txns) {
      forall i | 0 <= i < |txns|
        ensures RawHashes(c, txns)[i] == Hashes(RebuiltTransactions(c, txns))[i]
      {
        RebuiltIsSigned(c, txns[i].elems);
        assert RebuiltTransactions(c, txns)[i] == FromTuple(c, txns[i].elems).value;
      }
    }
  }

  /** A block that does not commit to its own transactions is refused by everyone it is sent to anew. */
  lemma UncommittedIsLost(c: Crypto, b: Block, other: Digest -> Link)
    requires Admissible(c, b) && !CommitsToTransactions(c, b)
    ensures Rebuild(c, BlockTuple(b), other) == None
  {
    RoutesAgree(c, b.transactions);
    assert Header(b)[2].bin == b.merkleRoot;
  }

  /** No collision hides that a body had extra elements. */
  ghost predicate BodiesApart(c: Crypto, txns: Tuple)
    requires TransactionsAreValid(txns) && AllRebuild(c, txns)
  {
    forall i :: 0 <= i < |txns| ==>
      var raw, written := txns[i].elems[0], Tup(Body(RebuiltTransactions(c, txns)[i]));
      RawHash(c, raw) == RawHash(c, written) ==> Encode(raw) == Encode(written)
  }

  /** Nor that the lists of hashes differ. */
  ghost predicate ListsApart(c: Crypto, txns: Tuple)
    requires TransactionsAreValid(txns) && AllRebuild(c, txns)
  {
    CollisionFree(Pair(c), Pairs(Pair(c), RawHashes(c, txns)) + Pairs(Pair(c), Hashes(RebuiltTransactions(c, txns))))
  }

  lemma ExtraElementsChangeTheHashes(c: Crypto, txns: Tuple)
    requires TransactionsAreValid(txns) && AllRebuild(c, txns) && BodiesApart(c, txns)
    requires forall i :: 0 <= i < |txns| ==> AllFit(txns[i].elems[0].elems)
    ensures RawHashes(c, txns) == Hashes(RebuiltTransactions(c, txns)) <==> NoExtraElements(txns)
  {
    RoutesHashTheSameBytes(c, txns);
    if !NoExtraElements(txns) {
      var ts := RebuiltTransactions(c, txns);
      var i :| 0 <= i < |txns| && Encode(txns[i].elems[0]) != Encode(Tup(Body(ts[i])));
      RebuiltIsSigned(c, txns[i].elems);
      assert Hashes(ts)[i] == RawHash(c, Tup(Body(ts[i]))) != RawHashes(c, txns)[i];
    }
  }

  /** An accepted block commits to its transactions exactly when nothing extra was in the tuple it came from. */
  lemma CommitsUnlessExtra(c: Crypto, tuple: Tuple, find: Digest -> Link)
    requires AllFit(tuple) && Rebuild(c, tuple, find).Some?
    requires BodiesApart(c, tuple[2].elems) && ListsApart(c, tuple[2].elems)
    ensures CommitsToTransactions(c, Rebuild(c, tuple, find).value) <==> NoExtraElements(tuple[2].elems)
  {
    var b, txns := Rebuild(c, tuple, find).value, tuple[2].elems;
    BodiesFit(tuple);
    ExtraElementsChangeTheHashes(c, txns);
    RootAndCountBind(Pair(c), RawHashes(c, txns), Hashes(b.transactions));
  }

  /**
   An accepted block, written anew, is accepted again where its parent is known exactly when nothing extra
   was in the tuple it came from; otherwise nobody accepts it.
   */
  lemma AcceptedBlocksCanBeSentOn(c: Crypto, tuple: Tuple, find: Digest -> Link, other: Digest -> Link)
    requires AllFit(tuple) && Rebuild(c, tuple, find).Some?
    requires BodiesApart(c, tuple[2].elems) && ListsApart(c, tuple[2].elems)
    ensures var b := Rebuild(c, tuple, find).value;
            var again := Rebuild(c, BlockTuple(b), other);
            if NoExtraElements(tuple[2].elems) then other(LinkHash(b.prev)) == b.prev ==> again == Some(b)
            else again == None
  {
    var b := Rebuild(c, tuple, find).value;
    RebuiltIsAdmissible(c, tuple, find);
    CommitsUnlessExtra(c, tuple, find);
    if NoExtraElements(tuple[2].elems) {
      if other(LinkHash(b.prev)) == b.prev {
        WellFormedIsRebuilt(c, b, other);
      }
    } else {
      UncommittedIsLost(c, b, other);
    }
  }

  // ---------- which tuples are accepted, as which blocks ----------

  /** The tuple holds the fields of the transaction, possibly followed by more. */
  predicate DescribesTransaction(tuple: Tuple, t: Transaction) {
    && TransactionIsValid(tuple)
    && var body := tuple[0].elems;
       && body[0] == Bin(t.sender) && body[1] == Bin(t.recipient) && body[2] == U64(t.value) && body[3] == U32(t.nonce)
       && tuple[1] == Bin(t.signature)
  }

  /** The tuple holds the header fields of the block. */
  predicate DescribesHeader(header: Tuple, b: Block) {
    && HeaderIsValid(header)
    && header[0].u64 == b.timestamp && header[2].bin == b.merkleRoot && header[3].bin == b.creator
    && header[4].bin == b.proof && header[5].u32 == b.delegate && header[6].u32 == |b.transactions|
  }

  /** The signature may be short of its field, which is filled up with zeros. */
  predicate FillsSignature(given: seq<byte>, signature: seq<byte>) {
    && |given| <= |signature| == 64 && signature[..|given|] == given
    && forall i :: |given| <= i < 64 ==> signature[i] == 0
  }

  predicate DescribesBlock(c: Crypto, tuple: Tuple, b: Block) {
    && |tuple| == 3 && tuple[0].Tup? && tuple[1].Bin? && tuple[2].Tup?
    && DescribesHeader(tuple[0].elems, b) && FillsSignature(tuple[1].bin, b.signature)
    && var txns := tuple[2].elems;
       && |txns| == |b.transactions|
       && (forall i :: 0 <= i < |txns| ==> txns[i].Tup? && DescribesTransaction(txns[i].elems, b.transactions[i]))
       && RootOrZero(Pair(c), RawHashes(c, txns)) == b.merkleRoot
  }

  lemma DescribedTransaction(c: Crypto, tuple: Tuple, t: Transaction)
    ensures FromTuple(c, tuple) == Some(t) <==> DescribesTransaction(tuple, t) && Signed(c, t)
  {
    if TransactionIsValid(tuple) {
      var u := Fields(c, tuple);
      assert Body(u) == Body(u.(hash := ZERO_DIGEST));
      if DescribesTransaction(tuple, t) {
        assert Body(t) == Body(u);
      }
    }
  }

  lemma PaddedFills(given: seq<byte>, signature: seq<byte>)
    requires |given| <= SIGNATURE_BYTES
    ensures FillsSignature(given, signature) <==> Padded(given) == signature
  {
    if FillsSignature(given, signature) {
      var p := Padded(given);
      forall i | 0 <= i < 64
        ensures p[i] == signature[i]
      {
        if i < |given| {
          assert p[i] == p[..|given|][i] == signature[..|given|][i];
        }
      }
    }
  }

  lemma DescribedTransactions(c: Crypto, txns: Tuple, ts: seq<Transaction>)
    requires |txns| == |ts|
    requires forall i :: 0 <= i < |txns| ==> txns[i].Tup? && DescribesTransaction(txns[i].elems, ts[i])
    requires forall t :: t in ts ==> Signed(c, t)
    ensures TransactionsAreValid(txns) && AllRebuild(c, txns) && RebuiltTransactions(c, txns) == ts
  {
    forall i | 0 <= i < |txns|
      ensures FromTuple(c, txns[i].elems) == Some(ts[i])
    {
      assert ts[i] in ts;
      DescribedTransaction(c, txns[i].elems, ts[i]);
    }
  }

  lemma RebuiltIsDescribed(c: Crypto, tuple: Tuple, find: Digest -> Link)
    requires Rebuild(c, tuple, find).Some?
    ensures var b := Rebuild(c, tuple, find).value;
            DescribesBlock(c, tuple, b) && b.prev == find(tuple[0].elems[1].bin)
  {
    var b, txns := Rebuild(c, tuple, find).value, tuple[2].elems;
    PaddedFills(tuple[1].bin, b.signature);
    forall i | 0 <= i < |txns|
      ensures DescribesTransaction(txns[i].elems, b.transactions[i])
    {
      DescribedTransaction(c, txns[i].elems, b.transactions[i]);
    }
  }

  lemma DescribedIsRebuilt(c: Crypto, tuple: Tuple, find: Digest -> Link, b: Block)
    requires DescribesBlock(c, tuple, b) && b.prev == find(tuple[0].elems[1].bin) && Admissible(c, b)
    ensures Rebuild(c, tuple, find) == Some(b)
  {
    DescribedTransactions(c, tuple[2].elems, b.transactions);
    PaddedFills(tuple[1].bin, b.signature);
    assert BlockIsValid(c, tuple);
    assert Header(b) == Header(b.(hash := ZERO_DIGEST));
    assert Described(c, tuple, b.prev, b.output) == b;
  }

  /**
   A tuple is accepted as b exactly when it describes b, commits to the raw tuples of its transactions, names b's
   previous block to the one who looks it up, and b is admissible.
   */
  lemma AcceptedExactly(c: Crypto, tuple: Tuple, find: Digest -> Link, b: Block)
    ensures Rebuild(c, tuple, find) == Some(b) <==>
            DescribesBlock(c, tuple, b) && b.prev == find(tuple[0].elems[1].bin) && Admissible(c, b)
  {
    if Rebuild(c, tuple, find) == Some(b) {
      RebuiltIsDescribed(c, tuple, find);
      RebuiltIsAdmissible(c, tuple, find);
    } else if DescribesBlock(c, tuple, b) && b.prev == find(tuple[0].elems[1].bin) && Admissible(c, b) {
      DescribedIsRebuilt(c, tuple, find, b);
    }
  }

  /** Two hashes are hashed one after the other. */
  lemma RootOfTwo(c: Crypto, a: Digest, b: Digest)
    ensures RootOrZero(Pair(c), [a, b]) == c.hash(a + b)
  {
    var h := Pair(c);
    assert Level(h, [a, b]) == [h(a, b)];
    assert Root(h, [a, b]) == Root(h, [h(a, b)]);
  }

  // ---------- a block that is accepted and then lost ----------

  /** A created block with its Merkle root replaced, hashed and signed again. */
  function Rerooted(c: Crypto, secret: Secret, b: Block, root: Digest): Block {
    var d := b.(merkleRoot := root);
    d.(hash := BlockHash(c, d), signature := c.sign(secret, BlockHash(c, d)))
  }

  /** The tuple of a block with one transaction, to whose signed part one element is added. */
  function ExtendedTuple(c: Crypto, secret: Secret, b: Block, t: Transaction, extra: Element): Tuple {
    var body := Tup(Body(t) + [extra]);
    var d := Rerooted(c, secret, b, RawHash(c, body));
    [Tup(Header(d)), Bin(d.signature), Tup([Tup([body, Bin(t.signature)])])]
  }

  /**
   With one more element after the nonce of its transaction, say a null, a block is accepted where it arrives
   first and by nobody it is sent on to.
   */
  lemma ExtraElementIsAcceptedThenLost(c: Crypto, public: Digest, secret: Secret, prev: Link, t: Transaction, b: Block,
                                       extra: Element, find: Digest -> Link, other: Digest -> Link)
    requires KeyPair(c, public, secret) && IsCreated(c, public, secret, prev, [t], b)
    requires StakingAllowed(prev, public) && Signed(c, t) && find(LinkHash(prev)) == prev
    requires RawHash(c, Tup(Body(t) + [extra])) != t.hash
    ensures var tuple := ExtendedTuple(c, secret, b, t, extra);
            var d := Rerooted(c, secret, b, RawHash(c, Tup(Body(t) + [extra])));
            && Rebuild(c, tuple, find) == Some(d) && d.transactions == [t]
            && Rebuild(c, BlockTuple(d), other) == None
  {
    var tuple := ExtendedTuple(c, secret, b, t, extra);
    var root := RawHash(c, Tup(Body(t) + [extra]));
    var d := Rerooted(c, secret, b, root);
    assert Header(d) == Header(b.(merkleRoot := root));
    ExtendedIsValid(c, secret, b, t, extra);
    assert RebuiltTransactions(c, tuple[2].elems) == [t];
    assert Padded(d.signature) == d.signature;
    assert Header(d.(hash := ZERO_DIGEST)) == Header(d);
    assert Hashes(d.transactions) == [t.hash];
    UncommittedIsLost(c, d, other);
  }

  lemma ExtendedIsValid(c: Crypto, secret: Secret, b: Block, t: Transaction, extra: Element)
    requires |b.proof| == PROOF_BYTES && b.transactions == [t] && Signed(c, t)
    ensures var tuple := ExtendedTuple(c, secret, b, t, extra);
            && BlockIsValid(c, tuple) && |tuple[1].bin| == SIGNATURE_BYTES
            && FromTuple(c, tuple[2].elems[0].elems) == Some(t)
  {
    var body := Tup(Body(t) + [extra]);
    var signed := [body, Bin(t.signature)];
    assert TransactionIsValid(signed);
    assert Body(Fields(c, signed)) == Body(t);
    assert RawHashes(c, [Tup(signed)]) == [RawHash(c, body)];
  }

  lemma BodiesFit(tuple: Tuple)
    requires AllFit(tuple) && |tuple| == 3 && tuple[2].Tup? && TransactionsAreValid(tuple[2].elems)
    ensures forall i :: 0 <= i < |tuple[2].elems| ==> AllFit(tuple[2].elems[i].elems[0].elems)
  {
    var txns := tuple[2].elems;
    FitsAt(tuple, 2);
    forall i | 0 <= i < |txns|
      ensures AllFit(txns[i].elems[0].elems)
    {
      FitsAt(txns, i);
      FitsAt(txns[i].elems, 0);
    }
  }

  lemma {:induction false} FitsAt(es: Tuple, i: nat)
    requires AllFit(es) && i < |es|
    ensures Fits(es[i])
  {
    if i > 0 {
      FitsAt(es[1..], i - 1);
    }
  }

  /** A block whose parent the receiver does not have is rebuilt as a root, and has to be signed as one. */
  lemma OrphanIsTakenForRoot(c: Crypto, b: Block, find: Digest -> Link)
    requires find(LinkHash(b.prev)) == Null && |b.signature| == SIGNATURE_BYTES
    ensures var r := Rebuild(c, BlockTuple(b), find);
            r.Some? ==>
              && r.value.prev == Null && r.value.hash == BlockHash(c, b.(prev := Null))
              && c.verify(b.signature, r.value.hash, b.creator)
  {
    var r := Rebuild(c, BlockTuple(b), find);
    if r.Some? {
      assert Padded(b.signature) == b.signature;
      assert Header(r.value) == Header(b.(prev := Null));
    }
  }

  /** So it is refused, unless its creator signed the other header as well or the two headers have the same hash. */
  lemma OrphanIsRefused(c: Crypto, b: Block, find: Digest -> Link)
    requires b.prev.At? && find(b.prev.block.hash) == Null && |b.signature| == SIGNATURE_BYTES
    requires forall m :: c.verify(b.signature, m, b.creator) ==> m == BlockHash(c, b)
    requires BlockHash(c, b.(prev := Null)) != BlockHash(c, b)
    ensures Rebuild(c, BlockTuple(b), find) == None
  {
    OrphanIsTakenForRoot(c, b, find);
  }

  // ---------- lowest priority ----------

  /** On top of a block no acceptable block of the same creator has a lower priority than the one block_create makes. */
  lemma CreatedHasLowestPriority(c: Crypto, public: Digest, secret: Secret, prev: Link, txns: seq<Transaction>,
                                 b: Block, other: Block)
    requires KeyPair(c, public, secret) && IsCreated(c, public, secret, prev, txns, b) && UniqueOutput(c)
    requires WellFormed(c, other) && other.prev == prev && other.creator == public && prev.At?
    ensures Priority(b) <= Priority(other)
  {
    assert c.vrfVerify(public, b.proof, b.seed).Some?;
    assert c.vrfVerify(public, other.proof, b.seed) == c.vrfVerify(public, b.proof, b.seed);
    assert other.output == b.output;
    assert Value(PriorityOf(c, b.output, b.delegate)) <= Value(PriorityOf(c, b.output, other.delegate));
  }

  /** A root block's delegate is not checked: its creator can have any of 2^32 priorities accepted. */
  lemma RootPriorityIsFree(c: Crypto, public: Digest, secret: Secret, txns: seq<Transaction>, b: Block, delegate: u32)
    requires KeyPair(c, public, secret) && IsCreated(c, public, secret, Null, txns, b)
    requires forall t :: t in txns ==> Signed(c, t)
    ensures exists other ::
              && WellFormed(c, other) && other.prev == Null && other.creator == public
              && Priority(other) == Value(PriorityOf(c, b.output, delegate))
  {
    var d := b.(delegate := delegate, priority := PriorityOf(c, b.output, delegate));
    var hash := BlockHash(c, d);
    var other := d.(hash := hash, signature := c.sign(secret, hash));
    assert Header(other) == Header(d);
    assert WellFormed(c, other);
  }

  /** A created root has the lowest acceptable priority of its creator exactly when its delegate is the best of all. */
  lemma CreatedRootHasLowestPriorityIff(c: Crypto, public: Digest, secret: Secret, txns: seq<Transaction>, b: Block)
    requires KeyPair(c, public, secret) && IsCreated(c, public, secret, Null, txns, b) && UniqueOutput(c)
    requires forall t :: t in txns ==> Signed(c, t)
    ensures (forall other :: WellFormed(c, other) && other.prev == Null && other.creator == public
               ==> Priority(b) <= Priority(other))
            <==> forall i: u32 :: Value(PriorityOf(c, b.output, 0)) <= Value(PriorityOf(c, b.output, i))
  {
    assert b.delegate == 0;
    if forall i: u32 :: Value(PriorityOf(c, b.output, 0)) <= Value(PriorityOf(c, b.output, i)) {
      forall other | WellFormed(c, other) && other.prev == Null && other.creator == public
        ensures Priority(b) <= Priority(other)
      {
        assert c.vrfVerify(public, b.proof, b.seed).Some?;
        assert c.vrfVerify(public, other.proof, b.seed) == c.vrfVerify(public, b.proof, b.seed);
      }
    } else {
      var i: u32 :| Value(PriorityOf(c, b.output, 0)) > Value(PriorityOf(c, b.output, i));
      RootPriorityIsFree(c, public, secret, txns, b, i);
    }
  }
}
