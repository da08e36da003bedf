/**
 From bytes to blocks: if no two of the byte strings that are hashed collide, a hash means one block.
 This is where the universes of blocks come from that the network and its nodes are given.
 */
module Collisions {
  import opened Bytes
  import opened Blocks
  import opened Tuples
  import opened Cryptography
  import opened Merkle
  import opened Transactions
  import opened ForkChoice
  import opened BlockCodec
  import Ledgers

  /** The hash distinguishes the given strings. */
  ghost predicate Distinguishes(c: Crypto, strings: iset<seq<byte>>) {
    forall x, y :: x in strings && y in strings && c.hash(x) == c.hash(y) ==> x == y
  }

  ghost predicate PairHashed(strings: iset<seq<byte>>, p: (Digest, Digest)) {
    p.0 + p.1 in strings
  }

  /** What is hashed for a block: its header, the bodies of its transactions, the pairs below its Merkle root. */
  ghost predicate HashedWithin(c: Crypto, strings: iset<seq<byte>>, b: Block) {
    && Encode(Tup(Header(b))) in strings
    && (forall t :: t in b.transactions ==> Encode(Tup(Body(t))) in strings)
    && (forall p :: p in Pairs(Pair(c), Hashes(b.transactions)) ==> PairHashed(strings, p))
  }

  ghost predicate Proper(c: Crypto, strings: iset<seq<byte>>, b: Block) {
    && WellFormed(c, b) && |b.transactions| < TWO_TO_THE_32 && b.hash != ZERO_DIGEST
    && HashedWithin(c, strings, b)
  }

  ghost predicate ProperBranch(c: Crypto, strings: iset<seq<byte>>, l: Link) {
    l.At? ==> Proper(c, strings, l.block) && ProperBranch(c, strings, l.block.prev)
  }

  lemma SamePair(p: (Digest, Digest), q: (Digest, Digest))
    requires p.0 + p.1 == q.0 + q.1
    ensures p == q
  {
    assert p.0 == (p.0 + p.1)[..32] && q.0 == (q.0 + q.1)[..32];
    assert p.1 == (p.0 + p.1)[32..] && q.1 == (q.0 + q.1)[32..];
  }

  lemma PairsDoNotCollide(c: Crypto, strings: iset<seq<byte>>, s: seq<Digest>, t: seq<Digest>)
    requires Distinguishes(c, strings)
    requires forall p :: p in Pairs(Pair(c), s) + Pairs(Pair(c), t) ==> PairHashed(strings, p)
    ensures CollisionFree(Pair(c), Pairs(Pair(c), s) + Pairs(Pair(c), t))
  {
    var pairs := Pairs(Pair(c), s) + Pairs(Pair(c), t);
    forall p, q | p in pairs && q in pairs && Pair(c)(p.0, p.1) == Pair(c)(q.0, q.1)
      ensures p == q
    {
      assert PairHashed(strings, p) && PairHashed(strings, q);
      SamePair(p, q);
    }
  }

  lemma SameTransaction(c: Crypto, strings: iset<seq<byte>>, t: Transaction, u: Transaction)
    requires Distinguishes(c, strings) && UniqueSignature(c)
    requires Signed(c, t) && Signed(c, u) && t.hash == u.hash
    requires Encode(Tup(Body(t))) in strings && Encode(Tup(Body(u))) in strings
    ensures t == u
  {
    BodyFits(t);
    BodyFits(u);
    EncodingIsPrefixFree(Body(t), Body(u));
    assert Body(t)[0] == Body(u)[0] && Body(t)[1] == Body(u)[1] && Body(t)[2] == Body(u)[2] && Body(t)[3] == Body(u)[3];
  }

  lemma SameTransactions(c: Crypto, strings: iset<seq<byte>>, a: Block, b: Block)
    requires Distinguishes(c, strings) && UniqueSignature(c)
    requires Proper(c, strings, a) && Proper(c, strings, b)
    requires a.merkleRoot == b.merkleRoot && |a.transactions| == |b.transactions|
    ensures a.transactions == b.transactions
  {
    var s, t := Hashes(a.transactions), Hashes(b.transactions);
    PairsDoNotCollide(c, strings, s, t);
    RootAndCountBind(Pair(c), s, t);
    forall i | 0 <= i < |a.transactions|
      ensures a.transactions[i] == b.transactions[i]
    {
      assert s[i] == t[i] && a.transactions[i] in a.transactions && b.transactions[i] in b.transactions;
      SameTransaction(c, strings, a.transactions[i], b.transactions[i]);
    }
  }

  lemma SameHeader(c: Crypto, strings: iset<seq<byte>>, a: Block, b: Block)
    requires Distinguishes(c, strings) && Proper(c, strings, a) && Proper(c, strings, b) && a.hash == b.hash
    ensures Header(a) == Header(b)
  {
    HeaderFits(a);
    HeaderFits(b);
    EncodingIsPrefixFree(Header(a), Header(b));
  }

  lemma HeaderFields(a: Block, b: Block)
    requires Header(a) == Header(b) && |a.transactions| < TWO_TO_THE_32 && |b.transactions| < TWO_TO_THE_32
    ensures a.timestamp == b.timestamp && LinkHash(a.prev) == LinkHash(b.prev) && a.merkleRoot == b.merkleRoot
    ensures a.creator == b.creator && a.proof == b.proof && a.delegate == b.delegate
    ensures |a.transactions| == |b.transactions|
  {
    var h, g := Header(a), Header(b);
    assert h[0] == g[0] && h[1] == g[1] && h[2] == g[2] && h[3] == g[3];
    assert h[4] == g[4] && h[5] == g[5] && h[6] == g[6];
  }

  /** What the header and the previous block leave open of a well-formed block is determined by them. */
  lemma SameBlock(c: Crypto, a: Block, b: Block)
    requires WellFormed(c, a) && WellFormed(c, b) && UniqueSignature(c)
    requires a.hash == b.hash && a.prev == b.prev && a.timestamp == b.timestamp && a.merkleRoot == b.merkleRoot
    requires a.creator == b.creator && a.proof == b.proof && a.delegate == b.delegate
    requires a.transactions == b.transactions
    ensures a == b
  {
    assert a.seed == b.seed && a.output == b.output;
  }

  /** A hash means one block, and with it one whole branch. */
  lemma {:induction false} HashMeansOneBranch(c: Crypto, strings: iset<seq<byte>>, l: Link, m: Link)
    requires Distinguishes(c, strings) && UniqueSignature(c)
    requires ProperBranch(c, strings, l) && ProperBranch(c, strings, m) && LinkHash(l) == LinkHash(m)
    ensures l == m
  {
    if l.At? && m.At? {
      var a, b := l.block, m.block;
      SameHeader(c, strings, a, b);
      HeaderFields(a, b);
      HashMeansOneBranch(c, strings, a.prev, b.prev);
      SameTransactions(c, strings, a, b);
      SameBlock(c, a, b);
    }
  }

  /** The blocks for which no other strings than the given ones are hashed. */
  ghost function Universe(c: Crypto, strings: iset<seq<byte>>): iset<Block> {
    iset b | ProperBranch(c, strings, At(b))
  }

  lemma UniverseIsInjective(c: Crypto, strings: iset<seq<byte>>)
    requires Distinguishes(c, strings) && UniqueSignature(c)
    ensures HashInjective(Universe(c, strings))
    ensures forall b :: b in Universe(c, strings) ==> b.hash != ZERO_DIGEST
  {
    forall a, b | a in Universe(c, strings) && b in Universe(c, strings) && a.hash == b.hash
      ensures a == b
    {
      HashMeansOneBranch(c, strings, At(a), At(b));
    }
  }

  // ---------- what the lottery depends on ----------

  function SeedBefore(l: Link): Digest {
    if l.Null? then ZERO_DIGEST else l.block.seed
  }

  function CreatorBefore(l: Link): Key {
    if l.Null? then ZERO_DIGEST else l.block.creator
  }

  lemma ZerosInTwo()
    ensures ZERO_DIGEST + ZERO_DIGEST == BigEndian(64, 0)
  {
    BigEndianOfZero(32);
    BigEndianOfZero(64);
  }

  /** The seed is the hash of the seed and the key of the previous block, NULL counting as zeros. */
  lemma SeedIsHashOfBoth(c: Crypto, l: Link)
    ensures SeedOn(c, l) == c.hash(SeedBefore(l) + CreatorBefore(l))
  {
    ZerosInTwo();
  }

  /** So where the hash distinguishes what is hashed, equal seeds mean equal seeds and creators before them. */
  lemma SeedDependsOnBoth(c: Crypto, strings: iset<seq<byte>>, l: Link, m: Link)
    requires Distinguishes(c, strings)
    requires SeedBefore(l) + CreatorBefore(l) in strings && SeedBefore(m) + CreatorBefore(m) in strings
    ensures SeedOn(c, l) == SeedOn(c, m) <==> SeedBefore(l) == SeedBefore(m) && CreatorBefore(l) == CreatorBefore(m)
  {
    SeedIsHashOfBoth(c, l);
    SeedIsHashOfBoth(c, m);
    if SeedOn(c, l) == SeedOn(c, m) {
      SamePair((SeedBefore(l), CreatorBefore(l)), (SeedBefore(m), CreatorBefore(m)));
    }
  }

  /** Along the branch every seed follows from the block before it. */
  ghost predicate SeedsFollow(c: Crypto, strings: iset<seq<byte>>, l: Link) {
    l.At? ==>
      && l.block.seed == SeedOn(c, l.block.prev) && SeedBefore(l.block.prev) + CreatorBefore(l.block.prev) in strings
      && SeedsFollow(c, strings, l.block.prev)
  }

  /** The seed of a block fixes who created every block below it. */
  lemma {:induction false} SeedFixesCreators(c: Crypto, strings: iset<seq<byte>>, l: Link, m: Link)
    requires Distinguishes(c, strings) && SeedsFollow(c, strings, l) && SeedsFollow(c, strings, m)
    requires Height(l) == Height(m) && SeedBefore(l) == SeedBefore(m)
    ensures forall i :: 0 <= i < Height(l) - 1 ==>
              Chain(l)[i].creator == Chain(m)[i].creator && Chain(l)[i].seed == Chain(m)[i].seed
  {
    if l.At? && m.At? {
      var p, q := l.block.prev, m.block.prev;
      SeedDependsOnBoth(c, strings, p, q);
      SeedFixesCreators(c, strings, p, q);
      TopOfChain(p);
      TopOfChain(q);
    }
  }

  lemma TopOfChain(l: Link)
    ensures l.At? ==> Chain(l)[Height(l) - 1] == l.block
  {
  }

  /** The priority depends on both the output and the delegate. */
  lemma PriorityDependsOnBoth(c: Crypto, strings: iset<seq<byte>>, o: seq<byte>, d: u32, p: seq<byte>, e: u32)
    requires Distinguishes(c, strings) && |o| == |p|
    requires o + BigEndian(4, d) in strings && p + BigEndian(4, e) in strings
    ensures PriorityOf(c, o, d) == PriorityOf(c, p, e) <==> o == p && d == e
  {
    if PriorityOf(c, o, d) == PriorityOf(c, p, e) {
      var s, t := o + BigEndian(4, d), p + BigEndian(4, e);
      assert s == t && s[..|o|] == o && t[..|o|] == p;
      assert s[|o|..] == BigEndian(4, d) && t[|o|..] == BigEndian(4, e);
      WordRoundTrip(d, 0);
      WordRoundTrip(e, 0);
    }
  }

  /** The priority of a created block is the least over all delegates that its balance gives. */
  lemma CreatedDrawsEveryDelegate(c: Crypto, public: Digest, secret: Secret, prev: Link, txns: seq<Transaction>,
                                  b: Block)
    requires IsCreated(c, public, secret, prev, txns, b)
    ensures b.priority == c.hash(b.output + BigEndian(4, b.delegate))
    ensures prev.At? ==>
              var n := (Ledgers.BalanceIn(Ledgers.Replay(prev), public) / 1024) % 0x1_0000_0000;
              b.delegate < n && forall i :: 0 <= i < n ==> Priority(b) <= Value(c.hash(b.output + BigEndian(4, i)))
    ensures prev.Null? ==> b.delegate == 0
  {
    if prev.At? {
      var n := (Ledgers.BalanceIn(Ledgers.Replay(prev), public) / 1024) % 0x1_0000_0000;
      forall i | 0 <= i < n
        ensures Priority(b) <= Value(c.hash(b.output + BigEndian(4, i)))
      {
        assert Value(PriorityOf(c, b.output, b.delegate)) <= Value(PriorityOf(c, b.output, i));
      }
    }
  }

  /** An accepted one proves its output for the seed; its priority is the draw of a delegate its balance gives. */
  lemma AcceptedDrewADelegate(c: Crypto, b: Block)
    requires Admissible(c, b)
    ensures c.vrfVerify(b.creator, b.proof, c.hash(SeedBefore(b.prev) + CreatorBefore(b.prev))).Some?
    ensures c.vrfVerify(b.creator, b.proof, c.hash(SeedBefore(b.prev) + CreatorBefore(b.prev))).value == b.output
    ensures b.priority == c.hash(b.output + BigEndian(4, b.delegate))
    ensures b.prev.At? ==> b.delegate < (Ledgers.BalanceIn(Ledgers.Replay(b.prev), b.creator) / 1024) % 0x1_0000_0000
  {
    SeedIsHashOfBoth(c, b.prev);
  }
}
