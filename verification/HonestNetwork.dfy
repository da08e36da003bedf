/**
 A network whose members create their blocks with block_create and submit signed transactions: every block
 in it is well formed, so what the members handle is what crosses the links as bytes.
 */
module HonestNetwork {
  import opened Bytes
  import opened Options
  import opened Blocks
  import opened Tuples
  import opened Cryptography
  import opened Transactions
  import opened BlockCodec
  import opened ForkChoice
  import opened Pools
  import opened Nodes
  import opened NodeRuns
  import opened Network
  import opened Delivery
  import opened Synchronisation

  // ---------- one node ----------

  ghost predicate HoldsWellFormed(c: Crypto, n: Node) {
    (forall b :: b in n.forest.order ==> WellFormed(c, b)) && (forall t :: t in n.pool ==> Signed(c, t))
  }

  ghost predicate IsBlockCreate(c: Crypto, key: Key, secret: Secret, now: u64, make: Maker) {
    forall p, txns :: make(p, txns) == CreatedOn(c, key, secret, At(p), txns, now)
  }

  /** make is block_create at some time. */
  ghost predicate CreatesBlocks(c: Crypto, key: Key, secret: Secret, make: Maker) {
    exists now: u64 :: IsBlockCreate(c, key, secret, now, make)
  }

  lemma CreationIsWellFormed(c: Crypto, key: Key, secret: Secret, make: Maker, p: Block, txns: seq<Transaction>)
    requires KeyPair(c, key, secret) && CreatesBlocks(c, key, secret, make)
    requires make(p, txns).Some? && forall t :: t in txns ==> Signed(c, t)
    ensures WellFormed(c, make(p, txns).value)
  {
    var now: u64 :| IsBlockCreate(c, key, secret, now, make);
    CreatedOnIsCreated(c, key, secret, At(p), txns, now, make(p, txns).value);
    CreatedIsWellFormed(c, key, secret, At(p), txns, make(p, txns).value);
  }

  lemma InsertionKeepsWellFormed(c: Crypto, n: Node, b: Block)
    requires HoldsWellFormed(c, n) && WellFormed(c, b) && Consistent(n.forest)
    ensures HoldsWellFormed(c, AddBlock(n, b))
  {
    var n' := AddBlock(n, b);
    PrincipalIsKnownLeaf(n.forest);
    forall t | t in n'.pool
      ensures Signed(c, t)
    {
      if t !in n.pool {
        NothingInvented(n.pool, n.forest.principal, n'.forest.principal, t);
        var x :| x in Chain(n.forest.principal) && t in x.transactions;
        BranchIsKnown(n.forest.order, n.forest.principal, x);
      }
    }
  }

  lemma CompetingKeepsWellFormed(c: Crypto, n: Node, p: Block, make: Maker, secret: Secret)
    requires HoldsWellFormed(c, n) && Consistent(n.forest)
    requires KeyPair(c, n.key, secret) && CreatesBlocks(c, n.key, secret, make)
    ensures HoldsWellFormed(c, Compete(n, p, make).node) && Compete(n, p, make).node.key == n.key
  {
    if !HasOwnChild(n, p) && make(p, n.pool).Some? {
      CreationIsWellFormed(c, n.key, secret, make, p, n.pool);
      InsertionKeepsWellFormed(c, n.(pool := []), make(p, n.pool).value);
    }
  }

  lemma HandlingKeepsWellFormed(c: Crypto, n: Node, b: Block, make: Maker, secret: Secret)
    requires HoldsWellFormed(c, n) && WellFormed(c, b) && Consistent(n.forest)
    requires KeyPair(c, n.key, secret) && CreatesBlocks(c, n.key, secret, make)
    ensures HoldsWellFormed(c, HandleBlock(n, Some(b), make).node) && HandleBlock(n, Some(b), make).node.key == n.key
  {
    if Accepted(n.forest, Some(b)).Some? && !HasHash(n.forest.order, b.hash) {
      InsertionKeepsWellFormed(c, n, b);
      AddKeepsConsistent(n.forest, b);
      if b.prev.At? {
        CompetingKeepsWellFormed(c, AddBlock(n, b), b.prev.block, make, secret);
      }
    }
  }

  lemma TimerKeepsWellFormed(c: Crypto, n: Node, make: Maker, secret: Secret)
    requires HoldsWellFormed(c, n) && Consistent(n.forest)
    requires KeyPair(c, n.key, secret) && CreatesBlocks(c, n.key, secret, make)
    ensures HoldsWellFormed(c, HandleTimer(n, make).node) && HandleTimer(n, make).node.key == n.key
  {
    var p := n.forest.principal;
    if p.At? && !HasOwnChild(n, p.block) && make(p.block, n.pool).Some? {
      CreationIsWellFormed(c, n.key, secret, make, p.block, n.pool);
      InsertionKeepsWellFormed(c, n.(pool := []), make(p.block, n.pool).value);
    }
  }

  // ---------- the network ----------

  ghost predicate AllHoldWellFormed(c: Crypto, s: Net) {
    forall i :: 0 <= i < |s.members| ==> HoldsWellFormed(c, s.members[i].node)
  }

  ghost predicate HaveKeyPairs(c: Crypto, secrets: Key -> Secret, s: Net) {
    forall i :: 0 <= i < |s.members| ==> KeyPair(c, s.members[i].node.key, secrets(s.members[i].node.key))
  }

  ghost predicate HonestEvent(c: Crypto, secrets: Key -> Secret, s: Net, e: NetEvent) {
    match e
    case Delivered(k, make, newGuid) =>
      CanDeliver(s, k) && CreatesBlocks(c, Receiver(s, k).node.key, secrets(Receiver(s, k).node.key), make)
    case TimerFired(at, make, newGuid) =>
      at < |s.members| && CreatesBlocks(c, s.members[at].node.key, secrets(s.members[at].node.key), make)
    case Submitted(at, txn) => Signed(c, txn)
  }

  /** s is reached by honest events from a common base of well-formed blocks. */
  ghost predicate ReachedHonestly(c: Crypto, secrets: Key -> Secret, universe: iset<Block>, start: Net,
                                  events: seq<NetEvent>, s: Net)
    decreases |events|
  {
    if events == [] then
      Initial(universe, start) && AllHoldWellFormed(c, start) && HaveKeyPairs(c, secrets, start) && s == start
    else
      var n := |events| - 1;
      exists before ::
        && ReachedHonestly(c, secrets, universe, start, events[..n], before)
        && Enabled(universe, before, events[n]) && HonestEvent(c, secrets, before, events[n])
        && s == Next(before, events[n])
  }

  lemma {:induction false} ReachedHonestlyIsReached(c: Crypto, secrets: Key -> Secret, universe: iset<Block>,
                                                    start: Net, events: seq<NetEvent>, s: Net)
    requires ReachedHonestly(c, secrets, universe, start, events, s)
    ensures Reached(universe, start, events, s)
    decreases |events|
  {
    if events != [] {
      var n := |events| - 1;
      var before :|
        && ReachedHonestly(c, secrets, universe, start, events[..n], before)
        && Enabled(universe, before, events[n]) && HonestEvent(c, secrets, before, events[n])
        && s == Next(before, events[n]);
      ReachedHonestlyIsReached(c, secrets, universe, start, events[..n], before);
    }
  }

  lemma HeadIsWellFormed(c: Crypto, universe: iset<Block>, base: iset<Block>, s: Net, k: nat)
    requires Inv(universe, base, s) && AllHoldWellFormed(c, s) && CanDeliver(s, k)
    ensures WellFormed(c, Head(s, k).block)
  {
    var a := Sender(s, k);
    assert MemberInv(universe, base, a) && Head(s, k) in a.sent;
    assert Carries(a.sent, Head(s, k).block);
  }

  lemma ReceiptKeepsWellFormed(c: Crypto, m: Member, msg: Message, make: Maker, newGuid: Guid, secret: Secret)
    requires HoldsWellFormed(c, m.node) && WellFormed(c, msg.block) && Consistent(m.node.forest)
    requires KeyPair(c, m.node.key, secret) && CreatesBlocks(c, m.node.key, secret, make)
    ensures var m' := Receive(m, msg, make, newGuid);
            HoldsWellFormed(c, m'.node) && m'.node.key == m.node.key
  {
    HandlingKeepsWellFormed(c, m.node, msg.block, make, secret);
  }

  lemma OneMemberChanges(c: Crypto, secrets: Key -> Secret, s: Net, i: nat, s': Net)
    requires AllHoldWellFormed(c, s) && HaveKeyPairs(c, secrets, s)
    requires i < |s.members| == |s'.members| && s'.members == s.members[i := s'.members[i]]
    requires HoldsWellFormed(c, s'.members[i].node) && s'.members[i].node.key == s.members[i].node.key
    ensures AllHoldWellFormed(c, s') && HaveKeyPairs(c, secrets, s')
  {
  }

  lemma EventKeepsWellFormed(c: Crypto, secrets: Key -> Secret, universe: iset<Block>, base: iset<Block>,
                             s: Net, e: NetEvent)
    requires Inv(universe, base, s) && AllHoldWellFormed(c, s) && HaveKeyPairs(c, secrets, s)
    requires Enabled(universe, s, e) && HonestEvent(c, secrets, s, e)
    ensures AllHoldWellFormed(c, Next(s, e)) && HaveKeyPairs(c, secrets, Next(s, e))
  {
    var at := if e.Delivered? then s.channels[e.k].to else e.at;
    var m := s.members[at];
    assert MemberInv(universe, base, m);
    match e
    case Delivered(k, make, newGuid) =>
      HeadIsWellFormed(c, universe, base, s, k);
      ReceiptKeepsWellFormed(c, m, Head(s, k), make, newGuid, secrets(m.node.key));
      OneMemberChanges(c, secrets, s, at, Next(s, e));
    case TimerFired(_, make, newGuid) =>
      TimerKeepsWellFormed(c, m.node, make, secrets(m.node.key));
      OneMemberChanges(c, secrets, s, at, Next(s, e));
    case Submitted(_, txn) =>
      OneMemberChanges(c, secrets, s, at, Next(s, e));
  }

  /** Every block a member ever holds or sends is well formed, and every pending transaction is signed. */
  lemma {:induction false} EveryBlockIsWellFormed(c: Crypto, secrets: Key -> Secret, universe: iset<Block>, start: Net,
                                                  events: seq<NetEvent>, s: Net)
    requires HashInjective(universe) && ReachedHonestly(c, secrets, universe, start, events, s)
    ensures AllHoldWellFormed(c, s) && HaveKeyPairs(c, secrets, s)
    decreases |events|
  {
    if events != [] {
      var n := |events| - 1;
      var before :|
        && ReachedHonestly(c, secrets, universe, start, events[..n], before)
        && Enabled(universe, before, events[n]) && HonestEvent(c, secrets, before, events[n])
        && s == Next(before, events[n]);
      EveryBlockIsWellFormed(c, secrets, universe, start, events[..n], before);
      ReachedHonestlyIsReached(c, secrets, universe, start, events[..n], before);
      ReachedKeepsInv(universe, start, events[..n], before);
      EventKeepsWellFormed(c, secrets, universe, Base(start), before, events[n]);
    }
  }

  // ---------- over bytes ----------

  /**
   The next block on any link, framed and cut into any reads, is rebuilt by the receiver as the very block
   that the network model hands to its handler.
   */
  lemma NextBlockArrives(c: Crypto, secrets: Key -> Secret, universe: iset<Block>, start: Net, events: seq<NetEvent>,
                         s: Net, k: nat, guid: Messages.Guid, event: u16, chunks: seq<seq<byte>>)
    requires HashInjective(universe) && ReachedHonestly(c, secrets, universe, start, events, s) && CanDeliver(s, k)
    requires forall b :: b in universe ==> b.hash != ZERO_DIGEST && |b.transactions| < TWO_TO_THE_32
    requires var payload := Encode(Tup(BlockTuple(Head(s, k).block)));
             |payload| < TWO_TO_THE_32 && Framing.Concat(chunks) == Messages.Frame(guid, event, payload)
    ensures var o := Framing.Feed([], chunks);
            && o.residue == [] && |o.messages| == 1 && |o.messages[0]| >= Messages.MESSAGE_HEADER_SIZE
            && Received(c, o.messages[0], Lookup(Receiver(s, k).node.forest.order)) == Some(Head(s, k).block)
  {
    var b, n := Head(s, k).block, Receiver(s, k).node;
    EveryBlockIsWellFormed(c, secrets, universe, start, events, s);
    ReachedHonestlyIsReached(c, secrets, universe, start, events, s);
    ReachedKeepsInv(universe, start, events, s);
    HeadIsWellFormed(c, universe, Base(start), s, k);
    NextIsNeverAnOrphan(universe, Base(start), s, k);
    HeadIsInUniverse(universe, Base(start), s, k);
    ParentIsFound(universe, n, b);
    WellFormedBlockArrives(c, b, guid, event, chunks, Lookup(n.forest.order));
  }

  lemma HeadIsInUniverse(universe: iset<Block>, base: iset<Block>, s: Net, k: nat)
    requires Inv(universe, base, s) && CanDeliver(s, k)
    ensures Head(s, k).block in universe && (Head(s, k).block.prev.At? ==> Head(s, k).block.prev.block in universe)
    ensures WithinUniverse(universe, Receiver(s, k).node)
  {
    var a, b := Sender(s, k), Receiver(s, k);
    assert MemberInv(universe, base, a) && MemberInv(universe, base, b) && Head(s, k) in a.sent;
    assert Carries(a.sent, Head(s, k).block);
    ForestIsClosed(a.node.forest.order);
  }

  /** A member of such a network that synchronises with another gets its whole principal branch. */
  lemma HonestSyncIsComplete(c: Crypto, secrets: Key -> Secret, universe: iset<Block>, start: Net,
                             events: seq<NetEvent>, s: Net, i: nat, j: nat, known: iset<Block>, make: Maker, asked: Link, target: Link)
    requires HashInjective(universe) && ReachedHonestly(c, secrets, universe, start, events, s)
    requires i < |s.members| && j < |s.members|
    requires CanSynchronise(c, known, s.members[i].node, make, s.members[j].node.forest, asked, target)
    ensures var l := s.members[j].node.forest.principal;
            var n' := HandleTuples(c, s.members[i].node, BlockTuples(Answer(l, target)), make).node;
            && (forall b :: b in Chain(l) ==> b in n'.forest.order)
            && AtLeastAsGood(Chain(n'.forest.principal), Chain(l))
  {
    var a := s.members[j].node.forest;
    EveryBlockIsWellFormed(c, secrets, universe, start, events, s);
    SyncOfTuples(c, known, s.members[i].node, make, a, asked, target);
    PrincipalIsKnownLeaf(a);
    forall b | b in Answer(a.principal, target)
      ensures CommitsToTransactions(c, b)
    {
      AnswerGoesDown(a.principal, target, b);
      BranchIsKnown(a.order, a.principal, b);
      assert HoldsWellFormed(c, s.members[j].node);
    }
  }
}
