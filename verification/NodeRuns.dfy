/**
 What every run of a single node's handlers keeps, and what a chain synchronisation achieves.
 */
module NodeRuns {
  import opened Bytes
  import opened Options
  import opened Blocks
  import opened ForkChoice
  import opened Pools
  import opened Nodes

  /** The node's blocks are among those of the universe, in which a hash means one block. */
  ghost predicate WithinUniverse(universe: iset<Block>, n: Node) {
    HashInjective(universe) && Consistent(n.forest) && forall b :: b in n.forest.order ==> b in universe
  }

  /** What one call of block_create returns, if anything, is in the universe. */
  ghost predicate MakesWithin(universe: iset<Block>, make: Maker, p: Block, txns: seq<Transaction>) {
    make(p, txns).Some? ==> make(p, txns).value in universe
  }

  /** Handling the message leads to a call of block_create. */
  ghost predicate Calls(n: Node, msg: Option<Block>) {
    && Accepted(n.forest, msg).Some?
    && !HasHash(n.forest.order, msg.value.hash)
    && msg.value.prev.At? && !HasOwnChild(AddBlock(n, msg.value), msg.value.prev.block)
  }

  ghost predicate BlockCall(universe: iset<Block>, n: Node, msg: Option<Block>, make: Maker) {
    && Makes(make, n.key)
    && (Calls(n, msg) ==> MakesWithin(universe, make, msg.value.prev.block, AddBlock(n, msg.value).pool))
  }

  /** The calls of block_create along a response. */
  ghost predicate ResponseCalls(universe: iset<Block>, n: Node, msgs: seq<Option<Block>>, make: Maker) {
    msgs == [] ||
    (&& ResponseCalls(universe, n, msgs[1..], make)
     && BlockCall(universe, HandleResponse(n, msgs[1..], make).node, msgs[0], make))
  }

  ghost predicate TimerCall(universe: iset<Block>, n: Node, make: Maker) {
    Makes(make, n.key) && (n.forest.principal.At? ==> MakesWithin(universe, make, n.forest.principal.block, n.pool))
  }

  /** Between two states of a node the forest gained exactly the given blocks. */
  ghost predicate Gained(n: Node, n': Node, gained: iset<Block>) {
    && n'.key == n.key
    && (forall b :: b in n'.forest.order <==> b in n.forest.order || b in gained)
  }

  lemma AddBlockAdds(universe: iset<Block>, n: Node, b: Block)
    requires WithinUniverse(universe, n)
    requires b in universe && Known(n.forest.order, b.prev)
    ensures WithinUniverse(universe, AddBlock(n, b))
    ensures Gained(n, AddBlock(n, b), iset{b})
  {
    AddKeepsConsistent(n.forest, b);
  }

  lemma CompeteAdds(universe: iset<Block>, n: Node, p: Block, make: Maker)
    requires WithinUniverse(universe, n) && p in n.forest.order
    requires Makes(make, n.key) && (HasOwnChild(n, p) || MakesWithin(universe, make, p, n.pool))
    ensures var r := Compete(n, p, make);
            && WithinUniverse(universe, r.node)
            && Gained(n, r.node, SetOf(r.sent))
            && |r.sent| <= 1
            && (forall b :: b in r.sent ==> b.prev == At(p) && b.creator == n.key && b in universe && !HasOwnChild(n, p))
  {
    if !HasOwnChild(n, p) && make(p, n.pool).Some? {
      AddBlockAdds(universe, n.(pool := []), make(p, n.pool).value);
    }
  }

  /** The blocks a well-formed message brings to a node. */
  ghost function Brought(n: Node, msg: Option<Block>): iset<Block> {
    iset b | Accepted(n.forest, msg) == Some(b)
  }

  lemma HandleBlockAdds(universe: iset<Block>, n: Node, msg: Option<Block>, make: Maker)
    requires WithinUniverse(universe, n) && BlockCall(universe, n, msg, make)
    requires msg.Some? ==> msg.value in universe
    ensures var r := HandleBlock(n, msg, make);
            && WithinUniverse(universe, r.node)
            && Gained(n, r.node, Brought(n, msg) + SetOf(r.sent))
            && |r.sent| <= 1
            && (forall b :: b in r.sent ==>
                  && b in universe && b.creator == n.key && b.prev.At? && b !in n.forest.order
                  && b.prev == msg.value.prev && b.prev.block in n.forest.order)
  {
    if Accepted(n.forest, msg).Some? {
      var b := msg.value;
      assert Brought(n, msg) == iset{b};
      if HasHash(n.forest.order, b.hash) {
        assert b in n.forest.order;
      } else {
        AddBlockAdds(universe, n, b);
        if b.prev.At? {
          CompeteAdds(universe, AddBlock(n, b), b.prev.block, make);
        }
      }
    }
  }

  lemma HandleTimerAdds(universe: iset<Block>, n: Node, make: Maker)
    requires WithinUniverse(universe, n) && TimerCall(universe, n, make)
    ensures var r := HandleTimer(n, make);
            && WithinUniverse(universe, r.node)
            && Gained(n, r.node, SetOf(r.sent))
            && |r.sent| <= 1
            && (forall b :: b in r.sent ==>
                  b in universe && b.creator == n.key && b.prev.At? && b.prev.block in n.forest.order)
  {
    var p := n.forest.principal;
    PrincipalIsKnownLeaf(n.forest);
    if p.At? && !HasOwnChild(n, p.block) && make(p.block, n.pool).Some? {
      AddBlockAdds(universe, n.(pool := []), make(p.block, n.pool).value);
    }
  }

  lemma HashMeansKnown(universe: iset<Block>, order: seq<Block>, x: Block)
    requires HashInjective(universe) && x in universe && forall b :: b in order ==> b in universe
    requires HasHash(order, x.hash)
    ensures x in order
  {
    var y :| y in order && y.hash == x.hash;
    assert y in universe;
  }

  /** Where the node has not built yet, what it creates is new to it. */
  lemma CreationIsNew(universe: iset<Block>, n: Node, p: Block, make: Maker)
    requires WithinUniverse(universe, n) && Makes(make, n.key) && MakesWithin(universe, make, p, n.pool)
    requires !HasOwnChild(n, p) && make(p, n.pool).Some?
    ensures !HasHash(n.forest.order, make(p, n.pool).value.hash)
  {
    if HasHash(n.forest.order, make(p, n.pool).value.hash) {
      HashMeansKnown(universe, n.forest.order, make(p, n.pool).value);
    }
  }

  /**
   A new block on a parent on which the node has not built makes the node build there itself, if
   block_create succeeds, and send the result.
   */
  lemma NewBlockProvokesCompetition(universe: iset<Block>, n: Node, b: Block, make: Maker)
    requires WithinUniverse(universe, n) && BlockCall(universe, n, Some(b), make) && b in universe
    requires !HasHash(n.forest.order, b.hash) && b.prev.At? && b.prev.block in n.forest.order
    requires b.creator != n.key && !HasOwnChild(n, b.prev.block)
    ensures var next := make(b.prev.block, AddBlock(n, b).pool);
            var r := HandleBlock(n, Some(b), make);
            && r.sent == (if next.Some? then [next.value] else [])
            && (forall x :: x in r.node.forest.order <==> x in n.forest.order || x == b || x in r.sent)
  {
    var m, p := AddBlock(n, b), b.prev.block;
    AddBlockAdds(universe, n, b);
    assert !HasOwnChild(m, p);
    if make(p, m.pool).Some? {
      CreationIsNew(universe, m, p, make);
    }
  }

  /**
   The principal is a leaf, so the timer's test for an own child never stops it: it always calls
   block_create, and what that returns becomes the principal leaf.
   */
  lemma TimerExtendsThePrincipal(universe: iset<Block>, n: Node, make: Maker)
    requires WithinUniverse(universe, n) && TimerCall(universe, n, make) && n.forest.principal.At?
    ensures var next := make(n.forest.principal.block, n.pool);
            var r := HandleTimer(n, make);
            && (next.None? ==> r == Reaction(n.(pool := []), []))
            && (next.Some? ==>
                  && r.sent == [next.value]
                  && r.node == Node(n.key, State(n.forest.order + [next.value], At(next.value)), []))
  {
    var p := n.forest.principal;
    PrincipalIsKnownLeaf(n.forest);
    if make(p.block, n.pool).Some? {
      CreationIsNew(universe, n, p.block, make);
      assert HasAncestor(At(make(p.block, n.pool).value), p);
    }
  }

  /** Without a call of block_create the handler inserts an accepted block that is new, and does nothing else. */
  lemma NoCallNoCreation(n: Node, msg: Option<Block>, make: Maker)
    requires !Calls(n, msg)
    ensures HandleBlock(n, msg, make) ==
            Reaction(if Accepted(n.forest, msg).Some? && !HasHash(n.forest.order, msg.value.hash)
                     then AddBlock(n, msg.value) else n, [])
  {
  }

  /** The transaction is in a block of the one branch that is not on the other. */
  ghost predicate LeftWith(before: Link, after: Link, t: Transaction) {
    exists x :: x in Chain(before) && x !in Chain(after) && t in x.transactions
  }

  /**
   The pool after an insertion: the old pool in front, then exactly what the blocks that left the principal branch
   had confirmed, up to hash.
   */
  lemma PoolAfterInsertion(n: Node, b: Block)
    ensures var n' := AddBlock(n, b);
            && n.pool <= n'.pool
            && (n'.forest.principal == n.forest.principal ==> n'.pool == n.pool)
            && (forall t :: t in n'.pool ==> t in n.pool || LeftWith(n.forest.principal, n'.forest.principal, t))
            && (forall t :: LeftWith(n.forest.principal, n'.forest.principal, t) ==> HasTransaction(n'.pool, t.hash))
            && (DistinctHashes(n.pool) ==> DistinctHashes(n'.pool))
  {
    var p, q := n.forest.principal, AddBlock(n, b).forest.principal;
    if p != q {
      InsertAllIsUnion(n.pool, Abandoned(p, q));
      forall t: Transaction
        ensures t in Abandoned(p, q) <==> LeftWith(p, q, t)
      {
        AbandonedIsExact(p, q, t);
      }
    }
  }

  /**
   Competing empties the pool: if block_create refuses, nothing is pending; if it succeeds, its block holds all that
   was pending, and what is pending afterwards left the principal branch through that block.
   */
  lemma CompetitionEmptiesThePool(universe: iset<Block>, n: Node, b: Block, make: Maker)
    requires WithinUniverse(universe, n) && BlockCall(universe, n, Some(b), make) && b in universe
    requires !HasHash(n.forest.order, b.hash) && b.prev.At? && b.prev.block in n.forest.order
    requires b.creator != n.key && !HasOwnChild(n, b.prev.block)
    ensures var m := AddBlock(n, b);
            var next := make(b.prev.block, m.pool);
            var n' := HandleBlock(n, Some(b), make).node;
            && (next.None? ==> n'.pool == [] && n'.forest == m.forest)
            && (next.Some? ==>
                  && next.value.transactions == m.pool
                  && (forall t :: t in n'.pool ==> LeftWith(m.forest.principal, n'.forest.principal, t))
                  && (forall t :: LeftWith(m.forest.principal, n'.forest.principal, t) ==> HasTransaction(n'.pool, t.hash)))
  {
    var m := AddBlock(n, b);
    var next := make(b.prev.block, m.pool);
    assert !HasOwnChild(m, b.prev.block);
    if next.Some? {
      PoolAfterInsertion(m.(pool := []), next.value);
    }
  }

  /** A transaction that arrives is pending afterwards, if only under an equal hash; a malformed one changes nothing. */
  lemma ArrivedIsPending(n: Node, msg: Option<Transaction>)
    ensures var n' := HandleTransaction(n, msg);
            && n'.forest == n.forest && n'.key == n.key && n.pool <= n'.pool
            && (forall t :: t in n'.pool ==> t in n.pool || msg == Some(t))
            && (msg.Some? ==> HasTransaction(n'.pool, msg.value.hash))
  {
    if msg.Some? && !HasTransaction(n.pool, msg.value.hash) {
      assert msg.value in HandleTransaction(n, msg).pool;
    }
  }

  /** So are all of a list. */
  lemma {:induction false} AllArrivedArePending(n: Node, msgs: seq<Option<Transaction>>)
    ensures var n' := HandlePool(n, msgs);
            && n'.forest == n.forest && n'.key == n.key && n.pool <= n'.pool
            && (forall t :: t in n'.pool ==> t in n.pool || Some(t) in msgs)
            && (forall t :: Some(t) in msgs ==> HasTransaction(n'.pool, t.hash))
  {
    if msgs != [] {
      var k := |msgs| - 1;
      var before := HandlePool(n, msgs[..k]);
      AllArrivedArePending(n, msgs[..k]);
      ArrivedIsPending(before, msgs[k]);
      assert msgs == msgs[..k] + [msgs[k]];
      forall t | Some(t) in msgs
        ensures HasTransaction(HandlePool(n, msgs).pool, t.hash)
      {
        if Some(t) in msgs[..k] {
          var u :| u in before.pool && u.hash == t.hash;
          assert u in HandlePool(n, msgs).pool;
        }
      }
    }
  }

  /** The reaction with what was sent before it. */
  function After(sent: seq<Block>, r: Reaction): Reaction {
    Reaction(r.node, sent + r.sent)
  }

  lemma AfterTwice(sent: seq<Block>, more: seq<Block>, r: Reaction)
    ensures After(sent, After(more, r)) == After(sent + more, r)
  {
    assert sent + (more + r.sent) == (sent + more) + r.sent;
  }

  lemma FirstMessageLast(n: Node, msg: Option<Block>, rest: seq<Option<Block>>, make: Maker)
    ensures var r := HandleResponse(n, rest, make);
            HandleResponse(n, [msg] + rest, make) == After(r.sent, HandleBlock(r.node, msg, make))
  {
    assert ([msg] + rest)[1..] == rest;
  }

  lemma Headed<T>(msgs: seq<T>, more: seq<T>)
    requires msgs != []
    ensures msgs + more == [msgs[0]] + (msgs[1..] + more) && msgs == [msgs[0]] + msgs[1..]
  {
  }

  /** A response in two parts: the later part is handled, and what it leads to is sent, before the earlier one. */
  lemma {:induction false} ResponseInTwoParts(n: Node, msgs: seq<Option<Block>>, more: seq<Option<Block>>, make: Maker,
                                              r: Reaction)
    requires r == HandleResponse(n, more, make)
    ensures HandleResponse(n, msgs + more, make) == After(r.sent, HandleResponse(r.node, msgs, make))
    decreases |msgs|
  {
    if msgs == [] {
      assert msgs + more == more;
      AfterNothingMore(r);
    } else {
      var rest := msgs[1..];
      ResponseInTwoParts(n, rest, more, make, r);
      Headed(msgs, more);
      FirstMessageLast(n, msgs[0], rest + more, make);
      FirstMessageLast(r.node, msgs[0], rest, make);
      LastOfTwoParts(r.sent, HandleResponse(r.node, rest, make), HandleResponse(n, rest + more, make), msgs[0], make);
    }
  }

  lemma AfterNothingMore(r: Reaction)
    ensures After(r.sent, Reaction(r.node, [])) == r
  {
    assert r.sent + [] == r.sent;
  }

  lemma LastOfTwoParts(sent: seq<Block>, s: Reaction, both: Reaction, msg: Option<Block>, make: Maker)
    requires both == After(sent, s)
    ensures After(both.sent, HandleBlock(both.node, msg, make)) ==
            After(sent, After(s.sent, HandleBlock(s.node, msg, make)))
  {
    AfterTwice(sent, s.sent, HandleBlock(s.node, msg, make));
  }

  /** A node sends, while it handles a response, exactly the blocks of its own that it did not have before. */
  lemma {:induction false} ResponseSendsItsCreations(universe: iset<Block>, n: Node, msgs: seq<Option<Block>>, make: Maker)
    requires WithinUniverse(universe, n) && ResponseCalls(universe, n, msgs, make)
    requires forall m :: m in msgs && m.Some? ==>
               m.value in universe && (m.value.creator == n.key ==> m.value in n.forest.order)
    ensures var r := HandleResponse(n, msgs, make);
            && WithinUniverse(universe, r.node) && r.node.key == n.key
            && (forall b :: b in n.forest.order ==> b in r.node.forest.order)
            && (forall b :: b in r.sent <==> b in r.node.forest.order && b !in n.forest.order && b.creator == n.key)
  {
    if msgs != [] {
      var r := HandleResponse(n, msgs[1..], make);
      ResponseSendsItsCreations(universe, n, msgs[1..], make);
      assert msgs[0] in msgs;
      HandleBlockAdds(universe, r.node, msgs[0], make);
    }
  }

  /** An insertion loses no transaction: what was confirmed or pending still is one of both. */
  lemma InsertionLosesNothing(n: Node, b: Block, h: Digest)
    requires Confirmed(n.forest.principal, h) || HasTransaction(n.pool, h)
    ensures Confirmed(AddBlock(n, b).forest.principal, h) || HasTransaction(AddBlock(n, b).pool, h)
  {
    NothingLost(n.pool, n.forest.principal, AddBlock(n, b).forest.principal, h);
  }

  // ---------- chain synchronisation ----------

  /** The hash a peer asks with: all zeros when it has no principal leaf. */
  function HashOf(l: Link): Digest {
    match l
    case Null => ZERO_DIGEST
    case At(b) => b.hash
  }

  /** What arrives of an answer when only the blocks in `intact` come back from their bytes. */
  ghost function Incoming(blocks: seq<Block>, intact: iset<Block>): (msgs: seq<Option<Block>>)
    ensures |msgs| == |blocks|
  {
    if blocks == [] then []
    else [if blocks[0] in intact then Some(blocks[0]) else None] + Incoming(blocks[1..], intact)
  }

  /** b and all blocks below it in the answer come back from their bytes or are known already. */
  ghost predicate Arrives(n: Node, b: Block, target: Link, intact: iset<Block>) {
    forall a :: a in Answer(At(b), target) ==> a in intact || a in n.forest.order
  }

  /** What processing the answer for l achieves. */
  ghost predicate AnswerAbsorbed(universe: iset<Block>, n: Node, l: Link, target: Link, intact: iset<Block>, n': Node) {
    && WithinUniverse(universe, n') && n'.key == n.key
    && (forall b :: b in n.forest.order ==> b in n'.forest.order)
    && (forall b :: b in n'.forest.order ==> b in n.forest.order || b.creator == n.key || b in Answer(l, target))
    && (forall b :: b in Answer(l, target) ==> (b in n'.forest.order <==> Arrives(n, b, target, intact)))
  }

  /** Nobody else can sign for the node: a block of the answer under its key is one it already has. */
  ghost predicate NothingForged(n: Node, blocks: seq<Block>) {
    forall b :: b in blocks && b.creator == n.key ==> b in n.forest.order
  }

  lemma {:induction false} AnswerGoesDown(l: Link, target: Link, b: Block)
    requires b in Answer(l, target)
    ensures Height(At(b)) <= Height(l) && b in Chain(l)
  {
    if l.block != b {
      AnswerGoesDown(l.block.prev, target, b);
    }
  }

  /** The last block handled, the topmost of the answer. */
  lemma AbsorbTop(universe: iset<Block>, n: Node, l: Link, target: Link, intact: iset<Block>, make: Maker, m: Node)
    requires l.At? && l != target && l.block in universe && Known(n.forest.order, target)
    requires AnswerAbsorbed(universe, n, l.block.prev, target, intact, m)
    requires NothingForged(n, Answer(l, target))
    requires var msg := if l.block in intact then Some(l.block) else None;
             BlockCall(universe, m, msg, make)
    ensures var msg := if l.block in intact then Some(l.block) else None;
            AnswerAbsorbed(universe, n, l, target, intact, HandleBlock(m, msg, make).node)
  {
    var b, p := l.block, l.block.prev;
    var msg := if b in intact then Some(b) else None;
    var n' := HandleBlock(m, msg, make).node;
    HandleBlockAdds(universe, m, msg, make);
    ArrivesStep(n, l, target, intact);
    LowerOnesStay(universe, n, l, target, intact, m, n');
    TopArrives(universe, n, l, target, intact, m, n');
  }

  lemma ArrivesStep(n: Node, l: Link, target: Link, intact: iset<Block>)
    requires l.At? && l != target
    ensures var b, p := l.block, l.block.prev;
            && Answer(l, target) == [b] + Answer(p, target)
            && (Arrives(n, b, target, intact) <==>
                (b in intact || b in n.forest.order) && (p.At? && p != target ==> Arrives(n, p.block, target, intact)))
  {
    assert Answer(l, target) == [l.block] + Answer(l.block.prev, target);
  }

  /** Handling the top block changes nothing about the blocks below it. */
  lemma LowerOnesStay(universe: iset<Block>, n: Node, l: Link, target: Link, intact: iset<Block>, m: Node, n': Node)
    requires l.At? && l != target && NothingForged(n, Answer(l, target))
    requires AnswerAbsorbed(universe, n, l.block.prev, target, intact, m)
    requires Answer(l, target) == [l.block] + Answer(l.block.prev, target)
    requires forall x :: x in m.forest.order ==> x in n'.forest.order
    requires forall x :: x in n'.forest.order ==> x in m.forest.order || x.creator == n.key || x == l.block
    ensures forall x :: x in Answer(l.block.prev, target) ==> (x in n'.forest.order <==> Arrives(n, x, target, intact))
  {
    forall x | x in Answer(l.block.prev, target)
      ensures x in n'.forest.order <==> Arrives(n, x, target, intact)
    {
      AnswerGoesDown(l.block.prev, target, x);
      assert x in Answer(l, target);
    }
  }

  lemma TopArrives(universe: iset<Block>, n: Node, l: Link, target: Link, intact: iset<Block>, m: Node, n': Node)
    requires l.At? && l != target && Known(n.forest.order, target)
    requires AnswerAbsorbed(universe, n, l.block.prev, target, intact, m)
    requires l.block.creator == n.key ==> l.block in n.forest.order
    requires var b := l.block;
             Arrives(n, b, target, intact) <==>
             && (b in intact || b in n.forest.order)
             && (b.prev.At? && b.prev != target ==> Arrives(n, b.prev.block, target, intact))
    requires Consistent(n'.forest) && forall x :: x in m.forest.order ==> x in n'.forest.order
    requires forall x :: x in n'.forest.order ==>
               x in m.forest.order || x.creator == n.key || (x == l.block && x in intact && Known(m.forest.order, x.prev))
    requires l.block in intact && Known(m.forest.order, l.block.prev) ==> l.block in n'.forest.order
    ensures l.block in n'.forest.order <==> Arrives(n, l.block, target, intact)
  {
    var b, p := l.block, l.block.prev;
    if b in Answer(p, target) {
      AnswerGoesDown(p, target, b);
    }
    ForestIsClosed(m.forest.order);
    assert p.At? && p != target ==> p.block in Answer(p, target);
    assert Known(m.forest.order, p) <==> (p.At? && p != target ==> Arrives(n, p.block, target, intact));
  }

  /** A response is a path: processed from the last block, each block is added unless it or one below it was lost. */
  lemma {:induction false} AnswerIsAbsorbed(universe: iset<Block>, n: Node, l: Link, target: Link,
                                            intact: iset<Block>, make: Maker)
    requires WithinUniverse(universe, n) && Known(n.forest.order, target)
    requires ResponseCalls(universe, n, Incoming(Answer(l, target), intact), make)
    requires forall b :: b in Chain(l) ==> b in universe
    requires NothingForged(n, Answer(l, target))
    ensures AnswerAbsorbed(universe, n, l, target, intact,
                     HandleResponse(n, Incoming(Answer(l, target), intact), make).node)
  {
    if l != target && l.At? {
      var rest := Answer(l.block.prev, target);
      assert Answer(l, target)[1..] == rest;
      assert Incoming(Answer(l, target), intact)[1..] == Incoming(rest, intact);
      AnswerIsAbsorbed(universe, n, l.block.prev, target, intact, make);
      assert l.block in Chain(l);
      AbsorbTop(universe, n, l, target, intact, make, HandleResponse(n, Incoming(rest, intact), make).node);
    }
  }

  /**
   After a node has asked with the hash of any block it knows and processed the answer, it has the
   responder's whole principal branch exactly when every answered block that it did not know comes
   back from its bytes; then its own principal branch is at least as good.
   */
  lemma SyncIsCompleteExactly(universe: iset<Block>, n: Node, make: Maker, responder: State, asked: Link, target: Link,
                              intact: iset<Block>)
    requires WithinUniverse(universe, n) && Known(n.forest.order, asked)
    requires Consistent(responder) && forall b :: b in responder.order ==> b in universe
    requires forall b :: b in universe ==> b.hash != ZERO_DIGEST
    requires Resolves(responder.order, HashOf(asked), target)
    requires NothingForged(n, Answer(responder.principal, target))
    requires ResponseCalls(universe, n, Incoming(Answer(responder.principal, target), intact), make)
    ensures var l := responder.principal;
            var n' := HandleResponse(n, Incoming(Answer(l, target), intact), make).node;
            && AnswerAbsorbed(universe, n, l, target, intact, n')
            && ((forall b :: b in Chain(l) ==> b in n'.forest.order)
                <==> (forall b :: b in Answer(l, target) ==> b in intact || b in n.forest.order))
            && ((forall b :: b in Chain(l) ==> b in n'.forest.order) ==>
                  AtLeastAsGood(Chain(n'.forest.principal), Chain(l)))
  {
    var l := responder.principal;
    PrincipalIsKnownLeaf(responder);
    forall b | b in Chain(l)
      ensures b in universe
    {
      BranchIsKnown(responder.order, l, b);
    }
    AskedIsTarget(universe, responder, asked, target);
    AnswerIsAbsorbed(universe, n, l, target, intact, make);
    var n' := HandleResponse(n, Incoming(Answer(l, target), intact), make).node;
    WholeBranch(universe, n, l, target, intact, n');
    if forall b :: b in Chain(l) ==> b in n'.forest.order {
      assert l.At? ==> l.block in Chain(l);
      PrincipalIsBest(n'.forest, l);
    }
  }

  /** What the responder finds under the requested hash, if anything, is the block asked with. */
  lemma AskedIsTarget(universe: iset<Block>, responder: State, asked: Link, target: Link)
    requires HashInjective(universe) && forall b :: b in responder.order ==> b in universe
    requires forall b :: b in universe ==> b.hash != ZERO_DIGEST
    requires asked.At? ==> asked.block in universe
    requires Resolves(responder.order, HashOf(asked), target)
    ensures target == Null || target == asked
  {
    if target.At? {
      assert target.block in universe;
    }
  }

  lemma WholeBranch(universe: iset<Block>, n: Node, l: Link, target: Link, intact: iset<Block>, n': Node)
    requires AnswerAbsorbed(universe, n, l, target, intact, n') && Known(n.forest.order, target)
    ensures (forall b :: b in Chain(l) ==> b in n'.forest.order)
            <==> (forall b :: b in Answer(l, target) ==> b in intact || b in n.forest.order)
  {
    if l.At? && l != target {
      assert l.block in Answer(l, target) && l.block in Chain(l);
      assert Arrives(n, l.block, target, intact) <==>
             forall b :: b in Answer(l, target) ==> b in intact || b in n.forest.order;
    }
    if Known(n'.forest.order, l) {
      forall b | b in Chain(l)
        ensures b in n'.forest.order
      {
        BranchIsKnown(n'.forest.order, l, b);
      }
    }
  }

  /** The answer stops at the requested block exactly when that block is on the branch. */
  lemma {:induction false} AnswerIsTheMissingPart(l: Link, target: Link, b: Block)
    ensures b in Answer(l, target) <==>
            b in Chain(l) && !(target.At? && target.block in Chain(l) && b in Chain(target))
  {
    if l == target {
    } else if l.At? {
      AnswerIsTheMissingPart(l.block.prev, target, b);
      if target.At? && target.block in Chain(l) && l.block in Chain(target) {
        ChainThrough(l, target.block);
        ChainThrough(target, l.block);
        ChainDetermines(l, target);
      }
    }
  }

  // ---------- no self-equivocation ----------

  datatype Event =
    | BlockArrived(msg: Option<Block>, make: Maker)
    | ResponseArrived(msgs: seq<Option<Block>>, make: Maker)
    | TimerFired(make: Maker)
    | TransactionsArrived(txns: seq<Option<Transaction>>)

  function React(n: Node, e: Event): Node {
    match e
    case BlockArrived(msg, make) => HandleBlock(n, msg, make).node
    case ResponseArrived(msgs, make) => HandleResponse(n, msgs, make).node
    case TimerFired(make) => HandleTimer(n, make).node
    case TransactionsArrived(txns) => HandlePool(n, txns)
  }

  function RunNode(n: Node, events: seq<Event>): Node {
    if events == [] then n
    else React(RunNode(n, events[..|events| - 1]), events[|events| - 1])
  }

  /** Nobody else can sign for the node: a block under its key that arrives is one it already has. */
  ghost predicate Unforged(n: Node, msg: Option<Block>) {
    msg.Some? && msg.value.creator == n.key ==> msg.value in n.forest.order
  }

  ghost predicate AllUnforged(n: Node, msgs: seq<Option<Block>>) {
    forall msg :: msg in msgs ==> Unforged(n, msg)
  }

  ghost predicate Legitimate(n: Node, e: Event) {
    match e
    case BlockArrived(msg, make) => Makes(make, n.key) && Unforged(n, msg)
    case ResponseArrived(msgs, make) => Makes(make, n.key) && AllUnforged(n, msgs)
    case TimerFired(make) => Makes(make, n.key)
    case TransactionsArrived(txns) => true
  }

  ghost predicate LegitimateRun(n: Node, events: seq<Event>) {
    events == [] ||
    (var k := |events| - 1;
     LegitimateRun(n, events[..k]) && Legitimate(RunNode(n, events[..k]), events[k]))
  }

  ghost predicate OwnChild(n: Node, b: Block) {
    b in n.forest.order && b.creator == n.key && b.prev.At?
  }

  /** On each non-root block the node has built at most once. */
  ghost predicate OneOwnChild(n: Node) {
    forall b, c :: OwnChild(n, b) && OwnChild(n, c) && b.prev == c.prev ==> b == c
  }

  ghost predicate Sound(n: Node) {
    Consistent(n.forest) && OneOwnChild(n) && DistinctHashes(n.pool)
  }

  /** Blocks once known stay known, and the key never changes. */
  ghost predicate Extends(n: Node, n': Node) {
    n'.key == n.key && forall b :: b in n.forest.order ==> b in n'.forest.order
  }

  lemma AddBlockIsSound(n: Node, b: Block)
    requires Sound(n) && Known(n.forest.order, b.prev)
    requires b.creator == n.key && b.prev.At? ==> b in n.forest.order || !HasOwnChild(n, b.prev.block)
    ensures Sound(AddBlock(n, b)) && Extends(n, AddBlock(n, b))
  {
    AddKeepsConsistent(n.forest, b);
    var n' := AddBlock(n, b);
    InsertAllIsUnion(n.pool, if n'.forest.principal == n.forest.principal then []
                             else Abandoned(n.forest.principal, n'.forest.principal));
  }

  lemma CompeteIsSound(n: Node, p: Block, make: Maker)
    requires Sound(n) && p in n.forest.order && Makes(make, n.key)
    ensures Sound(Compete(n, p, make).node) && Extends(n, Compete(n, p, make).node)
  {
    if !HasOwnChild(n, p) && make(p, n.pool).Some? {
      AddBlockIsSound(n.(pool := []), make(p, n.pool).value);
    }
  }

  lemma HandleBlockIsSound(n: Node, msg: Option<Block>, make: Maker)
    requires Sound(n) && Unforged(n, msg) && Makes(make, n.key)
    ensures Sound(HandleBlock(n, msg, make).node) && Extends(n, HandleBlock(n, msg, make).node)
  {
    if Accepted(n.forest, msg).Some? && !HasHash(n.forest.order, msg.value.hash) {
      var b := msg.value;
      AddBlockIsSound(n, b);
      if b.prev.At? {
        CompeteIsSound(AddBlock(n, b), b.prev.block, make);
      }
    }
  }

  lemma {:induction false} HandleResponseIsSound(n: Node, msgs: seq<Option<Block>>, make: Maker)
    requires Sound(n) && Makes(make, n.key) && AllUnforged(n, msgs)
    ensures Sound(HandleResponse(n, msgs, make).node) && Extends(n, HandleResponse(n, msgs, make).node)
  {
    if msgs != [] {
      HandleResponseIsSound(n, msgs[1..], make);
      HandleBlockIsSound(HandleResponse(n, msgs[1..], make).node, msgs[0], make);
    }
  }

  lemma HandleTimerIsSound(n: Node, make: Maker)
    requires Sound(n) && Makes(make, n.key)
    ensures Sound(HandleTimer(n, make).node) && Extends(n, HandleTimer(n, make).node)
  {
    PrincipalIsKnownLeaf(n.forest);
    var p := n.forest.principal;
    if p.At? && !HasOwnChild(n, p.block) && make(p.block, n.pool).Some? {
      AddBlockIsSound(n.(pool := []), make(p.block, n.pool).value);
    }
  }

  lemma {:induction false} HandlePoolIsSound(n: Node, msgs: seq<Option<Transaction>>)
    requires Sound(n)
    ensures Sound(HandlePool(n, msgs)) && HandlePool(n, msgs).forest == n.forest && HandlePool(n, msgs).key == n.key
  {
    if msgs != [] {
      HandlePoolIsSound(n, msgs[..|msgs| - 1]);
    }
  }

  /** A node started with its own genesis block is sound. */
  lemma StartIsSound(key: Key, genesis: Block)
    requires genesis.prev.Null?
    ensures Sound(AddBlock(Node(key, EMPTY, []), genesis))
  {
    AddBlockIsSound(Node(key, EMPTY, []), genesis);
  }

  /**
   In every run of the handlers the principal is the greedy walk, the pool holds each hash
   once, and the node never builds two blocks on one parent.
   */
  lemma {:induction false} EveryRunIsSound(n: Node, events: seq<Event>)
    requires Sound(n) && LegitimateRun(n, events)
    ensures Sound(RunNode(n, events)) && Extends(n, RunNode(n, events))
  {
    if events != [] {
      var k := |events| - 1;
      EveryRunIsSound(n, events[..k]);
      var m := RunNode(n, events[..k]);
      match events[k]
      case BlockArrived(msg, make) => HandleBlockIsSound(m, msg, make);
      case ResponseArrived(msgs, make) => HandleResponseIsSound(m, msgs, make);
      case TimerFired(make) => HandleTimerIsSound(m, make);
      case TransactionsArrived(txns) => HandlePoolIsSound(m, txns);
    }
  }
}
