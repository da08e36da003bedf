/**
 Gossip ends: from any reached network only so many deliveries are possible, after which nothing is
 in flight and all members agree.

 A delivery can create new messages, because a node competes on the parent of a block it receives.
 But it builds on each parent once, and what it sends competes on the same parent as what it received.
 So new guids are used up by slots: pairs of a member and a parent of a block in flight on which the
 member has not built.
 */
module Quiescence {
  import opened Options
  import opened Blocks
  import opened ForkChoice
  import opened Nodes
  import opened NodeRuns
  import opened Network
  import opened Gossip

  /** s follows from s0 by deliveries, and submissions of transactions, alone. */
  ghost predicate Continues(universe: iset<Block>, s0: Net, events: seq<NetEvent>, s: Net)
    decreases |events|
  {
    if events == [] then s == s0
    else
      var n := |events| - 1;
      && !events[n].TimerFired?
      && exists before ::
           && Continues(universe, s0, events[..n], before)
           && Enabled(universe, before, events[n])
           && s == Next(before, events[n])
  }

  predicate InFlight(s: Net, k: nat, x: nat) {
    && k < |s.channels| && s.channels[k].from < |s.members|
    && s.channels[k].taken <= x < |s.members[s.channels[k].from].sent|
  }

  function BlockInFlight(s: Net, k: nat, x: nat): Block
    requires InFlight(s, k, x)
  {
    s.members[s.channels[k].from].sent[x].block
  }

  /** Blocks in flight build on the given parents only. */
  ghost predicate BuildsOn(s: Net, parents: set<Block>) {
    forall k: nat, x: nat ::
      InFlight(s, k, x) && BlockInFlight(s, k, x).prev.At? ==> BlockInFlight(s, k, x).prev.block in parents
  }

  /** The parents of the blocks in flight. */
  ghost function Parents(s: Net): (parents: set<Block>)
    ensures BuildsOn(s, parents)
  {
    set k: nat, x: nat |
      && k < |s.channels| && s.channels[k].from < |s.members|
      && x < |s.members[s.channels[k].from].sent|
      && InFlight(s, k, x) && BlockInFlight(s, k, x).prev.At?
      :: BlockInFlight(s, k, x).prev.block
  }

  /** Where a member may still build on one of the parents. */
  ghost function Slots(s: Net, parents: set<Block>): set<(nat, Block)> {
    set i: nat, p | i < |s.members| && p in parents && !HasOwnChild(s.members[i].node, p) :: (i, p)
  }

  /** No more guids than these can ever be in use before a timer fires again. */
  ghost function Budget(s: Net, parents: set<Block>): nat {
    |Originated(s)| + |Slots(s, parents)|
  }

  lemma {:induction false} PairsAreCounted(n: nat, parents: set<Block>, pairs: set<(nat, Block)>)
    requires forall q :: q in pairs ==> q.0 < n && q.1 in parents
    ensures |pairs| <= n * |parents|
  {
    if n == 0 {
      assert pairs == {};
    } else {
      var here := set q | q in pairs && q.0 == n - 1;
      var rest := set q | q in pairs && q.0 < n - 1;
      var of := set q | q in here :: q.1;
      PairsAreCounted(n - 1, parents, rest);
      OneRow(n - 1, here, of);
      SubsetIsSmaller(of, parents);
      assert pairs == here + rest;
      assert n * |parents| == (n - 1) * |parents| + |parents|;
    }
  }

  lemma {:induction false} OneRow(i: nat, row: set<(nat, Block)>, of: set<Block>)
    requires forall q :: q in row ==> q.0 == i && q.1 in of
    requires forall p :: p in of ==> (i, p) in row
    ensures |row| == |of|
    decreases of
  {
    if row == {} {
      if p :| p in of {
        assert (i, p) in row;
      }
    } else {
      var q :| q in row;
      OneRow(i, row - {q}, of - {q.1});
    }
  }

  /** A bound that can be read off the network: members times parents. */
  lemma BudgetIsBounded(s: Net, parents: set<Block>)
    ensures Budget(s, parents) <= |Originated(s)| + |s.members| * |parents|
  {
    PairsAreCounted(|s.members|, parents, Slots(s, parents));
  }

  // ---------- one delivery ----------

  /** Everything a receipt adds to the log competes with the block received, and what it creates fills a slot. */
  lemma ReceiptFillsSlot(universe: iset<Block>, base: iset<Block>, s: Net, k: nat, make: Maker, newGuid: Guid)
    requires Inv(universe, base, s) && Enabled(universe, s, Delivered(k, make, newGuid))
    ensures var m, msg := Receiver(s, k), Head(s, k);
            var m' := Receive(m, msg, make, newGuid);
            && m.sent <= m'.sent
            && (forall x :: |m.sent| <= x < |m'.sent| ==> m'.sent[x].block.prev == msg.block.prev)
            && (forall x :: x in m'.sent ==> x in m.sent || x == msg || x.guid == newGuid)
            && (forall b :: b in m.node.forest.order ==> b in m'.node.forest.order) && m'.node.key == m.node.key
            && (HasGuid(m'.sent, newGuid) ==>
                  && msg.block.prev.At? && !HasOwnChild(m.node, msg.block.prev.block)
                  && HasOwnChild(m'.node, msg.block.prev.block))
  {
    var m, msg := Receiver(s, k), Head(s, k);
    assert MemberInv(universe, base, m) && MemberInv(universe, base, Sender(s, k));
    assert msg in Sender(s, k).sent && !HasGuid(m.sent, newGuid);
    if msg.guid !in m.history {
      var r := HandleBlock(m.node, Some(msg.block), make);
      assert Carries(Sender(s, k).sent, msg.block);
      HandleBlockAdds(universe, m.node, Some(msg.block), make);
      NewChildFillsSlot(m.node, msg.block, make);
      LogAfterReceipt(m.(node := r.node), r.sent, msg, newGuid);
    }
  }

  lemma NewChildFillsSlot(n: Node, b: Block, make: Maker)
    requires Makes(make, n.key)
    ensures var r := HandleBlock(n, Some(b), make);
            r.sent != [] ==> b.prev.At? && !HasOwnChild(n, b.prev.block) && HasOwnChild(r.node, b.prev.block)
  {
    var r := HandleBlock(n, Some(b), make);
    if r.sent != [] {
      var m := AddBlock(n, b);
      assert !HasOwnChild(m, b.prev.block);
      assert forall x :: x in n.forest.order ==> x in m.forest.order;
      assert r.sent[0] in r.node.forest.order;
    }
  }

  lemma LogAfterReceipt(m: Member, blocks: seq<Block>, msg: Message, newGuid: Guid)
    requires |blocks| <= 1 && forall b :: b in blocks ==> b.prev == msg.block.prev
    requires msg.guid != newGuid && !HasGuid(m.sent, newGuid)
    ensures var m' := Broadcast(BroadcastNew(m, blocks, newGuid), msg);
            && m.sent <= m'.sent
            && (forall x :: |m.sent| <= x < |m'.sent| ==> m'.sent[x].block.prev == msg.block.prev)
            && (forall x :: x in m'.sent ==> x in m.sent || x == msg || x.guid == newGuid)
            && (HasGuid(m'.sent, newGuid) ==> blocks != [])
  {
  }

  lemma DeliverBuildsOn(s: Net, k: nat, m': Member, parents: set<Block>)
    requires CanDeliver(s, k) && BuildsOn(s, parents)
    requires Receiver(s, k).sent <= m'.sent
    requires forall x :: |Receiver(s, k).sent| <= x < |m'.sent| ==> m'.sent[x].block.prev == Head(s, k).block.prev
    ensures BuildsOn(Deliver(s, k, m'), parents)
  {
    var s', d := Deliver(s, k, m'), s.channels[k].taken;
    assert InFlight(s, k, d) && BlockInFlight(s, k, d) == Head(s, k).block;
    forall j: nat, x: nat | InFlight(s', j, x) && BlockInFlight(s', j, x).prev.At?
      ensures BlockInFlight(s', j, x).prev.block in parents
    {
      if x < |s.members[s.channels[j].from].sent| {
        assert InFlight(s, j, x) && BlockInFlight(s', j, x) == BlockInFlight(s, j, x);
      }
    }
  }

  lemma DeliveryBuildsOn(universe: iset<Block>, base: iset<Block>, s: Net, e: NetEvent, parents: set<Block>)
    requires Inv(universe, base, s) && Enabled(universe, s, e) && e.Delivered? && BuildsOn(s, parents)
    ensures BuildsOn(Next(s, e), parents)
  {
    ReceiptFillsSlot(universe, base, s, e.k, e.make, e.newGuid);
    DeliverBuildsOn(s, e.k, Receive(Receiver(s, e.k), Head(s, e.k), e.make, e.newGuid), parents);
  }

  lemma DeliverOriginates(s: Net, k: nat, m': Member, newGuid: Guid)
    requires CanDeliver(s, k)
    requires forall x :: x in m'.sent ==> x in Receiver(s, k).sent || x == Head(s, k) || x.guid == newGuid
    ensures Originated(Deliver(s, k, m')) <= Originated(s) + {newGuid}
    ensures newGuid in Originated(Deliver(s, k, m')) ==> newGuid in Originated(s) || HasGuid(m'.sent, newGuid)
  {
    var s', to := Deliver(s, k, m'), s.channels[k].to;
    assert Head(s, k) in Sender(s, k).sent;
    forall guid | guid in Originated(s')
      ensures guid in Originated(s) || (guid == newGuid && HasGuid(m'.sent, guid))
    {
      var i, x :| 0 <= i < |s'.members| && x in s'.members[i].sent && x.guid == guid;
      if i == to && x !in s.members[to].sent {
        assert x == Head(s, k) || HasGuid(m'.sent, guid);
      } else {
        assert x in s.members[i].sent;
      }
    }
  }

  lemma DeliveryOriginates(universe: iset<Block>, base: iset<Block>, s: Net, e: NetEvent)
    requires Inv(universe, base, s) && Enabled(universe, s, e) && e.Delivered?
    ensures var s', to := Next(s, e), s.channels[e.k].to;
            && Originated(s') <= Originated(s) + {e.newGuid}
            && (e.newGuid in Originated(s') ==> HasGuid(s'.members[to].sent, e.newGuid))
  {
    ReceiptFillsSlot(universe, base, s, e.k, e.make, e.newGuid);
    DeliverOriginates(s, e.k, Receive(Receiver(s, e.k), Head(s, e.k), e.make, e.newGuid), e.newGuid);
    assert e.newGuid !in Originated(s);
  }

  lemma DeliveryUsesSlots(universe: iset<Block>, base: iset<Block>, s: Net, e: NetEvent, parents: set<Block>)
    requires Inv(universe, base, s) && Enabled(universe, s, e) && e.Delivered? && BuildsOn(s, parents)
    ensures var s', to := Next(s, e), s.channels[e.k].to;
            && Slots(s', parents) <= Slots(s, parents)
            && (HasGuid(s'.members[to].sent, e.newGuid) ==>
                  exists q :: q in Slots(s, parents) && q !in Slots(s', parents))
  {
    var s', to, d := Next(s, e), s.channels[e.k].to, s.channels[e.k].taken;
    ReceiptFillsSlot(universe, base, s, e.k, e.make, e.newGuid);
    forall q | q in Slots(s', parents)
      ensures q in Slots(s, parents)
    {
      assert s.members[q.0].node.key == s'.members[q.0].node.key;
    }
    if HasGuid(s'.members[to].sent, e.newGuid) {
      assert InFlight(s, e.k, d) && BlockInFlight(s, e.k, d) == Head(s, e.k).block;
      var q := (to, Head(s, e.k).block.prev.block);
      assert q in Slots(s, parents) && q !in Slots(s', parents);
    }
  }

  lemma Traded(a: set<Guid>, a': set<Guid>, x: Guid, b: set<(nat, Block)>, b': set<(nat, Block)>)
    requires a' <= a + {x} && b' <= b
    requires x in a' ==> exists q :: q in b && q !in b'
    ensures |a'| + |b'| <= |a| + |b|
  {
    if x in a' {
      var q :| q in b && q !in b';
      SubsetIsSmaller(a', a + {x});
      SubsetIsSmaller(b', b - {q});
    } else {
      SubsetIsSmaller(a', a);
      SubsetIsSmaller(b', b);
    }
  }

  /** A delivery never raises the budget: a new guid costs a slot. */
  lemma DeliveryKeepsBudget(universe: iset<Block>, base: iset<Block>, s: Net, e: NetEvent, parents: set<Block>)
    requires Inv(universe, base, s) && Enabled(universe, s, e) && e.Delivered? && BuildsOn(s, parents)
    ensures Budget(Next(s, e), parents) <= Budget(s, parents)
  {
    var s' := Next(s, e);
    DeliveryOriginates(universe, base, s, e);
    DeliveryUsesSlots(universe, base, s, e, parents);
    Traded(Originated(s), Originated(s'), e.newGuid, Slots(s, parents), Slots(s', parents));
  }

  lemma SubmissionChangesNothing(universe: iset<Block>, s: Net, e: NetEvent, parents: set<Block>)
    requires Enabled(universe, s, e) && e.Submitted?
    ensures var s' := Next(s, e);
            && Originated(s') == Originated(s) && Slots(s', parents) == Slots(s, parents)
            && (BuildsOn(s, parents) ==> BuildsOn(s', parents))
  {
    var s' := Next(s, e);
    assert forall i :: 0 <= i < |s.members| ==>
             s'.members[i].sent == s.members[i].sent && s'.members[i].node.forest == s.members[i].node.forest &&
             s'.members[i].node.key == s.members[i].node.key;
    forall k: nat, x: nat | InFlight(s', k, x)
      ensures InFlight(s, k, x) && BlockInFlight(s', k, x) == BlockInFlight(s, k, x)
    {
    }
  }

  // ---------- whole continuations ----------

  /** What holds from s on until a timer fires. */
  ghost predicate Bounded(universe: iset<Block>, base: iset<Block>, s: Net, parents: set<Block>, budget: nat) {
    && Inv(universe, base, s) && Tidy(s) && BuildsOn(s, parents)
    && Budget(s, parents) <= budget <= MESSAGE_HISTORY_SIZE
  }

  lemma EventStaysBounded(universe: iset<Block>, base: iset<Block>, s: Net, e: NetEvent, parents: set<Block>, budget: nat)
    requires Bounded(universe, base, s, parents, budget) && Enabled(universe, s, e) && !e.TimerFired?
    ensures Bounded(universe, base, Next(s, e), parents, budget)
  {
    EventKeepsInv(universe, base, s, e);
    if e.Delivered? {
      DeliveryBuildsOn(universe, base, s, e, parents);
      DeliveryKeepsBudget(universe, base, s, e, parents);
    } else {
      SubmissionChangesNothing(universe, s, e, parents);
    }
    EventKeepsTidy(universe, base, s, e);
  }

  lemma StartIsBounded(universe: iset<Block>, start: Net, earlier: seq<NetEvent>, s0: Net)
    requires HashInjective(universe) && Reached(universe, start, earlier, s0)
    requires Budget(s0, Parents(s0)) <= MESSAGE_HISTORY_SIZE
    ensures Bounded(universe, Base(start), s0, Parents(s0), Budget(s0, Parents(s0)))
  {
    ReachedKeepsInv(universe, start, earlier, s0);
    FewGuidsFit(universe, start, earlier, s0);
  }

  /** The measure: how many deliveries are left at most. */
  ghost function Left(s: Net, budget: nat): int {
    |s.channels| * budget - TotalTaken(s.channels)
  }

  lemma LeftIsNatural(universe: iset<Block>, base: iset<Block>, s: Net, parents: set<Block>, budget: nat)
    requires Bounded(universe, base, s, parents, budget)
    ensures Left(s, budget) >= 0
  {
    TakenIsBounded(s);
    Monotone(|s.channels|, |Originated(s)|, budget);
  }

  lemma Monotone(n: nat, a: nat, b: nat)
    requires a <= b
    ensures n * a <= n * b
  {
  }

  /** Every delivery makes the measure smaller by one. */
  lemma DeliveryDecreases(universe: iset<Block>, s: Net, e: NetEvent, budget: nat)
    requires Enabled(universe, s, e) && e.Delivered?
    ensures Left(Next(s, e), budget) == Left(s, budget) - 1
  {
    TotalAfterAdvance(s.channels, e.k);
  }

  lemma {:induction false} ContinuationStaysBounded(universe: iset<Block>, base: iset<Block>, s0: Net,
                                                    events: seq<NetEvent>, s: Net, parents: set<Block>, budget: nat)
    requires Continues(universe, s0, events, s) && Bounded(universe, base, s0, parents, budget)
    ensures Bounded(universe, base, s, parents, budget)
    ensures Left(s, budget) == Left(s0, budget) - Deliveries(events)
    decreases |events|
  {
    if events != [] {
      var n := |events| - 1;
      var before :|
        && Continues(universe, s0, events[..n], before) && Enabled(universe, before, events[n])
        && s == Next(before, events[n]);
      ContinuationStaysBounded(universe, base, s0, events[..n], before, parents, budget);
      EventStaysBounded(universe, base, before, events[n], parents, budget);
      if events[n].Delivered? {
        DeliveryDecreases(universe, before, events[n], budget);
      }
    }
  }

  /**
   From any reached network whose guids and free slots fit a history: however the messages are
   scheduled, nothing is evicted or handled twice, and at most links times that number of deliveries
   happen, those made before included, until a timer fires.
   */
  lemma GossipEnds(universe: iset<Block>, start: Net, earlier: seq<NetEvent>, s0: Net, events: seq<NetEvent>, s: Net)
    requires HashInjective(universe) && Reached(universe, start, earlier, s0)
    requires Budget(s0, Parents(s0)) <= MESSAGE_HISTORY_SIZE
    requires Continues(universe, s0, events, s)
    ensures Tidy(s)
    ensures |Originated(s)| <= Budget(s0, Parents(s0))
    ensures Deliveries(earlier) + Deliveries(events) <= |s0.channels| * Budget(s0, Parents(s0))
  {
    var budget := Budget(s0, Parents(s0));
    StartIsBounded(universe, start, earlier, s0);
    ContinuationStaysBounded(universe, Base(start), s0, events, s, Parents(s0), budget);
    LeftIsNatural(universe, Base(start), s, Parents(s0), budget);
    DeliveriesAreCounted(universe, start, earlier, s0);
  }

  /** Where something is in flight it can be delivered, so only a quiescent network is stuck. */
  lemma StuckMeansQuiescent(universe: iset<Block>, s: Net)
    requires forall k, make, newGuid :: !Enabled(universe, s, Delivered(k, make, newGuid))
    ensures Quiescent(s)
  {
    if !Quiescent(s) {
      var k :| 0 <= k < |s.channels| && CanDeliver(s, k);
      var newGuid := UnusedGuid(s);
      assert Enabled(universe, s, Delivered(k, NOTHING_MADE, newGuid));
    }
  }

  /** block_create refusing every time. */
  const NOTHING_MADE: Maker := (p, txns) => None

  /** When deliveries have run out, as they must, all members agree. */
  lemma EveryGossipRunEndsInAgreement(universe: iset<Block>, start: Net, earlier: seq<NetEvent>, s0: Net,
                                      events: seq<NetEvent>, s: Net, i: nat, j: nat)
    requires HashInjective(universe) && DistinctSiblings(universe)
    requires Reached(universe, start, earlier, s0) && Budget(s0, Parents(s0)) <= MESSAGE_HISTORY_SIZE
    requires Continues(universe, s0, events, s) && Connected(s) && i < |s.members| && j < |s.members|
    requires forall k, make, newGuid :: !Enabled(universe, s, Delivered(k, make, newGuid))
    ensures forall b :: b in s.members[i].node.forest.order <==> b in s.members[j].node.forest.order
    ensures s.members[i].node.forest.principal == s.members[j].node.forest.principal
  {
    StuckMeansQuiescent(universe, s);
    StartIsBounded(universe, start, earlier, s0);
    ContinuationStaysBounded(universe, Base(start), s0, events, s, Parents(s0), Budget(s0, Parents(s0)));
    QuiescentMembersAgree(universe, Base(start), s, i, j);
    SameBlocksSamePrincipal(s.members[i].node.forest, s.members[j].node.forest);
  }

  /** And quiescence can be reached: delivering whatever is in flight gets there. */
  lemma QuiescenceIsReached(universe: iset<Block>, start: Net, earlier: seq<NetEvent>, s0: Net)
    returns (events: seq<NetEvent>, s: Net)
    requires HashInjective(universe) && Reached(universe, start, earlier, s0)
    requires Budget(s0, Parents(s0)) <= MESSAGE_HISTORY_SIZE
    ensures Continues(universe, s0, events, s) && Quiescent(s)
  {
    var base, parents, budget := Base(start), Parents(s0), Budget(s0, Parents(s0));
    StartIsBounded(universe, start, earlier, s0);
    LeftIsNatural(universe, base, s0, parents, budget);
    events, s := [], s0;
    while !Quiescent(s)
      invariant Continues(universe, s0, events, s) && Bounded(universe, base, s, parents, budget)
      invariant Left(s, budget) >= 0
      decreases Left(s, budget)
    {
      var k :| 0 <= k < |s.channels| && CanDeliver(s, k);
      var newGuid := UnusedGuid(s);
      var e := Delivered(k, NOTHING_MADE, newGuid);
      EventStaysBounded(universe, base, s, e, parents, budget);
      DeliveryDecreases(universe, s, e, budget);
      LeftIsNatural(universe, base, Next(s, e), parents, budget);
      ContinuesOneMore(universe, s0, events, s, e);
      events, s := events + [e], Next(s, e);
    }
  }

  lemma ContinuesOneMore(universe: iset<Block>, s0: Net, events: seq<NetEvent>, s: Net, e: NetEvent)
    requires Continues(universe, s0, events, s) && Enabled(universe, s, e) && !e.TimerFired?
    ensures Continues(universe, s0, events + [e], Next(s, e))
  {
    assert (events + [e])[..|events|] == events;
  }
}
