/**
 The gossip network (src/network.c) with the block handlers of main/main.c on top.

 The connection graph is static and its links are reliable and FIFO. A broadcast writes the
 same bytes to every peer, so the link from i to j holds what i has sent and j has not taken.
 Each member keeps the bounded history of guids it has seen. Only block messages travel; the
 handler of one event runs to completion before the next event.
 */
module Network {
  import opened Options
  import opened Blocks
  import opened ForkChoice
  import opened Pools
  import opened Nodes
  import opened NodeRuns

  const MESSAGE_HISTORY_SIZE := 1024

  type Guid = nat

  /** What network_send puts in place of a fresh guid. */
  const GUID_NULL: Guid := 0

  datatype Message = Message(guid: Guid, block: Block)

  datatype Member = Member(node: Node, history: seq<Guid>, sent: seq<Message>)

  /** A connection in one direction, and how many messages its receiver has taken from it. */
  datatype Channel = Channel(from: nat, to: nat, taken: nat)

  datatype Net = Net(members: seq<Member>, channels: seq<Channel>)

  // ---------- the bounded history ----------

  /** message_history_add: the oldest entry makes room when the list is full. */
  function HistoryAdd(history: seq<Guid>, guid: Guid): seq<Guid> {
    (if |history| >= MESSAGE_HISTORY_SIZE then history[1..] else history) + [guid]
  }

  function Guids(sent: seq<Message>): (guids: seq<Guid>)
    ensures |guids| == |sent|
  {
    if sent == [] then [] else Guids(sent[..|sent| - 1]) + [sent[|sent| - 1].guid]
  }

  /** The most recent entries that fit in a history. */
  function Window(guids: seq<Guid>): seq<Guid> {
    if |guids| <= MESSAGE_HISTORY_SIZE then guids else guids[|guids| - MESSAGE_HISTORY_SIZE..]
  }

  /** The history list is a sliding window over everything ever added. */
  lemma HistoryIsSlidingWindow(guids: seq<Guid>, guid: Guid)
    ensures HistoryAdd(Window(guids), guid) == Window(guids + [guid])
  {
  }

  predicate HasGuid(sent: seq<Message>, guid: Guid) {
    exists m :: m in sent && m.guid == guid
  }

  lemma {:induction false} GuidsOfSent(sent: seq<Message>, guid: Guid)
    ensures guid in Guids(sent) <==> HasGuid(sent, guid)
  {
    if sent != [] {
      var n := |sent| - 1;
      GuidsOfSent(sent[..n], guid);
      assert sent == sent[..n] + [sent[n]];
    }
  }

  lemma GuidsOfGrown(sent: seq<Message>, m: Message)
    ensures Guids(sent + [m]) == Guids(sent) + [m.guid]
  {
    assert (sent + [m])[..|sent|] == sent;
  }

  // ---------- steps ----------

  /** network_broadcast, and the relaying half of handle_message. */
  function Broadcast(m: Member, msg: Message): Member {
    m.(history := HistoryAdd(m.history, msg.guid), sent := m.sent + [msg])
  }

  /** Broadcasts the block a handler created, if it created one. */
  function BroadcastNew(m: Member, blocks: seq<Block>, newGuid: Guid): Member {
    if blocks == [] then m else Broadcast(m, Message(newGuid, blocks[0]))
  }

  /** handle_message with on_block as the handler: a message sent to this peer alone is not relayed. */
  function Receive(m: Member, msg: Message, make: Maker, newGuid: Guid): Member {
    if msg.guid != GUID_NULL && msg.guid in m.history then m
    else
      var r := HandleBlock(m.node, Some(msg.block), make);
      var handled := BroadcastNew(m.(node := r.node), r.sent, newGuid);
      if msg.guid == GUID_NULL then handled else Broadcast(handled, msg)
  }

  function Tick(m: Member, make: Maker, newGuid: Guid): Member {
    var r := HandleTimer(m.node, make);
    BroadcastNew(m.(node := r.node), r.sent, newGuid)
  }

  function Submit(m: Member, t: Transaction): Member {
    m.(node := m.node.(pool := Insert(m.node.pool, t)))
  }

  datatype NetEvent =
    | Delivered(k: nat, make: Maker, newGuid: Guid)
    | TimerFired(at: nat, make: Maker, newGuid: Guid)
    | Submitted(at: nat, txn: Transaction)

  ghost predicate Unused(s: Net, guid: Guid) {
    guid != GUID_NULL && forall i :: 0 <= i < |s.members| ==> !HasGuid(s.members[i].sent, guid)
  }

  /** Something is in flight on channel k. */
  predicate CanDeliver(s: Net, k: nat) {
    && k < |s.channels|
    && s.channels[k].from < |s.members| && s.channels[k].to < |s.members|
    && s.channels[k].taken < |s.members[s.channels[k].from].sent|
  }

  function Sender(s: Net, k: nat): Member
    requires CanDeliver(s, k)
  {
    s.members[s.channels[k].from]
  }

  function Receiver(s: Net, k: nat): Member
    requires CanDeliver(s, k)
  {
    s.members[s.channels[k].to]
  }

  /** The oldest message in flight. */
  function Head(s: Net, k: nat): Message
    requires CanDeliver(s, k)
  {
    Sender(s, k).sent[s.channels[k].taken]
  }

  /** block_create is honest, and what it returns at this event is in the collision-free universe. */
  ghost predicate Enabled(universe: iset<Block>, s: Net, e: NetEvent) {
    match e
    case Delivered(k, make, newGuid) =>
      && CanDeliver(s, k) && Unused(s, newGuid)
      && (Head(s, k).guid !in Receiver(s, k).history ==>
            BlockCall(universe, Receiver(s, k).node, Some(Head(s, k).block), make))
    case TimerFired(at, make, newGuid) =>
      && at < |s.members| && Unused(s, newGuid)
      && TimerCall(universe, s.members[at].node, make)
    case Submitted(at, txn) => at < |s.members|
  }

  function Advance(c: Channel): Channel {
    c.(taken := c.taken + 1)
  }

  /** The receiver of channel k turned into m and the head of the channel is gone. */
  function Deliver(s: Net, k: nat, m: Member): Net
    requires CanDeliver(s, k)
  {
    Net(s.members[s.channels[k].to := m], s.channels[k := Advance(s.channels[k])])
  }

  function Next(s: Net, e: NetEvent): Net
    requires e.Delivered? ==> CanDeliver(s, e.k)
    requires !e.Delivered? ==> e.at < |s.members|
  {
    match e
    case Delivered(k, make, newGuid) => Deliver(s, k, Receive(Receiver(s, k), Head(s, k), make, newGuid))
    case TimerFired(at, make, newGuid) => s.(members := s.members[at := Tick(s.members[at], make, newGuid)])
    case Submitted(at, txn) => s.(members := s.members[at := Submit(s.members[at], txn)])
  }

  /** The blocks all members have at the start. */
  ghost function Base(start: Net): iset<Block> {
    if start.members == [] then iset{} else SetOf(start.members[0].node.forest.order)
  }

  /** The members have the same blocks, which may have reached them in different orders, and nothing is in flight. */
  ghost predicate Initial(universe: iset<Block>, s: Net) {
    && (forall i :: 0 <= i < |s.members| ==> InitialMember(universe, Base(s), s.members[i]))
    && DistinctKeys(s.members)
    && (forall c :: c in s.channels ==> c.taken == 0 && c.from < |s.members| && c.to < |s.members| && c.from != c.to)
  }

  ghost predicate InitialMember(universe: iset<Block>, base: iset<Block>, m: Member) {
    && Sound(m.node)
    && (forall b :: b in m.node.forest.order <==> b in base)
    && (forall b :: b in base ==> b in universe)
    && m.history == [] && m.sent == []
  }

  /** s is reached from some initial network over the given events. */
  ghost predicate Reached(universe: iset<Block>, start: Net, events: seq<NetEvent>, s: Net)
    decreases |events|
  {
    if events == [] then Initial(universe, start) && s == start
    else
      var n := |events| - 1;
      exists before ::
        && Reached(universe, start, events[..n], before)
        && Enabled(universe, before, events[n])
        && s == Next(before, events[n])
  }

  // ---------- the invariant ----------

  ghost predicate Carries(sent: seq<Message>, b: Block) {
    exists m :: m in sent && m.block == b
  }

  /** The block is part of the base or has been sent. */
  ghost predicate Available(base: iset<Block>, sent: seq<Message>, l: Link) {
    l.At? ==> l.block in base || Carries(sent, l.block)
  }

  /** No block is sent before the block it builds on. */
  ghost predicate CausalOrder(base: iset<Block>, sent: seq<Message>) {
    sent == [] ||
    (var n := |sent| - 1;
     CausalOrder(base, sent[..n]) && Available(base, sent[..n], sent[n].block.prev))
  }

  ghost predicate SendsWhatItKnows(base: iset<Block>, order: seq<Block>, sent: seq<Message>) {
    forall b :: b in order <==> b in base || Carries(sent, b)
  }

  ghost predicate LogInv(base: iset<Block>, m: Member) {
    && CausalOrder(base, m.sent) && m.history == Window(Guids(m.sent))
    && forall x :: x in m.sent ==> x.guid != GUID_NULL
  }

  /** Beyond the base a member has sent exactly the blocks it knows, in causal order. */
  ghost predicate MemberInv(universe: iset<Block>, base: iset<Block>, m: Member) {
    && Sound(m.node)
    && (forall b :: b in m.node.forest.order ==> b in universe)
    && SendsWhatItKnows(base, m.node.forest.order, m.sent)
    && LogInv(base, m)
  }

  /** Every block under b's key is known to b, and a guid means the same block to both. */
  ghost predicate PairInv(a: Member, b: Member) {
    && (forall x :: x in a.node.forest.order && x.creator == b.node.key ==> x in b.node.forest.order)
    && (forall x, y :: x in a.sent && y in b.sent && x.guid == y.guid ==> x.block == y.block)
  }

  /** What b took from a it knows, and has itself sent on. */
  ghost predicate LinkInv(a: Member, b: Member, taken: nat) {
    && taken <= |a.sent|
    && (forall x :: x in a.sent[..taken] ==> x.block in b.node.forest.order && HasGuid(b.sent, x.guid))
  }

  ghost predicate Inv(universe: iset<Block>, base: iset<Block>, s: Net) {
    HashInjective(universe) && StaticInv(universe, base, s.members) && ChannelsInv(s.members, s.channels)
  }

  /** The part of the invariant that does not look at the links. */
  ghost predicate StaticInv(universe: iset<Block>, base: iset<Block>, members: seq<Member>) {
    MembersInv(universe, base, members) && PairsInv(members) && DistinctKeys(members)
  }

  ghost predicate MembersInv(universe: iset<Block>, base: iset<Block>, members: seq<Member>) {
    forall i :: 0 <= i < |members| ==> MemberInv(universe, base, members[i])
  }

  ghost predicate PairsInv(members: seq<Member>) {
    forall i, j :: 0 <= i < |members| && 0 <= j < |members| ==> PairInv(members[i], members[j])
  }

  ghost predicate DistinctKeys(members: seq<Member>) {
    forall i, j :: 0 <= i < j < |members| ==> members[i].node.key != members[j].node.key
  }

  ghost predicate ChannelsInv(members: seq<Member>, channels: seq<Channel>) {
    forall k :: 0 <= k < |channels| ==> ChannelInv(members, channels[k])
  }

  ghost predicate ChannelInv(members: seq<Member>, c: Channel) {
    c.from < |members| && c.to < |members| && c.from != c.to && LinkInv(members[c.from], members[c.to], c.taken)
  }

  /**
   What one event may do to the member it happens at: it learns at most the incoming block and
   blocks of its own, sends what it learns, and uses no guid but the incoming and a fresh one.
   */
  ghost predicate MemberStep(universe: iset<Block>, base: iset<Block>, m: Member, m': Member,
                             incoming: Option<Message>, newGuid: Guid)
  {
    && MemberInv(universe, base, m')
    && m'.node.key == m.node.key
    && (forall b :: b in m.node.forest.order ==> b in m'.node.forest.order)
    && (forall b :: b in m'.node.forest.order ==>
          b in m.node.forest.order || (incoming.Some? && b == incoming.value.block) || b.creator == m.node.key)
    && OnlyNew(m.sent, m'.sent, incoming, newGuid)
  }

  /** sent grew to sent' by at most the incoming message and one message under the new guid. */
  ghost predicate OnlyNew(sent: seq<Message>, sent': seq<Message>, incoming: Option<Message>, newGuid: Guid) {
    && sent <= sent'
    && (forall x :: x in sent' ==> x in sent || incoming == Some(x) || x.guid == newGuid)
    && (forall x, y :: x in sent' && y in sent' && x.guid == newGuid && y.guid == newGuid ==> x == y)
  }

  /** The receiver knows the block of the message and has passed its guid on. */
  ghost predicate Absorbed(m: Member, msg: Message) {
    msg.block in m.node.forest.order && HasGuid(m.sent, msg.guid)
  }

  // ---------- one member ----------

  lemma CarriesGrown(sent: seq<Message>, m: Message, b: Block)
    ensures Carries(sent + [m], b) <==> Carries(sent, b) || m.block == b
  {
    if Carries(sent, b) {
      var x :| x in sent && x.block == b;
      assert x in sent + [m];
    }
    if m.block == b {
      assert m in sent + [m];
    }
  }

  lemma BroadcastKeepsLog(base: iset<Block>, m: Member, msg: Message)
    requires LogInv(base, m) && msg.guid != GUID_NULL
    requires Available(base, m.sent, msg.block.prev)
    ensures LogInv(base, Broadcast(m, msg))
    ensures forall b :: Carries(m.sent + [msg], b) <==> Carries(m.sent, b) || msg.block == b
  {
    assert (m.sent + [msg])[..|m.sent|] == m.sent;
    HistoryIsSlidingWindow(Guids(m.sent), msg.guid);
    GuidsOfGrown(m.sent, msg);
    forall b
      ensures Carries(m.sent + [msg], b) <==> Carries(m.sent, b) || msg.block == b
    {
      CarriesGrown(m.sent, msg, b);
    }
  }

  lemma BroadcastNewKeepsLog(base: iset<Block>, m: Member, blocks: seq<Block>, newGuid: Guid)
    requires LogInv(base, m) && |blocks| <= 1 && newGuid != GUID_NULL
    requires forall b :: b in blocks ==> Available(base, m.sent, b.prev)
    ensures LogInv(base, BroadcastNew(m, blocks, newGuid))
    ensures forall b :: Carries(BroadcastNew(m, blocks, newGuid).sent, b) <==> Carries(m.sent, b) || b in blocks
  {
    if blocks != [] {
      BroadcastKeepsLog(base, m, Message(newGuid, blocks[0]));
    }
  }

  lemma NewMessages(sent: seq<Message>, m: Member, blocks: seq<Block>, newGuid: Guid)
    requires m.sent == sent && |blocks| <= 1 && !HasGuid(sent, newGuid)
    ensures OnlyNew(sent, BroadcastNew(m, blocks, newGuid).sent, None, newGuid)
  {
    assert forall x :: x in sent ==> x.guid != newGuid;
  }

  /** A message is unseen, or sent to this peer alone. */
  predicate IsNew(m: Member, msg: Message) {
    msg.guid == GUID_NULL || msg.guid !in m.history
  }

  /**
   What a receipt does: a message seen before does nothing. Otherwise its block, if its parent is known, is known
   afterwards; what is sent is the created block, if there is one, under the fresh guid, and then the message
   itself unless it was sent to this peer alone.
   */
  lemma ReceiptHandlesAndRelays(universe: iset<Block>, m: Member, msg: Message, make: Maker, newGuid: Guid)
    requires WithinUniverse(universe, m.node) && msg.block in universe
    requires IsNew(m, msg) ==> BlockCall(universe, m.node, Some(msg.block), make)
    ensures var m' := Receive(m, msg, make, newGuid);
            var created := HandleBlock(m.node, Some(msg.block), make).sent;
            if !IsNew(m, msg) then m' == m
            else
              && (Known(m.node.forest.order, msg.block.prev) ==> msg.block in m'.node.forest.order)
              && (forall b :: b in m'.node.forest.order ==> b in m.node.forest.order || b == msg.block || created == [b])
              && var handled := m.sent + (if created == [] then [] else [Message(newGuid, created[0])]);
                 m'.sent == if msg.guid == GUID_NULL then handled else handled + [msg]
  {
    if IsNew(m, msg) {
      BlockIsLearnt(universe, m.node, msg.block, make);
      SentInOrder(m, HandleBlock(m.node, Some(msg.block), make), msg, newGuid);
    }
  }

  lemma BlockIsLearnt(universe: iset<Block>, n: Node, block: Block, make: Maker)
    requires WithinUniverse(universe, n) && block in universe && BlockCall(universe, n, Some(block), make)
    ensures var r := HandleBlock(n, Some(block), make);
            && |r.sent| <= 1
            && (Known(n.forest.order, block.prev) ==> block in r.node.forest.order)
            && (forall b :: b in r.node.forest.order ==> b in n.forest.order || b == block || r.sent == [b])
  {
    HandleBlockAdds(universe, n, Some(block), make);
    assert Known(n.forest.order, block.prev) ==> block in Brought(n, Some(block));
  }

  lemma SentInOrder(m: Member, r: Reaction, msg: Message, newGuid: Guid)
    requires |r.sent| <= 1
    ensures var handled := BroadcastNew(m.(node := r.node), r.sent, newGuid);
            && handled.sent == m.sent + (if r.sent == [] then [] else [Message(newGuid, r.sent[0])])
            && handled.node == r.node && Broadcast(handled, msg).node == r.node
  {
    assert m.sent + [] == m.sent;
  }

  /** A submitted transaction is pending at the member it was submitted to, and nothing else changes. */
  lemma SubmittedIsPending(m: Member, t: Transaction)
    ensures var m' := Submit(m, t);
            && HasTransaction(m'.node.pool, t.hash) && m.node.pool <= m'.node.pool
            && m' == m.(node := m.node.(pool := m'.node.pool))
            && forall u :: u in m'.node.pool ==> u in m.node.pool || u == t
  {
    if !HasTransaction(m.node.pool, t.hash) {
      assert t in Submit(m, t).node.pool;
    }
  }

  /** The node half of a receipt: exactly the incoming block and the created one are learnt. */
  lemma ReceiveLearns(universe: iset<Block>, base: iset<Block>, m: Member, block: Block, make: Maker)
    requires MemberInv(universe, base, m) && HashInjective(universe)
    requires BlockCall(universe, m.node, Some(block), make)
    requires block in universe && Known(m.node.forest.order, block.prev)
    requires block.creator == m.node.key ==> block in m.node.forest.order
    ensures var r := HandleBlock(m.node, Some(block), make);
            && Sound(r.node) && r.node.key == m.node.key && |r.sent| <= 1
            && (forall b :: b in r.node.forest.order <==> b in m.node.forest.order || b == block || b in r.sent)
            && (forall b :: b in r.sent ==>
                  b in universe && b.creator == m.node.key && Known(m.node.forest.order, b.prev))
  {
    HandleBlockAdds(universe, m.node, Some(block), make);
    HandleBlockIsSound(m.node, Some(block), make);
    assert Brought(m.node, Some(block)) == iset{block};
  }

  /** The sending half: the created block first, then the message itself. */
  lemma ReceiveSends(base: iset<Block>, m: Member, blocks: seq<Block>, msg: Message, newGuid: Guid)
    requires LogInv(base, m) && |blocks| <= 1
    requires forall b :: b in blocks ==> Available(base, m.sent, b.prev)
    requires Available(base, m.sent, msg.block.prev)
    requires msg.guid != newGuid && !HasGuid(m.sent, newGuid) && msg.guid != GUID_NULL && newGuid != GUID_NULL
    ensures var m' := Broadcast(BroadcastNew(m, blocks, newGuid), msg);
            && LogInv(base, m') && msg in m'.sent
            && OnlyNew(m.sent, m'.sent, Some(msg), newGuid)
            && (forall b :: Carries(m'.sent, b) <==> Carries(m.sent, b) || b in blocks || b == msg.block)
  {
    var handled := BroadcastNew(m, blocks, newGuid);
    BroadcastNewKeepsLog(base, m, blocks, newGuid);
    NewMessages(m.sent, m, blocks, newGuid);
    assert Available(base, handled.sent, msg.block.prev);
    BroadcastKeepsLog(base, handled, msg);
    RelayedIsNew(m.sent, handled.sent, msg, newGuid);
  }

  lemma RelayedIsNew(sent: seq<Message>, sent': seq<Message>, msg: Message, newGuid: Guid)
    requires OnlyNew(sent, sent', None, newGuid) && msg.guid != newGuid
    ensures OnlyNew(sent, sent' + [msg], Some(msg), newGuid) && msg in sent' + [msg]
  {
  }

  /** The freshly seen message finds its parent known, so the block is accepted and sent on. */
  lemma ReceiveStep(universe: iset<Block>, base: iset<Block>, m: Member, msg: Message, make: Maker, newGuid: Guid)
    requires MemberInv(universe, base, m) && HashInjective(universe)
    requires BlockCall(universe, m.node, Some(msg.block), make)
    requires msg.block in universe && Known(m.node.forest.order, msg.block.prev)
    requires msg.block.creator == m.node.key ==> msg.block in m.node.forest.order
    requires msg.guid != newGuid && !HasGuid(m.sent, newGuid) && msg.guid != GUID_NULL && newGuid != GUID_NULL
    requires msg.guid !in m.history
    ensures MemberStep(universe, base, m, Receive(m, msg, make, newGuid), Some(msg), newGuid)
    ensures Absorbed(Receive(m, msg, make, newGuid), msg)
  {
    var r := HandleBlock(m.node, Some(msg.block), make);
    ReceiveLearns(universe, base, m, msg.block, make);
    ReceiveSends(base, m.(node := r.node), r.sent, msg, newGuid);
    assert SendsWhatItKnows(base, r.node.forest.order, Receive(m, msg, make, newGuid).sent);
  }

  lemma TickStep(universe: iset<Block>, base: iset<Block>, m: Member, make: Maker, newGuid: Guid)
    requires MemberInv(universe, base, m) && HashInjective(universe)
    requires TimerCall(universe, m.node, make) && !HasGuid(m.sent, newGuid) && newGuid != GUID_NULL
    ensures MemberStep(universe, base, m, Tick(m, make, newGuid), None, newGuid)
  {
    var r := HandleTimer(m.node, make);
    HandleTimerAdds(universe, m.node, make);
    HandleTimerIsSound(m.node, make);
    var a := m.(node := r.node);
    BroadcastNewKeepsLog(base, a, r.sent, newGuid);
    NewMessages(m.sent, a, r.sent, newGuid);
    assert SendsWhatItKnows(base, r.node.forest.order, Tick(m, make, newGuid).sent);
  }

  lemma SubmitStep(universe: iset<Block>, base: iset<Block>, m: Member, t: Transaction, newGuid: Guid)
    requires MemberInv(universe, base, m) && !HasGuid(m.sent, newGuid)
    ensures MemberStep(universe, base, m, Submit(m, t), None, newGuid)
  {
  }

  // ---------- the whole network ----------

  lemma GuidStays(sent: seq<Message>, sent': seq<Message>, guid: Guid)
    requires sent <= sent' && HasGuid(sent, guid)
    ensures HasGuid(sent', guid)
  {
    var x :| x in sent && x.guid == guid;
    assert x in sent';
  }

  /** The pairs that a step at m touches, with `origin` the member the incoming message came from. */
  lemma PairsAfter(universe: iset<Block>, base: iset<Block>, m: Member, m': Member, incoming: Option<Message>,
                   newGuid: Guid, origin: Member, other: Member)
    requires MemberStep(universe, base, m, m', incoming, newGuid)
    requires MemberInv(universe, base, origin) && (incoming.Some? ==> incoming.value in origin.sent)
    requires PairInv(m, other) && PairInv(other, m) && PairInv(origin, other) && m.node.key != other.node.key
    requires !HasGuid(other.sent, newGuid)
    ensures PairInv(m', other) && PairInv(other, m')
  {
    if incoming.Some? {
      assert Carries(origin.sent, incoming.value.block);
    }
  }

  lemma SelfPairAfter(universe: iset<Block>, base: iset<Block>, m: Member, m': Member, incoming: Option<Message>,
                      newGuid: Guid, origin: Member)
    requires MemberStep(universe, base, m, m', incoming, newGuid)
    requires incoming.Some? ==> incoming.value in origin.sent
    requires PairInv(m, m) && PairInv(origin, m)
    requires !HasGuid(origin.sent, newGuid) && !HasGuid(m.sent, newGuid)
    ensures PairInv(m', m')
  {
  }

  lemma LinkFrom(a: Member, a': Member, b: Member, taken: nat)
    requires LinkInv(a, b, taken) && a.sent <= a'.sent
    ensures LinkInv(a', b, taken)
  {
    assert a'.sent[..taken] == a.sent[..taken];
  }

  lemma LinkTo(a: Member, b: Member, b': Member, taken: nat)
    requires LinkInv(a, b, taken) && b.sent <= b'.sent
    requires forall x :: x in b.node.forest.order ==> x in b'.node.forest.order
    ensures LinkInv(a, b', taken)
  {
    forall x | x in a.sent[..taken]
      ensures HasGuid(b'.sent, x.guid)
    {
      GuidStays(b.sent, b'.sent, x.guid);
    }
  }

  lemma LinkAdvances(a: Member, b: Member, taken: nat)
    requires LinkInv(a, b, taken) && taken < |a.sent|
    requires a.sent[taken].block in b.node.forest.order && HasGuid(b.sent, a.sent[taken].guid)
    ensures LinkInv(a, b, taken + 1)
  {
    assert a.sent[..taken + 1] == a.sent[..taken] + [a.sent[taken]];
  }

  lemma PairsWith(universe: iset<Block>, base: iset<Block>, s: Net, i: nat, m': Member, incoming: Option<Message>,
                  newGuid: Guid, origin: nat, j: nat)
    requires MembersInv(universe, base, s.members) && PairsInv(s.members) && DistinctKeys(s.members)
    requires i < |s.members| && origin < |s.members| && j < |s.members| && j != i && Unused(s, newGuid)
    requires MemberStep(universe, base, s.members[i], m', incoming, newGuid)
    requires incoming.Some? ==> incoming.value in s.members[origin].sent
    ensures PairInv(m', s.members[j]) && PairInv(s.members[j], m')
  {
    var m, o, other := s.members[i], s.members[origin], s.members[j];
    assert PairInv(m, other) && PairInv(other, m) && PairInv(o, other) && MemberInv(universe, base, o);
    PairsAfter(universe, base, m, m', incoming, newGuid, o, other);
  }

  lemma PairsReplaced(members: seq<Member>, i: nat, m': Member)
    requires i < |members| && PairsInv(members) && PairInv(m', m')
    requires forall j :: 0 <= j < |members| && j != i ==> PairInv(m', members[j]) && PairInv(members[j], m')
    ensures PairsInv(members[i := m'])
  {
  }

  lemma PairsKept(universe: iset<Block>, base: iset<Block>, s: Net, i: nat, m': Member, incoming: Option<Message>,
                  newGuid: Guid, origin: nat)
    requires MembersInv(universe, base, s.members) && PairsInv(s.members) && DistinctKeys(s.members)
    requires i < |s.members| && origin < |s.members| && Unused(s, newGuid)
    requires MemberStep(universe, base, s.members[i], m', incoming, newGuid)
    requires incoming.Some? ==> incoming.value in s.members[origin].sent
    ensures PairsInv(s.members[i := m'])
  {
    var m, o := s.members[i], s.members[origin];
    assert PairInv(m, m) && PairInv(o, m);
    SelfPairAfter(universe, base, m, m', incoming, newGuid, o);
    forall j | 0 <= j < |s.members| && j != i
      ensures PairInv(m', s.members[j]) && PairInv(s.members[j], m')
    {
      PairsWith(universe, base, s, i, m', incoming, newGuid, origin, j);
    }
    PairsReplaced(s.members, i, m');
  }

  lemma ChannelsKept(members: seq<Member>, channels: seq<Channel>, i: nat, m': Member)
    requires ChannelsInv(members, channels) && i < |members| && members[i].sent <= m'.sent
    requires forall x :: x in members[i].node.forest.order ==> x in m'.node.forest.order
    ensures ChannelsInv(members[i := m'], channels)
  {
    var ms := members[i := m'];
    forall k | 0 <= k < |channels|
      ensures ChannelInv(ms, channels[k])
    {
      var c := channels[k];
      assert ChannelInv(members, c);
      if c.from == i {
        LinkFrom(members[i], m', ms[c.to], c.taken);
      } else if c.to == i {
        LinkTo(ms[c.from], members[i], m', c.taken);
      }
    }
  }

  /** A member may take a step whenever its links are left as they are. */
  lemma StepKeepsInv(universe: iset<Block>, base: iset<Block>, s: Net, i: nat, m': Member, incoming: Option<Message>,
                     newGuid: Guid, origin: nat)
    requires Inv(universe, base, s) && i < |s.members| && origin < |s.members| && Unused(s, newGuid)
    requires MemberStep(universe, base, s.members[i], m', incoming, newGuid)
    requires incoming.Some? ==> incoming.value in s.members[origin].sent
    ensures Inv(universe, base, s.(members := s.members[i := m']))
  {
    PairsKept(universe, base, s, i, m', incoming, newGuid, origin);
    ChannelsKept(s.members, s.channels, i, m');
  }

  /** No member ever handles a block before its parent: whatever is next on a channel builds on a known block. */
  lemma NextIsNeverAnOrphan(universe: iset<Block>, base: iset<Block>, s: Net, k: nat)
    requires Inv(universe, base, s) && CanDeliver(s, k)
    ensures Known(Receiver(s, k).node.forest.order, Head(s, k).block.prev)
  {
    assert ChannelInv(s.members, s.channels[k]);
    assert MemberInv(universe, base, Sender(s, k));
    assert MemberInv(universe, base, Receiver(s, k));
    ParentSentBefore(base, Sender(s, k).sent, s.channels[k].taken);
  }

  lemma {:induction false} ParentSentBefore(base: iset<Block>, sent: seq<Message>, k: nat)
    requires CausalOrder(base, sent) && k < |sent|
    ensures Available(base, sent[..k], sent[k].block.prev)
  {
    if k + 1 < |sent| {
      ParentSentBefore(base, sent[..|sent| - 1], k);
      assert sent[..|sent| - 1][..k] == sent[..k];
    }
  }

  lemma NewMessageIsAbsorbed(universe: iset<Block>, base: iset<Block>, s: Net, k: nat, make: Maker, newGuid: Guid)
    requires Inv(universe, base, s) && Enabled(universe, s, Delivered(k, make, newGuid))
    requires Head(s, k).guid !in Receiver(s, k).history
    ensures var m' := Receive(Receiver(s, k), Head(s, k), make, newGuid);
            MemberStep(universe, base, Receiver(s, k), m', Some(Head(s, k)), newGuid) && Absorbed(m', Head(s, k))
  {
    var a, b, msg := Sender(s, k), Receiver(s, k), Head(s, k);
    assert PairInv(a, b) && MemberInv(universe, base, a) && MemberInv(universe, base, b);
    assert Carries(a.sent, msg.block);
    NextIsNeverAnOrphan(universe, base, s, k);
    ReceiveStep(universe, base, b, msg, make, newGuid);
  }

  lemma SeenMessageIsAbsorbed(universe: iset<Block>, base: iset<Block>, s: Net, k: nat, make: Maker, newGuid: Guid)
    requires Inv(universe, base, s) && CanDeliver(s, k)
    requires Head(s, k).guid in Receiver(s, k).history
    ensures Receive(Receiver(s, k), Head(s, k), make, newGuid) == Receiver(s, k)
    ensures Absorbed(Receiver(s, k), Head(s, k))
  {
    assert PairInv(Sender(s, k), Receiver(s, k)) && MemberInv(universe, base, Receiver(s, k));
    SeenBlockIsKnown(universe, base, Sender(s, k), Receiver(s, k), Head(s, k));
  }

  lemma ReplacedByItself(members: seq<Member>, i: nat)
    requires i < |members|
    ensures members[i := members[i]] == members
  {
  }

  /** Delivery absorbs the message, whether it is new or was seen before. */
  lemma DeliveryAtReceiver(universe: iset<Block>, base: iset<Block>, s: Net, k: nat, make: Maker, newGuid: Guid)
    returns (m': Member)
    requires Inv(universe, base, s) && Enabled(universe, s, Delivered(k, make, newGuid))
    ensures m' == Receive(Receiver(s, k), Head(s, k), make, newGuid)
    ensures Inv(universe, base, s.(members := s.members[s.channels[k].to := m'])) && Absorbed(m', Head(s, k))
  {
    m' := Receive(Receiver(s, k), Head(s, k), make, newGuid);
    if Head(s, k).guid in Receiver(s, k).history {
      SeenMessageIsAbsorbed(universe, base, s, k, make, newGuid);
      ReplacedByItself(s.members, s.channels[k].to);
    } else {
      NewMessageIsAbsorbed(universe, base, s, k, make, newGuid);
      StepKeepsInv(universe, base, s, s.channels[k].to, m', Some(Head(s, k)), newGuid, s.channels[k].from);
    }
  }

  lemma DeliveryKeepsInv(universe: iset<Block>, base: iset<Block>, s: Net, k: nat, make: Maker, newGuid: Guid)
    requires Inv(universe, base, s) && Enabled(universe, s, Delivered(k, make, newGuid))
    ensures Inv(universe, base, Next(s, Delivered(k, make, newGuid)))
  {
    var m' := DeliveryAtReceiver(universe, base, s, k, make, newGuid);
    assert ChannelInv(s.members, s.channels[k]);
    TakenAdvances(s.members[s.channels[k].to := m'], s.channels, k);
  }

  lemma TakenAdvances(members: seq<Member>, channels: seq<Channel>, k: nat)
    requires ChannelsInv(members, channels) && k < |channels|
    requires var c := channels[k];
             && ChannelInv(members, c) && c.taken < |members[c.from].sent|
             && Absorbed(members[c.to], members[c.from].sent[c.taken])
    ensures ChannelsInv(members, channels[k := Advance(channels[k])])
  {
    var c := channels[k];
    LinkAdvances(members[c.from], members[c.to], c.taken);
  }

  lemma SeenBlockIsKnown(universe: iset<Block>, base: iset<Block>, a: Member, b: Member, msg: Message)
    requires MemberInv(universe, base, b) && PairInv(a, b) && msg in a.sent && msg.guid in b.history
    ensures msg.block in b.node.forest.order && HasGuid(b.sent, msg.guid)
  {
    GuidsOfSent(b.sent, msg.guid);
    var x :| x in b.sent && x.guid == msg.guid;
    assert Carries(b.sent, x.block);
  }

  lemma EventKeepsInv(universe: iset<Block>, base: iset<Block>, s: Net, e: NetEvent)
    requires Inv(universe, base, s) && Enabled(universe, s, e)
    ensures Inv(universe, base, Next(s, e))
  {
    match e
    case Delivered(k, make, newGuid) =>
      DeliveryKeepsInv(universe, base, s, k, make, newGuid);
    case TimerFired(at, make, newGuid) =>
      TickStep(universe, base, s.members[at], make, newGuid);
      StepKeepsInv(universe, base, s, at, Tick(s.members[at], make, newGuid), None, newGuid, at);
    case Submitted(at, txn) =>
      var newGuid := UnusedGuid(s);
      SubmitStep(universe, base, s.members[at], txn, newGuid);
      StepKeepsInv(universe, base, s, at, Submit(s.members[at], txn), None, newGuid, at);
  }

  lemma UnusedGuid(s: Net) returns (guid: Guid)
    ensures Unused(s, guid)
  {
    guid := 1;
    for i := 0 to |s.members|
      invariant guid > 0
      invariant forall j, m :: 0 <= j < i && m in s.members[j].sent ==> m.guid < guid
    {
      var sent := s.members[i].sent;
      for k := 0 to |sent|
        invariant guid > 0
        invariant forall j, m :: 0 <= j < i && m in s.members[j].sent ==> m.guid < guid
        invariant forall m :: m in sent[..k] ==> m.guid < guid
      {
        assert sent[..k + 1] == sent[..k] + [sent[k]];
        guid := if sent[k].guid < guid then guid else sent[k].guid + 1;
      }
      assert sent[..|sent|] == sent;
    }
  }

  lemma InitialInv(universe: iset<Block>, s: Net)
    requires Initial(universe, s) && HashInjective(universe)
    ensures Inv(universe, Base(s), s)
  {
    forall i | 0 <= i < |s.members|
      ensures MemberInv(universe, Base(s), s.members[i])
    {
      assert InitialMember(universe, Base(s), s.members[i]);
    }
    forall i, j | 0 <= i < |s.members| && 0 <= j < |s.members|
      ensures PairInv(s.members[i], s.members[j])
    {
      assert InitialMember(universe, Base(s), s.members[i]) && InitialMember(universe, Base(s), s.members[j]);
    }
    forall k | 0 <= k < |s.channels|
      ensures ChannelInv(s.members, s.channels[k])
    {
      assert s.channels[k] in s.channels;
    }
  }

  lemma {:induction false} ReachedKeepsInv(universe: iset<Block>, start: Net, events: seq<NetEvent>, s: Net)
    requires HashInjective(universe) && Reached(universe, start, events, s)
    ensures Inv(universe, Base(start), s)
    decreases |events|
  {
    if events == [] {
      InitialInv(universe, s);
    } else {
      var n := |events| - 1;
      var before :|
        && Reached(universe, start, events[..n], before) && Enabled(universe, before, events[n])
        && s == Next(before, events[n]);
      ReachedKeepsInv(universe, start, events[..n], before);
      EventKeepsInv(universe, Base(start), before, events[n]);
    }
  }

  // ---------- convergence ----------

  ghost predicate Quiescent(s: Net) {
    forall k :: 0 <= k < |s.channels| ==> !CanDeliver(s, k)
  }

  ghost predicate Linked(s: Net, i: nat, j: nat) {
    exists k :: 0 <= k < |s.channels| && s.channels[k].from == i && s.channels[k].to == j
  }

  /** Consecutive members of the path are linked. */
  ghost predicate IsPath(s: Net, path: seq<nat>) {
    && path != []
    && (forall k :: 0 <= k < |path| ==> path[k] < |s.members|)
    && (forall k :: 0 <= k < |path| - 1 ==> Linked(s, path[k], path[k + 1]))
  }

  ghost predicate Reaches(s: Net, i: nat, j: nat) {
    exists path :: IsPath(s, path) && path[0] == i && path[|path| - 1] == j
  }

  ghost predicate Connected(s: Net) {
    forall i, j :: 0 <= i < |s.members| && 0 <= j < |s.members| ==> Reaches(s, i, j)
  }

  /** Everything b knows and has sent includes everything a does. */
  ghost predicate Covers(b: Member, a: Member) {
    && (forall x :: x in a.node.forest.order ==> x in b.node.forest.order)
    && (forall guid :: HasGuid(a.sent, guid) ==> HasGuid(b.sent, guid))
  }

  lemma DrainedLinkCovers(universe: iset<Block>, base: iset<Block>, a: Member, b: Member)
    requires MemberInv(universe, base, a) && MemberInv(universe, base, b) && LinkInv(a, b, |a.sent|)
    ensures Covers(b, a)
  {
    assert a.sent[..|a.sent|] == a.sent;
  }

  lemma {:induction false} SpreadsAlong(universe: iset<Block>, base: iset<Block>, s: Net, path: seq<nat>)
    requires MembersInv(universe, base, s.members) && ChannelsInv(s.members, s.channels)
    requires Quiescent(s) && IsPath(s, path)
    ensures Covers(s.members[path[|path| - 1]], s.members[path[0]])
  {
    if |path| > 1 {
      assert Linked(s, path[0], path[1]);
      var k :| 0 <= k < |s.channels| && s.channels[k].from == path[0] && s.channels[k].to == path[1];
      assert ChannelInv(s.members, s.channels[k]) && !CanDeliver(s, k);
      DrainedLinkCovers(universe, base, s.members[path[0]], s.members[path[1]]);
      PathTail(s, path);
      SpreadsAlong(universe, base, s, path[1..]);
    }
  }

  lemma PathTail(s: Net, path: seq<nat>)
    requires IsPath(s, path) && |path| > 1
    ensures IsPath(s, path[1..])
  {
    forall k | 0 <= k < |path| - 2
      ensures Linked(s, path[1..][k], path[1..][k + 1])
    {
      assert Linked(s, path[k + 1], path[k + 1 + 1]);
    }
  }

  /** Coverage: with nothing in flight, whatever one member sent has been sent by every member it reaches. */
  lemma GossipCoverage(universe: iset<Block>, start: Net, events: seq<NetEvent>, s: Net, i: nat, j: nat, guid: Guid)
    requires HashInjective(universe) && Reached(universe, start, events, s) && Quiescent(s)
    requires i < |s.members| && j < |s.members| && Reaches(s, i, j)
    requires HasGuid(s.members[i].sent, guid)
    ensures HasGuid(s.members[j].sent, guid)
  {
    ReachedKeepsInv(universe, start, events, s);
    var path :| IsPath(s, path) && path[0] == i && path[|path| - 1] == j;
    SpreadsAlong(universe, Base(start), s, path);
  }

  /**
   With nothing in flight on a connected network all members have the same blocks, and the same
   principal unless a block of its branch ties with a sibling.
   */
  lemma QuiescentMembersAgree(universe: iset<Block>, base: iset<Block>, s: Net, i: nat, j: nat)
    requires Inv(universe, base, s) && Quiescent(s) && Connected(s)
    requires i < |s.members| && j < |s.members|
    ensures var a, b := s.members[i].node.forest, s.members[j].node.forest;
            && Consistent(a) && Consistent(b)
            && (forall x :: x in a.order <==> x in b.order)
            && (forall x :: x in a.order ==> x in universe)
            && (NoTies(a.order, a.principal) ==> a.principal == b.principal)
  {
    assert Reaches(s, i, j) && Reaches(s, j, i);
    var there :| IsPath(s, there) && there[0] == i && there[|there| - 1] == j;
    var back :| IsPath(s, back) && back[0] == j && back[|back| - 1] == i;
    SpreadsAlong(universe, base, s, there);
    SpreadsAlong(universe, base, s, back);
    var a, b := s.members[i], s.members[j];
    assert MemberInv(universe, base, a) && MemberInv(universe, base, b);
    if NoTies(a.node.forest.order, a.node.forest.principal) {
      SameUnlessTied(a.node.forest, b.node.forest);
    }
  }

  /** So it is at the end of every run from a common base. */
  lemma Agreement(universe: iset<Block>, start: Net, events: seq<NetEvent>, s: Net, i: nat, j: nat)
    requires HashInjective(universe)
    requires Reached(universe, start, events, s) && Quiescent(s) && Connected(s)
    requires i < |s.members| && j < |s.members|
    ensures var a, b := s.members[i].node.forest, s.members[j].node.forest;
            && Consistent(a) && Consistent(b)
            && (forall x :: x in a.order <==> x in b.order)
            && (forall x :: x in a.order ==> x in universe)
            && (NoTies(a.order, a.principal) ==> a.principal == b.principal)
  {
    ReachedKeepsInv(universe, start, events, s);
    QuiescentMembersAgree(universe, Base(start), s, i, j);
  }

  /** Where siblings always differ in priority, all members end with the same blocks and the same principal. */
  lemma Convergence(universe: iset<Block>, start: Net, events: seq<NetEvent>, s: Net, i: nat, j: nat)
    requires HashInjective(universe) && DistinctSiblings(universe)
    requires Reached(universe, start, events, s) && Quiescent(s) && Connected(s)
    requires i < |s.members| && j < |s.members|
    ensures forall b :: b in s.members[i].node.forest.order <==> b in s.members[j].node.forest.order
    ensures s.members[i].node.forest.principal == s.members[j].node.forest.principal
  {
    Agreement(universe, start, events, s, i, j);
    SameBlocksSamePrincipal(s.members[i].node.forest, s.members[j].node.forest);
  }

  /** No member, and nobody it shares its blocks with, ever sees two blocks by one key on one parent. */
  lemma NoEquivocationAnywhere(universe: iset<Block>, start: Net, events: seq<NetEvent>, s: Net, i: nat, j: nat,
                               b: Block, c: Block)
    requires HashInjective(universe) && Reached(universe, start, events, s)
    requires i < |s.members| && j < |s.members|
    requires b in s.members[i].node.forest.order && c in s.members[i].node.forest.order
    requires b.creator == s.members[j].node.key == c.creator && b.prev == c.prev && b.prev.At?
    ensures b == c
  {
    ReachedKeepsInv(universe, start, events, s);
    assert PairInv(s.members[i], s.members[j]) && MemberInv(universe, Base(start), s.members[j]);
    assert OwnChild(s.members[j].node, b) && OwnChild(s.members[j].node, c);
  }

  // ---------- how a network can start ----------

  /**
   Two nodes that have just made their first blocks, ask each other for their chains and process the answers
   have a common base: both roots, and nothing created on the way.
   */
  lemma NewcomersShareABase(k: Key, l: Key, g: Block, h: Block, makeK: Maker, makeL: Maker)
    requires k != l && g.prev == Null == h.prev && g.hash != h.hash
    requires g.creator == k && h.creator == l
    ensures var a, b := AddBlock(Node(k, EMPTY, []), g), AddBlock(Node(l, EMPTY, []), h);
            && Resolves(b.forest.order, HashOf(a.forest.principal), Null)
            && Resolves(a.forest.order, HashOf(b.forest.principal), Null)
            && var ra := HandleResponse(a, Incoming(Answer(b.forest.principal, Null), iset{h}), makeK);
               var rb := HandleResponse(b, Incoming(Answer(a.forest.principal, Null), iset{g}), makeL);
               && ra.sent == [] == rb.sent
               && Initial(iset{g, h}, Net([Member(ra.node, [], []), Member(rb.node, [], [])],
                                          [Channel(0, 1, 0), Channel(1, 0, 0)]))
  {
    Newcomer(k, g, h, makeK);
    Newcomer(l, h, g, makeL);
    var a, b := AddBlock(Node(k, EMPTY, []), g), AddBlock(Node(l, EMPTY, []), h);
    TwoCanStart(AddBlock(a, h), AddBlock(b, g), g, h);
  }

  lemma Newcomer(k: Key, g: Block, h: Block, make: Maker)
    requires g.prev == Null == h.prev && g.hash != h.hash && g.creator == k && h.creator != k
    ensures var a := AddBlock(Node(k, EMPTY, []), g);
            && a.forest == State([g], At(g)) && Resolves(a.forest.order, h.hash, Null)
            && HandleResponse(a, Incoming(Answer(At(h), Null), iset{h}), make) == Reaction(AddBlock(a, h), [])
            && Sound(AddBlock(a, h)) && AddBlock(a, h).forest.order == [g, h] && AddBlock(a, h).key == k
  {
    var a := AddBlock(Node(k, EMPTY, []), g);
    StartIsSound(k, g);
    assert a.forest.order == [g];
    OneAnswer(a, h, make);
    AddBlockIsSound(a, h);
  }

  lemma TwoCanStart(a: Node, b: Node, g: Block, h: Block)
    requires Sound(a) && Sound(b) && a.key != b.key
    requires a.forest.order == [g, h] && b.forest.order == [h, g]
    ensures Initial(iset{g, h}, Net([Member(a, [], []), Member(b, [], [])], [Channel(0, 1, 0), Channel(1, 0, 0)]))
  {
    var s := Net([Member(a, [], []), Member(b, [], [])], [Channel(0, 1, 0), Channel(1, 0, 0)]);
    assert Base(s) == iset{g, h};
  }

  lemma OneAnswer(n: Node, root: Block, make: Maker)
    requires root.prev == Null && !HasHash(n.forest.order, root.hash)
    ensures HandleResponse(n, Incoming(Answer(At(root), Null), iset{root}), make) == Reaction(AddBlock(n, root), [])
  {
    assert Answer(At(root), Null) == [root];
    var msgs := Incoming([root], iset{root});
    assert msgs == [Some(root)] + Incoming([], iset{root});
    assert msgs[1..] == [];
    assert HandleResponse(n, [], make) == Reaction(n, []);
  }
}
