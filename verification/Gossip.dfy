/**
 How often a message is handled, and that gossip ends. Both hold while no guid has been pushed out
 of a history of MESSAGE_HISTORY_SIZE entries, and fail beyond.
 */
module Gossip {
  import opened Options
  import opened Blocks
  import opened ForkChoice
  import opened Nodes
  import opened Network

  ghost predicate NoRepeats(guids: seq<Guid>) {
    forall i, j :: 0 <= i < j < |guids| ==> guids[i] != guids[j]
  }

  /** Everything the member ever handled or originated still fits in its history. */
  predicate NothingEvicted(m: Member) {
    |m.sent| <= MESSAGE_HISTORY_SIZE
  }

  /** A guid is in the log once for being originated here or handled here, so never both or twice. */
  ghost predicate Unrepeated(m: Member) {
    NoRepeats(Guids(m.sent))
  }

  ghost predicate HandledOnce(m: Member) {
    NothingEvicted(m) ==> Unrepeated(m)
  }

  lemma BroadcastOnce(m: Member, msg: Message)
    requires Unrepeated(m) && !HasGuid(m.sent, msg.guid)
    ensures Unrepeated(Broadcast(m, msg))
  {
    GuidsOfGrown(m.sent, msg);
    GuidsOfSent(m.sent, msg.guid);
  }

  lemma BroadcastNewOnce(m: Member, blocks: seq<Block>, newGuid: Guid)
    requires Unrepeated(m) && !HasGuid(m.sent, newGuid)
    ensures var m' := BroadcastNew(m, blocks, newGuid);
            && Unrepeated(m') && |m'.sent| >= |m.sent|
            && (forall guid :: HasGuid(m'.sent, guid) ==> HasGuid(m.sent, guid) || guid == newGuid)
  {
    if blocks != [] {
      BroadcastOnce(m, Message(newGuid, blocks[0]));
    }
  }

  lemma ReceiveOnce(m: Member, msg: Message, make: Maker, newGuid: Guid)
    requires Unrepeated(m) && NothingEvicted(m) && m.history == Window(Guids(m.sent))
    requires msg.guid != newGuid && !HasGuid(m.sent, newGuid)
    ensures Unrepeated(Receive(m, msg, make, newGuid))
  {
    GuidsOfSent(m.sent, msg.guid);
    var r := HandleBlock(m.node, Some(msg.block), make);
    BroadcastNewOnce(m.(node := r.node), r.sent, newGuid);
    if msg.guid != GUID_NULL && msg.guid !in m.history {
      BroadcastOnce(BroadcastNew(m.(node := r.node), r.sent, newGuid), msg);
    }
  }

  ghost predicate AllUnrepeated(s: Net) {
    forall i :: 0 <= i < |s.members| ==> Unrepeated(s.members[i])
  }

  ghost predicate AllHandledOnce(s: Net) {
    forall i :: 0 <= i < |s.members| ==> HandledOnce(s.members[i])
  }

  ghost predicate NothingEvictedAnywhere(s: Net) {
    forall i :: 0 <= i < |s.members| ==> NothingEvicted(s.members[i])
  }

  /** The member at which the event happens. */
  function Where(s: Net, e: NetEvent): nat
    requires e.Delivered? ==> e.k < |s.channels|
  {
    if e.Delivered? then s.channels[e.k].to else e.at
  }

  lemma EventAtOneMember(universe: iset<Block>, s: Net, e: NetEvent)
    requires Enabled(universe, s, e)
    ensures var s', i := Next(s, e), Where(s, e);
            && i < |s.members| && s'.members == s.members[i := s'.members[i]] && |s'.channels| == |s.channels|
            && s.members[i].sent <= s'.members[i].sent
  {
  }

  lemma EventRepeatsNothing(universe: iset<Block>, base: iset<Block>, s: Net, e: NetEvent)
    requires Inv(universe, base, s) && Enabled(universe, s, e)
    requires var m := s.members[Where(s, e)]; NothingEvicted(m) && Unrepeated(m)
    ensures Unrepeated(Next(s, e).members[Where(s, e)])
  {
    var i := Where(s, e);
    var m := s.members[i];
    assert MemberInv(universe, base, m);
    match e
    case Delivered(k, make, newGuid) =>
      assert Head(s, k) in Sender(s, k).sent;
      ReceiveOnce(m, Head(s, k), make, newGuid);
    case TimerFired(at, make, newGuid) =>
      var r := HandleTimer(m.node, make);
      BroadcastNewOnce(m.(node := r.node), r.sent, newGuid);
    case Submitted(at, txn) =>
  }

  lemma EventHandlesOnce(universe: iset<Block>, base: iset<Block>, s: Net, e: NetEvent)
    requires Inv(universe, base, s) && Enabled(universe, s, e) && AllHandledOnce(s)
    ensures AllHandledOnce(Next(s, e))
  {
    EventAtOneMember(universe, s, e);
    if NothingEvicted(Next(s, e).members[Where(s, e)]) {
      EventRepeatsNothing(universe, base, s, e);
    }
  }

  /** Exactly once: no member handles a guid twice, or one it originated, while its log fits its history. */
  lemma {:induction false} EveryGuidHandledOnce(universe: iset<Block>, start: Net, events: seq<NetEvent>, s: Net)
    requires HashInjective(universe) && Reached(universe, start, events, s)
    ensures AllHandledOnce(s)
    decreases |events|
  {
    if events == [] {
      forall i | 0 <= i < |s.members|
        ensures HandledOnce(s.members[i])
      {
        assert InitialMember(universe, Base(s), s.members[i]);
      }
    } else {
      var n := |events| - 1;
      var before :|
        && Reached(universe, start, events[..n], before) && Enabled(universe, before, events[n])
        && s == Next(before, events[n]);
      EveryGuidHandledOnce(universe, start, events[..n], before);
      ReachedKeepsInv(universe, start, events[..n], before);
      EventHandlesOnce(universe, Base(start), before, events[n]);
    }
  }

  // ---------- how many guids there are ----------

  /** Every guid that was ever broadcast. */
  ghost function Originated(s: Net): set<Guid> {
    set i, m | 0 <= i < |s.members| && m in s.members[i].sent :: m.guid
  }

  lemma {:induction false} DistinctFit(guids: seq<Guid>, all: set<Guid>)
    requires NoRepeats(guids) && forall guid :: guid in guids ==> guid in all
    ensures |guids| <= |all|
  {
    if guids != [] {
      var n := |guids| - 1;
      DistinctFit(guids[..n], all - {guids[n]});
    }
  }

  lemma LogFits(s: Net, i: nat)
    requires i < |s.members| && Unrepeated(s.members[i])
    ensures |s.members[i].sent| <= |Originated(s)|
  {
    var m := s.members[i];
    forall guid | guid in Guids(m.sent)
      ensures guid in Originated(s)
    {
      GuidsOfSent(m.sent, guid);
    }
    DistinctFit(Guids(m.sent), Originated(s));
  }

  lemma SubsetIsSmaller<T>(a: set<T>, b: set<T>)
    requires a <= b
    ensures |a| <= |b|
  {
    assert a + (b - a) == b;
  }

  lemma OriginatedGrows(universe: iset<Block>, s: Net, e: NetEvent)
    requires Enabled(universe, s, e)
    ensures Originated(s) <= Originated(Next(s, e))
  {
    EventAtOneMember(universe, s, e);
    var s' := Next(s, e);
    forall guid | guid in Originated(s)
      ensures guid in Originated(s')
    {
      var i, m :| 0 <= i < |s.members| && m in s.members[i].sent && m.guid == guid;
      assert m in s'.members[i].sent;
    }
  }

  ghost predicate Tidy(s: Net) {
    AllUnrepeated(s) && NothingEvictedAnywhere(s)
  }

  /** One event keeps a network tidy in which no more guids than fit a history have been used. */
  lemma EventKeepsTidy(universe: iset<Block>, base: iset<Block>, s: Net, e: NetEvent)
    requires Inv(universe, base, s) && Enabled(universe, s, e) && Tidy(s)
    requires |Originated(Next(s, e))| <= MESSAGE_HISTORY_SIZE
    ensures Tidy(Next(s, e))
  {
    var s', i := Next(s, e), Where(s, e);
    EventAtOneMember(universe, s, e);
    EventRepeatsNothing(universe, base, s, e);
    LogFits(s', i);
    OthersStayTidy(s.members, i, s'.members);
  }

  lemma OthersStayTidy(members: seq<Member>, i: nat, after: seq<Member>)
    requires i < |members| == |after| && after == members[i := after[i]]
    requires Unrepeated(after[i]) && NothingEvicted(after[i])
    requires forall j :: 0 <= j < |members| ==> Unrepeated(members[j]) && NothingEvicted(members[j])
    ensures forall j :: 0 <= j < |after| ==> Unrepeated(after[j]) && NothingEvicted(after[j])
  {
  }

  /** As long as at most MESSAGE_HISTORY_SIZE guids were ever used, nothing is evicted or handled twice anywhere. */
  lemma {:induction false} FewGuidsFit(universe: iset<Block>, start: Net, events: seq<NetEvent>, s: Net)
    requires HashInjective(universe) && Reached(universe, start, events, s)
    requires |Originated(s)| <= MESSAGE_HISTORY_SIZE
    ensures Tidy(s)
    decreases |events|
  {
    if events == [] {
      forall i | 0 <= i < |s.members|
        ensures Unrepeated(s.members[i]) && NothingEvicted(s.members[i])
      {
        assert InitialMember(universe, Base(s), s.members[i]);
      }
    } else {
      var n := |events| - 1;
      var before :|
        && Reached(universe, start, events[..n], before) && Enabled(universe, before, events[n])
        && s == Next(before, events[n]);
      OriginatedGrows(universe, before, events[n]);
      SubsetIsSmaller(Originated(before), Originated(s));
      FewGuidsFit(universe, start, events[..n], before);
      ReachedKeepsInv(universe, start, events[..n], before);
      EventKeepsTidy(universe, Base(start), before, events[n]);
    }
  }

  // ---------- eviction ----------

  /** The position i is among the last that fit a history. */
  predicate Recent(guids: seq<Guid>, i: nat) {
    i < |guids| && |guids| - MESSAGE_HISTORY_SIZE <= i
  }

  ghost predicate RecentlyUsed(guids: seq<Guid>, guid: Guid) {
    exists i: nat :: Recent(guids, i) && guids[i] == guid
  }

  lemma WindowHoldsRecent(guids: seq<Guid>, guid: Guid)
    ensures guid in Window(guids) <==> RecentlyUsed(guids, guid)
  {
    var w := Window(guids);
    var d := |guids| - |w|;
    assert forall i :: 0 <= i < |w| ==> w[i] == guids[d + i];
    if guid in w {
      var j :| 0 <= j < |w| && w[j] == guid;
      assert Recent(guids, d + j);
    }
    if RecentlyUsed(guids, guid) {
      var i: nat :| Recent(guids, i) && guids[i] == guid;
      assert w[i - d] == guid;
    }
  }

  /**
   A message handled before is left alone exactly while its guid is among the last
   MESSAGE_HISTORY_SIZE; after that it is handled and relayed again.
   */
  lemma EvictedGuidIsHandledAgain(m: Member, msg: Message, make: Maker, newGuid: Guid)
    requires m.history == Window(Guids(m.sent)) && HasGuid(m.sent, msg.guid) && msg.guid != GUID_NULL
    ensures var m', guids := Receive(m, msg, make, newGuid), Guids(m.sent);
            && (m' == m <==> RecentlyUsed(guids, msg.guid))
            && (m' != m ==> |m'.sent| > |m.sent| && m'.sent[|m'.sent| - 1] == msg && !Unrepeated(m'))
  {
    WindowHoldsRecent(Guids(m.sent), msg.guid);
    if msg.guid !in m.history {
      var m' := Receive(m, msg, make, newGuid);
      GuidsOfSent(m.sent, msg.guid);
      var r := HandleBlock(m.node, Some(msg.block), make);
      var sent := BroadcastNew(m.(node := r.node), r.sent, newGuid).sent;
      GuidsOfGrown(sent, msg);
      assert m.sent <= sent;
      GuidsOfSent(sent, msg.guid);
      var x :| x in m.sent && x.guid == msg.guid;
      assert HasGuid(sent, msg.guid);
      var i :| 0 <= i < |Guids(sent)| && Guids(sent)[i] == msg.guid;
      assert Guids(m'.sent)[i] == Guids(m'.sent)[|sent|];
    }
  }

  function Numbered(b: Block, n: nat): (sent: seq<Message>)
    ensures |sent| == n
  {
    if n == 0 then [] else Numbered(b, n - 1) + [Message(n, b)]
  }

  lemma {:induction false} NumberedGuids(b: Block, n: nat)
    ensures forall i :: 0 <= i < n ==> Guids(Numbered(b, n))[i] == i + 1
  {
    if n > 0 {
      NumberedGuids(b, n - 1);
      GuidsOfGrown(Numbered(b, n - 1), Message(n, b));
    }
  }

  /** One message more than fits: the first of them, seen before and repeated nowhere, is relayed a second time. */
  lemma HandledTwice(key: Key, b: Block, make: Maker, newGuid: Guid)
    requires b.prev.Null?
    ensures var sent := Numbered(b, MESSAGE_HISTORY_SIZE + 1);
            var m := Member(AddBlock(Node(key, EMPTY, []), b), Window(Guids(sent)), sent);
            && Unrepeated(m) && HasGuid(m.sent, 1)
            && Receive(m, Message(1, b), make, newGuid).sent == m.sent + [Message(1, b)]
  {
    var n := MESSAGE_HISTORY_SIZE + 1;
    var sent := Numbered(b, n);
    var m := Member(AddBlock(Node(key, EMPTY, []), b), Window(Guids(sent)), sent);
    NumberedGuids(b, n);
    GuidsOfSent(sent, 1);
    assert Guids(sent)[0] == 1;
    WindowHoldsRecent(Guids(sent), 1);
    assert m.node.forest.order == [b];
    assert HasHash(m.node.forest.order, b.hash);
  }

  // ---------- transmissions ----------

  function Deliveries(events: seq<NetEvent>): nat {
    if events == [] then 0
    else Deliveries(events[..|events| - 1]) + (if events[|events| - 1].Delivered? then 1 else 0)
  }

  function TotalTaken(channels: seq<Channel>): nat {
    if channels == [] then 0
    else TotalTaken(channels[..|channels| - 1]) + channels[|channels| - 1].taken
  }

  lemma {:induction false} TotalAfterAdvance(channels: seq<Channel>, k: nat)
    requires k < |channels|
    ensures TotalTaken(channels[k := Advance(channels[k])]) == TotalTaken(channels) + 1
  {
    var n := |channels| - 1;
    var after := channels[k := Advance(channels[k])];
    if k == n {
      assert after[..n] == channels[..n];
    } else {
      TotalAfterAdvance(channels[..n], k);
      assert after[..n] == channels[..n][k := Advance(channels[k])];
    }
  }

  lemma {:induction false} NothingTakenYet(channels: seq<Channel>)
    requires forall c :: c in channels ==> c.taken == 0
    ensures TotalTaken(channels) == 0
  {
    if channels != [] {
      NothingTakenYet(channels[..|channels| - 1]);
    }
  }

  lemma {:induction false} DeliveriesAreCounted(universe: iset<Block>, start: Net, events: seq<NetEvent>, s: Net)
    requires Reached(universe, start, events, s)
    ensures Deliveries(events) == TotalTaken(s.channels) && |s.channels| == |start.channels|
    decreases |events|
  {
    if events == [] {
      NothingTakenYet(s.channels);
    } else {
      var n := |events| - 1;
      var before :|
        && Reached(universe, start, events[..n], before) && Enabled(universe, before, events[n])
        && s == Next(before, events[n]);
      DeliveriesAreCounted(universe, start, events[..n], before);
      if events[n].Delivered? {
        TotalAfterAdvance(before.channels, events[n].k);
      }
    }
  }

  lemma {:induction false} TotalIsBounded(channels: seq<Channel>, bound: nat)
    requires forall c :: c in channels ==> c.taken <= bound
    ensures TotalTaken(channels) <= |channels| * bound
  {
    if channels != [] {
      var n := |channels| - 1;
      TotalIsBounded(channels[..n], bound);
      assert (n + 1) * bound == n * bound + bound;
    }
  }

  /** While nothing is evicted, each link has carried each guid at most once. */
  lemma TakenIsBounded(s: Net)
    requires ChannelsInv(s.members, s.channels) && AllUnrepeated(s)
    ensures TotalTaken(s.channels) <= |s.channels| * |Originated(s)|
  {
    forall c | c in s.channels
      ensures c.taken <= |Originated(s)|
    {
      assert ChannelInv(s.members, c);
      LogFits(s, c.from);
    }
    TotalIsBounded(s.channels, |Originated(s)|);
  }

  /** In a run in which nothing was evicted there were at most as many deliveries as links times guids. */
  lemma TransmissionsAreBounded(universe: iset<Block>, start: Net, events: seq<NetEvent>, s: Net)
    requires HashInjective(universe) && Reached(universe, start, events, s)
    requires NothingEvictedAnywhere(s)
    ensures Deliveries(events) <= |s.channels| * |Originated(s)|
  {
    ReachedKeepsInv(universe, start, events, s);
    EveryGuidHandledOnce(universe, start, events, s);
    DeliveriesAreCounted(universe, start, events, s);
    forall i | 0 <= i < |s.members|
      ensures Unrepeated(s.members[i])
    {
      assert HandledOnce(s.members[i]);
    }
    TakenIsBounded(s);
  }
}
