/**
 The theory of the proof-of-stake fork choice (src/blockchain.c).

 `Choose` is what one insertion does to the principal pointer. `GreedyEnd` is the global
 rule it is meant to keep up with: from the virtual root, always descend to the child of
 lowest priority, the first to arrive winning ties, until there is no child.
 */
module ForkChoice {
  import opened Bytes
  import opened Blocks

  /** What a node knows of the tree: its blocks in order of arrival, and the principal leaf. */
  datatype State = State(order: seq<Block>, principal: Link)

  const EMPTY := State([], Null)

  predicate Known(order: seq<Block>, l: Link) {
    l.At? ==> l.block in order
  }

  predicate HasHash(order: seq<Block>, h: Digest) {
    exists b :: b in order && b.hash == h
  }

  /** Blocks arrived once each, parents before children. */
  ghost predicate Forest(order: seq<Block>) {
    order == [] ||
    (var before, last := order[..|order| - 1], order[|order| - 1];
     Forest(before) && last !in before && Known(before, last.prev))
  }

  lemma {:induction false} ForestIsClosed(order: seq<Block>)
    requires Forest(order)
    ensures forall b :: b in order ==> Known(order, b.prev)
  {
    if order != [] {
      var n := |order| - 1;
      ForestIsClosed(order[..n]);
      assert order == order[..n] + [order[n]];
    }
  }

  lemma ForestGrows(order: seq<Block>, b: Block)
    requires Forest(order) && b !in order && Known(order, b.prev)
    ensures Forest(order + [b])
  {
    assert (order + [b])[..|order|] == order;
  }

  lemma {:induction false} BranchIsKnown(order: seq<Block>, l: Link, b: Block)
    requires Forest(order) && Known(order, l) && b in Chain(l)
    ensures b in order
  {
    if l.block != b {
      ForestIsClosed(order);
      BranchIsKnown(order, l.block.prev, b);
    }
  }

  // ---------- the incremental rule ----------

  /** The block of l's branch that sits directly on p, or NULL. */
  function ChildToward(l: Link, p: Link): (c: Link)
    ensures c.At? ==> c.block.prev == p && c.block in Chain(l)
  {
    if l.Null? then Null
    else if l.block.prev == p then l
    else ChildToward(l.block.prev, p)
  }

  /** The principal leaf after the new block b is linked into the tree. */
  function Choose(principal: Link, b: Block): Link {
    if b.prev == principal then At(b)
    else
      match ChildToward(principal, b.prev)
      case Null => principal
      case At(rival) => if Priority(b) < Priority(rival) then At(b) else principal
  }

  function Add(s: State, b: Block): State {
    if HasHash(s.order, b.hash) then s else State(s.order + [b], Choose(s.principal, b))
  }

  function Run(blocks: seq<Block>): State {
    if blocks == [] then EMPTY
    else Add(Run(blocks[..|blocks| - 1]), blocks[|blocks| - 1])
  }

  lemma {:induction false} ChildTowardFindsTheFork(l: Link, p: Link)
    ensures ChildToward(l, p).Null? <==> p == l || (p.At? && p.block !in Chain(l))
  {
    if l.At? {
      if l.block.prev != p {
        ChildTowardFindsTheFork(l.block.prev, p);
      }
      if p.At? && p.block in Chain(l) && p != l {
        assert p.block in Chain(l.block.prev);
      }
      if l.block.prev == p && p.At? {
        assert Chain(p)[Height(p) - 1] == p.block;
        assert p.block in Chain(l);
      }
      if p == l && l.block.prev != p && ChildToward(l.block.prev, p).At? {
        var c := ChildToward(l.block.prev, p).block;
        ChainThrough(l.block.prev, c);
        assert false;
      }
    }
  }

  // ---------- the global rule ----------

  /** The earliest child of p among those of lowest priority, or NULL. */
  function MinChild(order: seq<Block>, p: Link): Link {
    if order == [] then Null
    else
      var best := MinChild(order[..|order| - 1], p);
      var b := order[|order| - 1];
      if b.prev == p && (best.Null? || Priority(b) < Priority(best.block)) then At(b) else best
  }

  /** Position i holds the earliest of the lowest-priority children of p. */
  ghost predicate IsEarliestMin(order: seq<Block>, p: Link, i: nat) {
    && i < |order|
    && order[i].prev == p
    && (forall j :: 0 <= j < |order| && order[j].prev == p ==> Priority(order[i]) <= Priority(order[j]))
    && (forall j :: 0 <= j < i && order[j].prev == p ==> Priority(order[i]) < Priority(order[j]))
  }

  lemma {:induction false} MinChildIsEarliestMin(order: seq<Block>, p: Link) returns (i: nat)
    ensures MinChild(order, p).Null? <==> forall b :: b in order ==> b.prev != p
    ensures MinChild(order, p).At? ==> IsEarliestMin(order, p, i) && MinChild(order, p).block == order[i]
  {
    i := 0;
    if order != [] {
      var n := |order| - 1;
      i := MinChildIsEarliestMin(order[..n], p);
      assert order == order[..n] + [order[n]];
      if MinChild(order, p) == At(order[n]) && MinChild(order, p) != MinChild(order[..n], p) {
        i := n;
      }
    }
  }

  lemma MinChildOfGrown(order: seq<Block>, b: Block, p: Link)
    ensures MinChild(order + [b], p) ==
            (if b.prev == p && (MinChild(order, p).Null? || Priority(b) < Priority(MinChild(order, p).block))
             then At(b) else MinChild(order, p))
  {
    assert (order + [b])[..|order|] == order;
  }

  /** Every step of l's branch is the greedy one. */
  ghost predicate OnPath(order: seq<Block>, l: Link) {
    l.Null? || (MinChild(order, l.block.prev) == l && OnPath(order, l.block.prev))
  }

  /** l is where the greedy walk from the virtual root ends. */
  ghost predicate GreedyEnd(order: seq<Block>, l: Link) {
    OnPath(order, l) && MinChild(order, l).Null?
  }

  lemma {:induction false} PathThrough(order: seq<Block>, l: Link, b: Block)
    requires OnPath(order, l) && b in Chain(l)
    ensures OnPath(order, At(b))
  {
    if l.block != b {
      PathThrough(order, l.block.prev, b);
    }
  }

  lemma {:induction false} PathUnchanged(order: seq<Block>, l: Link, b: Block)
    requires OnPath(order, l)
    requires forall c :: c in Chain(l) && c.prev == b.prev ==> Priority(b) >= Priority(c)
    ensures OnPath(order + [b], l)
  {
    if l.At? {
      PathUnchanged(order, l.block.prev, b);
      MinChildOfGrown(order, b, l.block.prev);
    }
  }

  lemma {:induction false} SameLevelSamePath(order: seq<Block>, l: Link, m: Link)
    requires OnPath(order, l) && OnPath(order, m) && Height(l) == Height(m)
    ensures l == m
  {
    if l.At? {
      SameLevelSamePath(order, l.block.prev, m.block.prev);
    }
  }

  lemma {:induction false} GreedyEndIsUnique(order: seq<Block>, l: Link, m: Link)
    requires GreedyEnd(order, l) && GreedyEnd(order, m)
    ensures l == m
  {
    if Height(l) < Height(m) {
      EndNotBelow(order, l, m);
    } else if Height(m) < Height(l) {
      EndNotBelow(order, m, l);
    } else {
      SameLevelSamePath(order, l, m);
    }
  }

  lemma EndNotBelow(order: seq<Block>, l: Link, m: Link)
    requires GreedyEnd(order, l) && OnPath(order, m)
    ensures Height(m) <= Height(l)
  {
    if Height(l) < Height(m) {
      var next := Chain(m)[Height(l)];
      ChainIndex(m, Height(l));
      PathThrough(order, m, next);
      SameLevelSamePath(order, l, next.prev);
    }
  }

  // ---------- the incremental rule keeps up with the global one ----------

  /** A block nobody has built on can only change the walk at its own parent. */
  lemma ChooseKeepsGreedyEnd(order: seq<Block>, principal: Link, b: Block)
    requires Forest(order) && GreedyEnd(order, principal)
    requires b !in order && Known(order, b.prev)
    ensures GreedyEnd(order + [b], Choose(principal, b))
  {
    MinChildOfGrown(order, b, At(b));
    NoChildYet(order, b);
    var fork := ChildToward(principal, b.prev);
    if b.prev == principal {
      PathBelow(order, principal, b);
      MinChildOfGrown(order, b, principal);
    } else if fork.At? && Priority(b) < Priority(fork.block) {
      PathThrough(order, principal, fork.block);
      PathBelow(order, b.prev, b);
      MinChildOfGrown(order, b, b.prev);
    } else {
      forall c | c in Chain(principal) && c.prev == b.prev
        ensures Priority(b) >= Priority(c)
      {
        OneChildOnBranch(principal, c);
      }
      PathUnchanged(order, principal, b);
      MinChildOfGrown(order, b, principal);
    }
  }

  lemma NoChildYet(order: seq<Block>, b: Block)
    requires Forest(order) && b !in order
    ensures MinChild(order, At(b)).Null?
  {
    ForestIsClosed(order);
    var _ := MinChildIsEarliestMin(order, At(b));
  }

  lemma PathBelow(order: seq<Block>, l: Link, b: Block)
    requires OnPath(order, l) && b.prev == l
    ensures OnPath(order + [b], l)
  {
    forall c | c in Chain(l)
      ensures c.prev != l
    {
      ChainThrough(l, c);
    }
    PathUnchanged(order, l, b);
  }

  lemma {:induction false} OneChildOnBranch(l: Link, c: Block)
    requires c in Chain(l)
    ensures ChildToward(l, c.prev) == At(c)
  {
    if l.block != c {
      OneChildOnBranch(l.block.prev, c);
      ChainThrough(l.block.prev, c);
    }
  }

  // ---------- whole runs ----------

  /** Each block is preceded by its parent. Repetitions are allowed. */
  ghost predicate ParentsFirst(blocks: seq<Block>) {
    blocks == [] ||
    (var n := |blocks| - 1;
     ParentsFirst(blocks[..n]) && Known(blocks[..n], blocks[n].prev))
  }

  ghost predicate HashInjective(universe: iset<Block>) {
    forall b, c :: b in universe && c in universe && b.hash == c.hash ==> b == c
  }

  ghost predicate DistinctSiblings(universe: iset<Block>) {
    forall b, c :: b in universe && c in universe && b.prev == c.prev && Priority(b) == Priority(c) ==> b == c
  }

  ghost function SetOf(order: seq<Block>): iset<Block> {
    iset b | b in order
  }

  ghost predicate Consistent(s: State) {
    Forest(s.order) && GreedyEnd(s.order, s.principal)
  }

  lemma AddKeepsConsistent(s: State, b: Block)
    requires Consistent(s) && Known(s.order, b.prev)
    ensures Consistent(Add(s, b))
  {
    if !HasHash(s.order, b.hash) {
      ForestGrows(s.order, b);
      ChooseKeepsGreedyEnd(s.order, s.principal, b);
    }
  }

  /** The principal leaf is NULL exactly when the forest is empty, and is always a known leaf. */
  lemma PrincipalIsKnownLeaf(s: State)
    requires Consistent(s)
    ensures s.principal.Null? <==> s.order == []
    ensures Known(s.order, s.principal)
    ensures forall b :: b in s.order ==> b.prev != s.principal
  {
    var _ := MinChildIsEarliestMin(s.order, s.principal);
    if s.principal.At? {
      var _ := MinChildIsEarliestMin(s.order, s.principal.block.prev);
    } else if s.order != [] {
      FirstIsRoot(s.order);
    }
  }

  lemma {:induction false} FirstIsRoot(order: seq<Block>)
    requires Forest(order) && order != []
    ensures order[0].prev.Null?
  {
    if |order| > 1 {
      FirstIsRoot(order[..|order| - 1]);
    }
  }

  /** In every run fed parents first, the pointer equals the greedy walk and no block is lost. */
  lemma {:induction false} RunIsGreedy(blocks: seq<Block>)
    requires ParentsFirst(blocks) && HashInjective(SetOf(blocks))
    ensures Consistent(Run(blocks))
    ensures forall b :: b in Run(blocks).order <==> b in blocks
  {
    if blocks != [] {
      var n := |blocks| - 1;
      var before, last := blocks[..n], blocks[n];
      assert blocks == before + [last];
      assert forall b :: b in before ==> b in SetOf(blocks);
      assert HashInjective(SetOf(before));
      RunIsGreedy(before);
      AddKeepsConsistent(Run(before), last);
      assert last in SetOf(blocks);
    }
  }

  /** No block of the branch has a sibling of the same priority. */
  ghost predicate NoTies(order: seq<Block>, l: Link) {
    forall x, y :: x in Chain(l) && y in order && y.prev == x.prev && Priority(y) == Priority(x) ==> y == x
  }

  lemma SameMinChild(xs: seq<Block>, ys: seq<Block>, x: Block)
    requires forall b :: b in xs <==> b in ys
    requires MinChild(xs, x.prev) == At(x)
    requires forall y :: y in xs && y.prev == x.prev && Priority(y) == Priority(x) ==> y == x
    ensures MinChild(ys, x.prev) == At(x)
  {
    var i := MinChildIsEarliestMin(xs, x.prev);
    var j := MinChildIsEarliestMin(ys, x.prev);
    assert xs[i] in ys && ys[j] in xs;
    assert Priority(xs[i]) == Priority(ys[j]);
  }

  lemma {:induction false} SamePath(xs: seq<Block>, ys: seq<Block>, l: Link)
    requires forall b :: b in xs <==> b in ys
    requires NoTies(xs, l) && OnPath(xs, l)
    ensures OnPath(ys, l)
  {
    if l.At? {
      SameMinChild(xs, ys, l.block);
      SamePath(xs, ys, l.block.prev);
    }
  }

  /** Two nodes with the same blocks agree on the principal when nothing ties with a block of its branch. */
  lemma SameUnlessTied(s: State, t: State)
    requires Consistent(s) && Consistent(t)
    requires forall b :: b in s.order <==> b in t.order
    requires NoTies(s.order, s.principal)
    ensures s.principal == t.principal
  {
    SamePath(s.order, t.order, s.principal);
    var _ := MinChildIsEarliestMin(s.order, s.principal);
    var _ := MinChildIsEarliestMin(t.order, s.principal);
    GreedyEndIsUnique(t.order, s.principal, t.principal);
  }

  lemma SameBlocksSamePrincipal(s: State, t: State)
    requires Consistent(s) && Consistent(t)
    requires forall b :: b in s.order <==> b in t.order
    requires DistinctSiblings(SetOf(s.order))
    ensures s.principal == t.principal
  {
    PrincipalIsKnownLeaf(s);
    forall x | x in Chain(s.principal)
      ensures x in SetOf(s.order)
    {
      BranchIsKnown(s.order, s.principal, x);
    }
    assert forall y :: y in s.order ==> y in SetOf(s.order);
    SameUnlessTied(s, t);
  }

  /** Order independence, repetitions included. */
  lemma OrderIndependence(xs: seq<Block>, ys: seq<Block>)
    requires ParentsFirst(xs) && ParentsFirst(ys)
    requires forall b :: b in xs <==> b in ys
    requires HashInjective(SetOf(xs)) && DistinctSiblings(SetOf(xs))
    ensures Run(xs).principal == Run(ys).principal
  {
    assert SetOf(xs) == SetOf(ys);
    RunIsGreedy(xs);
    RunIsGreedy(ys);
    assert SetOf(Run(xs).order) == SetOf(xs);
    SameBlocksSamePrincipal(Run(xs), Run(ys));
  }

  // ---------- ties ----------

  /** ys brings the blocks of xs in some other order that has parents first. */
  ghost predicate Reorders(xs: seq<Block>, ys: seq<Block>) {
    ParentsFirst(ys) && forall b :: b in xs <==> b in ys
  }

  lemma {:induction false} BranchHasParentsFirst(l: Link)
    ensures ParentsFirst(Chain(l))
  {
    if l.At? {
      var p := l.block.prev;
      BranchHasParentsFirst(p);
      assert Chain(l)[..Height(p)] == Chain(p);
      if p.At? {
        assert Chain(p)[Height(p) - 1] == p.block;
      }
    }
  }

  lemma {:induction false} ParentsFirstAppend(xs: seq<Block>, ys: seq<Block>)
    requires ParentsFirst(xs) && ParentsFirst(ys)
    ensures ParentsFirst(xs + ys)
  {
    if ys == [] {
      assert xs + ys == xs;
    } else {
      var n := |ys| - 1;
      ParentsFirstAppend(xs, ys[..n]);
      assert (xs + ys)[..|xs| + n] == xs + ys[..n];
    }
  }

  lemma RunAppended(xs: seq<Block>, b: Block)
    ensures Run(xs + [b]) == Add(Run(xs), b)
  {
    assert (xs + [b])[..|xs|] == xs;
  }

  lemma StaysAfterOneMore(s: State, b: Block, y: Block)
    requires MinChild(s.order, y.prev) == At(y)
    requires b.prev == y.prev ==> Priority(b) >= Priority(y)
    ensures MinChild(Add(s, b).order, y.prev) == At(y)
  {
    MinChildOfGrown(s.order, b, y.prev);
  }

  /** The first block of lowest priority among its siblings stays the choice whatever arrives later. */
  lemma {:induction false} FirstStays(xs: seq<Block>, ys: seq<Block>, y: Block)
    requires MinChild(Run(xs).order, y.prev) == At(y)
    requires forall z :: z in ys && z.prev == y.prev ==> Priority(z) >= Priority(y)
    ensures MinChild(Run(xs + ys).order, y.prev) == At(y)
  {
    if ys == [] {
      assert xs + ys == xs;
    } else {
      var before, last := ys[..|ys| - 1], ys[|ys| - 1];
      FirstStays(xs, before, y);
      assert last in ys;
      assert xs + ys == (xs + before) + [last];
      RunAppended(xs + before, last);
      StaysAfterOneMore(Run(xs + before), last, y);
    }
  }

  /** Bringing y's own branch first makes y the choice among its siblings. */
  lemma BranchComesFirst(y: Block)
    requires HashInjective(SetOf(Chain(At(y))))
    ensures MinChild(Run(Chain(At(y))).order, y.prev) == At(y)
  {
    var branch := Chain(At(y));
    BranchHasParentsFirst(At(y));
    RunIsGreedy(branch);
    var i := MinChildIsEarliestMin(Run(branch).order, y.prev);
    assert branch[Height(y.prev)] == y;
    var x := Run(branch).order[i];
    assert x in branch;
    ChainThrough(At(y), x);
    ChainThrough(At(y), y);
  }

  lemma OwnBranchFirst(xs: seq<Block>, y: Block)
    requires ParentsFirst(xs) && HashInjective(SetOf(xs)) && y in xs
    ensures Reorders(xs, Chain(At(y)) + xs)
    ensures HashInjective(SetOf(Chain(At(y))))
  {
    var branch := Chain(At(y));
    RunIsGreedy(xs);
    forall b | b in branch
      ensures b in xs
    {
      BranchIsKnown(Run(xs).order, At(y), b);
    }
    BranchHasParentsFirst(At(y));
    ParentsFirstAppend(branch, xs);
    assert forall b :: b in branch ==> b in SetOf(xs);
  }

  /** On the greedy path x is at least as good as every block that arrived on x's parent. */
  lemma BestSibling(order: seq<Block>, l: Link, x: Block)
    requires OnPath(order, l) && x in Chain(l)
    ensures MinChild(order, x.prev) == At(x)
    ensures forall z :: z in order && z.prev == x.prev ==> Priority(z) >= Priority(x)
  {
    PathThrough(order, l, x);
    var i := MinChildIsEarliestMin(order, x.prev);
  }

  lemma ReorderedIsGreedy(xs: seq<Block>, ys: seq<Block>)
    requires HashInjective(SetOf(xs)) && Reorders(xs, ys)
    ensures Consistent(Run(ys)) && forall b :: b in Run(ys).order <==> b in xs
  {
    assert SetOf(ys) == SetOf(xs);
    RunIsGreedy(ys);
  }

  lemma OwnBranchFirstWins(xs: seq<Block>, y: Block)
    requires ParentsFirst(xs) && HashInjective(SetOf(xs)) && y in xs
    requires forall z :: z in xs && z.prev == y.prev ==> Priority(z) >= Priority(y)
    ensures MinChild(Run(Chain(At(y)) + xs).order, y.prev) == At(y)
  {
    OwnBranchFirst(xs, y);
    BranchComesFirst(y);
    FirstStays(Chain(At(y)), xs, y);
  }

  lemma OtherChoiceOtherPrincipal(s: State, t: State, x: Block, y: Block)
    requires Consistent(s) && Consistent(t)
    requires x in Chain(s.principal) && MinChild(t.order, x.prev) == At(y) && y != x
    ensures t.principal != s.principal
  {
    if t.principal == s.principal {
      BestSibling(t.order, s.principal, x);
    }
  }

  /** A tie on the principal branch is decided by the order of arrival. */
  lemma TieGoesToTheFirst(xs: seq<Block>, x: Block, y: Block)
    requires ParentsFirst(xs) && HashInjective(SetOf(xs))
    requires x in Chain(Run(xs).principal) && y in xs && y != x
    requires y.prev == x.prev && Priority(y) == Priority(x)
    ensures Reorders(xs, Chain(At(y)) + xs)
    ensures Run(Chain(At(y)) + xs).principal != Run(xs).principal
  {
    var s := Run(xs);
    RunIsGreedy(xs);
    BestSibling(s.order, s.principal, x);
    OwnBranchFirst(xs, y);
    OwnBranchFirstWins(xs, y);
    ReorderedIsGreedy(xs, Chain(At(y)) + xs);
    OtherChoiceOtherPrincipal(s, Run(Chain(At(y)) + xs), x, y);
  }

  /** The principal is independent of the order of arrival exactly when no block of its branch ties with a sibling. */
  lemma OrderIndependentExactly(xs: seq<Block>)
    requires ParentsFirst(xs) && HashInjective(SetOf(xs))
    ensures (forall ys :: Reorders(xs, ys) ==> Run(ys).principal == Run(xs).principal)
            <==> NoTies(xs, Run(xs).principal)
  {
    var s := Run(xs);
    RunIsGreedy(xs);
    if NoTies(xs, s.principal) {
      forall ys | Reorders(xs, ys)
        ensures Run(ys).principal == s.principal
      {
        ReorderedIsGreedy(xs, ys);
        SameUnlessTied(s, Run(ys));
      }
    } else {
      var x, y :| x in Chain(s.principal) && y in xs && y.prev == x.prev && Priority(y) == Priority(x) && y != x;
      TieGoesToTheFirst(xs, x, y);
    }
  }

  // ---------- abandoned blocks stay abandoned ----------

  /** The branches agree up to k; there, new has a block of lower priority, or old has ended. */
  ghost predicate ImprovesAt(new': seq<Block>, old': seq<Block>, k: nat) {
    && k < |new'| && k <= |old'|
    && new'[..k] == old'[..k]
    && (k < |old'| ==> Priority(new'[k]) < Priority(old'[k]))
  }

  ghost predicate Improves(new': seq<Block>, old': seq<Block>) {
    exists k :: ImprovesAt(new', old', k)
  }

  lemma ImprovesIsTransitive(a: seq<Block>, b: seq<Block>, c: seq<Block>)
    requires Improves(a, b) && Improves(b, c)
    ensures Improves(a, c)
  {
    var i: nat :| ImprovesAt(a, b, i);
    var j: nat :| ImprovesAt(b, c, j);
    var k := if i < j then i else j;
    assert a[..k] == b[..i][..k] == b[..k];
    assert c[..k] == b[..j][..k] == b[..k];
    if i > j {
      assert a[..i][j] == b[..i][j];
    } else if i < j {
      assert b[..j][i] == c[..j][i];
    }
    assert ImprovesAt(a, c, k);
  }

  /** Nothing improves on itself: the principal never cycles. */
  lemma ImprovesIsIrreflexive(a: seq<Block>)
    ensures !Improves(a, a)
  {
  }

  lemma ChooseImproves(principal: Link, b: Block)
    ensures Choose(principal, b) == principal || Improves(Chain(Choose(principal, b)), Chain(principal))
  {
    var next := Choose(principal, b);
    if next != principal {
      var k := Height(b.prev);
      if b.prev == principal {
        assert Chain(next)[..k] == Chain(principal)[..k];
      } else {
        var rival := ChildToward(principal, b.prev).block;
        ChainThrough(principal, rival);
        assert Chain(At(rival))[..k] == Chain(b.prev);
        assert Chain(principal)[..k] == Chain(At(rival))[..k];
        assert Chain(next)[..k] == Chain(b.prev);
      }
      assert ImprovesAt(Chain(next), Chain(principal), k);
    }
  }

  lemma {:induction false} RunImproves(blocks: seq<Block>, i: nat, j: nat)
    requires i <= j <= |blocks|
    ensures var p, q := Run(blocks[..i]).principal, Run(blocks[..j]).principal;
            p == q || Improves(Chain(q), Chain(p))
  {
    if i < j {
      var before, b := blocks[..j - 1], blocks[j - 1];
      RunImproves(blocks, i, j - 1);
      assert blocks[..j][..j - 1] == before;
      var p, q, r := Run(blocks[..i]).principal, Run(before).principal, Run(blocks[..j]).principal;
      ChooseImproves(q, b);
      if p != q && q != r {
        ImprovesIsTransitive(Chain(r), Chain(q), Chain(p));
      }
    }
  }

  /** The principal never cycles: once it has moved on it is never the same leaf again. */
  lemma PrincipalNeverReturns(blocks: seq<Block>, i: nat, j: nat, k: nat)
    requires i <= j <= k <= |blocks|
    requires Run(blocks[..k]).principal == Run(blocks[..i]).principal
    ensures Run(blocks[..j]).principal == Run(blocks[..i]).principal
  {
    var p, q := Chain(Run(blocks[..i]).principal), Chain(Run(blocks[..j]).principal);
    RunImproves(blocks, i, j);
    RunImproves(blocks, j, k);
    if Run(blocks[..j]).principal != Run(blocks[..i]).principal {
      ImprovesIsTransitive(q, p, q);
      ImprovesIsIrreflexive(q);
    }
  }

  lemma CommonPartKeeps(old': Link, new': seq<Block>, k: nat, x: Block)
    requires x in Chain(old') && Height(At(x)) <= k <= |new'| && k <= Height(old')
    requires new'[..k] == Chain(old')[..k]
    ensures x in new'
  {
    ChainThrough(old', x);
    assert new'[Height(x.prev)] == new'[..k][Height(x.prev)] == Chain(old')[..k][Height(x.prev)];
  }

  /** A branch that dropped a block is better than every branch that has it. */
  lemma DroppedIsWorse(old': Link, new': Link, later: Link, x: Block)
    requires Improves(Chain(new'), Chain(old'))
    requires x in Chain(old') && x !in Chain(new') && x in Chain(later)
    ensures later != new' && !Improves(Chain(later), Chain(new'))
  {
    var a, b, c := Chain(old'), Chain(new'), Chain(later);
    var k: nat :| ImprovesAt(b, a, k);
    var h := Height(At(x));
    ChainThrough(old', x);
    ChainThrough(later, x);
    if h <= k {
      CommonPartKeeps(old', b, k, x);
    }
    assert k < h && c[..h] == a[..h];
    assert c[k] == c[..h][k] == a[..h][k] == a[k];
    forall i | 0 <= i < k
      ensures c[i] == b[i]
    {
      assert c[i] == c[..h][i] == a[..h][i] == a[..k][i] == b[..k][i];
    }
    forall m: nat
      ensures !ImprovesAt(c, b, m)
    {
      if k < m <= |c| && m <= |b| {
        assert c[..m][k] == c[k] && b[..m][k] == b[k];
      }
    }
  }

  /** Over any run, a block dropped from the principal branch never returns to it. */
  lemma AbandonedForever(blocks: seq<Block>, i: nat, j: nat, k: nat, x: Block)
    requires i <= j <= k <= |blocks|
    requires x in Chain(Run(blocks[..i]).principal)
    requires x !in Chain(Run(blocks[..j]).principal)
    ensures x !in Chain(Run(blocks[..k]).principal)
  {
    var p, q, r := Run(blocks[..i]).principal, Run(blocks[..j]).principal, Run(blocks[..k]).principal;
    RunImproves(blocks, i, j);
    RunImproves(blocks, j, k);
    if x in Chain(r) {
      DroppedIsWorse(p, q, r, x);
    }
  }

  // ---------- the principal branch is the best known ----------

  /** At index k, a leaves b at a block of no higher priority. */
  ghost predicate LeavesWellAt(a: seq<Block>, b: seq<Block>, k: nat) {
    k < |a| && k < |b| && a[..k] == b[..k] && a[k] != b[k] && Priority(a[k]) <= Priority(b[k])
  }

  /** a has all of b, or leaves it at a block of no higher priority. */
  ghost predicate AtLeastAsGood(a: seq<Block>, b: seq<Block>) {
    b <= a || exists k :: LeavesWellAt(a, b, k)
  }

  lemma {:induction false} PrincipalIsBest(s: State, l: Link)
    requires Consistent(s) && Known(s.order, l)
    ensures AtLeastAsGood(Chain(s.principal), Chain(l))
  {
    if l.At? {
      var p := l.block.prev;
      ForestIsClosed(s.order);
      PrincipalIsBest(s, p);
      if Chain(p) <= Chain(s.principal) {
        BestAtTheFork(s, l.block);
      } else {
        var k: nat :| LeavesWellAt(Chain(s.principal), Chain(p), k);
        assert Chain(l)[..k] == Chain(p)[..k];
        assert LeavesWellAt(Chain(s.principal), Chain(l), k);
      }
    }
  }

  lemma BestAtTheFork(s: State, y: Block)
    requires Consistent(s) && y in s.order
    requires Chain(y.prev) <= Chain(s.principal)
    ensures AtLeastAsGood(Chain(s.principal), Chain(At(y)))
  {
    var a, k := Chain(s.principal), Height(y.prev);
    var i := MinChildIsEarliestMin(s.order, y.prev);
    if k == |a| {
      assert Chain(y.prev) == a;
      ChainDetermines(y.prev, s.principal);
    } else {
      ChainIndex(s.principal, k);
      ChainDetermines(a[k].prev, y.prev);
      PathThrough(s.order, s.principal, a[k]);
      if a[k] == y {
        assert a[..k + 1] == Chain(At(y));
      } else {
        assert Chain(At(y))[..k] == Chain(y.prev);
        assert LeavesWellAt(a, Chain(At(y)), k);
      }
    }
  }
}
