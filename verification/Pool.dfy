/**
 The pool of pending transactions (src/pool.c) and what a reorganisation puts back into it
 (on_extended in main/main.c).
 */
module Pools {
  import opened Bytes
  import opened Blocks

  predicate HasTransaction(list: seq<Transaction>, h: Digest) {
    exists t :: t in list && t.hash == h
  }

  ghost predicate DistinctHashes(list: seq<Transaction>) {
    forall i, j :: 0 <= i < j < |list| ==> list[i].hash != list[j].hash
  }

  function Insert(list: seq<Transaction>, t: Transaction): seq<Transaction> {
    if HasTransaction(list, t.hash) then list else list + [t]
  }

  function InsertAll(list: seq<Transaction>, ts: seq<Transaction>): seq<Transaction> {
    if ts == [] then list
    else Insert(InsertAll(list, ts[..|ts| - 1]), ts[|ts| - 1])
  }

  /** The old pool stays in front, the rest comes from ts, and exactly the hashes of both are present, once each. */
  lemma {:induction false} InsertAllIsUnion(list: seq<Transaction>, ts: seq<Transaction>)
    ensures list <= InsertAll(list, ts)
    ensures forall t :: t in InsertAll(list, ts) ==> t in list || t in ts
    ensures forall t :: t in list || t in ts ==> HasTransaction(InsertAll(list, ts), t.hash)
    ensures DistinctHashes(list) ==> DistinctHashes(InsertAll(list, ts))
  {
    if ts != [] {
      var n := |ts| - 1;
      InsertAllIsUnion(list, ts[..n]);
      assert ts == ts[..n] + [ts[n]];
      var before, after := InsertAll(list, ts[..n]), InsertAll(list, ts);
      forall t | t in list || t in ts
        ensures HasTransaction(after, t.hash)
      {
        if t in list || t in ts[..n] {
          var u :| u in before && u.hash == t.hash;
          assert u in after;
        }
      }
    }
  }

  lemma InsertAllAppend(list: seq<Transaction>, ts: seq<Transaction>, us: seq<Transaction>)
    ensures InsertAll(InsertAll(list, ts), us) == InsertAll(list, ts + us)
  {
    if us == [] {
      assert ts + us == ts;
    } else {
      var n := |us| - 1;
      InsertAllAppend(list, ts, us[..n]);
      assert (ts + us)[..|ts + us| - 1] == ts + us[..n];
    }
  }

  // ---------- reorganisation ----------

  /** The first block down prev's branch that is on block's branch too. */
  function ForkPoint(prev: Link, block: Link): Link {
    if HasAncestor(block, prev) then prev else ForkPoint(prev.block.prev, block)
  }

  /** The transactions of the blocks of prev's branch above the fork point, leaf block first. */
  function Abandoned(prev: Link, block: Link): seq<Transaction> {
    if HasAncestor(block, prev) then []
    else prev.block.transactions + Abandoned(prev.block.prev, block)
  }

  /** ForkPoint is the lowest common ancestor. */
  lemma {:induction false} ForkPointIsLowestCommonAncestor(prev: Link, block: Link)
    ensures var f := ForkPoint(prev, block);
            && HasAncestor(prev, f) && HasAncestor(block, f)
            && (forall b :: b in Chain(prev) && b in Chain(block) ==> b in Chain(f))
  {
    HasAncestorMeansOnBranch(block, prev);
    if !HasAncestor(block, prev) {
      ForkPointIsLowestCommonAncestor(prev.block.prev, block);
    }
  }

  /** What is put back is exactly what the blocks of the old branch missing from the new one confirmed. */
  lemma {:induction false} AbandonedIsExact(prev: Link, block: Link, t: Transaction)
    ensures t in Abandoned(prev, block) <==>
            exists b :: b in Chain(prev) && b !in Chain(block) && t in b.transactions
  {
    HasAncestorMeansOnBranch(block, prev);
    if HasAncestor(block, prev) {
      forall b | b in Chain(prev)
        ensures b in Chain(block)
      {
        SharedBelow(block, prev, b);
      }
    } else {
      AbandonedIsExact(prev.block.prev, block, t);
    }
  }

  /** The transactions of the blocks, those of the last block first. */
  function FromTheTop(blocks: seq<Block>): seq<Transaction> {
    if blocks == [] then []
    else blocks[|blocks| - 1].transactions + FromTheTop(blocks[..|blocks| - 1])
  }

  /** They are put back block by block from the old leaf down to the fork point. */
  lemma {:induction false} AbandonedFromTheTop(prev: Link, block: Link)
    ensures Height(ForkPoint(prev, block)) <= Height(prev)
    ensures Abandoned(prev, block) == FromTheTop(Chain(prev)[Height(ForkPoint(prev, block))..])
  {
    if !HasAncestor(block, prev) {
      var below := prev.block.prev;
      AbandonedFromTheTop(below, block);
      var h := Height(ForkPoint(below, block));
      var blocks := Chain(prev)[h..];
      assert blocks[|blocks| - 1] == prev.block;
      assert blocks[..|blocks| - 1] == Chain(below)[h..];
    }
  }

  lemma SharedBelow(l: Link, m: Link, b: Block)
    requires HasAncestor(l, m) && b in Chain(m)
    ensures b in Chain(l)
  {
    HasAncestorMeansOnBranch(l, m);
    ChainThrough(l, m.block);
    assert b in Chain(l)[..Height(m)];
  }

  ghost predicate Confirmed(l: Link, h: Digest) {
    exists b, t :: b in Chain(l) && t in b.transactions && t.hash == h
  }

  /** No transaction is lost by a change of principal branch: it is confirmed or pending afterwards. */
  lemma NothingLost(pool: seq<Transaction>, prev: Link, block: Link, h: Digest)
    requires Confirmed(prev, h) || HasTransaction(pool, h)
    ensures Confirmed(block, h) || HasTransaction(InsertAll(pool, Abandoned(prev, block)), h)
  {
    InsertAllIsUnion(pool, Abandoned(prev, block));
    if Confirmed(prev, h) && !Confirmed(block, h) {
      var b, t :| b in Chain(prev) && t in b.transactions && t.hash == h;
      AbandonedIsExact(prev, block, t);
    }
  }

  /** Nothing appears from nowhere either. */
  lemma NothingInvented(pool: seq<Transaction>, prev: Link, block: Link, t: Transaction)
    requires t in InsertAll(pool, Abandoned(prev, block)) && t !in pool
    ensures exists b :: b in Chain(prev) && b !in Chain(block) && t in b.transactions
  {
    InsertAllIsUnion(pool, Abandoned(prev, block));
    AbandonedIsExact(prev, block, t);
  }

  class Pool {
    var list: seq<Transaction>

    constructor ()
      ensures list == []
    {
      list := [];
    }

    /** list_find with transaction_compare: the size of the list when there is no match. */
    method Find(h: Digest) returns (i: nat)
      ensures i <= |list|
      ensures i < |list| ==> list[i].hash == h
      ensures i == |list| <==> !HasTransaction(list, h)
    {
      i := 0;
      while i < |list|
        invariant i <= |list|
        invariant forall j :: 0 <= j < i ==> list[j].hash != h
      {
        MemcmpIsNumericOrder(list[i].hash, h);
        if Memcmp(list[i].hash, h) == 0 {
          assert list[i] in list;
          return;
        }
        i := i + 1;
      }
    }

    /** pool_add: a transaction whose hash is already pending is dropped. */
    method Add(t: Transaction)
      modifies this
      ensures list == Insert(old(list), t)
    {
      var i := Find(t.hash);
      if i == |list| {
        list := list + [t];
      }
    }

    method Remove(i: nat) returns (t: Transaction)
      requires i < |list|
      modifies this
      ensures t == old(list)[i]
      ensures list == old(list)[..i] + old(list)[i + 1..]
    {
      t := list[i];
      list := list[..i] + list[i + 1..];
    }

    /** Empties the pool in order, as the handlers do before they create a block. */
    method Drain() returns (txns: seq<Transaction>)
      modifies this
      ensures list == [] && txns == old(list)
    {
      txns := [];
      while |list| != 0
        invariant txns + list == old(list)
        decreases |list|
      {
        var t := Remove(0);
        txns := txns + [t];
      }
    }

    method AddAll(txns: seq<Transaction>)
      modifies this
      ensures list == InsertAll(old(list), txns)
    {
      for i := 0 to |txns|
        invariant list == InsertAll(old(list), txns[..i])
      {
        assert txns[..i + 1][..i] == txns[..i];
        Add(txns[i]);
      }
      assert txns[..|txns|] == txns;
    }

    /** on_extended: puts back the transactions of the blocks the principal branch gave up. */
    method PutBack(from: Link, block: Link)
      modifies this
      ensures list == InsertAll(old(list), Abandoned(from, block))
    {
      var prev := from;
      while !HasAncestor(block, prev)
        invariant InsertAll(list, Abandoned(prev, block)) == InsertAll(old(list), Abandoned(from, block))
        decreases Height(prev)
      {
        InsertAllAppend(list, prev.block.transactions, Abandoned(prev.block.prev, block));
        AddAll(prev.block.transactions);
        prev := prev.block.prev;
      }
    }
  }
}
