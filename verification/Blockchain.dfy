/**
 The block tree a node keeps (src/blockchain.c): an index of blocks and of confirmed
 transactions by hash, the children of each block, and the pointer to the principal leaf.
 */
module BlockTree {
  import opened Bytes
  import opened Blocks
  import opened ForkChoice

  /** The blocks built directly on p, in order of arrival. */
  function ChildrenOf(order: seq<Block>, p: Link): seq<Block> {
    if order == [] then []
    else
      var b := order[|order| - 1];
      ChildrenOf(order[..|order| - 1], p) + (if b.prev == p then [b] else [])
  }

  function IndexTransactions(index: map<Digest, Transaction>, txns: seq<Transaction>): map<Digest, Transaction> {
    if txns == [] then index
    else
      var t := txns[|txns| - 1];
      IndexTransactions(index, txns[..|txns| - 1])[t.hash := t]
  }

  /** Confirmed transactions by hash; the latest arrival wins. */
  function TransactionIndex(order: seq<Block>): map<Digest, Transaction> {
    if order == [] then map[]
    else IndexTransactions(TransactionIndex(order[..|order| - 1]), order[|order| - 1].transactions)
  }

  lemma {:induction false} ChildrenAreExact(order: seq<Block>, p: Link, b: Block)
    ensures b in ChildrenOf(order, p) <==> b in order && b.prev == p
  {
    if order != [] {
      var n := |order| - 1;
      ChildrenAreExact(order[..n], p, b);
      assert order == order[..n] + [order[n]];
    }
  }

  lemma AllChildrenListed(order: seq<Block>, p: Link)
    ensures forall b :: b in ChildrenOf(order, p) <==> b in order && b.prev == p
  {
    forall b: Block
      ensures b in ChildrenOf(order, p) <==> b in order && b.prev == p
    {
      ChildrenAreExact(order, p, b);
    }
  }

  lemma {:induction false} IndexedTransaction(index: map<Digest, Transaction>, txns: seq<Transaction>, h: Digest)
    ensures h in IndexTransactions(index, txns) <==> h in index || exists t :: t in txns && t.hash == h
    ensures h in IndexTransactions(index, txns) ==>
              var t := IndexTransactions(index, txns)[h];
              (t in txns && t.hash == h) || (h in index && t == index[h])
  {
    if txns != [] {
      var n := |txns| - 1;
      IndexedTransaction(index, txns[..n], h);
      assert txns == txns[..n] + [txns[n]];
    }
  }

  /** A hash resolves exactly when some known block has a transaction with it, and to such a transaction. */
  lemma {:induction false} TransactionIndexIsExact(order: seq<Block>, h: Digest)
    ensures h in TransactionIndex(order) <==> exists b, t :: b in order && t in b.transactions && t.hash == h
    ensures h in TransactionIndex(order) ==>
              TransactionIndex(order)[h].hash == h &&
              exists b :: b in order && TransactionIndex(order)[h] in b.transactions
  {
    if order != [] {
      var n := |order| - 1;
      TransactionIndexIsExact(order[..n], h);
      IndexedTransaction(TransactionIndex(order[..n]), order[n].transactions, h);
      assert order == order[..n] + [order[n]];
    }
  }

  /** Position i of the children is position at[i] of the arrivals. */
  ghost predicate InOrderAt(order: seq<Block>, children: seq<Block>, at: seq<nat>) {
    && |at| == |children|
    && (forall i :: 0 <= i < |at| ==> at[i] < |order| && order[at[i]] == children[i])
    && (forall i, j :: 0 <= i < j < |at| ==> at[i] < at[j])
  }

  /** The children are listed in the order in which they arrived. */
  lemma {:induction false} ChildrenInOrder(order: seq<Block>, p: Link) returns (at: seq<nat>)
    ensures InOrderAt(order, ChildrenOf(order, p), at)
  {
    at := [];
    if order != [] {
      var n := |order| - 1;
      at := ChildrenInOrder(order[..n], p);
      if order[n].prev == p {
        at := at + [n];
      }
    }
  }

  /** All transactions that arrived, block after block. */
  function Arrived(order: seq<Block>): seq<Transaction> {
    if order == [] then []
    else Arrived(order[..|order| - 1]) + order[|order| - 1].transactions
  }

  /** The last transaction of the list with the hash is the one at position i. */
  ghost predicate IsLastWith(txns: seq<Transaction>, h: Digest, i: nat) {
    i < |txns| && txns[i].hash == h && forall j :: i < j < |txns| ==> txns[j].hash != h
  }

  lemma {:induction false} IndexAppends(index: map<Digest, Transaction>, txns: seq<Transaction>, more: seq<Transaction>)
    ensures IndexTransactions(IndexTransactions(index, txns), more) == IndexTransactions(index, txns + more)
  {
    if more == [] {
      assert txns + more == txns;
    } else {
      var n := |more| - 1;
      IndexAppends(index, txns, more[..n]);
      assert (txns + more)[..|txns| + n] == txns + more[..n];
    }
  }

  lemma {:induction false} IndexOfArrived(order: seq<Block>)
    ensures TransactionIndex(order) == IndexTransactions(map[], Arrived(order))
  {
    if order != [] {
      var n := |order| - 1;
      IndexOfArrived(order[..n]);
      IndexAppends(map[], Arrived(order[..n]), order[n].transactions);
    }
  }

  lemma {:induction false} IndexHoldsLast(txns: seq<Transaction>, h: Digest) returns (i: nat)
    requires h in IndexTransactions(map[], txns)
    ensures IsLastWith(txns, h, i) && IndexTransactions(map[], txns)[h] == txns[i]
  {
    var n := |txns| - 1;
    i := n;
    if txns[n].hash != h {
      i := IndexHoldsLast(txns[..n], h);
    }
  }

  /** Of several transactions with one hash the index holds the one that arrived last. */
  lemma LatestIsIndexed(order: seq<Block>, h: Digest)
    requires h in TransactionIndex(order)
    ensures exists i: nat :: IsLastWith(Arrived(order), h, i) && TransactionIndex(order)[h] == Arrived(order)[i]
  {
    IndexOfArrived(order);
    var i := IndexHoldsLast(Arrived(order), h);
  }

  lemma ChildrenOfGrown(order: seq<Block>, b: Block)
    ensures forall p :: ChildrenOf(order + [b], p) == ChildrenOf(order, p) + (if b.prev == p then [b] else [])
  {
    assert (order + [b])[..|order|] == order;
  }

  lemma IndexOfGrown(order: seq<Block>, b: Block)
    ensures TransactionIndex(order + [b]) == IndexTransactions(TransactionIndex(order), b.transactions)
  {
    assert (order + [b])[..|order|] == order;
  }

  ghost predicate BlocksIndexed(blocks: map<Digest, Block>, order: seq<Block>) {
    && (forall h :: h in blocks ==> blocks[h] in order && blocks[h].hash == h)
    && (forall b :: b in order ==> b.hash in blocks && blocks[b.hash] == b)
  }

  ghost predicate ChildrenListed(children: map<Block, seq<Block>>, order: seq<Block>) {
    && (forall b :: b in order <==> b in children)
    && (forall b :: b in children ==> children[b] == ChildrenOf(order, At(b)))
  }

  lemma BlocksIndexedGrown(blocks: map<Digest, Block>, order: seq<Block>, b: Block)
    requires BlocksIndexed(blocks, order) && b.hash !in blocks
    ensures BlocksIndexed(blocks[b.hash := b], order + [b]) && b !in order
  {
  }

  class Blockchain {
    var blocks: map<Digest, Block>
    var txns: map<Digest, Transaction>
    var children: map<Block, seq<Block>>
    var principal: Link
    ghost var order: seq<Block>

    ghost function State(): State
      reads this
    {
      ForkChoice.State(order, principal)
    }

    ghost predicate Valid()
      reads this
    {
      Consistent(State()) && Indexed()
    }

    /** The lookup structures agree with the blocks that arrived. */
    ghost predicate Indexed()
      reads this`blocks, this`txns, this`children, this`order
    {
      BlocksIndexed(blocks, order) && ChildrenListed(children, order) && txns == TransactionIndex(order)
    }

    constructor ()
      ensures Valid() && State() == EMPTY
    {
      blocks, txns, children, principal, order := map[], map[], map[], Null, [];
    }

    /** blockchain_get_block: NULL for an unknown hash. */
    method GetBlock(h: Digest) returns (l: Link)
      requires Valid()
      ensures l.Null? <==> !HasHash(order, h)
      ensures l.At? ==> l.block in order && l.block.hash == h
    {
      l := if h in blocks then At(blocks[h]) else Null;
    }

    /** block_get_child_with_public_key: the first child of p created by the key. */
    method GetChildWithPublicKey(p: Block, key: Key) returns (child: Link)
      requires Valid() && p in order
      ensures child.Null? <==> forall b :: b in order && b.prev == At(p) ==> b.creator != key
      ensures child.At? ==> child.block in order && child.block.prev == At(p) && child.block.creator == key
      ensures child.At? ==> IsFirstWithKey(ChildrenOf(order, At(p)), key, child.block)
    {
      AllChildrenListed(order, At(p));
      child := FirstWithKey(children[p], key);
    }

    /** Where the branch of the principal leaf passes over p: the walk-back of blockchain_add_block. */
    method WalkBack(p: Link) returns (iter: Link, prev: Link)
      requires principal.At? && p != principal
      ensures p == iter <==> ChildToward(principal, p).At?
      ensures p == iter ==> prev == ChildToward(principal, p)
    {
      iter := principal;
      prev := Null;
      while p != iter && iter != Null
        invariant prev.Null? <==> iter == principal
        invariant prev.At? ==> prev.block.prev == iter
        invariant iter == p && prev.At? ==> ChildToward(principal, p) == prev
        invariant iter != p ==> ChildToward(principal, p) == ChildToward(iter, p)
        decreases Height(iter)
      {
        prev := iter;
        iter := iter.block.prev;
      }
    }

    /** blockchain_add_block; `extended` tells whether the on_extended callback fires. */
    method AddBlock(block: Block) returns (added: bool, extended: bool)
      requires Valid() && Known(order, block.prev)
      modifies this
      ensures Valid()
      ensures State() == Add(old(State()), block)
      ensures added == !HasHash(old(order), block.hash)
      ensures extended == (principal != old(principal))
    {
      if block.hash in blocks {
        return false, false;
      }
      PrincipalIsKnownLeaf(State());
      AddKeepsConsistent(State(), block);
      Record(block);
      extended := ChooseBranch(block);
      added := true;
    }

    /** The three-way fork choice on a block just recorded. */
    method ChooseBranch(block: Block) returns (extended: bool)
      requires block.prev != principal ==> principal.At?
      requires principal != At(block)
      modifies this`principal
      ensures principal == Choose(old(principal), block)
      ensures extended == (principal != old(principal))
    {
      extended := false;
      if block.prev == principal {
        principal := At(block);
        extended := true;
      } else if block.prev == principal.block.prev {
        MemcmpIsNumericOrder(block.priority, principal.block.priority);
        if Memcmp(block.priority, principal.block.priority) < 0 {
          principal := At(block);
          extended := true;
        }
      } else {
        var iter, prev := WalkBack(block.prev);
        if block.prev == iter {
          MemcmpIsNumericOrder(block.priority, prev.block.priority);
          if Memcmp(block.priority, prev.block.priority) < 0 {
            principal := At(block);
            extended := true;
          }
        }
      }
    }

    /** The bookkeeping that precedes the fork choice. */
    method Record(block: Block)
      requires Forest(order) && Indexed() && Known(order, block.prev) && block.hash !in blocks
      modifies this`blocks, this`txns, this`children, this`order
      ensures order == old(order) + [block] && Indexed()
    {
      BlocksIndexedGrown(blocks, order, block);
      IndexOfGrown(order, block);
      blocks := blocks[block.hash := block];
      children := LinkToParent(children, order, block);
      txns := IndexTransactionsOf(txns, block);
      order := order + [block];
    }
  }

  /** The search of block_get_child_with_public_key through a list of children. */
  method FirstWithKey(list: seq<Block>, key: Key) returns (child: Link)
    ensures child.Null? <==> forall b :: b in list ==> b.creator != key
    ensures child.At? ==> IsFirstWithKey(list, key, child.block)
  {
    for i := 0 to |list|
      invariant forall j :: 0 <= j < i ==> list[j].creator != key
    {
      if list[i].creator == key {
        return At(list[i]);
      }
    }
    return Null;
  }

  ghost predicate IsFirstWithKey(list: seq<Block>, key: Key, b: Block) {
    b.creator == key &&
    exists i :: 0 <= i < |list| && list[i] == b && forall j :: 0 <= j < i ==> list[j].creator != key
  }

  /** Gives the new block an empty list of children and adds it to its parent's list. */
  method LinkToParent(children: map<Block, seq<Block>>, ghost order: seq<Block>, block: Block)
    returns (linked: map<Block, seq<Block>>)
    requires Forest(order) && Known(order, block.prev) && block !in order
    requires ChildrenListed(children, order)
    ensures ChildrenListed(linked, order + [block])
  {
    linked := children[block := []];
    if block.prev != Null {
      var prev := block.prev.block;
      linked := linked[prev := linked[prev] + [block]];
    }
    ChildrenOfGrown(order, block);
    NoChildrenYet(order, block);
  }

  method IndexTransactionsOf(txns: map<Digest, Transaction>, block: Block) returns (index: map<Digest, Transaction>)
    ensures index == IndexTransactions(txns, block.transactions)
  {
    index := txns;
    var list := block.transactions;
    for i := 0 to |list|
      invariant index == IndexTransactions(txns, list[..i])
    {
      assert list[..i + 1][..i] == list[..i];
      index := index[list[i].hash := list[i]];
    }
    assert list[..|list|] == list;
  }

  lemma NoChildrenYet(order: seq<Block>, b: Block)
    requires Forest(order) && b !in order
    ensures ChildrenOf(order, At(b)) == []
  {
    ForestIsClosed(order);
    if ChildrenOf(order, At(b)) != [] {
      ChildrenAreExact(order, At(b), ChildrenOf(order, At(b))[0]);
    }
  }
}
