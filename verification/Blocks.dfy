/**
 Blocks and the tree they form (src/block.c).

 A block holds a pointer to its previous block, which is NULL for a root. Blocks never
 change after construction except for the list of their children, so a block is a value
 and `Link` is the pointer. The children lists live in the `Blockchain` object.
 */
module Blocks {
  import opened Bytes

  type Key = Digest

  datatype Transaction = Transaction(
    sender: Key, recipient: Key, value: u64, nonce: u32,
    signature: seq<byte>, hash: Digest)

  datatype Link = Null | At(block: Block)

  datatype Block = Block(
    prev: Link, timestamp: u64, merkleRoot: Digest, creator: Key,
    proof: seq<byte>, delegate: u32, transactions: seq<Transaction>,
    signature: seq<byte>, hash: Digest,
    seed: Digest, output: seq<byte>, priority: Digest)

  /** The number of blocks up to and including this one; zero for NULL. */
  function Height(l: Link): nat {
    match l
    case Null => 0
    case At(b) => Height(b.prev) + 1
  }

  /** The branch from its root to the given block. */
  function Chain(l: Link): (c: seq<Block>)
    ensures |c| == Height(l)
  {
    match l
    case Null => []
    case At(b) => Chain(b.prev) + [b]
  }

  /** The priority as memcmp sees it: lower wins. */
  function Priority(b: Block): nat {
    Value(b.priority)
  }

  function HasAncestor(block: Link, ancestor: Link): bool {
    if block == ancestor then true
    else if block.Null? then false
    else if ancestor.Null? then true
    else HasAncestor(block.block.prev, ancestor)
  }

  lemma {:induction false} HasAncestorMeansOnBranch(block: Link, ancestor: Link)
    ensures HasAncestor(block, ancestor) <==> ancestor.Null? || ancestor.block in Chain(block)
  {
    if block.At? && ancestor.At? && block != ancestor {
      HasAncestorMeansOnBranch(block.block.prev, ancestor);
    }
  }

  /** A block on a branch sits at the index its height says, on top of its own branch. */
  lemma {:induction false} ChainThrough(l: Link, b: Block)
    requires b in Chain(l)
    ensures Height(At(b)) <= Height(l)
    ensures Chain(l)[..Height(At(b))] == Chain(At(b))
    ensures Chain(l)[Height(b.prev)] == b
  {
    if l.block != b {
      ChainThrough(l.block.prev, b);
    }
  }

  lemma {:induction false} ChainIndex(l: Link, i: nat)
    requires i < Height(l)
    ensures Height(At(Chain(l)[i])) == i + 1
    ensures Chain(At(Chain(l)[i])) == Chain(l)[..i + 1]
    ensures Chain(Chain(l)[i].prev) == Chain(l)[..i]
    ensures i == 0 ==> Chain(l)[i].prev == Null
    ensures i > 0 ==> Chain(l)[i].prev == At(Chain(l)[i - 1])
  {
    if i + 1 < Height(l) {
      ChainIndex(l.block.prev, i);
    }
  }

  /** A branch is determined by its sequence of blocks. */
  lemma ChainDetermines(l: Link, m: Link)
    requires Chain(l) == Chain(m)
    ensures l == m
  {
    if l.At? {
      assert Chain(l)[Height(l) - 1] == l.block;
      assert Chain(m)[Height(m) - 1] == m.block;
    }
  }
}
