/**
 The Merkle root over a list of hashes (compute_merkle_root in src/block.c).

 `Root` follows the program: hash adjacent pairs, carry an odd last hash over, repeat. `Tree` is
 the reference it is proved equal to: a binary tree whose left half is as large a power of two
 as there is below the number of leaves.
 */
module Merkle {
  import opened Bytes

  /** The hash of two hashes next to each other. */
  type Pairing = (Digest, Digest) -> Digest

  function Level(h: Pairing, s: seq<Digest>): (r: seq<Digest>)
    ensures |r| == (|s| + 1) / 2
  {
    if |s| <= 1 then s else [h(s[0], s[1])] + Level(h, s[2..])
  }

  function Root(h: Pairing, s: seq<Digest>): Digest
    requires s != []
    decreases |s|
  {
    if |s| == 1 then s[0] else Root(h, Level(h, s))
  }

  /** An empty list has the root of all zeros. */
  function RootOrZero(h: Pairing, s: seq<Digest>): Digest {
    if s == [] then ZERO_DIGEST else Root(h, s)
  }

  // ---------- the reduction in place ----------

  lemma {:induction false} LevelAt(h: Pairing, s: seq<Digest>, k: nat)
    requires k < |Level(h, s)|
    ensures Level(h, s)[k] == if 2 * k + 1 < |s| then h(s[2 * k], s[2 * k + 1]) else s[2 * k]
  {
    if |s| > 1 && k > 0 {
      LevelAt(h, s[2..], k - 1);
    }
  }

  method ComputeMerkleRoot(h: Pairing, hashes: array<Digest>, n: nat)
    requires n <= hashes.Length
    modifies hashes
    ensures n > 0 ==> hashes[0] == Root(h, old(hashes[..n]))
    ensures forall k :: n <= k < hashes.Length ==> hashes[k] == old(hashes[k])
    decreases n
  {
    if n <= 1 {
      return;
    }
    ghost var s := hashes[..n];
    var i, j := 0, 0;
    while j < n
      invariant j == 2 * i <= n + 1
      invariant forall k :: 0 <= k < i ==> hashes[k] == Level(h, s)[k]
      invariant forall k :: (j <= k || n <= k) && k < hashes.Length ==> hashes[k] == old(hashes[k])
      decreases n - j
    {
      LevelAt(h, s, i);
      if j + 1 == n {
        hashes[i] := hashes[j];
      } else {
        hashes[i] := h(hashes[j], hashes[j + 1]);
      }
      j := j + 2;
      i := i + 1;
    }
    ghost var level := hashes[..i];
    assert level == Level(h, s);
    ComputeMerkleRoot(h, hashes, i);
    assert hashes[0] == Root(h, level);
  }

  // ---------- the tree ----------

  predicate IsPowerOfTwo(k: nat) {
    k == 1 || (k > 1 && k % 2 == 0 && IsPowerOfTwo(k / 2))
  }

  /** The largest power of two below n. */
  function Split(n: nat): (k: nat)
    requires n >= 2
    ensures IsPowerOfTwo(k) && k < n <= 2 * k
  {
    if n == 2 then 1 else 2 * Split((n + 1) / 2)
  }

  function Tree(h: Pairing, s: seq<Digest>): Digest
    requires s != []
    decreases |s|
  {
    if |s| == 1 then s[0]
    else h(Tree(h, s[..Split(|s|)]), Tree(h, s[Split(|s|)..]))
  }

  lemma {:induction false} LevelSplits(h: Pairing, s: seq<Digest>, k: nat)
    requires 2 * k <= |s|
    ensures Level(h, s)[..k] == Level(h, s[..2 * k])
    ensures Level(h, s)[k..] == Level(h, s[2 * k..])
  {
    if k > 0 {
      LevelSplits(h, s[2..], k - 1);
      assert s[2..][2 * (k - 1)..] == s[2 * k..];
      assert s[2..][..2 * (k - 1)] == s[..2 * k][2..];
    }
  }

  lemma {:induction false} LevelKeepsTree(h: Pairing, s: seq<Digest>)
    requires s != []
    ensures Tree(h, Level(h, s)) == Tree(h, s)
    decreases |s|
  {
    if |s| == 2 {
      assert Level(h, s) == [h(s[0], s[1])];
    } else if |s| > 2 {
      var k := Split((|s| + 1) / 2);
      LevelSplits(h, s, k);
      LevelKeepsTree(h, s[..2 * k]);
      LevelKeepsTree(h, s[2 * k..]);
    }
  }

  /** The level-by-level reduction computes the tree. */
  lemma {:induction false} RootIsTree(h: Pairing, s: seq<Digest>)
    requires s != []
    ensures Root(h, s) == Tree(h, s)
    decreases |s|
  {
    if |s| > 1 {
      LevelKeepsTree(h, s);
      RootIsTree(h, Level(h, s));
    }
  }

  // ---------- what a root commits to ----------

  /** The pairs that are hashed on the way to the root. */
  ghost function Pairs(h: Pairing, s: seq<Digest>): set<(Digest, Digest)>
    decreases |s|
  {
    if |s| <= 1 then {}
    else
      var left, right := s[..Split(|s|)], s[Split(|s|)..];
      {(Tree(h, left), Tree(h, right))} + Pairs(h, left) + Pairs(h, right)
  }

  ghost predicate CollisionFree(h: Pairing, pairs: set<(Digest, Digest)>) {
    forall p, q :: p in pairs && q in pairs && h(p.0, p.1) == h(q.0, q.1) ==> p == q
  }

  lemma {:induction false} TreeBinds(h: Pairing, s: seq<Digest>, t: seq<Digest>)
    requires |s| == |t| > 0 && Tree(h, s) == Tree(h, t)
    requires CollisionFree(h, Pairs(h, s) + Pairs(h, t))
    ensures s == t
    decreases |s|
  {
    if |s| > 1 {
      var k := Split(|s|);
      assert (Tree(h, s[..k]), Tree(h, s[k..])) in Pairs(h, s);
      assert (Tree(h, t[..k]), Tree(h, t[k..])) in Pairs(h, t);
      TreeBinds(h, s[..k], t[..k]);
      TreeBinds(h, s[k..], t[k..]);
      assert s == s[..k] + s[k..] && t == t[..k] + t[k..];
    }
  }

  /** The root and the count together determine the leaves, as long as no two of the pairs hashed collide. */
  lemma RootAndCountBind(h: Pairing, s: seq<Digest>, t: seq<Digest>)
    requires |s| == |t|
    requires CollisionFree(h, Pairs(h, s) + Pairs(h, t))
    ensures RootOrZero(h, s) == RootOrZero(h, t) <==> s == t
  {
    if s != [] && RootOrZero(h, s) == RootOrZero(h, t) {
      RootIsTree(h, s);
      RootIsTree(h, t);
      TreeBinds(h, s, t);
    }
  }

  /** The root alone determines nothing: every list of two or more hashes has the root of a shorter one. */
  lemma RootAloneDoesNotBind(h: Pairing, s: seq<Digest>)
    requires |s| >= 2
    ensures exists t :: |t| < |s| && RootOrZero(h, t) == RootOrZero(h, s)
  {
    assert RootOrZero(h, Level(h, s)) == RootOrZero(h, s);
  }

  lemma RootOfThree(h: Pairing, a: Digest, b: Digest, c: Digest)
    ensures Root(h, [a, b, c]) == h(h(a, b), c)
  {
    assert Level(h, [a, b, c]) == [h(a, b), c];
    assert Level(h, [h(a, b), c]) == [h(h(a, b), c)];
    assert Root(h, [h(a, b), c]) == Root(h, [h(h(a, b), c)]);
  }

  /** Pairs are hashed left to right, and an odd last hash is carried over until it meets the rest. */
  lemma RootOfFive(h: Pairing, a: Digest, b: Digest, c: Digest, d: Digest, e: Digest)
    ensures RootOrZero(h, [a, b, c, d, e]) == h(h(h(a, b), h(c, d)), e)
    ensures RootOrZero(h, [a]) == a && RootOrZero(h, []) == ZERO_DIGEST
  {
    var s := [a, b, c, d, e];
    assert s[2..] == [c, d, e] && [c, d, e][2..] == [e];
    assert Level(h, [c, d, e]) == [h(c, d), e];
    assert Level(h, s) == [h(a, b), h(c, d), e];
    RootOfThree(h, h(a, b), h(c, d), e);
  }
}
