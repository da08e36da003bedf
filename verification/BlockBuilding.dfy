/**
 The procedures that fill in blocks and buffers (src/block.c), against the functions of BlockCodec.
 */
module BlockBuilding {
  import opened Bytes
  import opened Options
  import opened Blocks
  import opened Tuples
  import opened Cryptography
  import opened Merkle
  import opened Transactions
  import opened Ledgers
  import opened Accounts
  import opened BlockCodec
  import Messages

  // ---------- Merkle roots ----------

  method MerkleRootFromList(c: Crypto, txns: seq<Transaction>) returns (root: Digest)
    ensures root == RootOrZero(Pair(c), Hashes(txns))
  {
    var n := |txns|;
    var hashes := new Digest[n](_ => ZERO_DIGEST);
    for i := 0 to n
      invariant forall k :: 0 <= k < i ==> hashes[k] == txns[k].hash
    {
      hashes[i] := txns[i].hash;
    }
    assert hashes[..n] == Hashes(txns);
    ComputeMerkleRoot(Pair(c), hashes, n);
    root := if n > 0 then hashes[0] else ZERO_DIGEST;
  }

  method MerkleRootFromTuple(c: Crypto, txns: Tuple) returns (root: Digest)
    requires TransactionsAreValid(txns)
    ensures root == RootOrZero(Pair(c), RawHashes(c, txns))
  {
    var n := |txns|;
    var hashes := new Digest[n](_ => ZERO_DIGEST);
    ghost var raw := RawHashes(c, txns);
    for i := 0 to n
      invariant forall k :: 0 <= k < i ==> hashes[k] == raw[k]
    {
      hashes[i] := RawHash(c, txns[i].elems[0]);
    }
    assert hashes[..n] == raw;
    ComputeMerkleRoot(Pair(c), hashes, n);
    root := if n > 0 then hashes[0] else ZERO_DIGEST;
  }

  // ---------- writing ----------

  lemma {:induction false} EncodeAllAppend(es: Tuple, e: Element)
    ensures EncodeAll(es + [e]) == EncodeAll(es) + Encode(e)
  {
    if es == [] {
      EncodeOne(e);
      assert es + [e] == [e];
    } else {
      var first, rest := es[0], es[1..];
      EncodeAllAppend(rest, e);
      EncodeAllCons(first, rest + [e]);
      assert es + [e] == [first] + (rest + [e]);
      Associate(Encode(first), EncodeAll(rest), Encode(e));
    }
  }

  lemma Associate(a: seq<byte>, b: seq<byte>, c: seq<byte>)
    ensures (a + b) + c == a + (b + c)
  {
  }

  lemma EncodeOne(e: Element)
    ensures EncodeAll([e]) == Encode(e)
  {
    assert EncodeAll([e]) == Encode(e) + [];
  }

  method WriteHeader(b: Block, buf: DynamicBuffer)
    modifies buf
    ensures buf.data == old(buf.data) + Encode(Tup(Header(b)))
  {
    ghost var before, h := buf.data, Header(b);
    buf.WriteStart();
    buf.WriteU64(b.timestamp);
    Written(before, h, 0, buf.data);
    buf.WriteBinary(LinkHash(b.prev));
    Written(before, h, 1, buf.data);
    buf.WriteBinary(b.merkleRoot);
    Written(before, h, 2, buf.data);
    buf.WriteBinary(b.creator);
    Written(before, h, 3, buf.data);
    buf.WriteBinary(b.proof);
    Written(before, h, 4, buf.data);
    buf.WriteU32(b.delegate);
    Written(before, h, 5, buf.data);
    buf.WriteU32(|b.transactions| % TWO_TO_THE_32);
    Written(before, h, 6, buf.data);
    buf.WriteEnd();
    Closed(before, h, buf.data);
  }

  /** What is in the buffer while the elements of a tuple are being written. */
  ghost function Open(before: seq<byte>, es: Tuple, k: nat): seq<byte>
    requires k <= |es|
  {
    before + [START] + EncodeAll(es[..k])
  }

  lemma Written(before: seq<byte>, es: Tuple, k: nat, data: seq<byte>)
    requires k < |es| && data == Open(before, es, k) + Encode(es[k])
    ensures data == Open(before, es, k + 1)
  {
    EncodeAllAppend(es[..k], es[k]);
    assert es[..k + 1] == es[..k] + [es[k]];
  }

  lemma Closed(before: seq<byte>, es: Tuple, data: seq<byte>)
    requires data == Open(before, es, |es|) + [END]
    ensures data == before + Encode(Tup(es))
  {
    assert es[..|es|] == es;
  }

  method WriteTransactions(txns: seq<Transaction>, buf: DynamicBuffer)
    modifies buf
    ensures buf.data == old(buf.data) + Encode(Tup(TransactionTuples(txns)))
  {
    ghost var before, es := buf.data, TransactionTuples(txns);
    buf.WriteStart();
    for i := 0 to |txns|
      invariant buf.data == Open(before, es, i)
    {
      TransactionWrite(txns[i], buf);
      Written(before, es, i, buf.data);
    }
    buf.WriteEnd();
    Closed(before, es, buf.data);
  }

  method BlockWrite(b: Block, buf: DynamicBuffer)
    modifies buf
    ensures buf.data == old(buf.data) + Encode(Tup(BlockTuple(b)))
  {
    ghost var before, es := buf.data, BlockTuple(b);
    buf.WriteStart();
    WriteHeader(b, buf);
    Written(before, es, 0, buf.data);
    buf.WriteBinary(b.signature);
    Written(before, es, 1, buf.data);
    WriteTransactions(b.transactions, buf);
    Written(before, es, 2, buf.data);
    buf.WriteEnd();
    Closed(before, es, buf.data);
  }

  method ComputeHash(c: Crypto, b: Block) returns (hash: Digest)
    ensures hash == BlockHash(c, b)
  {
    var buf := new DynamicBuffer();
    WriteHeader(b, buf);
    assert buf.data == Encode(Tup(Header(b)));
    hash := c.hash(buf.data);
  }

  /** block_compute_seed: the seed and the key of the previous block in one zeroed buffer. */
  method ComputeSeed(c: Crypto, prev: Link) returns (seed: Digest)
    ensures seed == SeedOn(c, prev)
  {
    var buffer := new byte[64](_ => 0);
    if prev != Null {
      Messages.Store(buffer, 0, prev.block.seed);
      Messages.Store(buffer, DIGEST_BYTES, prev.block.creator);
      assert buffer[..] == prev.block.seed + prev.block.creator;
    } else {
      BigEndianOfZero(64);
      assert buffer[..] == BigEndian(64, 0);
    }
    seed := c.hash(buffer[..]);
  }

  /** The work buffer: the output followed by room for a delegate. */
  method WorkBuffer(output: seq<byte>) returns (work: array<byte>)
    requires |output| == OUTPUT_BYTES
    ensures fresh(work) && work[..] == output + Word32(0)
  {
    work := new byte[OUTPUT_BYTES + 4](_ => 0);
    Messages.Store(work, 0, output);
    BigEndianOfZero(4);
    assert work[..] == output + Word32(0);
  }

  /** Puts a delegate into the buffer and hashes it. */
  method HashDelegate(c: Crypto, work: array<byte>, output: seq<byte>, delegate: u32) returns (priority: Digest)
    requires |output| == OUTPUT_BYTES && work.Length == OUTPUT_BYTES + 4 && work[..OUTPUT_BYTES] == output
    modifies work
    ensures work[..OUTPUT_BYTES] == output && priority == PriorityOf(c, output, delegate)
  {
    Messages.Store(work, OUTPUT_BYTES, Word32(delegate));
    assert work[..] == output + Word32(delegate);
    priority := c.hash(work[..]);
  }

  // ---------- block_create ----------

  /** The loop over the delegates. */
  method ChooseDelegate(c: Crypto, output: seq<byte>, n: u32) returns (delegate: u32, min: Digest)
    requires n > 0 && |output| == OUTPUT_BYTES
    ensures IsBestDelegate(c, output, n, delegate)
    ensures min == PriorityOf(c, output, delegate)
  {
    var work := WorkBuffer(output);
    delegate := 0;
    min := c.hash(work[..]);
    assert work[..OUTPUT_BYTES] == output;
    for i := 1 to n
      invariant work[..OUTPUT_BYTES] == output
      invariant IsBestDelegate(c, output, i, delegate)
      invariant min == PriorityOf(c, output, delegate)
    {
      var tmp := HashDelegate(c, work, output, i);
      MemcmpIsNumericOrder(tmp, min);
      if Memcmp(tmp, min) < 0 {
        delegate := i;
        min := tmp;
      }
    }
  }

  method CountDelegates(store: AccountStore, prev: Link, key: Key) returns (n: u32)
    requires store.Valid() && store.Covers(prev)
    ensures n == DelegatesAt(prev, key)
  {
    n := 0;
    var account := store.GetAccount(prev, key);
    SparseEqualsReplay(prev, key);
    if prev == Null {
      n := 1;
    }
    if account != None {
      n := Delegates(account.value.value);
    }
  }

  /** The block with every field filled in, if the key may stake. */
  method MakeBlock(store: AccountStore, c: Crypto, public: Digest, secret: Secret, prev: Link,
                   txns: seq<Transaction>, now: u64)
    returns (result: Option<Block>)
    requires store.Valid() && store.Covers(prev)
    ensures result.Some? <==> StakingAllowed(prev, public)
    ensures result.Some? ==>
              IsCreated(c, public, secret, prev, txns, result.value) && result.value.timestamp == now
    ensures result == CreatedOn(c, public, secret, prev, txns, now)
  {
    var allowed := store.IsStakingAllowed(prev, public);
    if !allowed {
      return None;
    }
    var root := MerkleRootFromList(c, txns);
    var seed := ComputeSeed(c, prev);
    var proof := c.prove(secret, seed);
    var output := c.proofToHash(proof);

    var delegates := CountDelegates(store, prev, public);
    if delegates == 0 {
      // a key that may stake has a delegate
      assert false;
      return None;
    }
    var delegate, min := ChooseDelegate(c, output, delegates);

    var b := Block(prev, now, root, public, proof, delegate, txns, [], ZERO_DIGEST, seed, output, min);
    var hash := ComputeHash(c, b);
    ghost var header := Header(b);
    b := b.(hash := hash, signature := c.sign(secret, hash));
    assert Header(b) == header;
    CreatedOnIsCreated(c, public, secret, prev, txns, now, b);
    result := Some(b);
  }

  /** Succeeds exactly when the key may stake; the new block gets its account map. */
  method BlockCreate(store: AccountStore, c: Crypto, public: Digest, secret: Secret, prev: Link,
                     txns: seq<Transaction>, now: u64, bucket: Key -> nat)
    returns (result: Option<Block>)
    requires store.Valid() && store.Covers(prev)
    modifies store
    ensures store.Valid() && fresh(store.Repr - old(store.Repr))
    ensures result.Some? <==> StakingAllowed(prev, public)
    ensures result.Some? ==>
              && IsCreated(c, public, secret, prev, txns, result.value) && result.value.timestamp == now
              && store.Covers(At(result.value))
    ensures result == CreatedOn(c, public, secret, prev, txns, now)
  {
    result := MakeBlock(store, c, public, secret, prev, txns, now);
    if result != None {
      var valid := store.Confirm(result.value, bucket);
      assert valid;
    }
  }

  // ---------- block_create_from_tuple ----------

  method CheckBlock(c: Crypto, tuple: Tuple) returns (valid: bool)
    ensures valid == BlockIsValid(c, tuple)
  {
    if |tuple| != 3 || !tuple[0].Tup? || !tuple[1].Bin? || !tuple[2].Tup? {
      return false;
    }
    var header, txns := tuple[0].elems, tuple[2].elems;
    if !HeaderIsValid(header) || |txns| != header[6].u32 {
      return false;
    }
    for i := 0 to |txns|
      invariant forall k :: 0 <= k < i ==> txns[k].Tup? && TransactionIsValid(txns[k].elems)
    {
      if !txns[i].Tup? || !TransactionIsValid(txns[i].elems) {
        return false;
      }
    }
    var root := MerkleRootFromTuple(c, txns);
    MemcmpIsNumericOrder(root, header[2].bin);
    valid := Memcmp(root, header[2].bin) == 0;
  }

  method CreateTransactions(c: Crypto, txns: Tuple) returns (result: Option<seq<Transaction>>)
    requires TransactionsAreValid(txns)
    ensures result == if AllRebuild(c, txns) then Some(RebuiltTransactions(c, txns)) else None
  {
    var list: seq<Transaction> := [];
    for i := 0 to |txns|
      invariant |list| == i
      invariant forall k :: 0 <= k < i ==> FromTuple(c, txns[k].elems) == Some(list[k])
    {
      var txn := FromTuple(c, txns[i].elems);
      if txn == None {
        return None;
      }
      list := list + [txn.value];
    }
    assert list == RebuiltTransactions(c, txns);
    result := Some(list);
  }

  /** The check of the delegate, made on top of a block only. */
  method DelegateIsValid(store: AccountStore, prev: Link, creator: Key, delegate: u32) returns (valid: bool)
    requires store.Valid() && store.Covers(prev) && StakingAllowed(prev, creator)
    ensures valid <==> prev.At? ==> delegate < DelegatesAt(prev, creator)
  {
    if prev != Null {
      var account := store.GetAccount(prev, creator);
      SparseEqualsReplay(prev, creator);
      VersionsVisitTouchingBlocks(prev, creator);
      if account != None && delegate >= Delegates(account.value.value) {
        return false;
      }
    }
    valid := true;
  }

  /** Fills in the struct from the tuple's fields. */
  method FillIn(c: Crypto, tuple: Tuple, prev: Link, output: Output, transactions: seq<Transaction>) returns (b: Block)
    requires BlockIsValid(c, tuple) && |tuple[1].bin| <= SIGNATURE_BYTES && AllRebuild(c, tuple[2].elems)
    requires transactions == RebuiltTransactions(c, tuple[2].elems)
    ensures b == Described(c, tuple, prev, output)
  {
    var h := tuple[0].elems;
    var seed := ComputeSeed(c, prev);
    var work := WorkBuffer(output);
    assert work[..OUTPUT_BYTES] == output;
    var priority := HashDelegate(c, work, output, h[5].u32);
    b := Block(prev, h[0].u64, h[2].bin, h[3].bin, h[4].bin, h[5].u32, transactions,
               Padded(tuple[1].bin), ZERO_DIGEST, seed, output, priority);
    var hash := ComputeHash(c, b);
    b := b.(hash := hash);
  }

  /** Every check up to the signature. */
  method ReadBlock(store: AccountStore, c: Crypto, tuple: Tuple, find: Digest -> Link) returns (result: Option<Block>)
    requires store.Valid() && forall h :: store.Covers(find(h))
    ensures result == Rebuild(c, tuple, find)
  {
    var valid := CheckBlock(c, tuple);
    if !valid || |tuple[1].bin| > SIGNATURE_BYTES {
      return None;
    }
    var header, txns := tuple[0].elems, tuple[2].elems;
    var prev, creator := find(header[1].bin), header[3].bin;

    valid := store.IsStakingAllowed(prev, creator);
    if !valid {
      return None;
    }
    var seed := ComputeSeed(c, prev);
    var output := c.vrfVerify(creator, header[4].bin, seed);
    if output == None {
      return None;
    }
    valid := DelegateIsValid(store, prev, creator, header[5].u32);
    if !valid {
      return None;
    }
    var transactions := CreateTransactions(c, txns);
    if transactions == None {
      return None;
    }
    var b := FillIn(c, tuple, prev, output.value, transactions.value);
    if !c.verify(b.signature, b.hash, b.creator) {
      return None;
    }
    result := Some(b);
  }

  method BlockCreateFromTuple(store: AccountStore, c: Crypto, tuple: Tuple, find: Digest -> Link, bucket: Key -> nat)
    returns (result: Option<Block>)
    requires store.Valid() && forall h :: store.Covers(find(h))
    modifies store
    ensures store.Valid() && fresh(store.Repr - old(store.Repr))
    ensures result == Rebuild(c, tuple, find)
    ensures result.Some? ==> store.Covers(At(result.value))
  {
    result := ReadBlock(store, c, tuple, find);
    if result != None {
      var valid := store.Confirm(result.value, bucket);
      assert valid;
    }
  }
}
