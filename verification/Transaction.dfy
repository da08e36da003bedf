/**
 Transactions and their tuples (src/transaction.c).
 */
module Transactions {
  import opened Bytes
  import opened Options
  import opened Blocks
  import opened Tuples
  import opened Cryptography

  /** The signed part of a transaction. */
  function Body(t: Transaction): Tuple {
    [Bin(t.sender), Bin(t.recipient), U64(t.value), U32(t.nonce)]
  }

  function ToTuple(t: Transaction): Tuple {
    [Tup(Body(t)), Bin(t.signature)]
  }

  function TransactionHash(c: Crypto, t: Transaction): Digest {
    c.hash(Encode(Tup(Body(t))))
  }

  predicate IsDigest(e: Element) {
    e.Bin? && |e.bin| == DIGEST_BYTES
  }

  /** The program asserts that the inner tuple has the elements it reads; it does not ask whether there are more. */
  predicate TransactionIsValid(tuple: Tuple) {
    && |tuple| == 2
    && tuple[0].Tup?
    && tuple[1].Bin? && |tuple[1].bin| == SIGNATURE_BYTES
    && var body := tuple[0].elems;
       && |body| >= 4
       && IsDigest(body[0]) && IsDigest(body[1]) && body[2].U64? && body[3].U32?
  }

  /** The transaction with the tuple's fields and the hash recomputed from them. */
  function Fields(c: Crypto, tuple: Tuple): Transaction
    requires TransactionIsValid(tuple)
  {
    var body := tuple[0].elems;
    var t := Transaction(body[0].bin, body[1].bin, body[2].u64, body[3].u32, tuple[1].bin, ZERO_DIGEST);
    t.(hash := TransactionHash(c, t))
  }

  function FromTuple(c: Crypto, tuple: Tuple): Option<Transaction> {
    if !TransactionIsValid(tuple) then None
    else
      var t := Fields(c, tuple);
      if c.verify(t.signature, t.hash, t.sender) then Some(t) else None
  }

  /** The hash is the hash of the body and the sender has signed it. */
  ghost predicate Signed(c: Crypto, t: Transaction) {
    && t.hash == TransactionHash(c, t)
    && |t.signature| == SIGNATURE_BYTES
    && c.verify(t.signature, t.hash, t.sender)
  }

  /** transaction_create fills in the struct, hashes it and signs the hash. */
  method TransactionCreate(c: Crypto, public: Digest, secret: Secret, recipient: Digest, value: u64, nonce: u32)
    returns (t: Transaction)
    ensures t.sender == public && t.recipient == recipient && t.value == value && t.nonce == nonce
    ensures t.hash == TransactionHash(c, t) && t.signature == c.sign(secret, t.hash)
    ensures KeyPair(c, public, secret) ==> Signed(c, t)
  {
    var buf := new DynamicBuffer();
    t := Transaction(public, recipient, value, nonce, [], ZERO_DIGEST);
    WriteBody(t, buf);
    ghost var body := Body(t);
    assert buf.data == Encode(Tup(body));
    t := t.(hash := c.hash(buf.data));
    t := t.(signature := c.sign(secret, t.hash));
    assert Body(t) == body;
  }

  method WriteBody(t: Transaction, buf: DynamicBuffer)
    modifies buf
    ensures buf.data == old(buf.data) + Encode(Tup(Body(t)))
  {
    BodyEncoding(t);
    buf.WriteStart();
    buf.WriteBinary(t.sender);
    buf.WriteBinary(t.recipient);
    buf.WriteU64(t.value);
    buf.WriteU32(t.nonce);
    buf.WriteEnd();
  }

  method TransactionWrite(t: Transaction, buf: DynamicBuffer)
    modifies buf
    ensures buf.data == old(buf.data) + Encode(Tup(ToTuple(t)))
  {
    ToTupleEncoding(t);
    buf.WriteStart();
    WriteBody(t, buf);
    buf.WriteBinary(t.signature);
    buf.WriteEnd();
  }

  lemma EncodeAllStep(es: Tuple)
    requires es != []
    ensures EncodeAll(es) == Encode(es[0]) + EncodeAll(es[1..])
  {
  }

  lemma EncodeTwo(a: Element, b: Element)
    ensures EncodeAll([a, b]) == Encode(a) + Encode(b)
  {
    assert [a, b][1..] == [b];
    assert EncodeAll([b]) == Encode(b) + [];
  }

  lemma BodyEncoding(t: Transaction)
    ensures Encode(Tup(Body(t))) == [START] + Encode(Bin(t.sender)) + Encode(Bin(t.recipient))
                                    + Encode(U64(t.value)) + Encode(U32(t.nonce)) + [END]
  {
    var b := Body(t);
    EncodeTwo(b[2], b[3]);
    assert b[1..][1..] == [b[2], b[3]];
    EncodeAllStep(b);
    EncodeAllStep(b[1..]);
  }

  lemma ToTupleEncoding(t: Transaction)
    ensures Encode(Tup(ToTuple(t))) == [START] + Encode(Tup(Body(t))) + Encode(Bin(t.signature)) + [END]
  {
    EncodeTwo(Tup(Body(t)), Bin(t.signature));
  }

  /** A transaction survives being written and rebuilt exactly when it is properly signed. */
  lemma TransactionRoundTrip(c: Crypto, t: Transaction)
    ensures FromTuple(c, ToTuple(t)) == Some(t) <==> Signed(c, t)
  {
    var tuple := ToTuple(t);
    if |t.signature| == SIGNATURE_BYTES {
      assert TransactionIsValid(tuple);
      assert Body(Fields(c, tuple)) == Body(t);
    }
  }

  /** Rebuilding accepts only properly signed transactions, whatever the tuple. */
  lemma RebuiltIsSigned(c: Crypto, tuple: Tuple)
    requires FromTuple(c, tuple).Some?
    ensures Signed(c, FromTuple(c, tuple).value)
  {
    assert Body(Fields(c, tuple)) == Body(Fields(c, tuple).(hash := ZERO_DIGEST));
  }

  /** The bytes hashed for a tuple are those hashed for its transaction exactly when it has no extra elements. */
  lemma RawBodyIsBody(c: Crypto, tuple: Tuple)
    requires TransactionIsValid(tuple) && AllFit(tuple[0].elems)
    ensures Encode(tuple[0]) == Encode(Tup(Body(Fields(c, tuple)))) <==> |tuple[0].elems| == 4
  {
    var body, written := tuple[0].elems, Body(Fields(c, tuple));
    BodyFits(Fields(c, tuple));
    if |body| == 4 {
      assert body == written;
    } else if Encode(Tup(body)) == Encode(Tup(written)) {
      EncodingIsPrefixFree(body, written);
    }
  }

  lemma BodyFits(t: Transaction)
    ensures AllFit(Body(t))
  {
    var b := Body(t);
    assert AllFit(b[1..][1..][1..][1..]);
    assert AllFit(b[1..][1..][1..]);
    assert AllFit(b[1..][1..]);
    assert AllFit(b[1..]);
  }

  lemma ToTupleFits(t: Transaction)
    requires |t.signature| == SIGNATURE_BYTES
    ensures AllFit(ToTuple(t)) && TransactionIsValid(ToTuple(t))
  {
    BodyFits(t);
    assert AllFit(ToTuple(t)[1..][1..]);
    assert AllFit(ToTuple(t)[1..]);
  }
}
