/**
 Account balances on a branch (src/block.c).

 `Replay` is the reference: run every coinbase and every transfer of the branch from its root
 over one table, in the arithmetic of uint64_t. The program instead keeps, for each block, a
 small map of the accounts that block touches; an account version points to the version before it.
 */
module Ledgers {
  import opened Bytes
  import opened Options
  import opened Blocks

  const COINBASE_TRANSACTION := 1024
  const DELEGATE_VALUE := 1024
  const WAITING_PERIOD := 16

  type Balances = map<Key, u64>

  /** uint64_t addition of a signed amount. */
  function Wrap(v: int): u64 {
    v % TWO_TO_THE_64
  }

  function BalanceIn(m: Balances, k: Key): u64 {
    if k in m then m[k] else 0
  }

  function Adjust(m: Balances, k: Key, amount: int): Balances {
    m[k := Wrap(BalanceIn(m, k) + amount)]
  }

  function Transfer(m: Balances, t: Transaction): Balances {
    Adjust(Adjust(m, t.sender, -(t.value as int)), t.recipient, t.value)
  }

  function TransferAll(m: Balances, ts: seq<Transaction>): Balances {
    if ts == [] then m
    else Transfer(TransferAll(m, ts[..|ts| - 1]), ts[|ts| - 1])
  }

  /** The table after the coinbase of b, before its transfers. */
  function Opening(b: Block): Balances {
    Adjust(Replay(b.prev), b.creator, COINBASE_TRANSACTION)
  }

  function Replay(l: Link): Balances {
    match l
    case Null => map[]
    case At(b) => TransferAll(Opening(b), b.transactions)
  }

  // ---------- sparse account versions ----------

  /** One version of an account: the block that wrote it and the version it replaced. */
  datatype Account = Account(value: u64, prev: Option<Account>, block: Block)

  predicate Moves(ts: seq<Transaction>, k: Key) {
    exists t :: t in ts && (t.sender == k || t.recipient == k)
  }

  predicate Touches(b: Block, k: Key) {
    b.creator == k || Moves(b.transactions, k)
  }

  /** The version of an account in force at l: written by the nearest block that touches the key. */
  function AccountAt(l: Link, k: Key): Option<Account> {
    match l
    case Null => None
    case At(b) =>
      if Touches(b, k) then Some(Account(BalanceIn(Replay(l), k), AccountAt(b.prev, k), b))
      else AccountAt(b.prev, k)
  }

  lemma {:induction false} TransferAllTouches(m: Balances, ts: seq<Transaction>, k: Key)
    ensures k in TransferAll(m, ts) <==> k in m || Moves(ts, k)
    ensures !Moves(ts, k) ==> BalanceIn(TransferAll(m, ts), k) == BalanceIn(m, k)
  {
    if ts != [] {
      var n := |ts| - 1;
      TransferAllTouches(m, ts[..n], k);
      assert ts == ts[..n] + [ts[n]];
    }
  }

  /** The sparse versions tell exactly the replayed balances, for every branch and key. */
  lemma {:induction false} SparseEqualsReplay(l: Link, k: Key)
    ensures AccountAt(l, k).Some? <==> k in Replay(l)
    ensures AccountAt(l, k).Some? ==> AccountAt(l, k).value.value == Replay(l)[k]
  {
    if l.At? {
      SparseEqualsReplay(l.block.prev, k);
      TransferAllTouches(Opening(l.block), l.block.transactions, k);
    }
  }

  // ---------- the chain of versions ----------

  /** The blocks of the branch that touch the key, from the leaf to the root. */
  function Touching(l: Link, k: Key): seq<Block> {
    match l
    case Null => []
    case At(b) => (if Touches(b, k) then [b] else []) + Touching(b.prev, k)
  }

  /** The blocks visited by following prev from an account version. */
  function Visited(a: Account): seq<Block> {
    [a.block] + (if a.prev.Some? then Visited(a.prev.value) else [])
  }

  function Oldest(a: Account): (o: Account)
    ensures o.prev.None?
    ensures o.block == Visited(a)[|Visited(a)| - 1]
  {
    if a.prev.Some? then Oldest(a.prev.value) else a
  }

  /** Following prev visits exactly the blocks of the branch that touch the key. */
  lemma {:induction false} VersionsVisitTouchingBlocks(l: Link, k: Key)
    ensures AccountAt(l, k).None? <==> Touching(l, k) == []
    ensures AccountAt(l, k).Some? ==> Visited(AccountAt(l, k).value) == Touching(l, k)
  {
    if l.At? {
      VersionsVisitTouchingBlocks(l.block.prev, k);
    }
  }

  lemma {:induction false} TouchingIsExact(l: Link, k: Key)
    ensures forall b :: b in Touching(l, k) <==> b in Chain(l) && Touches(b, k)
    ensures forall b :: b in Touching(l, k) ==> Height(At(b)) <= Height(l)
  {
    if l.At? {
      TouchingIsExact(l.block.prev, k);
    }
  }

  lemma {:induction false} TouchingDescends(l: Link, k: Key, i: nat, j: nat)
    requires i < j < |Touching(l, k)|
    ensures Height(At(Touching(l, k)[i])) > Height(At(Touching(l, k)[j]))
  {
    var rest := Touching(l.block.prev, k);
    if !Touches(l.block, k) {
      TouchingDescends(l.block.prev, k, i, j);
    } else if i > 0 {
      TouchingDescends(l.block.prev, k, i - 1, j - 1);
    } else {
      TouchingIsExact(l.block.prev, k);
      assert Touching(l, k)[j] == rest[j - 1] && rest[j - 1] in rest;
    }
  }

  // ---------- staking ----------

  /** account_get_delegates, stored into a uint32_t. */
  function Delegates(value: u64): u32 {
    (value / DELEGATE_VALUE) % TWO_TO_THE_32
  }

  /** The first block of the branch that touched the key is at least a waiting period below l. */
  predicate Aged(l: Link, k: Key)
    requires Touching(l, k) != []
  {
    Height(At(Touching(l, k)[|Touching(l, k)| - 1])) + WAITING_PERIOD <= Height(l)
  }

  predicate StakingAllowed(l: Link, k: Key) {
    l.Null? ||
    (&& Touching(l, k) != []
     && Delegates(BalanceIn(Replay(l), k)) != 0
     && (Height(l) <= WAITING_PERIOD || Aged(l, k)))
  }

  lemma {:induction false} FirstTouchIsInherited(l: Link, m: Link, k: Key)
    requires HasAncestor(m, l) && Touching(l, k) != []
    ensures Height(l) <= Height(m) && Touching(m, k) != []
    ensures Touching(m, k)[|Touching(m, k)| - 1] == Touching(l, k)[|Touching(l, k)| - 1]
  {
    if m != l {
      FirstTouchIsInherited(l, m.block.prev, k);
    }
  }

  /** Once an account is old enough it stays so on every descendant, where only its balance decides. */
  lemma AgeIsForever(l: Link, m: Link, k: Key)
    requires HasAncestor(m, l) && Touching(l, k) != [] && Aged(l, k)
    ensures Touching(m, k) != [] && Aged(m, k)
    ensures m.At? ==> (StakingAllowed(m, k) <==> Delegates(BalanceIn(Replay(m), k)) != 0)
  {
    FirstTouchIsInherited(l, m, k);
  }

  // ---------- conservation ----------

  ghost function Total(m: Balances): nat {
    if m == map[] then 0
    else var k :| k in m; m[k] + Total(m - {k})
  }

  lemma {:induction false} TotalSplit(m: Balances, k: Key)
    requires k in m
    ensures Total(m) == m[k] + Total(m - {k})
    decreases |m|
  {
    var j :| j in m && Total(m) == m[j] + Total(m - {j});
    if j != k {
      TotalSplit(m - {j}, k);
      TotalSplit(m - {k}, j);
      assert m - {j} - {k} == m - {k} - {j};
    }
  }

  lemma TotalAfterSet(m: Balances, k: Key, v: u64)
    ensures Total(m[k := v]) == Total(m) - BalanceIn(m, k) + v
    ensures BalanceIn(m, k) <= Total(m)
  {
    TotalSplit(m[k := v], k);
    assert m[k := v] - {k} == m - {k};
    if k in m {
      TotalSplit(m, k);
    } else {
      assert m - {k} == m;
    }
  }

  predicate Overdraws(m: Balances, t: Transaction) {
    BalanceIn(m, t.sender) < t.value
  }

  /** The credit side of the transfer exceeds uint64_t. */
  predicate CreditWraps(m: Balances, t: Transaction) {
    BalanceIn(Adjust(m, t.sender, -(t.value as int)), t.recipient) + t.value >= TWO_TO_THE_64
  }

  function OverdraftsIn(m: Balances, ts: seq<Transaction>): nat {
    if ts == [] then 0
    else
      var n := |ts| - 1;
      OverdraftsIn(m, ts[..n]) + (if Overdraws(TransferAll(m, ts[..n]), ts[n]) then 1 else 0)
  }

  function WrapsIn(m: Balances, ts: seq<Transaction>): nat {
    if ts == [] then 0
    else
      var n := |ts| - 1;
      WrapsIn(m, ts[..n]) + (if CreditWraps(TransferAll(m, ts[..n]), ts[n]) then 1 else 0)
  }

  /** How many transfers of the branch spent more than the sender had. */
  function Overdrafts(l: Link): nat {
    match l
    case Null => 0
    case At(b) => Overdrafts(b.prev) + OverdraftsIn(Opening(b), b.transactions)
  }

  /** How many credits of the branch, coinbases included, exceeded uint64_t. */
  function Wraps(l: Link): nat {
    match l
    case Null => 0
    case At(b) =>
      Wraps(b.prev)
      + (if BalanceIn(Replay(b.prev), b.creator) + COINBASE_TRANSACTION >= TWO_TO_THE_64 then 1 else 0)
      + WrapsIn(Opening(b), b.transactions)
  }

  lemma WrapIsExact(v: int)
    requires -TWO_TO_THE_64 <= v < 2 * TWO_TO_THE_64
    ensures Wrap(v) == if v < 0 then v + TWO_TO_THE_64 else if v < TWO_TO_THE_64 then v else v - TWO_TO_THE_64
  {
  }

  /** What one adjustment adds to the total, the wrap in either direction included. */
  lemma AdjustTotal(m: Balances, k: Key, amount: int)
    requires -TWO_TO_THE_64 < amount < TWO_TO_THE_64
    ensures var v := BalanceIn(m, k) + amount;
            Total(Adjust(m, k, amount)) ==
            Total(m) + amount + (if v < 0 then TWO_TO_THE_64 else if v >= TWO_TO_THE_64 then -TWO_TO_THE_64 else 0)
  {
    WrapIsExact(BalanceIn(m, k) + amount);
    TotalAfterSet(m, k, Wrap(BalanceIn(m, k) + amount));
  }

  lemma TransferTotal(m: Balances, t: Transaction)
    ensures Total(Transfer(m, t)) ==
            Total(m) + (if Overdraws(m, t) then TWO_TO_THE_64 else 0) - (if CreditWraps(m, t) then TWO_TO_THE_64 else 0)
  {
    AdjustTotal(m, t.sender, -(t.value as int));
    AdjustTotal(Adjust(m, t.sender, -(t.value as int)), t.recipient, t.value);
  }

  lemma {:induction false} TransferAllTotal(m: Balances, ts: seq<Transaction>)
    ensures Total(TransferAll(m, ts)) == Total(m) + TWO_TO_THE_64 * (OverdraftsIn(m, ts) - WrapsIn(m, ts))
  {
    if ts != [] {
      var n := |ts| - 1;
      TransferAllTotal(m, ts[..n]);
      TransferTotal(TransferAll(m, ts[..n]), ts[n]);
    }
  }

  /** The exact accounting identity of the code as written, for every branch. */
  lemma {:induction false} SupplyIdentity(l: Link)
    ensures Total(Replay(l)) == COINBASE_TRANSACTION * Height(l) + TWO_TO_THE_64 * (Overdrafts(l) - Wraps(l))
  {
    if l.At? {
      var b := l.block;
      SupplyIdentity(b.prev);
      AdjustTotal(Replay(b.prev), b.creator, COINBASE_TRANSACTION);
      TransferAllTotal(Opening(b), b.transactions);
    }
  }

  /** As written, the supply is 1024 per block modulo 2^64; it is exact just when overdrafts and wraps balance out. */
  lemma SupplyModulo(l: Link)
    ensures Total(Replay(l)) % TWO_TO_THE_64 == (COINBASE_TRANSACTION * Height(l)) % TWO_TO_THE_64
    ensures Total(Replay(l)) == COINBASE_TRANSACTION * Height(l) <==> Overdrafts(l) == Wraps(l)
  {
    SupplyIdentity(l);
    ModuloShift(COINBASE_TRANSACTION * Height(l), Overdrafts(l) - Wraps(l));
  }

  lemma ModuloShift(a: int, q: int)
    ensures (a + TWO_TO_THE_64 * q) % TWO_TO_THE_64 == a % TWO_TO_THE_64
  {
    var n := TWO_TO_THE_64;
    assert a + n * q == n * (a / n + q) + a % n;
  }

  // ---------- the intended overdraft check ----------

  lemma {:induction false} CoveredTransfersDoNotWrap(m: Balances, ts: seq<Transaction>)
    requires OverdraftsIn(m, ts) == 0 && Total(m) < TWO_TO_THE_64
    ensures WrapsIn(m, ts) == 0 && Total(TransferAll(m, ts)) == Total(m)
  {
    if ts != [] {
      var n := |ts| - 1;
      CoveredTransfersDoNotWrap(m, ts[..n]);
      var before, t := TransferAll(m, ts[..n]), ts[n];
      var m1 := Adjust(before, t.sender, -(t.value as int));
      AdjustTotal(before, t.sender, -(t.value as int));
      TotalAfterSet(m1, t.recipient, 0);
      TransferTotal(before, t);
    }
  }

  /** Where every transfer is covered, the supply is exactly 1024 per block and nothing ever wraps. */
  lemma {:induction false} CoveredSupplyIsExact(l: Link)
    requires Overdrafts(l) == 0 && Height(l) < TWO_TO_THE_32
    ensures Total(Replay(l)) == COINBASE_TRANSACTION * Height(l) && Wraps(l) == 0
  {
    if l.At? {
      var b := l.block;
      CoveredSupplyIsExact(b.prev);
      AdjustTotal(Replay(b.prev), b.creator, COINBASE_TRANSACTION);
      TotalAfterSet(Replay(b.prev), b.creator, 0);
      CoveredTransfersDoNotWrap(Opening(b), b.transactions);
    }
  }

  /** Then no key has more delegates than the branch has blocks, and the narrowing to uint32_t loses nothing. */
  lemma CoveredDelegates(l: Link, k: Key)
    requires Overdrafts(l) == 0 && Height(l) < TWO_TO_THE_32
    ensures Delegates(BalanceIn(Replay(l), k)) == BalanceIn(Replay(l), k) / DELEGATE_VALUE <= Height(l)
  {
    CoveredSupplyIsExact(l);
    TotalAfterSet(Replay(l), k, 0);
  }

  // ---------- what a balance is made of ----------

  /** How many of the blocks the key created. */
  function BlocksBy(chain: seq<Block>, k: Key): nat {
    if chain == [] then 0
    else BlocksBy(chain[..|chain| - 1], k) + (if chain[|chain| - 1].creator == k then 1 else 0)
  }

  /** The sum of the values the key is paid by the transactions. */
  function PaidTo(ts: seq<Transaction>, k: Key): nat {
    if ts == [] then 0
    else PaidTo(ts[..|ts| - 1], k) + (if ts[|ts| - 1].recipient == k then ts[|ts| - 1].value else 0)
  }

  /** The sum of the values the key pays in the transactions. */
  function PaidBy(ts: seq<Transaction>, k: Key): nat {
    if ts == [] then 0
    else PaidBy(ts[..|ts| - 1], k) + (if ts[|ts| - 1].sender == k then ts[|ts| - 1].value else 0)
  }

  function Received(chain: seq<Block>, k: Key): nat {
    if chain == [] then 0
    else Received(chain[..|chain| - 1], k) + PaidTo(chain[|chain| - 1].transactions, k)
  }

  function Sent(chain: seq<Block>, k: Key): nat {
    if chain == [] then 0
    else Sent(chain[..|chain| - 1], k) + PaidBy(chain[|chain| - 1].transactions, k)
  }

  /** What the branch earns the key: 1024 for each block it created, and what it received less what it sent. */
  function Earned(chain: seq<Block>, k: Key): int {
    1024 * BlocksBy(chain, k) + Received(chain, k) - Sent(chain, k)
  }

  /** What one block earns the key: as its creator, and through its transactions. */
  function Reward(b: Block, k: Key): int {
    if b.creator == k then 1024 else 0
  }

  function Payments(b: Block, k: Key): int {
    PaidTo(b.transactions, k) - PaidBy(b.transactions, k)
  }

  lemma EarnedStep(b: Block, k: Key)
    ensures Earned(Chain(At(b)), k) ==
            Earned(Chain(b.prev), k) + Reward(b, k) + Payments(b, k)
  {
    assert Chain(At(b))[..Height(b.prev)] == Chain(b.prev);
  }

  lemma WrapAgain(v: int, amount: int)
    ensures Wrap(Wrap(v) + amount) == Wrap(v + amount)
  {
    var n := TWO_TO_THE_64;
    ModuloShift(v % n + amount, v / n);
  }

  /** What one transfer does to the account of k. */
  function Flow(t: Transaction, k: Key): int {
    (if t.recipient == k then t.value as int else 0) - (if t.sender == k then t.value as int else 0)
  }

  lemma PaidStep(ts: seq<Transaction>, k: Key)
    requires ts != []
    ensures var n := |ts| - 1;
            PaidTo(ts, k) - PaidBy(ts, k) == PaidTo(ts[..n], k) - PaidBy(ts[..n], k) + Flow(ts[n], k)
  {
  }

  lemma BalanceAfterAdjust(m: Balances, j: Key, amount: int, k: Key)
    ensures BalanceIn(Adjust(m, j, amount), k) == if j == k then Wrap(BalanceIn(m, k) + amount) else BalanceIn(m, k)
  {
  }

  /** A transfer moves its value from the sender to the recipient, and nothing else. */
  lemma BalanceAfterTransfer(m: Balances, t: Transaction, k: Key)
    ensures BalanceIn(Transfer(m, t), k) == Wrap(BalanceIn(m, k) + Flow(t, k))
  {
    var v, paid := BalanceIn(m, k), if t.sender == k then -(t.value as int) else 0;
    var after := Adjust(m, t.sender, -(t.value as int));
    BalanceAfterAdjust(m, t.sender, -(t.value as int), k);
    BalanceAfterAdjust(after, t.recipient, t.value, k);
    WrapIsExact(v);
    WrapAgain(v + paid, t.value);
    assert BalanceIn(after, k) == Wrap(v + paid);
  }

  lemma {:induction false} BalanceAfterTransfers(m: Balances, ts: seq<Transaction>, k: Key)
    ensures BalanceIn(TransferAll(m, ts), k) == Wrap(BalanceIn(m, k) + (PaidTo(ts, k) - PaidBy(ts, k)))
  {
    if ts == [] {
      WrapIsExact(BalanceIn(m, k));
    } else {
      var n := |ts| - 1;
      BalanceAfterTransfers(m, ts[..n], k);
      BalanceAfterTransfer(TransferAll(m, ts[..n]), ts[n], k);
      PaidStep(ts, k);
      WrapAgain(BalanceIn(m, k) + (PaidTo(ts[..n], k) - PaidBy(ts[..n], k)), Flow(ts[n], k));
    }
  }

  lemma BalanceAfterCoinbase(b: Block, k: Key)
    ensures BalanceIn(Opening(b), k) == Wrap(BalanceIn(Replay(b.prev), k) + Reward(b, k))
  {
    BalanceAfterAdjust(Replay(b.prev), b.creator, COINBASE_TRANSACTION, k);
    WrapIsExact(BalanceIn(Replay(b.prev), k));
  }

  lemma WrapTwice(v: int, w: int, reward: int, payments: int, balance: int)
    requires balance == Wrap(v) && w == Wrap(balance + reward)
    ensures Wrap(w + payments) == Wrap(v + reward + payments)
  {
    WrapAgain(v, reward);
    WrapAgain(v + reward, payments);
  }

  /** On every branch and for every key, the balance is what the branch earned the key, modulo 2^64. */
  lemma {:induction false} BalanceIsEarned(l: Link, k: Key)
    ensures BalanceIn(Replay(l), k) == Wrap(Earned(Chain(l), k))
  {
    if l.At? {
      var b := l.block;
      BalanceIsEarned(b.prev, k);
      BalanceAfterCoinbase(b, k);
      BalanceAfterTransfers(Opening(b), b.transactions, k);
      EarnedStep(b, k);
      WrapTwice(Earned(Chain(b.prev), k), BalanceIn(Opening(b), k), Reward(b, k), Payments(b, k),
                BalanceIn(Replay(b.prev), k));
    }
  }

  lemma BalanceModulo(l: Link, k: Key)
    ensures BalanceIn(Replay(l), k) ==
            (1024 * BlocksBy(Chain(l), k) + Received(Chain(l), k) - Sent(Chain(l), k)) % 0x1_0000_0000_0000_0000
  {
    BalanceIsEarned(l, k);
  }

  lemma ExactAfterTransfer(m: Balances, t: Transaction, k: Key)
    requires !Overdraws(m, t) && !CreditWraps(m, t)
    ensures BalanceIn(Transfer(m, t), k) == BalanceIn(m, k) + Flow(t, k)
  {
    var after := Adjust(m, t.sender, -(t.value as int));
    WrapIsExact(BalanceIn(m, t.sender) - t.value);
    WrapIsExact(BalanceIn(after, t.recipient) + t.value);
    BalanceAfterAdjust(m, t.sender, -(t.value as int), k);
    BalanceAfterAdjust(after, t.recipient, t.value, k);
  }

  lemma {:induction false} ExactAfterTransfers(m: Balances, ts: seq<Transaction>, k: Key)
    requires OverdraftsIn(m, ts) == 0 && WrapsIn(m, ts) == 0
    ensures BalanceIn(TransferAll(m, ts), k) == BalanceIn(m, k) + PaidTo(ts, k) - PaidBy(ts, k)
  {
    if ts != [] {
      var n := |ts| - 1;
      ExactAfterTransfers(m, ts[..n], k);
      ExactAfterTransfer(TransferAll(m, ts[..n]), ts[n], k);
      PaidStep(ts, k);
    }
  }

  /** Where nothing overdraws or wraps, the balance is exactly that. */
  lemma {:induction false} BalanceIsEarnedExactly(l: Link, k: Key)
    requires Overdrafts(l) == 0 && Wraps(l) == 0
    ensures BalanceIn(Replay(l), k) == Earned(Chain(l), k)
  {
    if l.At? {
      var b := l.block;
      BalanceIsEarnedExactly(b.prev, k);
      EarnedStep(b, k);
      WrapIsExact(BalanceIn(Replay(b.prev), b.creator) + COINBASE_TRANSACTION);
      ExactAfterTransfers(Opening(b), b.transactions, k);
    }
  }

  /** In particular wherever every transfer is covered, on any branch of fewer than 2^32 blocks. */
  lemma CoveredBalanceIsEarned(l: Link, k: Key)
    requires Overdrafts(l) == 0 && Height(l) < TWO_TO_THE_32
    ensures BalanceIn(Replay(l), k) == Earned(Chain(l), k)
    ensures Delegates(BalanceIn(Replay(l), k)) == Earned(Chain(l), k) / 1024
  {
    CoveredSupplyIsExact(l);
    BalanceIsEarnedExactly(l, k);
    CoveredDelegates(l, k);
  }

  // ---------- the staking rule, over the branch ----------

  /** A block of the branch that touches the key lies at least 16 blocks below its top. */
  ghost predicate TouchedLongAgo(l: Link, k: Key) {
    exists x :: x in Chain(l) && Touches(x, k) && Height(At(x)) + 16 <= Height(l)
  }

  lemma FirstTouchIsLowest(l: Link, k: Key, x: Block)
    requires x in Chain(l) && Touches(x, k)
    ensures Touching(l, k) != []
    ensures var first := Touching(l, k)[|Touching(l, k)| - 1];
            first in Chain(l) && Touches(first, k) && Height(At(first)) <= Height(At(x))
  {
    TouchingIsExact(l, k);
    var touching := Touching(l, k);
    assert x in touching;
    var i :| 0 <= i < |touching| && touching[i] == x;
    var last := |touching| - 1;
    assert touching[last] in touching;
    if i < last {
      TouchingDescends(l, k, i, last);
    }
  }

  lemma TouchedIsTouching(l: Link, k: Key)
    ensures (exists x :: x in Chain(l) && Touches(x, k)) <==> Touching(l, k) != []
  {
    TouchingIsExact(l, k);
    if Touching(l, k) != [] {
      var x := Touching(l, k)[0];
      assert x in Chain(l) && Touches(x, k);
    }
  }

  lemma AgedIsTouchedLongAgo(l: Link, k: Key)
    requires Touching(l, k) != []
    ensures Aged(l, k) <==> TouchedLongAgo(l, k)
  {
    TouchingIsExact(l, k);
    var first := Touching(l, k)[|Touching(l, k)| - 1];
    FirstTouchIsLowest(l, k, first);
    if TouchedLongAgo(l, k) {
      var y :| y in Chain(l) && Touches(y, k) && Height(At(y)) + 16 <= Height(l);
      FirstTouchIsLowest(l, k, y);
    }
  }

  /**
   A key may stake on a block exactly when the branch touches it, its balance gives it a delegate in 32 bits,
   and the branch is no higher than 16 or has touched it at least 16 blocks ago. On nothing any key may.
   */
  lemma StakingRule(l: Link, k: Key)
    ensures StakingAllowed(l, k) <==>
            l.Null? ||
            (&& (exists x :: x in Chain(l) && Touches(x, k))
             && (BalanceIn(Replay(l), k) / 1024) % 0x1_0000_0000 != 0
             && (Height(l) <= 16 || TouchedLongAgo(l, k)))
  {
    TouchedIsTouching(l, k);
    if Touching(l, k) != [] {
      AgedIsTouchedLongAgo(l, k);
    }
  }

  /** The creator of a root may stake on every block of every branch above it on which it has a delegate. */
  lemma FounderMayStake(root: Block, l: Link)
    requires root.prev.Null? && root in Chain(l)
    requires (BalanceIn(Replay(l), root.creator) / 1024) % 0x1_0000_0000 != 0
    ensures StakingAllowed(l, root.creator)
  {
    assert Touches(root, root.creator) && Height(At(root)) == 1;
    StakingRule(l, root.creator);
    assert Height(l) <= 16 || TouchedLongAgo(l, root.creator);
  }

  /** So a founder that sends nothing can always go on, as long as what it earned fits 32 bits of delegates. */
  lemma ThriftyFounderMayStake(root: Block, l: Link)
    requires root.prev.Null? && root in Chain(l)
    requires Sent(Chain(l), root.creator) == 0 && Earned(Chain(l), root.creator) < 1024 * 0x1_0000_0000
    ensures StakingAllowed(l, root.creator)
  {
    var k := root.creator;
    BalanceIsEarned(l, k);
    CreatedCounts(Chain(l), k, root);
    SomeDelegates(Earned(Chain(l), k));
    FounderMayStake(root, l);
  }

  lemma SomeDelegates(v: int)
    requires 1024 <= v < 1024 * 0x1_0000_0000
    ensures v % 0x1_0000_0000_0000_0000 == v && (v / 1024) % 0x1_0000_0000 != 0
  {
    assert 1 <= v / 1024 < 0x1_0000_0000;
  }

  lemma {:induction false} CreatedCounts(chain: seq<Block>, k: Key, b: Block)
    requires b in chain && b.creator == k
    ensures BlocksBy(chain, k) >= 1
  {
    var n := |chain| - 1;
    if chain[n] != b {
      CreatedCounts(chain[..n], k, b);
    }
  }

  /** An uncovered transfer is accepted, and can leave its recipient with a fortune but no delegate. */
  lemma UncoveredTransferNarrows(genesis: Block, a: Key, b: Key, t: Transaction)
    requires a != b && genesis.prev.Null? && genesis.creator == a && genesis.transactions == [t]
    requires t.sender == a && t.recipient == b && t.value == 0x400_0000_0000
    ensures Overdrafts(At(genesis)) == 1
    ensures BalanceIn(Replay(At(genesis)), b) == t.value && Delegates(t.value) == 0
    ensures Touching(At(genesis), b) != [] && !StakingAllowed(At(genesis), b)
  {
    assert genesis.transactions[..0] == [];
    assert TransferAll(Opening(genesis), [t]) == Transfer(Opening(genesis), t);
    assert OverdraftsIn(Opening(genesis), [t]) == 1;
    assert t in genesis.transactions;
  }
}
