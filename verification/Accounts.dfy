/**
 Building and reading the account maps (src/block.c): one bucketed map per block. Each block's
 `accounts` field is kept here, by block.
 */
module Accounts {
  import opened Options
  import opened Blocks
  import opened HashMaps
  import opened Ledgers

  const N_ACCOUNT_BUCKETS := 16

  type AccountMap = HashMap<Key, Account>

  /** The finished map of a block: a version for each key it touches, and no other. */
  ghost predicate Records(m: map<Key, Account>, b: Block) {
    forall k :: (k in m <==> Touches(b, k)) && (k in m ==> AccountAt(At(b), k) == Some(m[k]))
  }

  /** A map under construction: the versions of the keys touched so far, with the balances of the table so far. */
  ghost predicate Building(m: map<Key, Account>, b: Block, table: Balances) {
    forall k ::
      && (k in m ==> m[k] == Account(BalanceIn(table, k), AccountAt(b.prev, k), b))
      && (k !in m ==> BalanceIn(table, k) == BalanceIn(Replay(b.prev), k))
  }

  function Adjusted(table: Balances, b: Block, k: Key, amount: int): Account {
    Account(Wrap(BalanceIn(table, k) + amount), AccountAt(b.prev, k), b)
  }

  lemma BuildingAdjusted(m: map<Key, Account>, b: Block, table: Balances, k: Key, amount: int)
    requires Building(m, b, table)
    ensures Building(m[k := Adjusted(table, b, k, amount)], b, Adjust(table, k, amount))
  {
  }

  lemma BuiltIsRecorded(m: map<Key, Account>, block: Block)
    requires Building(m, block, Replay(At(block)))
    requires m.Keys == KeysAfter({block.creator}, block.transactions)
    ensures Records(m, block)
  {
    forall k: Key
      ensures k in m <==> Touches(block, k)
    {
      KeysAfterIsExact({block.creator}, block.transactions, k);
    }
  }

  /** The keys with a version once the transfers have run. */
  ghost function KeysAfter(keys: set<Key>, ts: seq<Transaction>): set<Key> {
    if ts == [] then keys
    else KeysAfter(keys, ts[..|ts| - 1]) + {ts[|ts| - 1].sender, ts[|ts| - 1].recipient}
  }

  lemma {:induction false} KeysAfterIsExact(keys: set<Key>, ts: seq<Transaction>, k: Key)
    ensures k in KeysAfter(keys, ts) <==> k in keys || Moves(ts, k)
  {
    if ts != [] {
      var n := |ts| - 1;
      KeysAfterIsExact(keys, ts[..n], k);
      assert ts == ts[..n] + [ts[n]];
    }
  }

  lemma OneMoreTransfer(m: Balances, keys: set<Key>, ts: seq<Transaction>, i: nat)
    requires i < |ts|
    ensures TransferAll(m, ts[..i + 1]) == Transfer(TransferAll(m, ts[..i]), ts[i])
    ensures KeysAfter(keys, ts[..i + 1]) == KeysAfter(keys, ts[..i]) + {ts[i].sender, ts[i].recipient}
  {
    assert ts[..i + 1][..i] == ts[..i];
  }

  class AccountStore {
    var maps: map<Block, AccountMap>
    ghost var Repr: set<object>

    ghost predicate Valid()
      reads this, Repr
    {
      && this in Repr
      && (forall b :: b in maps ==>
            && maps[b] in Repr && maps[b].buckets in Repr
            && maps[b].Valid() && Records(maps[b].contents, b))
    }

    /** Every block of the branch has been given its map. */
    ghost predicate Covers(l: Link)
      reads this
    {
      forall b :: b in Chain(l) ==> b in maps
    }

    constructor ()
      ensures Valid() && fresh(Repr) && Covers(Null)
    {
      maps, Repr := map[], {this};
    }

    /** block_get_account: search the branch from leaf to root. */
    method GetAccount(block: Link, key: Key) returns (account: Option<Account>)
      requires Valid() && Covers(block)
      ensures account == AccountAt(block, key)
    {
      var iter := block;
      while iter != Null
        invariant Covers(iter)
        invariant AccountAt(iter, key) == AccountAt(block, key)
        decreases Height(iter)
      {
        assert iter.block in Chain(iter);
        account := maps[iter.block].Get(key);
        if account != None {
          return;
        }
        iter := iter.block.prev;
      }
      account := None;
    }

    /** is_staking_allowed: follow the versions to the oldest and compare heights. */
    method IsStakingAllowed(block: Link, key: Key) returns (allowed: bool)
      requires Valid() && Covers(block)
      ensures allowed == StakingAllowed(block, key)
    {
      if block == Null {
        return true;
      }
      var found := GetAccount(block, key);
      VersionsVisitTouchingBlocks(block, key);
      SparseEqualsReplay(block, key);
      if found == None {
        return false;
      }
      var account := found.value;
      var delegates := Delegates(account.value);
      if delegates == 0 {
        return false;
      }
      var height := Height(block);
      while account.prev != None
        invariant Oldest(account) == Oldest(found.value)
        decreases account
      {
        account := account.prev.value;
      }
      allowed := height <= WAITING_PERIOD || Height(At(account.block)) + WAITING_PERIOD <= height;
    }

    /** The account of a key in a block being built: its version there, or a new one after the version before. */
    method NextVersion(accounts: AccountMap, block: Block, key: Key, amount: int, ghost table: Balances)
      returns (account: Account)
      requires Valid() && Covers(block.prev) && accounts.Valid()
      requires Building(accounts.contents, block, table)
      ensures account == Adjusted(table, block, key, amount)
    {
      var current := accounts.Get(key);
      if current != None {
        account := current.value.(value := Wrap(current.value.value + amount));
      } else {
        var before := GetAccount(block.prev, key);
        SparseEqualsReplay(block.prev, key);
        var value := if before != None then before.value.value else 0;
        account := Account(Wrap(value + amount), before, block);
      }
    }

    /** Adds the amount to the key's version in this block. */
    method AdjustAccount(accounts: AccountMap, block: Block, key: Key, amount: int, ghost table: Balances)
      requires Valid() && Covers(block.prev)
      requires accounts.Valid() && accounts !in Repr && accounts.buckets !in Repr
      requires Building(accounts.contents, block, table)
      modifies accounts, accounts.buckets
      ensures Valid()
      ensures accounts.Valid() && Building(accounts.contents, block, Adjust(table, key, amount))
      ensures accounts.contents.Keys == old(accounts.contents.Keys) + {key}
    {
      BuildingAdjusted(accounts.contents, block, table, key, amount);
      var account := NextVersion(accounts, block, key, amount, table);
      var _ := accounts.Set(key, account);
    }

    /** Debits the sender, then credits the recipient, who may be the same account. */
    method ApplyTransfer(accounts: AccountMap, block: Block, t: Transaction, ghost table: Balances)
      requires Valid() && Covers(block.prev)
      requires accounts.Valid() && accounts !in Repr && accounts.buckets !in Repr
      requires Building(accounts.contents, block, table)
      modifies accounts, accounts.buckets
      ensures Valid()
      ensures accounts.Valid() && Building(accounts.contents, block, Transfer(table, t))
      ensures accounts.contents.Keys == old(accounts.contents.Keys) + {t.sender, t.recipient}
    {
      AdjustAccount(accounts, block, t.sender, -(t.value as int), table);
      AdjustAccount(accounts, block, t.recipient, t.value, Adjust(table, t.sender, -(t.value as int)));
    }

    method ApplyTransfers(accounts: AccountMap, block: Block)
      requires Valid() && Covers(block.prev)
      requires accounts.Valid() && accounts !in Repr && accounts.buckets !in Repr
      requires Building(accounts.contents, block, Opening(block))
      modifies accounts, accounts.buckets
      ensures Valid()
      ensures accounts.Valid() && Building(accounts.contents, block, Replay(At(block)))
      ensures accounts.contents.Keys == KeysAfter(old(accounts.contents.Keys), block.transactions)
    {
      var txns := block.transactions;
      ghost var keys, table := accounts.contents.Keys, Opening(block);
      for i := 0 to |txns|
        invariant Valid() && accounts.Valid()
        invariant table == TransferAll(Opening(block), txns[..i])
        invariant Building(accounts.contents, block, table)
        invariant accounts.contents.Keys == KeysAfter(keys, txns[..i])
      {
        OneMoreTransfer(Opening(block), keys, txns, i);
        ApplyTransfer(accounts, block, txns[i], table);
        table := Transfer(table, txns[i]);
      }
      assert txns[..|txns|] == txns;
    }

    /**
     are_transactions_valid: builds the account map of the block. The test for a negative value
     is made on a uint64_t, so it never rejects and the verdict is always true.
     */
    method AreTransactionsValid(block: Block, hash: Key -> nat) returns (valid: bool, accounts: AccountMap)
      requires Valid() && Covers(block.prev)
      ensures valid && Valid()
      ensures fresh(accounts) && fresh(accounts.buckets) && accounts.Valid()
      ensures Records(accounts.contents, block)
    {
      accounts := new HashMap(N_ACCOUNT_BUCKETS, hash);
      AdjustAccount(accounts, block, block.creator, COINBASE_TRANSACTION, Replay(block.prev));
      ApplyTransfers(accounts, block);
      BuiltIsRecorded(accounts.contents, block);
      valid := true;
    }

    /** Gives a block its map, as both ways of constructing a block do. */
    method Confirm(block: Block, hash: Key -> nat) returns (valid: bool)
      requires Valid() && Covers(block.prev)
      modifies this
      ensures valid && Valid() && Covers(At(block))
      ensures fresh(Repr - old(Repr)) && maps.Keys == old(maps.Keys) + {block}
    {
      var accounts;
      valid, accounts := AreTransactionsValid(block, hash);
      maps := maps[block := accounts];
      Repr := Repr + {accounts, accounts.buckets};
    }
  }
}
