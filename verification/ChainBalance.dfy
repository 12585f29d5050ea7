/** BlockChain::getBalance of csnode/src/Blockchain.cpp: balances read backwards along
    the chain, with a cache that remembers how far each address was read. */
module ChainBalance {
  import opened ChainBlocks

  type Address = nat

  datatype Transaction = Transaction(source: Address, target: Address, amount: int, balance: int)
  type Ledger = seq<Block<Transaction>>

  //// What a block says about an address

  /** The address pays in the block. */
  ghost predicate Pays(txs: seq<Transaction>, a: Address) {
    exists i :: 0 <= i < |txs| && txs[i].source == a
  }

  /** All that the address receives from others. */
  ghost function Incoming(txs: seq<Transaction>, a: Address): int {
    if txs == [] then 0
    else
      var t := txs[|txs| - 1];
      Incoming(txs[..|txs| - 1], a) + if t.source != a && t.target == a then t.amount else 0
  }

  /** The balance recorded with its last payment. */
  ghost function Recorded(txs: seq<Transaction>, a: Address): int
    requires Pays(txs, a)
  {
    var t := txs[|txs| - 1];
    if t.source == a then t.balance
    else
      assert Pays(txs[..|txs| - 1], a) by {
        var i :| 0 <= i < |txs| && txs[i].source == a;
        assert txs[..|txs| - 1][i].source == a;
      }
      Recorded(txs[..|txs| - 1], a)
  }

  /** The balance over a whole chain: what the last paying block records, and all that
      came in from that block on. */
  ghost function Balance(chain: Ledger, a: Address): int {
    if chain == [] then 0
    else
      var txs := chain[|chain| - 1].transactions;
      Incoming(txs, a) + if Pays(txs, a) then Recorded(txs, a) else Balance(chain[..|chain| - 1], a)
  }

  /** All that came in over a chain. */
  ghost function Received(chain: Ledger, a: Address): int {
    if chain == [] then 0 else Received(chain[..|chain| - 1], a) + Incoming(chain[|chain| - 1].transactions, a)
  }

  /** The address pays in none of the blocks from k on. */
  ghost predicate Silent(chain: Ledger, k: nat, a: Address) {
    forall i :: k <= i < |chain| ==> !Pays(chain[i].transactions, a)
  }

  /** Without a payment of its own, an address has what it received. */
  lemma {:induction false} NeverPays(chain: Ledger, a: Address)
    requires Silent(chain, 0, a)
    ensures Balance(chain, a) == Received(chain, a)
  {
    if chain != [] {
      hide Pays, Incoming, Recorded;
      var n := |chain| - 1;
      assert chain[n] in chain && !Pays(chain[n].transactions, a);
      NeverPays(chain[..n], a);
    }
  }

  /** Otherwise it has what its last payment records, and what it received from the block
      of that payment on. */
  lemma {:induction false} LastPayment(chain: Ledger, k: nat, i: nat, a: Address)
    requires k < |chain| && Silent(chain, k + 1, a)
    requires i < |chain[k].transactions| && chain[k].transactions[i].source == a
    requires forall j :: i < j < |chain[k].transactions| ==> chain[k].transactions[j].source != a
    ensures Balance(chain, a) == chain[k].transactions[i].balance + Received(chain[k..], a)
    decreases |chain|
  {
    var n := |chain| - 1;
    assert chain[k..][..n - k] == chain[k..n] && chain[k..][n - k] == chain[n];
    if k < n {
      assert !Pays(chain[n].transactions, a);
      assert chain[..n][k..] == chain[k..n];
      hide Pays, Incoming, Recorded;
      LastPayment(chain[..n], k, i, a);
    } else {
      assert chain[k..n] == [];
      RecordedLast(chain[k].transactions, i, a);
    }
  }

  lemma {:induction false} RecordedLast(txs: seq<Transaction>, i: nat, a: Address)
    requires i < |txs| && txs[i].source == a && forall j :: i < j < |txs| ==> txs[j].source != a
    ensures Pays(txs, a) && Recorded(txs, a) == txs[i].balance
    decreases |txs|
  {
    var n := |txs| - 1;
    if i < n {
      RecordedLast(txs[..n], i, a);
      NextTransaction(txs, n, a);
      assert txs[..n + 1] == txs;
    }
  }

  /** No transaction names the address. */
  ghost predicate Unnamed(chain: Ledger, a: Address) {
    forall k, i :: 0 <= k < |chain| && 0 <= i < |chain[k].transactions| ==>
      chain[k].transactions[i].source != a && chain[k].transactions[i].target != a
  }

  lemma {:induction false} NothingIn(txs: seq<Transaction>, a: Address)
    requires forall i :: 0 <= i < |txs| ==> txs[i].source != a && txs[i].target != a
    ensures Incoming(txs, a) == 0 && !Pays(txs, a)
  {
    if txs != [] { NothingIn(txs[..|txs| - 1], a); }
  }

  lemma {:induction false} UnnamedIsZero(chain: Ledger, a: Address)
    requires Unnamed(chain, a)
    ensures Balance(chain, a) == 0
  {
    if chain != [] {
      var n := |chain| - 1;
      NothingIn(chain[n].transactions, a);
      hide Incoming, Recorded, Pays;
      assert forall k :: 0 <= k < n ==> chain[..n][k] == chain[k];
      UnnamedIsZero(chain[..n], a);
    }
  }

  /** One transaction from another address adds its amount. */
  lemma IncomingOne(txs: seq<Transaction>, t: Transaction, a: Address)
    ensures Incoming(txs + [t], a) == Incoming(txs, a) + if t.target == a && t.source != a then t.amount else 0
    ensures Incoming([], a) == 0
  {
    assert (txs + [t])[..|txs|] == txs;
  }

  lemma NextBlock(chain: Ledger, n: nat, a: Address)
    requires n < |chain|
    ensures var txs := chain[n].transactions;
            Balance(chain[..n + 1], a)
            == Incoming(txs, a) + if Pays(txs, a) then Recorded(txs, a) else Balance(chain[..n], a)
  {
    assert chain[..n + 1][..n] == chain[..n];
  }

  lemma NextTransaction(txs: seq<Transaction>, i: nat, a: Address)
    requires i < |txs|
    ensures Pays(txs[..i + 1], a) <==> txs[i].source == a || Pays(txs[..i], a)
    ensures Incoming(txs[..i + 1], a)
            == Incoming(txs[..i], a) + if txs[i].source != a && txs[i].target == a then txs[i].amount else 0
    ensures Pays(txs[..i + 1], a) ==>
      Recorded(txs[..i + 1], a) == if txs[i].source == a then txs[i].balance else Recorded(txs[..i], a)
  {
    var t := txs[..i + 1];
    assert t[..i] == txs[..i] && t[i] == txs[i];
    if Pays(txs[..i], a) {
      var k :| 0 <= k < i && txs[..i][k].source == a;
      assert t[k].source == a;
    }
    if Pays(t, a) && txs[i].source != a {
      var k :| 0 <= k < |t| && t[k].source == a;
      assert txs[..i][k].source == a;
    }
  }

  /** The loop over the transactions of one block. */
  method ReadBlock(txs: seq<Transaction>, a: Address) returns (found: bool, recorded: int, incoming: int)
    ensures found <==> Pays(txs, a)
    ensures incoming == Incoming(txs, a)
    ensures found ==> recorded == Recorded(txs, a)
  {
    found, recorded, incoming := false, 0, 0;
    assert txs[..0] == [];
    hide Incoming, Recorded;
    for i := 0 to |txs|
      invariant found <==> Pays(txs[..i], a)
      invariant incoming == Incoming(txs[..i], a)
      invariant found ==> recorded == Recorded(txs[..i], a)
    {
      NextTransaction(txs, i, a);
      if txs[i].source == a {
        found := true;
        recorded := txs[i].balance;
      } else if txs[i].target == a {
        incoming := incoming + txs[i].amount;
      }
    }
    assert txs[..|txs|] == txs;
  }

  //// The chain and the cache

  /** A cache entry is the balance at some earlier end of the chain. */
  ghost predicate Was(entry: (Hash, int), chain: Ledger, k: nat, a: Address) {
    k <= |chain| && entry.0 == HashBefore(chain, k) && entry.1 == Balance(chain[..k], a)
  }

  ghost predicate Cached(entry: (Hash, int), chain: Ledger, a: Address) {
    exists k :: Was(entry, chain, k, a)
  }

  lemma StillCached(entry: (Hash, int), chain: Ledger, b: Block<Transaction>, a: Address)
    requires Cached(entry, chain, a)
    ensures Cached(entry, chain + [b], a)
  {
    var k: nat :| Was(entry, chain, k, a);
    assert (chain + [b])[..k] == chain[..k];
    assert Was(entry, chain + [b], k, a);
  }

  class BlockChain {
    var blocks: map<Hash, Block<Transaction>>
    var lastHash: Hash
    var cache: map<Address, (Hash, int)>
    ghost var chain: Ledger

    ghost predicate Valid()
      reads this
    {
      && Chained(chain, blocks) && lastHash == HashBefore(chain, |chain|)
      && forall a :: a in cache ==> Cached(cache[a], chain, a)
    }

    constructor ()
      ensures Valid() && chain == []
    {
      blocks, lastHash, cache, chain := map[], EMPTY, map[], [];
    }

    /** A new block reaches the store. */
    method Append(b: Block<Transaction>)
      requires Valid() && b.hash != EMPTY && b.hash !in blocks && b.previous == lastHash
      modifies this
      ensures Valid() && chain == old(chain) + [b] && cache == old(cache)
    {
      hide Chained, Cached;
      ChainedNext(chain, b, blocks);
      forall a | a in cache ensures Cached(cache[a], chain + [b], a) { StillCached(cache[a], chain, b, a); }
      blocks := blocks[b.hash := b];
      lastHash := b.hash;
      chain := chain + [b];
    }

    /** getBalance: whatever was cached before, the answer is that of the whole chain. */
    method GetBalance(a: Address) returns (result: int)
      requires Valid()
      modifies this`cache
      ensures Valid()
      ensures result == Balance(chain, a)
      ensures Unnamed(chain, a) ==> result == 0
      ensures Silent(chain, 0, a) ==> result == Received(chain, a)
    {
      if Unnamed(chain, a) { UnnamedIsZero(chain, a); }
      if Silent(chain, 0, a) { NeverPays(chain, a); }
      var lastChecked, cached := EMPTY, 0;
      ghost var k: nat := 0;
      if a in cache {
        lastChecked, cached := cache[a].0, cache[a].1;
        k :| Was(cache[a], chain, k, a);
        if lastChecked == lastHash {
          SamePlace(chain, blocks, |chain|, k);
          assert chain[..k] == chain;
          return cached;
        }
      }
      result := WalkBack(a, lastChecked, cached, k);
      cache := cache[a := (lastHash, result)];
      assert chain[..|chain|] == chain;
      assert Was(cache[a], chain, |chain|, a);
    }

    /** The walk from the last block back to the block that was read before, or to the
        first one in which the address pays. */
    method WalkBack(a: Address, lastChecked: Hash, cached: int, ghost k: nat) returns (result: int)
      requires Valid() && Was((lastChecked, cached), chain, k, a)
      ensures result == Balance(chain, a)
    {
      hide Balance, Incoming, Recorded, Pays;
      result := 0;
      var hash := lastHash;
      ghost var n := |chain|;
      assert chain[..n] == chain;
      SamePlace(chain, blocks, n, k);
      while hash in blocks && hash != lastChecked
        invariant k <= n <= |chain| && hash == HashBefore(chain, n)
        invariant result + Balance(chain[..n], a) == Balance(chain, a)
        decreases n
      {
        SamePlace(chain, blocks, n, k);
        assert Stored(chain, n - 1, blocks);
        NextBlock(chain, n - 1, a);
        var found, recorded, incoming := ReadBlock(blocks[hash].transactions, a);
        result := result + incoming;
        if found { return result + recorded; }
        hash := blocks[hash].previous;
        n := n - 1;
      }
      assert n == k by {
        SamePlace(chain, blocks, n, k);
        if n > 0 { assert Stored(chain, n - 1, blocks); }
      }
      result := result + cached;
    }
  }
}
