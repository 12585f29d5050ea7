/** APIHandler::update_smart_caches: an index of the smart contracts, brought up to date
    by reading only the blocks that are new since the last call, newest first. */
module SmartIndex {
  import opened ChainBlocks
  import opened SmartContracts

  type Chain = seq<Block<Transaction>>

  /** All transactions of a chain, oldest first. */
  ghost function Flat(chain: Chain): seq<Transaction> {
    if chain == [] then [] else chain[0].transactions + Flat(chain[1..])
  }

  lemma {:induction false} FlatAppend(a: Chain, b: Chain)
    ensures Flat(a + b) == Flat(a) + Flat(b)
  {
    if a == [] {
      assert a + b == b;
    } else {
      assert (a + b)[1..] == a[1..] + b;
      FlatAppend(a[1..], b);
    }
  }

  /** Every transaction of every block has a place. */
  lemma {:induction false} FlatAt(chain: Chain, k: nat, j: nat) returns (i: nat)
    requires k < |chain| && j < |chain[k].transactions|
    ensures i < |Flat(chain)| && Flat(chain)[i] == chain[k].transactions[j]
  {
    if k == 0 {
      i := j;
    } else {
      var r := FlatAt(chain[1..], k - 1, j);
      i := |chain[0].transactions| + r;
    }
  }

  lemma FlatFrom(chain: Chain, n: nat)
    requires n < |chain|
    ensures Flat(chain[n..]) == chain[n].transactions + Flat(chain[n + 1..])
  {
    assert chain[n..][1..] == chain[n + 1..];
  }

  lemma FlatSplit(chain: Chain, k: nat)
    requires k <= |chain|
    ensures Flat(chain) == Flat(chain[..k]) + Flat(chain[k..])
  {
    assert chain == chain[..k] + chain[k..];
    FlatAppend(chain[..k], chain[k..]);
  }

  function ListOf(m: map<Address, seq<Id>>, a: Address): seq<Id> { if a in m then m[a] else [] }

  /** The three tables. */
  datatype Tables = Tables(origin: map<Address, Id>, state: map<Address, Id>, deployed: map<Address, seq<Id>>)

  /** Every creator's new deployments come before the old ones. */
  ghost predicate Deploys(lists: map<Address, seq<Id>>, before: map<Address, seq<Id>>, txs: seq<Transaction>) {
    forall c :: ListOf(lists, c) == Deployed(txs, c) + ListOf(before, c)
  }

  /** t is what one pass over txs makes of `before`. */
  ghost predicate Pass(before: Tables, txs: seq<Transaction>, t: Tables) {
    && t.origin == before.origin + Origins(txs)
    && t.state == before.state + States(txs)
    && Deploys(t.deployed, before.deployed, txs)
  }

  /** The scratch data of a pass: for each creator seen, how many ids follow the insertion
      point, and the contracts whose newest state is known. */
  datatype Scratch = Scratch(after: map<Address, nat>, updated: set<Address>)

  ghost predicate Tracks(s: Scratch, before: Tables, txs: seq<Transaction>) {
    && s.updated == States(txs).Keys
    && (forall c :: c in s.after ==> s.after[c] == |ListOf(before.deployed, c)|)
    && (forall c :: c !in s.after ==> Deployed(txs, c) == [])
  }

  lemma OneMore(tr: Transaction, txs: seq<Transaction>)
    ensures Origins([tr] + txs)
            == if IsDeploy(tr) then Origins(txs)[tr.smart.value.address := tr.id] else Origins(txs)
    ensures States([tr] + txs)
            == if IsUpdate(tr) && tr.smart.value.address !in States(txs)
               then States(txs)[tr.smart.value.address := tr.id] else States(txs)
    ensures forall c ::
      Deployed([tr] + txs, c) == if IsDeploy(tr) && tr.source == c then Deployed(txs, c) + [tr.id] else Deployed(txs, c)
  {
    assert ([tr] + txs)[1..] == txs;
  }

  /** A transaction that changes nothing. */
  lemma Skipped(tr: Transaction, t: Tables, s: Scratch, before: Tables, txs: seq<Transaction>)
    requires Pass(before, txs, t) && Tracks(s, before, txs)
    requires !IsDeploy(tr) && (IsUpdate(tr) ==> tr.smart.value.address in s.updated)
    ensures Pass(before, [tr] + txs, t) && Tracks(s, before, [tr] + txs)
  {
    OneMore(tr, txs);
    hide Origins, States, Deployed, ListOf;
  }

  /** The newest state of a contract. */
  method Update(tr: Transaction, t: Tables, s: Scratch, ghost before: Tables, ghost txs: seq<Transaction>)
    returns (t': Tables, s': Scratch)
    requires Pass(before, txs, t) && Tracks(s, before, txs)
    requires IsUpdate(tr) && tr.smart.value.address !in s.updated
    ensures Pass(before, [tr] + txs, t') && Tracks(s', before, [tr] + txs)
  {
    OneMore(tr, txs);
    hide Origins, States, Deployed, ListOf;
    var address := tr.smart.value.address;
    t' := t.(state := t.state[address := tr.id]);
    s' := s.(updated := s.updated + {address});
  }

  /** A deployment goes behind those of the same pass and before all others. */
  method InsertId(list: seq<Id>, after: nat, id: Id, ghost newer: seq<Id>, ghost older: seq<Id>) returns (list': seq<Id>)
    requires list == newer + older && after == |older|
    ensures list' == (newer + [id]) + older
  {
    var k := |list| - after;
    list' := list[..k] + [id] + list[k..];
  }

  lemma DeploysNext(tr: Transaction, lists: map<Address, seq<Id>>, list: seq<Id>, before: map<Address, seq<Id>>,
                    txs: seq<Transaction>)
    requires Deploys(lists, before, txs) && IsDeploy(tr)
    requires list == (Deployed(txs, tr.source) + [tr.id]) + ListOf(before, tr.source)
    ensures Deploys(lists[tr.source := list], before, [tr] + txs)
  {
    OneMore(tr, txs);
    hide Origins, States, Deployed;
  }

  lemma TracksNext(tr: Transaction, s: Scratch, after: nat, before: Tables, txs: seq<Transaction>)
    requires Tracks(s, before, txs) && IsDeploy(tr) && after == |ListOf(before.deployed, tr.source)|
    ensures Tracks(s.(after := s.after[tr.source := after]), before, [tr] + txs)
  {
    OneMore(tr, txs);
    hide Origins, States, Deployed, ListOf;
  }

  /** Where the insertion point is. */
  lemma InsertionPoint(t: Tables, s: Scratch, before: Tables, txs: seq<Transaction>, c: Address)
    requires Pass(before, txs, t) && Tracks(s, before, txs)
    ensures ListOf(t.deployed, c) == Deployed(txs, c) + ListOf(before.deployed, c)
    ensures (if c in s.after then s.after[c] else |ListOf(t.deployed, c)|) == |ListOf(before.deployed, c)|
  {
    hide Origins, States, Deployed, ListOf;
  }

  lemma PassNext(tr: Transaction, t: Tables, lists: map<Address, seq<Id>>, before: Tables, txs: seq<Transaction>)
    requires Pass(before, txs, t) && IsDeploy(tr) && Deploys(lists, before.deployed, [tr] + txs)
    ensures Pass(before, [tr] + txs, Tables(t.origin[tr.smart.value.address := tr.id], t.state, lists))
  {
    hide Deploys;
    OneMore(tr, txs);
  }

  method Deploy(tr: Transaction, t: Tables, s: Scratch, ghost before: Tables, ghost txs: seq<Transaction>)
    returns (t': Tables, s': Scratch)
    requires Pass(before, txs, t) && Tracks(s, before, txs) && IsDeploy(tr)
    ensures Pass(before, [tr] + txs, t') && Tracks(s', before, [tr] + txs)
  {
    assert Deploys(t.deployed, before.deployed, txs);
    hide Pass, Deploys, ListOf, Tracks, Deployed, Origins, States;
    var creator := tr.source;
    InsertionPoint(t, s, before, txs, creator);
    var list := ListOf(t.deployed, creator);
    var after := if creator in s.after then s.after[creator] else |list|;
    var list' := InsertId(list, after, tr.id, Deployed(txs, creator), ListOf(before.deployed, creator));
    DeploysNext(tr, t.deployed, list', before.deployed, txs);
    TracksNext(tr, s, after, before, txs);
    PassNext(tr, t, t.deployed[creator := list'], before, txs);
    t' := Tables(t.origin[tr.smart.value.address := tr.id], t.state, t.deployed[creator := list']);
    s' := s.(after := s.after[creator := after]);
  }

  /** One transaction, older than all of txs. */
  method Visit(tr: Transaction, t: Tables, s: Scratch, ghost before: Tables, ghost txs: seq<Transaction>)
    returns (t': Tables, s': Scratch)
    requires Pass(before, txs, t) && Tracks(s, before, txs)
    ensures Pass(before, [tr] + txs, t') && Tracks(s', before, [tr] + txs)
  {
    hide Pass, Tracks;
    if IsDeploy(tr) {
      t', s' := Deploy(tr, t, s, before, txs);
    } else if IsUpdate(tr) && tr.smart.value.address !in s.updated {
      t', s' := Update(tr, t, s, before, txs);
    } else {
      Skipped(tr, t, s, before, txs);
      t', s' := t, s;
    }
  }

  /** The transactions of one block, newest first. */
  method VisitBlock(trs: seq<Transaction>, t: Tables, s: Scratch, ghost before: Tables, ghost txs: seq<Transaction>)
    returns (t': Tables, s': Scratch)
    requires Pass(before, txs, t) && Tracks(s, before, txs)
    ensures Pass(before, trs + txs, t') && Tracks(s', before, trs + txs)
  {
    hide Pass, Tracks;
    t', s' := t, s;
    assert trs[|trs|..] + txs == txs;
    for i := |trs| downto 0
      invariant Pass(before, trs[i..] + txs, t') && Tracks(s', before, trs[i..] + txs)
    {
      assert trs[i..] + txs == [trs[i]] + (trs[i + 1..] + txs);
      t', s' := Visit(trs[i], t', s', before, trs[i + 1..] + txs);
    }
    assert trs[0..] == trs;
  }

  lemma PassOverNothing(t: Tables)
    ensures Pass(t, [], t) && Tracks(Scratch(map[], {}), t, [])
  {
  }

  /** One pass after another tells the deployments and the newest states of both. */
  ghost predicate Current(t: Tables, txs: seq<Transaction>) {
    && t.origin.Keys == Origins(txs).Keys
    && t.state == States(txs)
    && forall c :: ListOf(t.deployed, c) == Deployed(txs, c)
  }

  lemma PassAgain(t: Tables, a: seq<Transaction>, b: seq<Transaction>, t': Tables)
    requires Current(t, a) && Pass(t, b, t')
    ensures Current(t', a + b)
    ensures t'.origin == t.origin + Origins(b)
    ensures DistinctIds(a + b) ==>
      (t'.origin == Origins(a + b) <==> t.origin == Origins(a) && Origins(a).Keys !! Origins(b).Keys)
  {
    if DistinctIds(a + b) { OriginsSplit(t.origin, a, b); }
    OriginsAppend(a, b);
    StatesAppend(a, b);
    hide Origins, States, Deployed, ListOf;
    forall c ensures ListOf(t'.deployed, c) == Deployed(a + b, c) {
      DeployedAppend(a, b, c);
      assert ListOf(t'.deployed, c) == Deployed(b, c) + ListOf(t.deployed, c);
    }
  }

  /** The tables know transaction tr: its contract has an origin and its creator's list the
      transaction, if it carries code; otherwise its contract has a state. */
  ghost predicate Indexed(t: Tables, tr: Transaction) {
    tr.smart.Some? ==>
      if tr.smart.value.byteCode != [] then tr.smart.value.address in t.origin && tr.id in ListOf(t.deployed, tr.source)
      else tr.smart.value.address in t.state
  }

  ghost predicate AllIndexed(t: Tables, chain: Chain) {
    forall k, j :: 0 <= k < |chain| && 0 <= j < |chain[k].transactions| ==> Indexed(t, chain[k].transactions[j])
  }

  /** Origins and states belong to contracts of the chain. */
  ghost predicate NothingElse(t: Tables, txs: seq<Transaction>) {
    && (forall c :: c in t.origin ==> exists i :: 0 <= i < |txs| && CodeAt(txs, i, c))
    && (forall c :: c in t.state ==> exists i :: 0 <= i < |txs| && StateAt(txs, i, c) && t.state[c] == txs[i].id)
  }

  lemma CurrentIndexes(t: Tables, txs: seq<Transaction>, i: nat)
    requires Current(t, txs) && i < |txs|
    ensures Indexed(t, txs[i])
  {
    hide Origins, States, Deployed, Count;
    var tr := txs[i];
    if tr.smart.Some? {
      var c := tr.smart.value.address;
      if tr.smart.value.byteCode != [] {
        DeployedIs(txs, i);
        var k := FirstCode(txs, c, i);
        OriginIs(txs, k, c);
      } else {
        var k := LastState(txs, c, i);
        StateIs(txs, k, c);
      }
    }
  }

  lemma {:induction false} FirstCode(txs: seq<Transaction>, c: Address, i: nat) returns (k: nat)
    requires i < |txs| && CodeAt(txs, i, c)
    ensures k <= i && CodeAt(txs, k, c) && forall j :: 0 <= j < k ==> !CodeAt(txs, j, c)
  {
    if j: nat :| j < i && CodeAt(txs, j, c) {
      k := FirstCode(txs, c, j);
    } else {
      k := i;
    }
  }

  lemma CurrentOnly(t: Tables, txs: seq<Transaction>)
    requires Current(t, txs)
    ensures NothingElse(t, txs)
  {
    hide Origins, States, Deployed;
    forall c | c in t.origin ensures exists i :: 0 <= i < |txs| && CodeAt(txs, i, c) { var i := OriginFrom(txs, c); }
    forall c | c in t.state ensures exists i :: 0 <= i < |txs| && StateAt(txs, i, c) && t.state[c] == txs[i].id {
      var i := StateFrom(txs, c);
    }
  }

  lemma ChainIndexed(t: Tables, chain: Chain)
    requires Current(t, Flat(chain))
    ensures AllIndexed(t, chain) && NothingElse(t, Flat(chain))
  {
    hide Current, Flat, Indexed, NothingElse;
    CurrentOnly(t, Flat(chain));
    forall k, j | 0 <= k < |chain| && 0 <= j < |chain[k].transactions| ensures Indexed(t, chain[k].transactions[j]) {
      var i := FlatAt(chain, k, j);
      CurrentIndexes(t, Flat(chain), i);
    }
  }

  class Index {
    var blocks: map<Hash, Block<Transaction>>
    var lastHash: Hash
    var lastSeen: Hash
    var tables: Tables
    ghost var chain: Chain
    ghost var seen: nat

    ghost predicate Valid()
      reads this
    {
      && Chained(chain, blocks) && lastHash == HashBefore(chain, |chain|)
      && seen <= |chain| && lastSeen == HashBefore(chain, seen)
      && Current(tables, Flat(chain[..seen]))
    }

    constructor ()
      ensures Valid() && chain == [] && seen == 0 && blocks == map[] && tables == Tables(map[], map[], map[])
    {
      blocks, lastHash, lastSeen, tables := map[], EMPTY, EMPTY, Tables(map[], map[], map[]);
      chain, seen := [], 0;
    }

    /** A new block reaches the store. */
    method Append(b: Block<Transaction>)
      requires Valid() && b.hash != EMPTY && b.hash !in blocks && b.previous == lastHash
      modifies this
      ensures Valid() && chain == old(chain) + [b] && seen == old(seen) && tables == old(tables)
      ensures blocks == old(blocks)[b.hash := b]
    {
      hide Chained, Current;
      ChainedNext(chain, b, blocks);
      assert (chain + [b])[..seen] == chain[..seen];
      blocks := blocks[b.hash := b];
      lastHash := b.hash;
      chain := chain + [b];
    }

    /** update_smart_caches: afterwards the states and the lists of deployments are those
        of a scan of the whole chain.  The origins are, if and only if they were before
        and no contract known already is deployed again in a new block. */
    method Refresh()
      requires Valid()
      modifies this
      ensures Valid() && chain == old(chain) && seen == |chain| && blocks == old(blocks)
      ensures tables.state == States(Flat(chain))
      ensures forall c :: ListOf(tables.deployed, c) == Deployed(Flat(chain), c)
      ensures AllIndexed(tables, chain) && NothingElse(tables, Flat(chain))
      ensures tables.origin == old(tables.origin) + Origins(Flat(chain[old(seen)..]))
      ensures DistinctIds(Flat(chain)) ==>
        (tables.origin == Origins(Flat(chain)) <==>
          && old(tables.origin) == Origins(Flat(chain[..old(seen)]))
          && Origins(Flat(chain[..old(seen)])).Keys !! Origins(Flat(chain[old(seen)..])).Keys)
    {
      hide Flat, Origins, States, Deployed, DistinctIds, ListOf, Pass, Chained, HashBefore, AllIndexed, NothingElse;
      FlatSplit(chain, seen);
      var t := ReadNew();
      PassAgain(tables, Flat(chain[..seen]), Flat(chain[seen..]), t);
      assert chain[..|chain|] == chain;
      ChainIndexed(t, chain);
      tables := t;
      lastSeen := lastHash;
      seen := |chain|;
    }

    /** The walk from the last block back to the last one seen. */
    method ReadNew() returns (t: Tables)
      requires Valid()
      ensures Pass(tables, Flat(chain[seen..]), t)
    {
      hide Current, Pass, Tracks;
      t := tables;
      var s := Scratch(map[], {});
      var hash := lastHash;
      ghost var n := |chain|;
      PassOverNothing(t);
      assert chain[n..] == [];
      while hash != lastSeen
        invariant seen <= n <= |chain| && hash == HashBefore(chain, n)
        invariant Pass(tables, Flat(chain[n..]), t) && Tracks(s, tables, Flat(chain[n..]))
        decreases n
      {
        SamePlace(chain, blocks, n, seen);
        assert Stored(chain, n - 1, blocks);
        FlatFrom(chain, n - 1);
        var p := blocks[hash];
        t, s := VisitBlock(p.transactions, t, s, tables, Flat(chain[n..]));
        hash := p.previous;
        n := n - 1;
      }
      SamePlace(chain, blocks, n, seen);
    }
  }
}
