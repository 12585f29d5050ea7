/**
 Calls of BlockChain::writeLastBlock (csnode/src/Blockchain.cpp) while the writer thread of
 csdb/src/storage.cpp runs.  The calls exclude each other, but they read the last hash and
 the size without the writer's lock, so the writer may be anywhere at either read.
 */
module ChainCalls {
  import opened Basics
  import opened ChainBlocks
  import opened ChainStorage
  import opened ChainRescan

  //// What the writer makes of a sequence of pools

  ghost function LastAfter(s: seq<Pool>): Hash {
    if s == [] then EMPTY else MovedOn(LastAfter(s[..|s| - 1]), s[|s| - 1])
  }

  ghost function HashesAfter(s: seq<Pool>): map<Hash, nat> {
    if s == [] then map[] else StoreHash(HashesAfter(s[..|s| - 1]), s[|s| - 1])
  }

  ghost function PoolsAfter(s: seq<Pool>): map<nat, Pool> {
    if s == [] then map[] else StorePool(PoolsAfter(s[..|s| - 1]), s[|s| - 1])
  }

  lemma OneMorePool(s: seq<Pool>, k: nat)
    requires k < |s|
    ensures LastAfter(s[..k + 1]) == MovedOn(LastAfter(s[..k]), s[k])
    ensures HashesAfter(s[..k + 1]) == StoreHash(HashesAfter(s[..k]), s[k])
    ensures PoolsAfter(s[..k + 1]) == StorePool(PoolsAfter(s[..k]), s[k])
  {
    assert s[..k + 1][..k] == s[..k];
  }

  ghost predicate Distinct(s: seq<Pool>) {
    && (forall i, j :: 0 <= i < j < |s| ==> s[i].hash != s[j].hash)
    && (forall i :: 0 <= i < |s| ==> s[i].hash != EMPTY)
  }

  /** What a call saw: how many blocks were linked when it read the last hash, and how many
      were counted when it read the size. */
  datatype View = View(linked: nat, counted: nat)

  /** The blocks are those that calls with these reads make. */
  ghost predicate MadeBy(s: seq<Pool>, views: seq<View>) {
    |s| == |views| && forall i :: 0 <= i < |s| ==> MadeAt(s, views, i)
  }

  ghost predicate MadeAt(s: seq<Pool>, views: seq<View>, i: nat)
    requires i < |s| == |views|
  {
    var r := views[i];
    r.linked <= r.counted <= i && s[i] == Pool(s[i].hash, LastAfter(s[..r.linked]), r.counted, true)
  }

  //// The calls and the writer, step by step

  datatype Call = Idle | Linking(hash: Hash, previous: Hash) | Saving(pool: Pool)

  datatype Event = ReadLast(hash: Hash) | ReadSize | Push | PutPool | PopPool

  class Node {
    const store: Storage
    /** The call under way, if any. */
    var call: Call
    /** The writer is in the middle of a turn. */
    var halfway: bool
    ghost var made: seq<Pool>
    ghost var views: seq<View>
    /** What the call under way saw. */
    ghost var now: View

    ghost predicate Valid()
      reads this, store
    {
      && made == store.written + store.queue && Distinct(made) && MadeBy(made, views) && |made| < TWO32 - 1
      && (halfway ==> store.queue != []) && store.countPool == |store.written| + (if halfway then 1 else 0)
      && store.lastHash == LastAfter(store.written)
      && store.seqNo == HashesAfter(made[..store.countPool]) && store.blocks == PoolsAfter(made[..store.countPool])
      && (match call
          case Idle => true
          case Linking(_, previous) => now.linked <= |store.written| && previous == LastAfter(made[..now.linked])
          case Saving(pool) =>
            && now.linked <= now.counted <= store.countPool
            && pool == Pool(pool.hash, LastAfter(made[..now.linked]), now.counted, true))
    }

    /** The hash of the block under way. */
    ghost predicate Busy(hash: Hash)
      reads this
    {
      (call.Linking? && call.hash == hash) || (call.Saving? && call.pool.hash == hash)
    }

    constructor ()
      ensures Valid() && fresh(store) && made == [] && call == Idle
    {
      hide Distinct, MadeBy, LastAfter, HashesAfter, PoolsAfter, Storage.Valid;
      NothingMade();
      store := new Storage();
      call, halfway, made, views, now := Idle, false, [], [], View(0, 0);
      new;
      assert made[..0] == [];
    }

    /** The call begins: it reads the last hash. */
    method BeginCall(hash: Hash)
      requires Valid() && call == Idle
      modifies this`call, this`now
      ensures Valid() && Busy(hash) && forall h :: Busy(h) ==> h == hash
      ensures now.linked == |store.written| && (now.linked == |made| <==> store.queue == [])
    {
      assert made[..|store.written|] == store.written;
      now := View(|store.written|, 0);
      call := Linking(hash, store.lastHash);
    }

    /** It reads the size. */
    method Number()
      requires Valid() && call.Linking?
      modifies this`call, this`now
      ensures Valid() && call.Saving? && now == View(old(now.linked), store.countPool)
      ensures now.counted == |made| <==> store.queue == [] || (halfway && |store.queue| == 1)
      ensures forall h :: Busy(h) <==> old(Busy(h))
    {
      now := View(now.linked, store.countPool);
      call := Saving(Pool(call.hash, call.previous, store.countPool, true));
    }

    /** It saves the block. */
    method SaveBlock()
      requires Valid() && call.Saving? && call.pool.hash != EMPTY && |made| + 1 < TWO32 - 1
      requires forall p :: p in made ==> p.hash != call.pool.hash
      modifies this, store`queue
      ensures Valid() && call == Idle
      ensures made == old(made) + [old(call.pool)] && views == old(views) + [old(now)]
    {
      hide Distinct, MadeBy, LastAfter, HashesAfter, PoolsAfter, Storage.Valid, Apart;
      var pool := call.pool;
      ghost var was := made;
      KeysMade(made[..store.countPool], pool.hash);
      var _ := store.Save(pool);
      made := made + [pool];
      MadeNext(was, views, pool, now);
      views := views + [now];
      call := Idle;
      assert made == store.written + store.queue;
      assert made[..store.countPool] == was[..store.countPool];
    }

    /** The writer stores and counts the first pool of the queue. */
    method WriterPuts()
      requires Valid() && !halfway && store.queue != []
      modifies this`halfway, store
      ensures Valid() && halfway && store.queue == old(store.queue) && forall h :: Busy(h) <==> old(Busy(h))
    {
      hide Distinct, MadeBy, LastAfter, HashesAfter, PoolsAfter, Storage.Valid;
      ghost var k := store.countPool;
      assert made[k] == store.queue[0];
      OneMorePool(made, k);
      store.PutFront();
      halfway := true;
    }

    /** The writer links it and takes it off. */
    method WriterPops()
      requires Valid() && halfway
      modifies this`halfway, store
      ensures Valid() && store.queue == old(store.queue[1..]) && forall h :: Busy(h) <==> old(Busy(h))
    {
      hide Distinct, MadeBy, LastAfter, HashesAfter, PoolsAfter, Storage.Valid;
      ghost var w, q := store.written, store.queue;
      OneMorePool(made, |w|);
      assert made[..|w|] == w && made[..|w| + 1] == w + [q[0]];
      assert (w + [q[0]]) + q[1..] == w + q;
      store.PopFront();
      halfway := false;
    }

    /** The calls begun so far and not dropped. */
    ghost function Calls(): nat
      reads this
    {
      |made| + if call.Idle? then 0 else 1
    }

    /** One step of either thread; a step that is not due changes nothing. */
    method Perform(e: Event)
      requires Valid() && Calls() < TWO32 - 1
      requires e.ReadLast? ==> e.hash != EMPTY && !Busy(e.hash) && forall p :: p in made ==> p.hash != e.hash
      requires forall h :: Busy(h) ==> h != EMPTY && forall p :: p in made ==> p.hash != h
      modifies this, store
      ensures Valid() && Calls() <= old(Calls()) + if e.ReadLast? then 1 else 0
      ensures forall h :: Busy(h) ==> old(Busy(h)) || e == ReadLast(h)
      ensures forall p :: p in made ==> p in old(made) || old(Busy(p.hash))
      ensures forall h :: Busy(h) ==> h != EMPTY && forall p :: p in made ==> p.hash != h
    {
      match e
      case ReadLast(hash) => if call.Idle? { BeginCall(hash); }
      case ReadSize => if call.Linking? { Number(); }
      case Push => if call.Saving? { assert Busy(call.pool.hash); SaveBlock(); }
      case PutPool => if !halfway && store.queue != [] { WriterPuts(); }
      case PopPool => if halfway { WriterPops(); }
    }

    /** The writer finishes. */
    method Finish()
      requires Valid()
      modifies this`halfway, store
      ensures Valid() && store.queue == []
    {
      while store.queue != []
        invariant Valid()
        decreases |store.queue|, if halfway then 0 else 1
      {
        if halfway { WriterPops(); } else { WriterPuts(); }
      }
    }

    /** Every block can be loaded by its hash. */
    ghost predicate AllLoad()
      reads this, store
    {
      forall i :: 0 <= i < |made| ==> Loads(made[i])
    }

    /** Each call read the size when all blocks before it were counted. */
    ghost predicate Counted()
      reads this
    {
      forall i :: 0 <= i < |views| ==> views[i].counted == i
    }

    /** Each call read the last hash when all blocks before it were linked. */
    ghost predicate Waited()
      reads this
    {
      forall i :: 0 <= i < |views| ==> views[i].linked == i
    }

    /** Both lookups of a load succeed and give this pool. */
    ghost predicate Loads(p: Pool)
      reads store
    {
      Found(p.hash, store.seqNo, store.blocks) && store.blocks[store.seqNo[p.hash]] == p
    }

    /** Once the writer is done, what can be loaded and what is in order depends on when each
        call read, and on nothing else. */
    lemma AfterCalls()
      requires Valid() && store.queue == []
      ensures store.written == made && |made| == |views|
      ensures AllLoad() <==> Counted()
      ensures InOrder(made) <==> Waited()
    {
      assert |made| == |views|;
      hide Distinct, MadeBy, LastAfter, HashesAfter, PoolsAfter, Record, InOrder;
      assert made[..store.countPool] == made;
      if Counted() {
        forall i | 0 <= i < |made| ensures Loads(made[i]) { Kept(made, views, i); }
      } else {
        var i := Overwritten(made, views);
      }
      OrderedCalls(made, views);
    }
  }

  lemma NothingMade()
    ensures LastAfter([]) == EMPTY && HashesAfter([]) == map[] && PoolsAfter([]) == map[]
    ensures Distinct([]) && MadeBy([], [])
  {
  }

  /** A block is made by the reads of its call. */
  lemma MadeNext(s: seq<Pool>, views: seq<View>, pool: Pool, now: View)
    requires MadeBy(s, views) && Distinct(s) && now.linked <= now.counted <= |s|
    requires pool == Pool(pool.hash, LastAfter(s[..now.linked]), now.counted, true) && pool.hash != EMPTY
    requires forall p :: p in s ==> p.hash != pool.hash
    ensures MadeBy(s + [pool], views + [now]) && Distinct(s + [pool])
  {
    hide LastAfter;
    var t, r := s + [pool], views + [now];
    forall i | 0 <= i < |t| ensures MadeAt(t, r, i) {
      if i < |s| { assert MadeAt(s, views, i); }
      assert t[..r[i].linked] == s[..r[i].linked];
    }
    forall i, j | 0 <= i < j < |t| ensures t[i].hash != t[j].hash { assert s[i] in s; }
  }

  lemma {:induction false} KeysMade(s: seq<Pool>, hash: Hash)
    requires forall p :: p in s ==> p.hash != hash
    ensures hash !in HashesAfter(s)
  {
    if s != [] {
      assert s[|s| - 1] in s;
      KeysMade(s[..|s| - 1], hash);
    }
  }

  //// Lookups

  /** The hash table gives every block its record. */
  lemma {:induction false} HashAt(s: seq<Pool>, i: nat)
    requires Distinct(s) && i < |s| && forall k :: 0 <= k < |s| ==> s[k].sequence < TWO32 - 1
    ensures s[i].hash in HashesAfter(s) && HashesAfter(s)[s[i].hash] == s[i].sequence + 1
  {
    if i < |s| - 1 { HashAt(s[..|s| - 1], i); }
  }

  /** A record holds one of the last blocks put there. */
  lemma {:induction false} PoolAt(s: seq<Pool>, i: nat) returns (j: nat)
    requires i < |s| && forall k :: 0 <= k < |s| ==> s[k].sequence < TWO32 - 1
    ensures i <= j < |s| && s[j].sequence == s[i].sequence
    ensures s[i].sequence + 1 in PoolsAfter(s) && PoolsAfter(s)[s[i].sequence + 1] == s[j]
  {
    var last := |s| - 1;
    if s[last].sequence == s[i].sequence {
      j := last;
    } else {
      j := PoolAt(s[..last], i);
    }
  }

  lemma Small(s: seq<Pool>, views: seq<View>)
    requires MadeBy(s, views) && |s| < TWO32 - 1
    ensures forall k :: 0 <= k < |s| ==> s[k].sequence < TWO32 - 1
  {
    forall k | 0 <= k < |s| ensures s[k].sequence < TWO32 - 1 { assert MadeAt(s, views, k); }
  }

  /** With every number taken once, every block is found. */
  lemma Kept(s: seq<Pool>, views: seq<View>, i: nat)
    requires MadeBy(s, views) && Distinct(s) && |s| < TWO32 - 1 && i < |s|
    requires forall k :: 0 <= k < |views| ==> views[k].counted == k
    ensures Found(s[i].hash, HashesAfter(s), PoolsAfter(s)) && PoolsAfter(s)[HashesAfter(s)[s[i].hash]] == s[i]
  {
    Small(s, views);
    HashAt(s, i);
    var j := PoolAt(s, i);
    hide LastAfter, HashesAfter, PoolsAfter;
    assert MadeAt(s, views, i) && MadeAt(s, views, j);
  }

  /** The first call that reads a size too small takes the number of an earlier block, which
      is then found no more. */
  lemma Overwritten(s: seq<Pool>, views: seq<View>) returns (i: nat)
    requires MadeBy(s, views) && Distinct(s) && |s| < TWO32 - 1
    requires exists k :: 0 <= k < |views| && views[k].counted != k
    ensures i < |s| && s[i].hash in HashesAfter(s) && HashesAfter(s)[s[i].hash] in PoolsAfter(s)
    ensures PoolsAfter(s)[HashesAfter(s)[s[i].hash]] != s[i]
  {
    Small(s, views);
    hide LastAfter, HashesAfter, PoolsAfter;
    var n := FirstShort(s, views);
    assert MadeAt(s, views, n);
    i := views[n].counted;
    assert MadeAt(s, views, i);
    HashAt(s, i);
    var j := PoolAt(s, n);
    assert s[i].hash != s[j].hash;
  }

  lemma FirstShort(s: seq<Pool>, views: seq<View>) returns (n: nat)
    requires MadeBy(s, views) && exists k :: 0 <= k < |views| && views[k].counted != k
    ensures n < |views| && views[n].counted < n && forall k :: 0 <= k < n ==> views[k].counted == k
  {
    hide LastAfter;
    n := 0;
    while views[n].counted == n
      invariant n < |views| && forall k :: 0 <= k < n ==> views[k].counted == k
      decreases |views| - n
    {
      n := n + 1;
    }
    assert MadeAt(s, views, n);
  }

  //// Order

  /** In a chain in order the last hash is that of the last block. */
  lemma {:induction false} LastInOrder(s: seq<Pool>)
    requires InOrder(s)
    ensures LastAfter(s) == LastOf(s)
  {
    if s != [] {
      var n := |s| - 1;
      InOrderPrefix(s[..n], s);
      LastInOrder(s[..n]);
      assert Placed(s, n);
    }
  }

  /** The blocks up to the first that read too early are in order. */
  lemma {:induction false} OrderedUpTo(s: seq<Pool>, views: seq<View>, n: nat)
    requires MadeBy(s, views) && n <= |s| && forall k :: 0 <= k < n ==> views[k].linked == k
    ensures InOrder(s[..n])
  {
    if n > 0 {
      hide LastAfter;
      var m := n - 1;
      OrderedUpTo(s, views, m);
      LastInOrder(s[..m]);
      assert MadeAt(s, views, m);
      forall i | 0 <= i < n ensures Placed(s[..n], i) {
        if i < m { assert Placed(s[..m], i); }
      }
    }
  }

  lemma OrderedCalls(s: seq<Pool>, views: seq<View>)
    requires MadeBy(s, views) && Distinct(s)
    ensures InOrder(s) <==> (forall i :: 0 <= i < |views| ==> views[i].linked == i)
  {
    hide LastAfter;
    assert s[..|s|] == s;
    if forall i :: 0 <= i < |views| ==> views[i].linked == i {
      OrderedUpTo(s, views, |s|);
    } else if InOrder(s) {
      var i :| 0 <= i < |views| && views[i].linked != i;
      assert MadeAt(s, views, i) && Placed(s, i);
      var n := views[i].linked;
      InOrderPrefix(s[..n], s);
      LastInOrder(s[..n]);
    }
  }

  //// Every interleaving

  /** No two calls save a block with the same hash, and none has the hash of no block. */
  ghost predicate DistinctCalls(events: seq<Event>) {
    && (forall i :: 0 <= i < |events| && events[i].ReadLast? ==> events[i].hash != EMPTY)
    && (forall i, j :: 0 <= i < j < |events| && events[i].ReadLast? && events[j].ReadLast? ==> events[i].hash != events[j].hash)
  }

  ghost function CallsIn(events: seq<Event>): nat {
    if events == [] then 0 else CallsIn(events[..|events| - 1]) + if events[|events| - 1].ReadLast? then 1 else 0
  }

  lemma {:induction false} CallsUpTo(events: seq<Event>, k: nat)
    requires k < |events|
    ensures CallsIn(events[..k + 1]) == CallsIn(events[..k]) + if events[k].ReadLast? then 1 else 0
    ensures CallsIn(events[..k + 1]) <= CallsIn(events)
    decreases |events| - k
  {
    assert events[..k + 1][..k] == events[..k];
    if k + 1 < |events| { CallsUpTo(events, k + 1); } else { assert events[..k + 1] == events; }
  }

  ghost predicate Begun(events: seq<Event>, k: nat, hash: Hash)
    requires k <= |events|
  {
    exists i :: 0 <= i < k && events[i] == ReadLast(hash)
  }

  /** Every run of calls and writer steps, in any interleaving, from an empty store. */
  method RunCalls(events: seq<Event>) returns (node: Node)
    requires DistinctCalls(events) && CallsIn(events) < TWO32 - 1
    ensures fresh(node) && fresh(node.store) && node.Valid()
    ensures forall p :: p in node.made ==> Begun(events, |events|, p.hash)
  {
    hide Node.Valid, CallsIn;
    node := new Node();
    for k := 0 to |events|
      invariant fresh(node) && fresh(node.store) && node.Valid() && node.Calls() <= CallsIn(events[..k])
      invariant forall h :: node.Busy(h) ==> Begun(events, k, h)
      invariant forall p :: p in node.made ==> Begun(events, k, p.hash)
      invariant forall h :: node.Busy(h) ==> h != EMPTY && forall p :: p in node.made ==> p.hash != h
    {
      CallsUpTo(events, k);
      node.Perform(events[k]);
      forall h | Begun(events, k, h) || events[k] == ReadLast(h) ensures Begun(events, k + 1, h) { }
    }
  }

  /** After every run, once the writer is done: all blocks load if and only if every call
      read the size with all earlier blocks counted, and they are in order if and only if
      every call read the last hash with the queue empty. */
  method EveryRun(events: seq<Event>) returns (node: Node)
    requires DistinctCalls(events) && CallsIn(events) < TWO32 - 1
    ensures node.Valid() && node.store.queue == [] && node.store.written == node.made
    ensures node.AllLoad() <==> node.Counted()
    ensures InOrder(node.made) <==> node.Waited()
  {
    node := RunCalls(events);
    node.Finish();
    node.AfterCalls();
  }
}
