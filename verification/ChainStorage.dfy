/**
 The queued block store of csdb/src/storage.cpp over the two tables of
 csdb/src/database_berkeleydb.cpp.  A caller saves pools to a queue and a writer
 thread takes them off one at a time.  A caller looks the hash up before it takes the lock
 to push; here both are one step, because the hashes saved in a run are distinct.  A run
 is any sequence of saves and turns of the writer.
 */
module ChainStorage {
  import opened Basics
  import opened ChainBlocks

  /** A composed pool; its contents play no part here. */
  datatype Pool = Pool(hash: Hash, previous: Hash, sequence: nat, valid: bool)

  /** The record number of a sequence number, as it is kept in 32 bits. */
  function Record(sequence: nat): nat { (sequence % TWO32 + 1) % TWO32 }

  /** Two pools do not get in each other's way. */
  ghost predicate Apart(p: Pool, q: Pool) { p.hash != q.hash && Record(p.sequence) != Record(q.sequence) }

  ghost predicate AllApart(s: seq<Pool>) {
    forall i, j :: 0 <= i < j < |s| ==> Apart(s[i], s[j])
  }

  /** A pool that the store can number. */
  ghost predicate Storable(p: Pool) { p.valid && p.hash != EMPTY && p.sequence < TWO32 - 1 }

  /** p is new with respect to s. */
  ghost predicate New(p: Pool, s: seq<Pool>) {
    Storable(p) && forall i :: 0 <= i < |s| ==> Apart(s[i], p)
  }

  /** Block i of a path comes right after block i + 1, or after none. */
  ghost predicate LinkAt(path: seq<Pool>, i: nat)
    requires i < |path|
  {
    path[i].previous == if i + 1 < |path| then path[i + 1].hash else EMPTY
  }

  /** path follows predecessors from `last` through pools of s down to the first block. */
  ghost predicate Path(path: seq<Pool>, last: Hash, s: seq<Pool>) {
    && (forall i :: 0 <= i < |path| ==> path[i] in s)
    && (forall i :: 0 <= i < |path| ==> LinkAt(path, i))
    && (forall i, j :: 0 <= i < j < |path| ==> path[i] != path[j])
    && last == if path == [] then EMPTY else path[0].hash
  }

  ghost predicate Storables(s: seq<Pool>) {
    forall i :: 0 <= i < |s| ==> Storable(s[i])
  }

  /** The two tables hold exactly the pools of s. */
  ghost predicate Tables(s: seq<Pool>, seqNo: map<Hash, nat>, blocks: map<nat, Pool>) {
    && (forall p :: p in s ==> p.hash in seqNo && seqNo[p.hash] == Record(p.sequence))
    && (forall p :: p in s ==> Record(p.sequence) in blocks && blocks[Record(p.sequence)] == p)
    && (forall h :: h in seqNo ==> exists p :: p in s && p.hash == h)
    && (forall r :: r in blocks ==> blocks[r] in s && Record(blocks[r].sequence) == r)
  }

  lemma TablesPut(s: seq<Pool>, seqNo: map<Hash, nat>, blocks: map<nat, Pool>, pool: Pool)
    requires Tables(s, seqNo, blocks) && New(pool, s)
    ensures Tables(s + [pool], seqNo[pool.hash := Record(pool.sequence)], blocks[Record(pool.sequence) := pool])
  {
    var t, n, b := s + [pool], seqNo[pool.hash := Record(pool.sequence)], blocks[Record(pool.sequence) := pool];
    forall p | p in t
      ensures p.hash in n && n[p.hash] == Record(p.sequence) && Record(p.sequence) in b && b[Record(p.sequence)] == p
    {
      if p in s {
        var i :| 0 <= i < |s| && s[i] == p;
        assert Apart(s[i], pool);
      }
    }
    forall h | h in n ensures exists p :: p in t && p.hash == h {
      if h == pool.hash {
        assert pool in t;
      } else {
        var p :| p in s && p.hash == h;
        assert p in t;
      }
    }
  }

  lemma PathGrows(path: seq<Pool>, last: Hash, s: seq<Pool>, pool: Pool)
    requires Path(path, last, s) && New(pool, s)
    ensures Path(path, last, s + [pool])
    ensures pool.previous == last ==> Path([pool] + path, pool.hash, s + [pool])
  {
    assert forall p :: p in s ==> p in s + [pool];
    if pool.previous == last {
      var q := [pool] + path;
      forall i | 0 <= i < |q| ensures q[i] in s + [pool] && LinkAt(q, i) {
        if i > 0 { assert q[i] == path[i - 1] && LinkAt(path, i - 1); }
      }
      forall i, j | 0 <= i < j < |q| ensures q[i] != q[j] {
        assert q[j] == path[j - 1];
        if i == 0 {
          var k :| 0 <= k < |s| && s[k] == q[j];
          assert Apart(s[k], pool);
        }
      }
    }
  }

  lemma FrontIsNew(s: seq<Pool>, q: seq<Pool>)
    requires q != [] && AllApart(s + q) && Storables(s + q)
    ensures New(q[0], s) && Storable(q[0])
  {
    var t := s + q;
    assert t[|s|] == q[0] && Storable(t[|s|]);
    forall i | 0 <= i < |s| ensures Apart(s[i], q[0]) { assert Apart(t[i], t[|s|]); }
  }

  lemma RecordOf(p: Pool)
    requires Storable(p)
    ensures Record(p.sequence) == p.sequence + 1
  {
  }

  /** The two tables after a pool is put; record zero is refused. */
  function StoreHash(seqNo: map<Hash, nat>, p: Pool): map<Hash, nat> {
    if Record(p.sequence) == 0 then seqNo else seqNo[p.hash := Record(p.sequence)]
  }

  function StorePool(blocks: map<nat, Pool>, p: Pool): map<nat, Pool> {
    if Record(p.sequence) == 0 then blocks else blocks[Record(p.sequence) := p]
  }

  function MovedOn(last: Hash, p: Pool): Hash { if p.previous == last then p.hash else last }

  /** Both lookups of DatabaseBerkeleyDB::get succeed. */
  predicate Found(hash: Hash, seqNo: map<Hash, nat>, blocks: map<nat, Pool>) {
    hash in seqNo && seqNo[hash] in blocks
  }

  class Storage {
    var seqNo: map<Hash, nat>
    var blocks: map<nat, Pool>
    var lastHash: Hash
    var countPool: nat
    var queue: seq<Pool>
    ghost var written: seq<Pool>
    ghost var path: seq<Pool>

    ghost predicate Valid()
      reads this
    {
      && AllApart(written + queue) && Storables(written + queue)
      && Tables(written, seqNo, blocks)
      && countPool == |written| && Path(path, lastHash, written)
    }

    constructor ()
      ensures Valid() && written == [] && queue == []
      ensures seqNo == map[] && blocks == map[] && lastHash == EMPTY && countPool == 0
    {
      seqNo, blocks, lastHash, countPool, queue := map[], map[], EMPTY, 0, [];
      written, path := [], [];
    }

    /** DatabaseBerkeleyDB::put; record zero is refused. */
    method Put(hash: Hash, sequence: nat, pool: Pool) returns (ok: bool)
      modifies this`seqNo, this`blocks
      ensures ok <==> sequence % TWO32 != TWO32 - 1
      ensures seqNo == if ok then old(seqNo)[hash := sequence % TWO32 + 1] else old(seqNo)
      ensures blocks == if ok then old(blocks)[sequence % TWO32 + 1 := pool] else old(blocks)
    {
      var record := Record(sequence);
      if record == 0 { return false; }
      blocks := blocks[record := pool];
      seqNo := seqNo[hash := record];
      ok := true;
    }

    /** DatabaseBerkeleyDB::get */
    method Get(hash: Hash) returns (r: Option<Pool>)
      ensures r.Some? <==> Found(hash, seqNo, blocks)
      ensures r.Some? ==> r.value == blocks[seqNo[hash]]
      ensures Valid() && r.None? ==> forall p :: p in written ==> p.hash != hash
      ensures Valid() && r.Some? ==> r.value in written && r.value.hash == hash
    {
      if hash !in seqNo { return None; }
      var record := seqNo[hash];
      if record !in blocks { return None; }
      r := Some(blocks[record]);
    }

    /** Storage::pool_save */
    method Save(pool: Pool) returns (ok: bool)
      modifies this`queue
      ensures ok <==> pool.valid && pool.hash !in seqNo
      ensures queue == if ok then old(queue) + [pool] else old(queue)
      ensures old(Valid()) ==> (ok <==> pool.valid && forall p :: p in written ==> p.hash != pool.hash)
      ensures old(Valid()) && (ok ==> New(pool, old(written + queue))) ==> Valid()
    {
      if !pool.valid { return false; }
      if pool.hash in seqNo {   // get without a value looks at this table only
        return false;
      }
      assert written + (queue + [pool]) == (written + queue) + [pool];
      queue := queue + [pool];
      ok := true;
    }

    /** One turn of Storage::priv::write_routine. */
    method WriteNext()
      requires queue != []
      modifies this
      ensures old(Valid()) ==> Valid()
      ensures written == old(written) + [old(queue[0])] && queue == old(queue[1..])
      ensures countPool == old(countPool) + 1
      ensures lastHash == MovedOn(old(lastHash), old(queue[0]))
      ensures seqNo == StoreHash(old(seqNo), old(queue[0])) && blocks == StorePool(old(blocks), old(queue[0]))
    {
      hide Tables, Path, AllApart, Storables, New, Record;
      ghost var pool := queue[0];
      if Valid() {
        FrontIsNew(written, queue);
        RecordOf(pool);
        TablesPut(written, seqNo, blocks, pool);
        PathGrows(path, lastHash, written, pool);
      }
      assert (written + [pool]) + queue[1..] == written + queue;
      PutFront();
      PopFront();
    }

    /** The first half of a turn: the pool is stored and counted. */
    method PutFront()
      requires queue != []
      modifies this`seqNo, this`blocks, this`countPool
      ensures countPool == old(countPool) + 1
      ensures seqNo == StoreHash(old(seqNo), queue[0]) && blocks == StorePool(old(blocks), queue[0])
    {
      var ok := Put(queue[0].hash, queue[0].sequence, queue[0]);
      countPool := countPool + 1;
    }

    /** The second half: the last hash moves on if the pool comes right after it. */
    method PopFront()
      requires queue != []
      modifies this`lastHash, this`queue, this`written, this`path
      ensures written == old(written) + [old(queue[0])] && queue == old(queue[1..])
      ensures lastHash == MovedOn(old(lastHash), old(queue[0]))
      ensures path == if old(queue[0]).previous == old(lastHash) then [old(queue[0])] + old(path) else old(path)
    {
      var pool := queue[0];
      if lastHash == pool.previous {
        lastHash := pool.hash;
        path := [pool] + path;
      }
      queue := queue[1..];
      written := written + [pool];
    }

    /** Loads the chain from the last hash back to the first block. */
    method Walk() returns (chain: seq<Pool>)
      requires Valid()
      ensures chain == path
    {
      chain := [];
      var hash := lastHash;
      while hash != EMPTY
        invariant |chain| <= |path| && chain == path[..|chain|]
        invariant hash == if |chain| < |path| then path[|chain|].hash else EMPTY
        decreases |path| - |chain|
      {
        ghost var p := path[|chain|];
        assert LinkAt(path, |chain|);
        var r := Get(hash);
        SameHash(written, queue, p, r);
        chain := chain + [r.value];
        hash := r.value.previous;
      }
      if |chain| < |path| { HasHash(written, queue, path[|chain|]); }
    }
  }

  lemma HasHash(s: seq<Pool>, q: seq<Pool>, p: Pool)
    requires Storables(s + q) && p in s
    ensures p.hash != EMPTY
  {
    var i :| 0 <= i < |s| && s[i] == p;
    assert Storable((s + q)[i]);
  }

  /** At most one stored pool has a given hash. */
  lemma SameHash(s: seq<Pool>, q: seq<Pool>, p: Pool, r: Option<Pool>)
    requires AllApart(s + q) && p in s
    requires r.None? ==> forall x :: x in s ==> x.hash != p.hash
    requires r.Some? ==> r.value in s && r.value.hash == p.hash
    ensures r == Some(p)
  {
    var t := s + q;
    var i :| 0 <= i < |s| && s[i] == p;
    var j :| 0 <= j < |s| && s[j] == r.value;
    assert t[i] == p && t[j] == r.value;
  }

  //// Every interleaving

  datatype Step = SaveStep(pool: Pool) | WriteStep

  /** The pools that a run saves. */
  ghost function Saved(steps: seq<Step>): seq<Pool> {
    if steps == [] then []
    else
      var rest := Saved(steps[..|steps| - 1]);
      if steps[|steps| - 1].SaveStep? then rest + [steps[|steps| - 1].pool] else rest
  }

  lemma NextStep(steps: seq<Step>, i: nat)
    requires i < |steps|
    ensures Saved(steps[..i + 1])
            == if steps[i].SaveStep? then Saved(steps[..i]) + [steps[i].pool] else Saved(steps[..i])
  {
    assert steps[..i + 1][..i] == steps[..i];
  }

  lemma {:induction false} SavedPrefix(steps: seq<Step>, i: nat)
    requires i <= |steps|
    ensures Saved(steps[..i]) <= Saved(steps)
    decreases |steps| - i
  {
    if i < |steps| {
      NextStep(steps, i);
      SavedPrefix(steps, i + 1);
    } else {
      assert steps[..i] == steps;
    }
  }

  lemma NewInRun(steps: seq<Step>, i: nat, pool: Pool)
    requires AllApart(Saved(steps)) && Storables(Saved(steps)) && i < |steps| && steps[i] == SaveStep(pool)
    ensures New(pool, Saved(steps[..i]))
  {
    var before, all := Saved(steps[..i]), Saved(steps);
    NextStep(steps, i);
    SavedPrefix(steps, i + 1);
    hide Saved;
    var n := |before|;
    assert (before + [pool])[n] == pool && all[n] == pool;
    assert Storable(all[n]);
    forall k | 0 <= k < n ensures Apart(before[k], pool) {
      assert all[k] == (before + [pool])[k];
      assert Apart(all[k], all[n]);
    }
  }

  lemma NotAmong(pool: Pool, s: seq<Pool>, q: seq<Pool>)
    requires New(pool, s + q)
    ensures pool.valid && forall p :: p in s ==> p.hash != pool.hash
  {
    forall i | 0 <= i < |s| ensures s[i].hash != pool.hash { assert Apart((s + q)[i], pool); }
  }

  /** One step of either thread. */
  method Perform(s: Storage, step: Step)
    requires s.Valid() && (step.SaveStep? ==> New(step.pool, s.written + s.queue))
    modifies s
    ensures s.Valid()
    ensures s.written + s.queue == old(s.written + s.queue) + if step.SaveStep? then [step.pool] else []
  {
    hide New, Storage.Valid, Found, Record;
    ghost var w, q := s.written, s.queue;
    match step {
      case SaveStep(pool) =>
        NotAmong(pool, w, q);
        var ok := s.Save(pool);
        assert w + (q + [pool]) == w + q + [pool];
      case WriteStep =>
        if s.queue != [] {
          s.WriteNext();
          assert (w + [q[0]]) + q[1..] == w + q;
        }
    }
  }

  /** Any run that saves distinct pools, in any interleaving with the writer. */
  method Run(steps: seq<Step>) returns (s: Storage)
    requires AllApart(Saved(steps)) && Storables(Saved(steps))
    ensures fresh(s) && s.Valid() && s.written + s.queue == Saved(steps)
  {
    hide AllApart, Storables, New, Storage.Valid;
    s := new Storage();
    assert steps[..0] == [];
    hide Saved;
    for i := 0 to |steps|
      invariant fresh(s) && s.Valid() && s.written + s.queue == Saved(steps[..i])
    {
      NextStep(steps, i);
      if steps[i].SaveStep? { NewInRun(steps, i, steps[i].pool); }
      Perform(s, steps[i]);
    }
    assert steps[..|steps|] == steps;
  }
}
