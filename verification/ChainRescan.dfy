/** Storage::priv::rescan of csdb/src/storage.cpp, and BlockChain::writeLastBlock of
    csnode/src/Blockchain.cpp, which numbers and links the blocks. */
module ChainRescan {
  import opened Basics
  import opened ChainBlocks
  import opened ChainStorage

  /** als: hash and predecessor of the block with each sequence number. */
  type Entry = (Hash, Hash)

  function Pad(als: seq<Entry>, n: nat): (r: seq<Entry>)
    ensures |r| == if |als| < n then n else |als|
    ensures r[..|als|] == als
  {
    if |als| < n then als + seq(n - |als|, i => (EMPTY, EMPTY)) else als
  }

  /** The table after all records of a cursor. */
  ghost function Table(cursor: seq<Pool>): seq<Entry> {
    if cursor == [] then []
    else
      var p := cursor[|cursor| - 1];
      Noted(Table(cursor[..|cursor| - 1]), p)
  }

  ghost function Noted(als: seq<Entry>, p: Pool): seq<Entry> {
    Pad(als, p.sequence + 1)[p.sequence := (p.hash, p.previous)]
  }

  lemma NoRecords(cursor: seq<Pool>)
    ensures Table(cursor[..0]) == [] && Covers([], 0)
  {
  }

  lemma NextRecord(cursor: seq<Pool>, k: nat)
    requires k < |cursor|
    ensures Table(cursor[..k + 1]) == Noted(Table(cursor[..k]), cursor[k])
  {
    assert cursor[..k + 1][..k] == cursor[..k];
  }

  /** The last block reached from entry i - 1 on while each names the one before. */
  ghost function LastLinked(als: seq<Entry>, i: nat): Hash
    requires 1 <= i <= |als|
    decreases |als| - i
  {
    if i == |als| || als[i].1 != als[i - 1].0 then als[i - 1].0 else LastLinked(als, i + 1)
  }

  /** als covers the sequence numbers up to lastSeq. */
  predicate Covers(als: seq<Entry>, lastSeq: nat) {
    if als == [] then lastSeq == 0 else |als| == lastSeq + 1
  }

  /** Grows als where needed and notes one block. */
  method Note(als: seq<Entry>, lastSeq: nat, p: Pool) returns (als': seq<Entry>, lastSeq': nat)
    requires Covers(als, lastSeq) && p.sequence < TWO32 - 1
    ensures als' == Noted(als, p) && Covers(als', lastSeq')
  {
    als', lastSeq' := als, lastSeq;
    if p.sequence >= lastSeq {
      lastSeq' := p.sequence;
      als' := Pad(als, lastSeq' + 1);
    }
    als' := als'[p.sequence := (p.hash, p.previous)];
  }

  ghost function Linked(als: seq<Entry>): Hash { if als == [] then EMPTY else LastLinked(als, 1) }

  /** No later record has the number of record i. */
  ghost predicate Newest(cursor: seq<Pool>, i: nat)
    requires i < |cursor|
  {
    forall j :: i < j < |cursor| ==> cursor[j].sequence != cursor[i].sequence
  }

  ghost predicate Missing(cursor: seq<Pool>, k: nat) {
    forall i :: 0 <= i < |cursor| ==> cursor[i].sequence != k
  }

  /** als reaches up to the highest number, holds the newest record of each number, and
      nothing for a number without record. */
  ghost predicate IsTable(als: seq<Entry>, cursor: seq<Pool>) {
    && (forall i :: 0 <= i < |cursor| ==> cursor[i].sequence < |als|)
    && (als != [] ==> !Missing(cursor, |als| - 1))
    && (forall i :: 0 <= i < |cursor| && Newest(cursor, i) ==> als[cursor[i].sequence] == (cursor[i].hash, cursor[i].previous))
    && (forall k :: 0 <= k < |als| && Missing(cursor, k) ==> als[k] == (EMPTY, EMPTY))
  }

  lemma {:induction false} TableHolds(cursor: seq<Pool>)
    ensures IsTable(Table(cursor), cursor)
  {
    hide IsTable, Noted;
    if cursor == [] {
      NoTable();
    } else {
      var n := |cursor| - 1;
      TableHolds(cursor[..n]);
      NotedHolds(Table(cursor[..n]), cursor[..n], cursor[n]);
      assert cursor == cursor[..n] + [cursor[n]];
    }
  }

  lemma NoTable()
    ensures IsTable([], [])
  {
  }

  lemma NotedAt(als: seq<Entry>, p: Pool)
    ensures |Noted(als, p)| == if |als| < p.sequence + 1 then p.sequence + 1 else |als|
    ensures forall k :: 0 <= k < |Noted(als, p)| ==>
      Noted(als, p)[k] == if k == p.sequence then (p.hash, p.previous) else if k < |als| then als[k] else (EMPTY, EMPTY)
  {
  }

  lemma NotedHolds(als: seq<Entry>, cursor: seq<Pool>, p: Pool)
    requires IsTable(als, cursor)
    ensures IsTable(Noted(als, p), cursor + [p])
  {
    NotedAt(als, p);
    hide Noted;
    var t, c, n := Noted(als, p), cursor + [p], |cursor|;
    assert c[n] == p && forall i :: 0 <= i < n ==> c[i] == cursor[i];
    forall i | 0 <= i < |c| && Newest(c, i) ensures t[c[i].sequence] == (c[i].hash, c[i].previous) {
      if i < n {
        assert c[n].sequence != c[i].sequence;
        assert Newest(cursor, i);
      }
    }
    forall k | 0 <= k < |t| && Missing(c, k) ensures t[k] == (EMPTY, EMPTY) {
      assert c[n].sequence != k;
      forall i | 0 <= i < n ensures cursor[i].sequence != k { assert c[i].sequence != k; }
    }
    assert !Missing(c, |t| - 1) by {
      if p.sequence + 1 < |als| {
        var i :| 0 <= i < n && cursor[i].sequence == |als| - 1;
        assert c[i].sequence == |t| - 1;
      } else {
        assert c[n].sequence == |t| - 1;
      }
    }
  }

  /** Entries below n are linked, each to the one before, and entry n is not. */
  ghost predicate LinkedUpTo(als: seq<Entry>, n: nat) {
    && 0 < n <= |als|
    && (forall i :: 1 <= i < n ==> als[i].1 == als[i - 1].0)
    && (n < |als| ==> als[n].1 != als[n - 1].0)
  }

  lemma {:induction false} LinkedEnd(als: seq<Entry>, i: nat) returns (n: nat)
    requires 1 <= i <= |als| && forall k :: 1 <= k < i ==> als[k].1 == als[k - 1].0
    ensures LinkedUpTo(als, n) && LastLinked(als, i) == als[n - 1].0
    decreases |als| - i
  {
    if i == |als| || als[i].1 != als[i - 1].0 { n := i; } else { n := LinkedEnd(als, i + 1); }
  }

  /** The last hash found for the records of a cursor. */
  ghost predicate IsEnd(last: Hash, cursor: seq<Pool>) {
    if cursor == [] then last == EMPTY
    else exists als: seq<Entry>, n: nat :: IsTable(als, cursor) && LinkedUpTo(als, n) && last == als[n - 1].0
  }

  lemma EndFound(cursor: seq<Pool>)
    ensures IsEnd(Linked(Table(cursor)), cursor)
  {
    hide IsTable;
    TableHolds(cursor);
    if cursor != [] { var n := LinkedEnd(Table(cursor), 1); }
  }

  /** rescan: fails on a damaged record; otherwise counts the records and finds the
      end of the linked prefix. */
  method Rescan(cursor: seq<Pool>) returns (ok: bool, last: Hash, count: nat)
    requires forall i :: 0 <= i < |cursor| ==> cursor[i].sequence < TWO32 - 1
    ensures ok <==> forall i :: 0 <= i < |cursor| ==> cursor[i].valid
    ensures ok ==> count == |cursor| && last == Linked(Table(cursor)) && IsEnd(last, cursor)
  {
    hide Table, Noted, LastLinked, Covers, IsEnd;
    NoRecords(cursor);
    EndFound(cursor);
    var lastSeq := 0;
    last, count := EMPTY, 0;
    var als: seq<Entry> := [];
    ok := true;
    for k := 0 to |cursor|
      invariant count == k && als == Table(cursor[..k]) && Covers(als, lastSeq)
      invariant forall i :: 0 <= i < k ==> cursor[i].valid
    {
      if !cursor[k].valid { return false, last, count; }
      count := count + 1;
      NextRecord(cursor, k);
      als, lastSeq := Note(als, lastSeq, cursor[k]);
    }
    assert cursor[..|cursor|] == cursor;
    if |als| > 0 { last := FollowLinks(als); }
  }

  method FollowLinks(als: seq<Entry>) returns (last: Hash)
    requires als != []
    ensures last == LastLinked(als, 1)
  {
    last := als[0].0;
    var i := 1;
    while i < |als|
      invariant 1 <= i <= |als| && last == als[i - 1].0 && LastLinked(als, 1) == LastLinked(als, i)
    {
      if als[i].1 != als[i - 1].0 { break; }
      last := als[i].0;
      i := i + 1;
    }
  }

  //// Chains saved in order

  /** Block i has number i and follows block i - 1. */
  ghost predicate InOrder(s: seq<Pool>) {
    forall i :: 0 <= i < |s| ==> Placed(s, i)
  }

  ghost predicate Placed(s: seq<Pool>, i: nat)
    requires i < |s|
  {
    s[i].sequence == i && s[i].previous == if i == 0 then EMPTY else s[i - 1].hash
  }

  function LastOf(s: seq<Pool>): Hash { if s == [] then EMPTY else s[|s| - 1].hash }

  lemma {:induction false} TableInOrder(s: seq<Pool>)
    requires InOrder(s)
    ensures |Table(s)| == |s| && forall i :: 0 <= i < |s| ==> Table(s)[i] == (s[i].hash, s[i].previous)
  {
    if s != [] {
      var n := |s| - 1;
      var r := s[..n];
      forall i | 0 <= i < n ensures Placed(r, i) { assert Placed(s, i); }
      TableInOrder(r);
      assert Placed(s, n);
    }
  }

  lemma {:induction false} LinkedInOrder(s: seq<Pool>, als: seq<Entry>, i: nat)
    requires InOrder(s) && |als| == |s| && 1 <= i <= |s|
    requires forall k :: 0 <= k < |s| ==> als[k] == (s[k].hash, s[k].previous)
    ensures LastLinked(als, i) == LastOf(s)
    decreases |s| - i
  {
    if i < |s| {
      assert Placed(s, i);
      LinkedInOrder(s, als, i + 1);
    }
  }

  /** A cursor returns every stored record once, in the order of the record numbers. */
  ghost predicate IsCursor(cursor: seq<Pool>, blocks: map<nat, Pool>) {
    && (forall p :: p in cursor ==> Record(p.sequence) in blocks && blocks[Record(p.sequence)] == p)
    && (forall r :: r in blocks ==> blocks[r] in cursor)
    && (forall i, j :: 0 <= i < j < |cursor| ==> Record(cursor[i].sequence) < Record(cursor[j].sequence))
  }

  /** The pools of s, in the order of their sequence numbers. */
  ghost predicate Sorted(cursor: seq<Pool>, s: seq<Pool>) {
    && (forall p :: p in cursor <==> p in s)
    && (forall i, j :: 0 <= i < j < |cursor| ==> cursor[i].sequence < cursor[j].sequence)
  }

  lemma CursorOfTables(cursor: seq<Pool>, s: seq<Pool>, seqNo: map<Hash, nat>, blocks: map<nat, Pool>)
    requires Tables(s, seqNo, blocks) && Storables(s) && IsCursor(cursor, blocks)
    ensures Sorted(cursor, s)
    ensures forall i :: 0 <= i < |cursor| ==> cursor[i].valid && cursor[i].sequence < TWO32 - 1
  {
    forall i | 0 <= i < |cursor|
      ensures cursor[i] in s && cursor[i].valid && cursor[i].sequence < TWO32 - 1
      ensures Record(cursor[i].sequence) == cursor[i].sequence + 1
    {
      assert cursor[i] in cursor;
      InTable(cursor[i], s, seqNo, blocks);
    }
    forall p | p in s ensures p in cursor { assert blocks[Record(p.sequence)] == p; }
    hide Record, Tables, Storables;
    forall i, j | 0 <= i < j < |cursor| ensures cursor[i].sequence < cursor[j].sequence {
      assert Record(cursor[i].sequence) < Record(cursor[j].sequence);
    }
  }

  lemma InTable(p: Pool, s: seq<Pool>, seqNo: map<Hash, nat>, blocks: map<nat, Pool>)
    requires Tables(s, seqNo, blocks) && Storables(s)
    requires Record(p.sequence) in blocks && blocks[Record(p.sequence)] == p
    ensures p in s && Storable(p) && Record(p.sequence) == p.sequence + 1
  {
    hide Record;
    var k :| 0 <= k < |s| && s[k] == p;
    assert Storable(s[k]);
    RecordOf(p);
  }

  lemma CursorMember(cursor: seq<Pool>, s: seq<Pool>, k: nat) returns (i: nat)
    requires InOrder(s) && Sorted(cursor, s) && k < |cursor|
    ensures i < |s| && s[i] == cursor[k] && cursor[k].sequence == i
  {
    assert cursor[k] in cursor && cursor[k] in s;
    i :| 0 <= i < |s| && s[i] == cursor[k];
    assert Placed(s, i);
  }

  /** Record k has at least number k, since the numbers ascend. */
  lemma {:induction false} AtLeast(cursor: seq<Pool>, s: seq<Pool>, k: nat)
    requires InOrder(s) && Sorted(cursor, s) && k < |cursor|
    ensures k <= cursor[k].sequence < |s|
  {
    var i := CursorMember(cursor, s, k);
    if k > 0 {
      AtLeast(cursor, s, k - 1);
    }
  }

  /** The block with number k is record k. */
  lemma {:induction false} CursorAt(cursor: seq<Pool>, s: seq<Pool>, k: nat)
    requires InOrder(s) && Sorted(cursor, s) && k < |s|
    ensures k < |cursor| && cursor[k] == s[k]
  {
    assert s[k] in s && s[k] in cursor;
    var j: nat :| j < |cursor| && cursor[j] == s[k];
    assert Placed(s, k);
    AtLeast(cursor, s, j);
    assert k <= j by {
      if k > 0 { CursorAt(cursor, s, k - 1); assert Placed(s, k - 1); }
    }
  }

  /** Over blocks saved in order a cursor returns just those. */
  lemma CursorInOrder(cursor: seq<Pool>, s: seq<Pool>)
    requires InOrder(s) && Sorted(cursor, s)
    ensures cursor == s
  {
    forall k | 0 <= k < |s| ensures k < |cursor| && cursor[k] == s[k] { CursorAt(cursor, s, k); }
    assert |cursor| <= |s| by { if cursor != [] { AtLeast(cursor, s, |cursor| - 1); } }
    assert |s| <= |cursor| by { if s != [] { CursorAt(cursor, s, |s| - 1); } }
  }

  //// A chain of blocks written one after the other

  /** Blocks in order, each linked to the one before, none missing. */
  ghost predicate Ordered(s: Storage)
    reads s
  {
    s.Valid() && InOrder(s.written + s.queue) && s.lastHash == LastOf(s.written)
  }

  lemma ApartAt(w: seq<Pool>, i: nat, pool: Pool)
    requires InOrder(w) && Storables(w) && i < |w| && pool.sequence == |w|
    requires forall p :: p in w ==> p.hash != pool.hash
    ensures Apart(w[i], pool)
  {
    assert Placed(w, i) && Placed(w, |w| - 1) && Storable(w[i]) && Storable(w[|w| - 1]);
    assert w[i] in w;
  }

  lemma NextIsNew(w: seq<Pool>, pool: Pool)
    requires InOrder(w) && Storables(w) && Storable(pool) && pool.sequence == |w|
    requires forall p :: p in w ==> p.hash != pool.hash
    ensures New(pool, w + [])
  {
    assert w + [] == w;
    forall i | 0 <= i < |w| ensures Apart(w[i], pool) { ApartAt(w, i, pool); }
  }

  /** The next number is apart from those written, and not from one that is queued. */
  lemma NextApart(w: seq<Pool>, q: seq<Pool>, pool: Pool)
    requires InOrder(w + q) && AllApart(w + q) && Storables(w + q) && pool.sequence == |w|
    requires forall p :: p in w ==> p.hash != pool.hash
    ensures AllApart(w + (q + [pool])) <==> q == []
  {
    var s, t := w + q, w + (q + [pool]);
    var n := |s|;
    assert t[n] == pool && forall i :: 0 <= i < n ==> t[i] == s[i];
    if q == [] {
      assert s == w;
      forall i, j | 0 <= i < j < |t| ensures Apart(t[i], t[j]) {
        if j < n { assert Apart(s[i], s[j]); } else { ApartAt(s, i, pool); }
      }
    } else {
      assert Placed(s, |w|);
      assert !Apart(t[|w|], t[n]);
    }
  }

  lemma NextInOrder(w: seq<Pool>, q: seq<Pool>, pool: Pool)
    requires InOrder(w + q) && pool.sequence == |w| && pool.previous == LastOf(w)
    ensures InOrder(w + (q + [pool])) <==> q == []
  {
    var t := w + (q + [pool]);
    var n := |w| + |q|;
    assert t[n] == pool;
    assert InOrder(t) ==> Placed(t, n);
    if q == [] {
      forall i | 0 <= i < |t| ensures Placed(t, i) {
        if i < |w| { assert Placed(w + q, i); }
      }
    }
  }

  /** writeLastBlock: links and numbers a block by the state of the store and saves it.  The
      order survives if and only if the writer had nothing left to do. */
  method WriteLastBlock(s: Storage, hash: Hash) returns (pool: Pool, ok: bool)
    modifies s`queue
    ensures pool == Pool(hash, s.lastHash, s.countPool, true)
    ensures ok <==> hash !in s.seqNo
    ensures s.queue == if ok then old(s.queue) + [pool] else old(s.queue)
    ensures old(Ordered(s)) && ok ==> (InOrder(s.written + s.queue) <==> old(s.queue) == [])
    ensures old(Ordered(s)) && ok ==> (AllApart(s.written + s.queue) <==> old(s.queue) == [])
    ensures old(Ordered(s)) && ok && old(s.queue) == [] && hash != EMPTY && s.countPool < TWO32 - 1 ==> Ordered(s)
  {
    pool := Pool(hash, s.lastHash, s.countPool, true);
    ghost var w, q := s.written, s.queue;
    ghost var before := Ordered(s);
    ok := s.Save(pool);
    if before && ok {
      NextInOrder(w, q, pool);
      NextApart(w, q, pool);
      if q == [] && Storable(pool) {
        assert w + q == w;
        NextIsNew(w, pool);
      }
    }
  }

  /** The writer keeps the order. */
  method Drain(s: Storage)
    requires Ordered(s)
    modifies s
    ensures Ordered(s) && s.queue == [] && s.written == old(s.written + s.queue)
  {
    while s.queue != []
      invariant Ordered(s) && s.written + s.queue == old(s.written + s.queue)
      decreases |s.queue|
    {
      ghost var w, q := s.written, s.queue;
      assert Placed(w + q, |w|);
      assert w + q == (w + [q[0]]) + q[1..];
      s.WriteNext();
    }
  }

  /** The records in the order of their numbers, as the iterator of the table returns them. */
  method Records(blocks: map<nat, Pool>) returns (cursor: seq<Pool>)
    requires forall r :: r in blocks ==> Record(blocks[r].sequence) == r
    ensures IsCursor(cursor, blocks)
  {
    hide Record;
    cursor := [];
    for r := 0 to TWO32
      invariant forall p :: p in cursor ==> Record(p.sequence) < r && Record(p.sequence) in blocks && blocks[Record(p.sequence)] == p
      invariant forall k :: k in blocks && k < r ==> blocks[k] in cursor
      invariant forall i, j :: 0 <= i < j < |cursor| ==> Record(cursor[i].sequence) < Record(cursor[j].sequence)
    {
      if r in blocks {
        assert forall i :: 0 <= i < |cursor| ==> cursor[i] in cursor;
        cursor := cursor + [blocks[r]];
      }
    }
    forall k | k in blocks ensures k < TWO32 { RecordBelow(blocks[k].sequence); }
  }

  lemma RecordBelow(n: nat)
    ensures Record(n) < TWO32
  {
  }

  /** Reopening a store whose blocks were saved in order recovers the last hash and the
      count, whether or not the writer has finished. */
  method Reopen(s: Storage) returns (ok: bool, last: Hash, count: nat)
    requires Ordered(s)
    ensures ok && last == s.lastHash && count == s.countPool
  {
    ghost var w := s.written;
    WrittenInOrder(w, s.queue);
    hide InOrder, AllApart, Storables, Path;
    var cursor := Records(s.blocks);
    CursorOfTables(cursor, w, s.seqNo, s.blocks);
    CursorInOrder(cursor, w);
    TableInOrder(w);
    if w != [] { LinkedInOrder(w, Table(w), 1); }
    ok, last, count := Rescan(cursor);
  }

  /** Blocks of s numbered from zero on, each naming the one before. */
  ghost predicate LinkedRun(path: seq<Pool>, s: seq<Pool>) {
    && path != [] && (forall i :: 0 <= i < |path| ==> path[i] in s && path[i].sequence == i)
    && (forall i :: 1 <= i < |path| ==> path[i].previous == path[i - 1].hash)
  }

  /** No block of s goes on where the path ends. */
  ghost predicate Ends(path: seq<Pool>, s: seq<Pool>) {
    forall p :: p in s ==> p.sequence != |path| || p.previous != LastOf(path)
  }

  lemma EntryOf(als: seq<Entry>, cursor: seq<Pool>, s: seq<Pool>, p: Pool)
    requires IsTable(als, cursor) && Sorted(cursor, s) && p in s
    ensures p.sequence < |als| && als[p.sequence] == (p.hash, p.previous)
  {
    assert p in cursor;
    var i :| 0 <= i < |cursor| && cursor[i] == p;
    assert Newest(cursor, i);
  }

  /** The end found is that of the longest run of blocks. */
  lemma EndOfRun(cursor: seq<Pool>, s: seq<Pool>, last: Hash, path: seq<Pool>)
    requires Sorted(cursor, s) && IsEnd(last, cursor) && LinkedRun(path, s) && Ends(path, s) && LastOf(path) != EMPTY
    ensures last == LastOf(path)
  {
    hide IsTable, Ends;
    assert path[0] in cursor;
    var als: seq<Entry>, n: nat :| IsTable(als, cursor) && LinkedUpTo(als, n) && last == als[n - 1].0;
    var k := |path|;
    forall i | 0 <= i < k ensures i < |als| && als[i] == (path[i].hash, path[i].previous) { EntryOf(als, cursor, s, path[i]); }
    if k < |als| { PastEnd(als, cursor, s, path); }
  }

  lemma PastEnd(als: seq<Entry>, cursor: seq<Pool>, s: seq<Pool>, path: seq<Pool>)
    requires Sorted(cursor, s) && IsTable(als, cursor) && Ends(path, s) && LastOf(path) != EMPTY && |path| < |als|
    ensures als[|path|].1 != LastOf(path)
  {
    var k := |path|;
    if !Missing(cursor, k) {
      var i :| 0 <= i < |cursor| && cursor[i].sequence == k;
      assert cursor[i] in cursor;
      EntryOf(als, cursor, s, cursor[i]);
    }
  }

  /** Reopening any store whose blocks have distinct numbers, in whatever order and with
      whatever gaps: all blocks are counted, and the last hash is that of the longest run of
      linked blocks from number zero on. */
  method ReopenAny(s: Storage) returns (ok: bool, last: Hash, count: nat)
    requires s.Valid()
    ensures ok && count == |s.written|
    ensures forall path :: LinkedRun(path, s.written) && Ends(path, s.written) ==> last == LastOf(path)
  {
    hide InOrder, Path, LinkedRun, Ends;
    ghost var w := s.written;
    WrittenApart(w, s.queue);
    hide AllApart, Storables;
    var cursor := Records(s.blocks);
    CursorOfTables(cursor, w, s.seqNo, s.blocks);
    SortedLength(cursor, w);
    ok, last, count := Rescan(cursor);
    forall path | LinkedRun(path, w) && Ends(path, w) ensures last == LastOf(path) {
      RunHash(path, w);
      EndOfRun(cursor, w, last, path);
    }
  }

  lemma RunHash(path: seq<Pool>, s: seq<Pool>)
    requires LinkedRun(path, s) && Storables(s)
    ensures LastOf(path) != EMPTY
  {
    assert s + [] == s && path[|path| - 1] in s;
    HasHash(s, [], path[|path| - 1]);
  }

  lemma WrittenApart(w: seq<Pool>, q: seq<Pool>)
    requires Storables(w + q) && AllApart(w + q)
    ensures Storables(w) && AllApart(w)
  {
    forall i, j | 0 <= i < j < |w| ensures Apart(w[i], w[j]) { assert Apart((w + q)[i], (w + q)[j]); }
    forall i | 0 <= i < |w| ensures Storable(w[i]) { assert Storable((w + q)[i]); }
  }

  /** Sorting blocks with distinct numbers loses none. */
  lemma {:induction false} SortedLength(cursor: seq<Pool>, s: seq<Pool>)
    requires Sorted(cursor, s) && AllApart(s)
    ensures |cursor| == |s|
  {
    var a, b := set p | p in cursor, set p | p in s;
    assert a == b;
    Cardinality(cursor);
    forall i, j | 0 <= i < j < |s| ensures s[i] != s[j] { assert Apart(s[i], s[j]); }
    Cardinality(s);
  }

  lemma {:induction false} Cardinality(s: seq<Pool>)
    requires forall i, j :: 0 <= i < j < |s| ==> s[i] != s[j]
    ensures |set p | p in s| == |s|
  {
    if s != [] {
      var n := |s| - 1;
      Cardinality(s[..n]);
      assert s == s[..n] + [s[n]];
      assert (set p | p in s) == (set p | p in s[..n]) + {s[n]};
    }
  }

  lemma WrittenInOrder(w: seq<Pool>, q: seq<Pool>)
    requires InOrder(w + q) && Storables(w + q) && AllApart(w + q)
    ensures InOrder(w) && Storables(w) && AllApart(w)
  {
    forall i, j | 0 <= i < j < |w| ensures Apart(w[i], w[j]) {
      assert (w + q)[i] == w[i] && (w + q)[j] == w[j];
    }
    forall i | 0 <= i < |w| ensures Placed(w, i) && Storable(w[i]) {
      assert Placed(w + q, i) && (w + q)[i] == w[i] && Storable((w + q)[i]);
    }
  }

  //// Every interleaving of blocks saved in chain order

  /** One step of either thread. */
  method PerformInOrder(s: Storage, step: Step)
    requires Ordered(s)
    requires step.SaveStep? ==> New(step.pool, s.written + s.queue) && InOrder(s.written + s.queue + [step.pool])
    modifies s
    ensures Ordered(s)
    ensures s.written + s.queue == old(s.written + s.queue) + if step.SaveStep? then [step.pool] else []
  {
    ghost var w, q := s.written, s.queue;
    match step {
      case SaveStep(pool) =>
        NotAmong(pool, w, q);
        hide InOrder, New, Storage.Valid;
        assert w + (q + [pool]) == w + q + [pool];
        var ok := s.Save(pool);
      case WriteStep =>
        if s.queue != [] {
          assert Placed(w + q, |w|);
          hide InOrder, New, Storage.Valid;
          assert w + q == (w + [q[0]]) + q[1..];
          s.WriteNext();
        }
    }
  }

  lemma InOrderPrefix(s: seq<Pool>, t: seq<Pool>)
    requires InOrder(t) && s <= t
    ensures InOrder(s)
  {
    forall i | 0 <= i < |s| ensures Placed(s, i) { assert Placed(t, i); }
  }

  method RunInOrder(steps: seq<Step>) returns (s: Storage)
    requires AllApart(Saved(steps)) && Storables(Saved(steps)) && InOrder(Saved(steps))
    ensures fresh(s) && Ordered(s) && s.written + s.queue == Saved(steps)
  {
    s := new Storage();
    assert steps[..0] == [];
    hide AllApart, Storables, New, InOrder, Ordered, Saved;
    assert Ordered(s) && s.written + s.queue == Saved(steps[..0]) by { EmptyStore(s, steps); }
    for i := 0 to |steps|
      invariant fresh(s) && Ordered(s) && s.written + s.queue == Saved(steps[..i])
    {
      NextStep(steps, i);
      SavedPrefix(steps, i + 1);
      InOrderPrefix(Saved(steps[..i + 1]), Saved(steps));
      if steps[i].SaveStep? { NewInRun(steps, i, steps[i].pool); }
      PerformInOrder(s, steps[i]);
    }
    assert steps[..|steps|] == steps;
  }

  lemma EmptyStore(s: Storage, steps: seq<Step>)
    requires s.Valid() && s.written == [] && s.queue == [] && s.lastHash == EMPTY
    ensures Ordered(s) && s.written + s.queue == Saved(steps[..0])
  {
  }

  /** Saved in chain order, in any interleaving, and reopened once the writer has finished:
      the last block and the number of blocks are those saved. */
  method Restart(steps: seq<Step>) returns (ok: bool, last: Hash, count: nat)
    requires AllApart(Saved(steps)) && Storables(Saved(steps)) && InOrder(Saved(steps))
    ensures ok && last == LastOf(Saved(steps)) && count == |Saved(steps)|
  {
    hide AllApart, Storables, InOrder, Saved;
    var s := RunInOrder(steps);
    Drain(s);
    ok, last, count := Reopen(s);
  }

  /** Walking back from the last hash visits every block. */
  lemma WholeChain(s: Storage)
    requires Ordered(s)
    ensures |s.path| == |s.written|
    ensures forall i :: 0 <= i < |s.path| ==> s.path[i] == s.written[|s.written| - 1 - i]
  {
    WrittenInOrder(s.written, s.queue);
    PathIs(s.path, s.lastHash, s.written);
  }

  lemma PathIs(path: seq<Pool>, last: Hash, w: seq<Pool>)
    requires Path(path, last, w) && InOrder(w) && AllApart(w) && Storables(w) && last == LastOf(w)
    ensures |path| == |w| && forall i :: 0 <= i < |path| ==> path[i] == w[|w| - 1 - i]
  {
    forall i: nat | i < |w| ensures i < |path| && path[i] == w[|w| - 1 - i] { PathAt(path, last, w, i); }
    forall i | 0 <= i < |path| ensures path[i].hash != EMPTY { HasHash(w, [], path[i]); }
    if w != [] {
      PathAt(path, last, w, |w| - 1);
      assert LinkAt(path, |w| - 1) && Placed(w, 0);
    }
  }

  lemma {:induction false} PathAt(path: seq<Pool>, last: Hash, w: seq<Pool>, i: nat)
    requires Path(path, last, w) && InOrder(w) && AllApart(w) && Storables(w) && last == LastOf(w) && i < |w|
    ensures i < |path| && path[i] == w[|w| - 1 - i]
  {
    var k := |w| - 1 - i;
    assert Storable(w[k]);
    if i > 0 {
      PathAt(path, last, w, i - 1);
      assert LinkAt(path, i - 1) && Placed(w, k + 1);
    }
    assert i < |path| && path[i].hash == w[k].hash;
    assert w + [] == w;
    SameHash(w, [], w[k], Some(path[i]));
  }

  /** Two blocks written before the writer wakes up take the same number, and the second
      replaces the first: loading the first by its hash returns the second. */
  method LostBlock(first: Hash, second: Hash) returns (loaded: Option<Pool>)
    requires first != second
    ensures loaded.Some? && loaded.value.hash == second
  {
    hide Storage.Valid, InOrder, Ordered, New, LastOf, Storable;
    var s := new Storage();
    var p, okP := WriteLastBlock(s, first);
    var q, okQ := WriteLastBlock(s, second);
    s.WriteNext();
    s.WriteNext();
    loaded := s.Get(first);
  }
}
