/**
 The index of linked segments defined in csdb/src/storage.cpp for blocks that arrive
 in any order, which nothing in the store keeps up to date: `heads` maps the newest
 block of a segment to its length and its missing predecessor, `tails` maps that
 predecessor to the head.
 */
module ChainSegments {
  import opened ChainBlocks

  datatype HeadInfo = HeadInfo(len: nat, next: Hash)

  //// What the index should say about a set of blocks, given by their predecessors

  /** Following predecessors always ends. */
  ghost predicate Acyclic(s: map<Hash, Hash>, rank: Hash -> nat) {
    forall h :: h in s && s[h] in s ==> rank(s[h]) < rank(h)
  }

  /** No two blocks have the same predecessor. */
  ghost predicate ForkFree(s: map<Hash, Hash>) {
    forall a, b :: a in s && b in s && s[a] == s[b] && s[a] != EMPTY ==> a == b
  }

  /** Blocks from h down to the first missing one. */
  ghost function Len(s: map<Hash, Hash>, rank: Hash -> nat, h: Hash): nat
    requires Acyclic(s, rank)
    decreases if h in s then rank(h) + 1 else 0
  {
    if h !in s then 0 else 1 + Len(s, rank, s[h])
  }

  /** The first missing hash below h. */
  ghost function Next(s: map<Hash, Hash>, rank: Hash -> nat, h: Hash): Hash
    requires Acyclic(s, rank)
    decreases if h in s then rank(h) + 1 else 0
  {
    if h !in s then h else Next(s, rank, s[h])
  }

  /** The segment below h, block by block: its length, its links, and where it stops. */
  lemma {:induction false} Segment(s: map<Hash, Hash>, rank: Hash -> nat, h: Hash) returns (path: seq<Hash>)
    requires Acyclic(s, rank) && h in s
    ensures |path| == Len(s, rank, h) > 0 && path[0] == h
    ensures forall i :: 0 <= i < |path| ==> path[i] in s && rank(path[i]) <= rank(h)
    ensures forall i :: 0 <= i < |path| - 1 ==> s[path[i]] == path[i + 1]
    ensures forall i, j :: 0 <= i < j < |path| ==> path[i] != path[j]
    ensures s[path[|path| - 1]] == Next(s, rank, h) && Next(s, rank, h) !in s
    decreases rank(h)
  {
    if s[h] in s {
      var rest := Segment(s, rank, s[h]);
      path := [h] + rest;
    } else {
      path := [h];
    }
  }

  /** h is the newest block of its segment. */
  ghost predicate Head(s: map<Hash, Hash>, h: Hash) {
    h in s && forall b :: b in s ==> s[b] != h
  }

  ghost predicate Wellformed(s: map<Hash, Hash>, rank: Hash -> nat) {
    Acyclic(s, rank) && ForkFree(s) && EMPTY !in s
  }

  /** heads and tails describe the segments of s. */
  ghost predicate Describes(s: map<Hash, Hash>, rank: Hash -> nat, heads: map<Hash, HeadInfo>, tails: map<Hash, Hash>)
    requires Wellformed(s, rank)
  {
    && (forall h :: h in heads <==> Head(s, h))
    && (forall h :: h in heads ==> heads[h] == HeadInfo(Len(s, rank, h), Next(s, rank, h)))
    && (forall h :: h in heads && Next(s, rank, h) != EMPTY ==> Next(s, rank, h) in tails && tails[Next(s, rank, h)] == h)
    && (forall t :: t in tails ==> t != EMPTY && tails[t] in heads && Next(s, rank, tails[t]) == t)
    && (forall b :: b in s && s[b] !in s && s[b] != EMPTY ==> s[b] in tails)
  }

  /** The blocks determine the index. */
  lemma Determined(s: map<Hash, Hash>, rank: Hash -> nat, heads: map<Hash, HeadInfo>, tails: map<Hash, Hash>,
                   heads': map<Hash, HeadInfo>, tails': map<Hash, Hash>)
    requires Wellformed(s, rank)
    requires Describes(s, rank, heads, tails) && Describes(s, rank, heads', tails')
    ensures heads == heads' && tails == tails'
  {
  }

  //// One more block

  /** A new block that keeps the set acyclic and free of forks. */
  ghost predicate Insertable(s: map<Hash, Hash>, rank: Hash -> nat, cur: Hash, prev: Hash) {
    cur !in s && Wellformed(s[cur := prev], rank)
  }

  /** A path that does not end at cur is not changed by inserting it. */
  lemma {:induction false} PathAway(s: map<Hash, Hash>, rank: Hash -> nat, cur: Hash, prev: Hash, h: Hash)
    requires Insertable(s, rank, cur, prev) && Wellformed(s, rank) && Next(s, rank, h) != cur
    ensures var t := s[cur := prev]; Len(t, rank, h) == Len(s, rank, h) && Next(t, rank, h) == Next(s, rank, h)
    decreases if h in s then rank(h) + 1 else 0
  {
    if h in s { PathAway(s, rank, cur, prev, s[h]); }
  }

  /** A path that ends at cur goes on below it. */
  lemma {:induction false} PathThrough(s: map<Hash, Hash>, rank: Hash -> nat, cur: Hash, prev: Hash, h: Hash)
    requires Insertable(s, rank, cur, prev) && Wellformed(s, rank) && Next(s, rank, h) == cur
    ensures var t := s[cur := prev];
            Len(t, rank, h) == Len(s, rank, h) + Len(t, rank, cur) && Next(t, rank, h) == Next(t, rank, cur)
    decreases if h in s then rank(h) + 1 else 0
  {
    if h in s { PathThrough(s, rank, cur, prev, s[h]); }
  }

  lemma {:induction false} RankFalls(s: map<Hash, Hash>, rank: Hash -> nat, cur: Hash, prev: Hash, h: Hash)
    requires Insertable(s, rank, cur, prev) && Wellformed(s, rank) && h in s && Next(s, rank, h) == cur
    ensures rank(cur) < rank(h)
    decreases rank(h)
  {
    var t := s[cur := prev];
    assert h in t && t[h] == s[h];
    if s[h] in s {
      RankFalls(s, rank, cur, prev, s[h]);
    } else {
      assert s[h] == cur;
    }
  }

  /** The segment below the new block does not lead back to it. */
  lemma BelowNew(s: map<Hash, Hash>, rank: Hash -> nat, cur: Hash, prev: Hash)
    requires Insertable(s, rank, cur, prev) && Wellformed(s, rank)
    ensures Next(s, rank, prev) != cur
    ensures var t := s[cur := prev];
            Len(t, rank, cur) == 1 + Len(s, rank, prev) && Next(t, rank, cur) == Next(s, rank, prev)
  {
    var t := s[cur := prev];
    assert cur in t && t[cur] == prev;
    if Next(s, rank, prev) == cur {
      if prev in s { RankFalls(s, rank, cur, prev, prev); }
    } else {
      PathAway(s, rank, cur, prev, prev);
    }
  }

  lemma {:induction false} NextHasBlock(s: map<Hash, Hash>, rank: Hash -> nat, h: Hash) returns (b: Hash)
    requires Wellformed(s, rank) && h in s
    ensures b in s && s[b] == Next(s, rank, h) && s[b] !in s
    decreases rank(h)
  {
    if s[h] in s { b := NextHasBlock(s, rank, s[h]); } else { b := h; }
  }

  lemma OnlySuccessor(s: map<Hash, Hash>, rank: Hash -> nat, cur: Hash, prev: Hash, b: Hash)
    requires Insertable(s, rank, cur, prev) && b in s && prev != EMPTY
    ensures s[b] != prev
  {
    var t := s[cur := prev];
    assert b in t && t[b] == s[b] && cur in t && t[cur] == prev;
  }

  /** A stored predecessor is a head, since it has no other successor. */
  lemma KnownPrev(s: map<Hash, Hash>, rank: Hash -> nat, cur: Hash, prev: Hash)
    requires Insertable(s, rank, cur, prev) && prev in s
    ensures Head(s, prev) && prev != EMPTY
  {
    assert prev in s[cur := prev];
    forall b | b in s ensures s[b] != prev {
      OnlySuccessor(s, rank, cur, prev, b);
    }
  }

  /** A missing predecessor is not waited for by anyone else. */
  lemma UnknownPrev(s: map<Hash, Hash>, rank: Hash -> nat, cur: Hash, prev: Hash,
                    heads: map<Hash, HeadInfo>, tails: map<Hash, Hash>)
    requires Insertable(s, rank, cur, prev) && Wellformed(s, rank) && Describes(s, rank, heads, tails)
    ensures prev !in tails
  {
    if prev in tails {
      var b := NextHasBlock(s, rank, tails[prev]);
      OnlySuccessor(s, rank, cur, prev, b);
    }
  }

  /** Some block waits for cur exactly when cur is a tail. */
  lemma KnownCur(s: map<Hash, Hash>, rank: Hash -> nat, cur: Hash, prev: Hash,
                 heads: map<Hash, HeadInfo>, tails: map<Hash, Hash>)
    requires Insertable(s, rank, cur, prev) && Wellformed(s, rank) && Describes(s, rank, heads, tails)
    ensures cur in tails <==> exists b :: b in s && s[b] == cur
  {
    assert cur in s[cur := prev];
    if cur in tails {
      var b := NextHasBlock(s, rank, tails[cur]);
      assert b in s && s[b] == cur;
    }
  }

  lemma NewHeads(s: map<Hash, Hash>, rank: Hash -> nat, cur: Hash, prev: Hash,
                 heads: map<Hash, HeadInfo>, tails: map<Hash, Hash>, h: Hash)
    requires Insertable(s, rank, cur, prev) && Wellformed(s, rank) && Describes(s, rank, heads, tails)
    ensures Head(s[cur := prev], h) <==> h != prev && (h in heads || (h == cur && cur !in tails))
  {
    var t := s[cur := prev];
    KnownCur(s, rank, cur, prev, heads, tails);
    assert cur in t && t[cur] == prev;
    assert forall b :: b in s ==> b in t && t[b] == s[b];
    assert prev != cur;
    if Head(t, h) {
      assert t[cur] != h;
      if h != cur { assert Head(s, h); }
    }
    if h != prev && (h in heads || (h == cur && cur !in tails)) {
      forall b | b in t ensures t[b] != h {
        if b != cur { assert b in s; }
      }
    }
  }

  /** The head of the segment that the new block joins or starts. */
  ghost function Top(cur: Hash, tails: map<Hash, Hash>): Hash { if cur in tails then tails[cur] else cur }

  /** What the index says about that segment afterwards. */
  ghost function Joined(cur: Hash, prev: Hash, heads: map<Hash, HeadInfo>, tails: map<Hash, Hash>): HeadInfo
    requires cur in tails ==> tails[cur] in heads
  {
    var above := if cur in tails then heads[tails[cur]].len else 0;
    if prev in heads then HeadInfo(above + 1 + heads[prev].len, heads[prev].next) else HeadInfo(above + 1, prev)
  }

  lemma JoinedIs(s: map<Hash, Hash>, rank: Hash -> nat, cur: Hash, prev: Hash,
                 heads: map<Hash, HeadInfo>, tails: map<Hash, Hash>)
    requires Insertable(s, rank, cur, prev) && Wellformed(s, rank) && Describes(s, rank, heads, tails)
    ensures var t, top := s[cur := prev], Top(cur, tails);
            top != prev && Joined(cur, prev, heads, tails) == HeadInfo(Len(t, rank, top), Next(t, rank, top))
  {
    BelowNew(s, rank, cur, prev);
    if prev in s { KnownPrev(s, rank, cur, prev); }
    if cur in tails { PathThrough(s, rank, cur, prev, tails[cur]); }
  }

  /** Every other segment stays as it was. */
  lemma OthersKept(s: map<Hash, Hash>, rank: Hash -> nat, cur: Hash, prev: Hash,
                   heads: map<Hash, HeadInfo>, tails: map<Hash, Hash>, h: Hash)
    requires Insertable(s, rank, cur, prev) && Wellformed(s, rank) && Describes(s, rank, heads, tails)
    requires h in heads && h != Top(cur, tails)
    ensures var t := s[cur := prev]; heads[h] == HeadInfo(Len(t, rank, h), Next(t, rank, h)) && heads[h].next != cur
  {
    assert cur in s[cur := prev] && cur != EMPTY;
    PathAway(s, rank, cur, prev, h);
  }

  /** The new index describes the new set of blocks. */
  lemma Inserted(s: map<Hash, Hash>, rank: Hash -> nat, cur: Hash, prev: Hash,
                 heads: map<Hash, HeadInfo>, tails: map<Hash, Hash>)
    requires Insertable(s, rank, cur, prev) && Wellformed(s, rank) && Describes(s, rank, heads, tails)
    ensures var (heads', tails') := After(cur, prev, heads, tails);
            Describes(s[cur := prev], rank, heads', tails')
  {
    var t, top := s[cur := prev], Top(cur, tails);
    var (heads', tails') := After(cur, prev, heads, tails);
    var info := Joined(cur, prev, heads, tails);
    JoinedIs(s, rank, cur, prev, heads, tails);
    UnknownPrev(s, rank, cur, prev, heads, tails);
    BelowNew(s, rank, cur, prev);
    forall h ensures h in heads' <==> Head(t, h) { NewHeads(s, rank, cur, prev, heads, tails, h); }
    forall h | h in heads'
      ensures heads'[h] == HeadInfo(Len(t, rank, h), Next(t, rank, h))
      ensures h != top ==> h in heads && heads'[h] == heads[h] && heads[h].next != cur
    {
      if h != top { OthersKept(s, rank, cur, prev, heads, tails, h); }
    }
    TailsAfter(s, rank, cur, prev, heads, tails);
  }

  ghost function After(cur: Hash, prev: Hash, heads: map<Hash, HeadInfo>, tails: map<Hash, Hash>)
    : (map<Hash, HeadInfo>, map<Hash, Hash>)
    requires cur in tails ==> tails[cur] in heads
  {
    var top, info := Top(cur, tails), Joined(cur, prev, heads, tails);
    var rest := tails - {cur};
    ((heads - {prev})[top := info], if info.next != EMPTY then rest[info.next := top] else rest)
  }

  /** heads and tails point at each other. */
  ghost predicate Linked(heads: map<Hash, HeadInfo>, tails: map<Hash, Hash>) {
    && (forall h :: h in heads && heads[h].next != EMPTY ==> heads[h].next in tails && tails[heads[h].next] == h)
    && (forall x :: x in tails ==> x != EMPTY && tails[x] in heads && heads[tails[x]].next == x)
  }

  lemma LinkedAfter(cur: Hash, prev: Hash, heads: map<Hash, HeadInfo>, tails: map<Hash, Hash>)
    requires Linked(heads, tails) && cur != EMPTY && cur != prev && cur !in heads && prev !in tails
    requires prev in heads ==> heads[prev].next != cur
    ensures var (heads', tails') := After(cur, prev, heads, tails); Linked(heads', tails')
  {
    var (heads', tails') := After(cur, prev, heads, tails);
    var top, next := Top(cur, tails), Joined(cur, prev, heads, tails).next;
    forall h | h in heads' && heads'[h].next != EMPTY
      ensures heads'[h].next in tails' && tails'[heads'[h].next] == h
    {
      if h != top { assert h in heads && heads'[h] == heads[h] && tails[heads[h].next] == h; }
    }
    forall x | x in tails'
      ensures x != EMPTY && tails'[x] in heads' && heads'[tails'[x]].next == x
    {
      if x != next { assert x in tails && tails'[x] == tails[x]; }
    }
  }

  lemma LinkedBefore(s: map<Hash, Hash>, rank: Hash -> nat, cur: Hash, prev: Hash,
                     heads: map<Hash, HeadInfo>, tails: map<Hash, Hash>)
    requires Insertable(s, rank, cur, prev) && Wellformed(s, rank) && Describes(s, rank, heads, tails)
    ensures Linked(heads, tails) && cur != EMPTY && cur != prev && cur !in heads && prev !in tails
    ensures prev in heads ==> heads[prev].next != cur
  {
    assert cur in s[cur := prev];
    BelowNew(s, rank, cur, prev);
    UnknownPrev(s, rank, cur, prev, heads, tails);
  }

  /** Every other missing predecessor keeps its tail. */
  lemma TailsKept(cur: Hash, prev: Hash, heads: map<Hash, HeadInfo>, tails: map<Hash, Hash>, x: Hash)
    requires Linked(heads, tails)
    ensures var (heads', tails') := After(cur, prev, heads, tails);
            && (x in tails && x != cur ==> x in tails')
            && (prev !in heads && prev != EMPTY ==> prev in tails')
  {
  }

  lemma TailsAfter(s: map<Hash, Hash>, rank: Hash -> nat, cur: Hash, prev: Hash,
                   heads: map<Hash, HeadInfo>, tails: map<Hash, Hash>)
    requires Insertable(s, rank, cur, prev) && Wellformed(s, rank) && Describes(s, rank, heads, tails)
    ensures var (heads', tails') := After(cur, prev, heads, tails);
            && Linked(heads', tails')
            && (forall b :: b in s && s[b] !in s && s[b] != EMPTY && s[b] != cur ==> s[b] in tails')
            && (prev !in s && prev != EMPTY ==> prev in tails')
  {
    hide Insertable, Wellformed, Linked, After, Len, Next;
    LinkedBefore(s, rank, cur, prev, heads, tails);
    LinkedAfter(cur, prev, heads, tails);
    TailsKept(cur, prev, heads, tails, prev);
    var (heads', tails') := After(cur, prev, heads, tails);
    forall b | b in s && s[b] !in s && s[b] != EMPTY && s[b] != cur ensures s[b] in tails' {
      TailsKept(cur, prev, heads, tails, s[b]);
    }
  }

  //// The index

  class SegmentIndex {
    var heads: map<Hash, HeadInfo>
    var tails: map<Hash, Hash>
    ghost var blocks: map<Hash, Hash>

    ghost predicate Valid(rank: Hash -> nat)
      reads this
    {
      Wellformed(blocks, rank) && Describes(blocks, rank, heads, tails)
    }

    constructor (ghost rank: Hash -> nat)
      ensures Valid(rank) && blocks == map[]
    {
      heads, tails, blocks := map[], map[], map[];
    }

    /** update_heads_and_tails */
    method Insert(cur: Hash, prev: Hash, ghost rank: Hash -> nat)
      requires Valid(rank) && Insertable(blocks, rank, cur, prev)
      modifies this
      ensures Valid(rank) && blocks == old(blocks)[cur := prev]
    {
      hide Describes, Wellformed;
      Facts(blocks, rank, cur, prev, heads, tails);
      Inserted(blocks, rank, cur, prev, heads, tails);
      Splice(cur, prev);
      blocks := blocks[cur := prev];
    }

    method Splice(cur: Hash, prev: Hash)
      requires cur != EMPTY && cur != prev && cur !in heads && prev !in tails
      requires cur in tails ==> tails[cur] in heads && tails[cur] != prev
      requires prev in heads ==> heads[prev].next != cur
      modifies this`heads, this`tails
      ensures (heads, tails) == After(cur, prev, old(heads), old(tails))
    {
      var known, waited := prev in heads, cur in tails;
      if known && waited {
        Connect(cur, prev);
      } else if known {
        var below := heads[prev];
        if below.next != EMPTY { tails := tails[below.next := cur]; }
        assert cur !in heads;
        heads := heads[cur := HeadInfo(below.len + 1, below.next)];
        heads := heads - {prev};
      } else if waited {
        var top := tails[cur];
        heads := heads[top := HeadInfo(heads[top].len + 1, prev)];
        if prev != EMPTY && prev !in tails { tails := tails[prev := top]; }
        tails := tails - {cur};
      } else {
        assert cur !in heads;
        heads := heads[cur := HeadInfo(1, prev)];
        if prev != EMPTY && prev !in tails { tails := tails[prev := cur]; }
      }
      ghost var after := After(cur, prev, old(heads), old(tails));
      assert heads == after.0 && tails == after.1;
    }

    method Connect(cur: Hash, prev: Hash)
      requires prev in heads && cur in tails && tails[cur] in heads && tails[cur] != prev && heads[prev].next != cur
      modifies this`heads, this`tails
      ensures (heads, tails) == After(cur, prev, old(heads), old(tails))
    {
      var top, below := tails[cur], heads[prev];
      heads := heads[top := HeadInfo(heads[top].len + (1 + below.len), below.next)];
      if below.next != EMPTY { tails := tails[below.next := top]; }
      heads := heads - {prev};
      tails := tails - {cur};
      ghost var after := After(cur, prev, old(heads), old(tails));
      assert heads == after.0 && tails == after.1;
    }
  }

  lemma Facts(s: map<Hash, Hash>, rank: Hash -> nat, cur: Hash, prev: Hash,
              heads: map<Hash, HeadInfo>, tails: map<Hash, Hash>)
    requires Insertable(s, rank, cur, prev) && Wellformed(s, rank) && Describes(s, rank, heads, tails)
    ensures cur != EMPTY && cur != prev && cur !in heads && prev !in tails
    ensures cur in tails ==> tails[cur] in heads && tails[cur] != prev
    ensures prev in heads ==> heads[prev].next != cur
  {
    assert cur in s[cur := prev];
    BelowNew(s, rank, cur, prev);
    UnknownPrev(s, rank, cur, prev, heads, tails);
  }

  //// Any order

  /** The blocks of an insertion sequence. */
  ghost function Blocks(order: seq<(Hash, Hash)>): map<Hash, Hash> {
    if order == [] then map[] else Blocks(order[..|order| - 1])[order[|order| - 1].0 := order[|order| - 1].1]
  }

  ghost predicate Fresh(order: seq<(Hash, Hash)>) {
    forall i, j :: 0 <= i < j < |order| ==> order[i].0 != order[j].0
  }

  lemma {:induction false} BlocksOf(order: seq<(Hash, Hash)>)
    ensures forall h :: h in Blocks(order) <==> exists i :: 0 <= i < |order| && order[i].0 == h
    ensures Fresh(order) ==> forall i :: 0 <= i < |order| ==> Blocks(order)[order[i].0] == order[i].1
  {
    if order != [] {
      var n := |order| - 1;
      var rest := order[..n];
      BlocksOf(rest);
      forall h ensures h in Blocks(order) <==> exists i :: 0 <= i < |order| && order[i].0 == h {
        if h in Blocks(rest) {
          var i :| 0 <= i < |rest| && rest[i].0 == h;
          assert order[i].0 == h;
        }
        if i :| 0 <= i < |order| && order[i].0 == h {
          if i < n { assert rest[i].0 == h; }
        }
      }
      if Fresh(order) {
        assert Fresh(rest);
        forall i | 0 <= i < |order| ensures Blocks(order)[order[i].0] == order[i].1 {
          if i < n { assert rest[i] == order[i]; }
        }
      }
    }
  }

  lemma Smaller(s: map<Hash, Hash>, t: map<Hash, Hash>, rank: Hash -> nat)
    requires Wellformed(t, rank) && forall h :: h in s ==> h in t && t[h] == s[h]
    ensures Wellformed(s, rank)
  {
    forall h | h in s && s[h] in s ensures rank(s[h]) < rank(h) { assert h in t && t[h] in t; }
    forall a, b | a in s && b in s && s[a] == s[b] && s[a] != EMPTY ensures a == b { assert t[a] == t[b]; }
  }

  lemma BlocksStep(order: seq<(Hash, Hash)>, k: nat)
    requires k < |order|
    ensures Blocks(order[..k + 1]) == Blocks(order[..k])[order[k].0 := order[k].1]
  {
    assert order[..k + 1][..k] == order[..k];
  }

  lemma NotYet(order: seq<(Hash, Hash)>, k: nat)
    requires Fresh(order) && k < |order|
    ensures order[k].0 !in Blocks(order[..k])
  {
    hide Blocks;
    BlocksOf(order[..k]);
  }

  lemma BlocksPrefix(order: seq<(Hash, Hash)>, q: seq<(Hash, Hash)>)
    requires Fresh(order) && q <= order
    ensures forall h :: h in Blocks(q) ==> h in Blocks(order) && Blocks(order)[h] == Blocks(q)[h]
  {
    hide Blocks;
    assert Fresh(q);
    BlocksOf(order);
    BlocksOf(q);
    forall h | h in Blocks(q) ensures h in Blocks(order) && Blocks(order)[h] == Blocks(q)[h] {
      var i :| 0 <= i < |q| && q[i].0 == h;
      assert order[i] == q[i];
    }
  }

  /** Inserts a whole sequence of blocks. */
  method InsertAll(order: seq<(Hash, Hash)>, ghost rank: Hash -> nat) returns (r: SegmentIndex)
    requires Fresh(order) && Wellformed(Blocks(order), rank)
    ensures fresh(r) && r.Valid(rank) && r.blocks == Blocks(order)
  {
    hide Blocks, Fresh, Wellformed, Describes;
    r := new SegmentIndex(rank);
    assert Blocks(order[..0]) == map[] by { NoBlocks(order); }
    for k := 0 to |order|
      invariant fresh(r) && r.Valid(rank) && r.blocks == Blocks(order[..k])
    {
      BlocksStep(order, k);
      NotYet(order, k);
      BlocksPrefix(order, order[..k + 1]);
      Smaller(Blocks(order[..k + 1]), Blocks(order), rank);
      r.Insert(order[k].0, order[k].1, rank);
    }
    assert order[..|order|] == order;
  }

  lemma NoBlocks(order: seq<(Hash, Hash)>)
    ensures Blocks(order[..0]) == map[]
  {
  }

  /** The index does not depend on the order in which blocks arrive. */
  method OrderIndependent(first: seq<(Hash, Hash)>, second: seq<(Hash, Hash)>, ghost rank: Hash -> nat)
    returns (a: SegmentIndex, b: SegmentIndex)
    requires Fresh(first) && Fresh(second) && Blocks(first) == Blocks(second) && Wellformed(Blocks(first), rank)
    ensures a.heads == b.heads && a.tails == b.tails
  {
    a := InsertAll(first, rank);
    b := InsertAll(second, rank);
    hide Blocks, Fresh, Wellformed, Describes;
    Determined(a.blocks, rank, a.heads, a.tails, b.heads, b.tails);
  }
}
