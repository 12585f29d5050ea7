/** The smart-contract index over every run of new blocks and calls of
    update_smart_caches. */
module SmartSchedule {
  import opened ChainBlocks
  import opened SmartContracts
  import opened SmartIndex

  datatype Step = AppendStep(block: Block<Transaction>) | RefreshStep

  /** The chain after a run. */
  ghost function Appended(steps: seq<Step>): Chain {
    if steps == [] then []
    else
      var s, rest := steps[|steps| - 1], Appended(steps[..|steps| - 1]);
      if s.AppendStep? then rest + [s.block] else rest
  }

  /** The transactions that came after the last refresh. */
  ghost function Pending(steps: seq<Step>): seq<Transaction> {
    if steps == [] then []
    else
      var s := steps[|steps| - 1];
      if s.AppendStep? then Pending(steps[..|steps| - 1]) + s.block.transactions else []
  }

  /** What each refresh had to read. */
  ghost function Passes(steps: seq<Step>): seq<seq<Transaction>> {
    if steps == [] then []
    else
      var s, init := steps[|steps| - 1], steps[..|steps| - 1];
      if s.AppendStep? then Passes(init) else Passes(init) + [Pending(init)]
  }

  /** Blocks that follow each other and can be told apart. */
  ghost predicate IsChain(chain: Chain) {
    && (forall k :: 0 <= k < |chain| ==> Follows(chain, k))
    && (forall i, j :: 0 <= i < j < |chain| ==> chain[i].hash != chain[j].hash)
  }

  ghost predicate Follows(chain: Chain, k: nat)
    requires k < |chain|
  {
    chain[k].hash != EMPTY && chain[k].previous == HashBefore(chain, k)
  }

  ghost predicate Known(blocks: map<Hash, Block<Transaction>>, chain: Chain) {
    forall h :: h in blocks ==> exists k :: 0 <= k < |chain| && chain[k].hash == h
  }

  /** The index has gone through these steps. */
  ghost predicate Reached(s: Index, steps: seq<Step>)
    reads s
  {
    && s.Valid() && s.chain == Appended(steps) && Known(s.blocks, s.chain)
    && Flat(s.chain[..s.seen]) == All(Passes(steps)) && Flat(s.chain[s.seen..]) == Pending(steps)
    && s.tables.origin == OriginsAfter(Passes(steps))
  }

  lemma NextStep(steps: seq<Step>, i: nat)
    requires i < |steps|
    ensures var a, b := steps[..i], steps[..i + 1];
            if steps[i].AppendStep? then
              && Appended(b) == Appended(a) + [steps[i].block] && Passes(b) == Passes(a)
              && Pending(b) == Pending(a) + steps[i].block.transactions
            else
              && Appended(b) == Appended(a) && Passes(b) == Passes(a) + [Pending(a)] && Pending(b) == []
  {
    assert steps[..i + 1][..i] == steps[..i];
  }

  lemma {:induction false} AppendedPrefix(steps: seq<Step>, i: nat)
    requires i <= |steps|
    ensures Appended(steps[..i]) <= Appended(steps)
    decreases |steps| - i
  {
    if i < |steps| {
      NextStep(steps, i);
      AppendedPrefix(steps, i + 1);
    } else {
      assert steps[..i] == steps;
    }
  }

  lemma NextBlock(chain: Chain, whole: Chain, b: Block<Transaction>, blocks: map<Hash, Block<Transaction>>)
    requires IsChain(whole) && chain + [b] <= whole && Known(blocks, chain)
    ensures b.hash != EMPTY && b.hash !in blocks && b.previous == HashBefore(chain, |chain|)
    ensures Known(blocks[b.hash := b], chain + [b])
  {
    var n, c, known := |chain|, chain + [b], blocks[b.hash := b];
    assert whole[n] == c[n] == b && forall k :: 0 <= k < n ==> whole[k] == c[k] == chain[k];
    assert Follows(whole, n);
    forall h | h in known ensures exists k :: 0 <= k < |c| && c[k].hash == h {
      if h == b.hash {
        assert c[n].hash == h;
      } else {
        var k :| 0 <= k < |chain| && chain[k].hash == h;
        assert c[k].hash == h;
      }
    }
  }

  lemma FlatNext(chain: Chain, seen: nat, b: Block<Transaction>)
    requires seen <= |chain|
    ensures Flat((chain + [b])[seen..]) == Flat(chain[seen..]) + b.transactions
    ensures (chain + [b])[..seen] == chain[..seen]
  {
    assert (chain + [b])[seen..] == chain[seen..] + [b];
    FlatAppend(chain[seen..], [b]);
    assert [b][1..] == [] && Flat([b]) == b.transactions + Flat([b][1..]);
  }

  lemma AllNext(passes: seq<seq<Transaction>>, last: seq<Transaction>)
    ensures All(passes + [last]) == All(passes) + last
    ensures OriginsAfter(passes + [last]) == OriginsAfter(passes) + Origins(last)
  {
    assert (passes + [last])[..|passes|] == passes;
  }

  method Perform(s: Index, steps: seq<Step>, i: nat)
    requires i < |steps| && IsChain(Appended(steps)) && Reached(s, steps[..i])
    modifies s
    ensures Reached(s, steps[..i + 1])
  {
    hide Appended, Pending, Passes, Flat, All, OriginsAfter, Origins, Known, IsChain, Index.Valid, AllIndexed, NothingElse;
    hide States, Deployed, DistinctIds, ListOf;
    NextStep(steps, i);
    AppendedPrefix(steps, i + 1);
    LastHash(s);
    ghost var chain := s.chain;
    match steps[i] {
      case AppendStep(b) =>
        NextBlock(chain, Appended(steps), b, s.blocks);
        FlatNext(chain, s.seen, b);
        s.Append(b);
      case RefreshStep =>
        AllNext(Passes(steps[..i]), Pending(steps[..i]));
        FlatSplit(chain, s.seen);
        s.Refresh();
        assert chain[..|chain|] == chain;
        assert Flat(chain[|chain|..]) == [] by { NoBlocks(chain); }
    }
  }

  lemma LastHash(s: Index)
    requires s.Valid()
    ensures s.lastHash == HashBefore(s.chain, |s.chain|) && s.seen <= |s.chain|
  {
  }

  lemma NoBlocks(chain: Chain)
    ensures Flat(chain[|chain|..]) == []
  {
  }

  lemma Start(s: Index, steps: seq<Step>)
    requires s.Valid() && s.chain == [] && s.seen == 0 && s.blocks == map[] && s.tables.origin == map[]
    ensures Reached(s, steps[..0])
  {
    assert s.chain[..0] == [] && s.chain[0..] == [] && steps[..0] == [];
  }

  /** After any run: states and lists are those of one scan of all that was seen, and the
      origins are if and only if no contract was deployed in two passes.  After a refresh
      all of the chain has been seen. */
  method Run(steps: seq<Step>) returns (s: Index)
    requires IsChain(Appended(steps))
    ensures fresh(s) && s.Valid() && s.chain == Appended(steps)
    ensures s.tables.state == States(All(Passes(steps)))
    ensures forall c :: ListOf(s.tables.deployed, c) == Deployed(All(Passes(steps)), c)
    ensures DistinctIds(All(Passes(steps))) ==>
      (s.tables.origin == Origins(All(Passes(steps))) <==> NoneTwice(Passes(steps)))
    ensures steps != [] && steps[|steps| - 1].RefreshStep? ==> All(Passes(steps)) == Flat(s.chain) && AllIndexed(s.tables, s.chain)
  {
    s := new Index();
    Start(s, steps);
    hide Reached, IsChain, Appended;
    for i := 0 to |steps|
      invariant fresh(s) && Reached(s, steps[..i])
    {
      Perform(s, steps, i);
    }
    assert steps[..|steps|] == steps;
    Outcome(s, steps);
  }

  lemma Outcome(s: Index, steps: seq<Step>)
    requires Reached(s, steps)
    ensures s.Valid() && s.chain == Appended(steps)
    ensures s.tables.state == States(All(Passes(steps)))
    ensures forall c :: ListOf(s.tables.deployed, c) == Deployed(All(Passes(steps)), c)
    ensures DistinctIds(All(Passes(steps))) ==>
      (s.tables.origin == Origins(All(Passes(steps))) <==> NoneTwice(Passes(steps)))
    ensures steps != [] && steps[|steps| - 1].RefreshStep? ==> All(Passes(steps)) == Flat(s.chain) && AllIndexed(s.tables, s.chain)
  {
    hide All, Passes, Flat, Appended, Origins, States, Deployed, OriginsAfter, NoneTwice, DistinctIds, Chained, AllIndexed;
    if DistinctIds(All(Passes(steps))) { EverySchedule(Passes(steps)); }
    FlatSplit(s.chain, s.seen);
    if steps != [] && steps[|steps| - 1].RefreshStep? {
      assert Pending(steps) == [];
      assert Flat(s.chain[..s.seen]) + [] == Flat(s.chain[..s.seen]);
      ChainIndexed(s.tables, s.chain);
    }
  }
}
