/** What APIHandler::update_smart_caches of api/src/APIHandler.cpp collects about the
    smart contracts of a chain: who deployed what, each contract's first deployment and
    its newest state. */
module SmartContracts {
  import opened Basics
  type Address = nat
  type Id = nat

  /** The contract carried in user field zero. */
  datatype Smart = Smart(address: Address, byteCode: string)
  datatype Transaction = Transaction(id: Id, source: Address, smart: Option<Smart>)

  predicate IsSmart(t: Transaction) { t.smart.Some? }
  predicate IsDeploy(t: Transaction) { IsSmart(t) && t.smart.value.byteCode != [] }
  predicate IsUpdate(t: Transaction) { IsSmart(t) && t.smart.value.byteCode == [] }

  //// One scan over transactions in chain order

  /** The first deployment of each contract. */
  ghost function Origins(txs: seq<Transaction>): map<Address, Id> {
    if txs == [] then map[]
    else
      var t, rest := txs[0], Origins(txs[1..]);
      if IsDeploy(t) then rest[t.smart.value.address := t.id] else rest
  }

  /** The newest state of each contract. */
  ghost function States(txs: seq<Transaction>): map<Address, Id> {
    if txs == [] then map[]
    else
      var t, rest := txs[0], States(txs[1..]);
      if IsUpdate(t) && t.smart.value.address !in rest then rest[t.smart.value.address := t.id] else rest
  }

  /** The deployments of one creator, newest first. */
  ghost function Deployed(txs: seq<Transaction>, creator: Address): seq<Id> {
    if txs == [] then []
    else
      var t, rest := txs[0], Deployed(txs[1..], creator);
      if IsDeploy(t) && t.source == creator then rest + [t.id] else rest
  }

  //// What the scan finds, transaction by transaction

  /** Transaction i carries code for contract c. */
  ghost predicate CodeAt(txs: seq<Transaction>, i: nat, c: Address)
    requires i < |txs|
  {
    txs[i].smart.Some? && txs[i].smart.value.address == c && txs[i].smart.value.byteCode != []
  }

  /** Transaction i carries a state for contract c. */
  ghost predicate StateAt(txs: seq<Transaction>, i: nat, c: Address)
    requires i < |txs|
  {
    txs[i].smart.Some? && txs[i].smart.value.address == c && txs[i].smart.value.byteCode == []
  }

  lemma Tails(txs: seq<Transaction>, i: nat, c: Address)
    requires 0 < i < |txs|
    ensures CodeAt(txs[1..], i - 1, c) <==> CodeAt(txs, i, c)
    ensures StateAt(txs[1..], i - 1, c) <==> StateAt(txs, i, c)
  {
  }

  /** The first transaction with code for c is its origin. */
  lemma {:induction false} OriginIs(txs: seq<Transaction>, i: nat, c: Address)
    requires i < |txs| && CodeAt(txs, i, c) && forall j :: 0 <= j < i ==> !CodeAt(txs, j, c)
    ensures c in Origins(txs) && Origins(txs)[c] == txs[i].id
  {
    if i > 0 {
      assert !CodeAt(txs, 0, c);
      forall j | 0 <= j < i - 1 ensures !CodeAt(txs[1..], j, c) { assert !CodeAt(txs, j + 1, c); }
      OriginIs(txs[1..], i - 1, c);
    }
  }

  /** An origin is the first transaction with code for the contract. */
  lemma {:induction false} OriginFrom(txs: seq<Transaction>, c: Address) returns (i: nat)
    requires c in Origins(txs)
    ensures i < |txs| && CodeAt(txs, i, c) && forall j :: 0 <= j < i ==> !CodeAt(txs, j, c)
    ensures Origins(txs)[c] == txs[i].id
  {
    if CodeAt(txs, 0, c) {
      i := 0;
    } else {
      var k := OriginFrom(txs[1..], c);
      i := k + 1;
      forall j | 0 <= j < i ensures !CodeAt(txs, j, c) {
        if j > 0 { assert !CodeAt(txs[1..], j - 1, c); }
      }
    }
  }

  /** The last transaction without code for c is its newest state. */
  lemma {:induction false} StateIs(txs: seq<Transaction>, i: nat, c: Address)
    requires i < |txs| && StateAt(txs, i, c) && forall j :: i < j < |txs| ==> !StateAt(txs, j, c)
    ensures c in States(txs) && States(txs)[c] == txs[i].id
  {
    if i > 0 {
      forall j | i - 1 < j < |txs| - 1 ensures !StateAt(txs[1..], j, c) { assert !StateAt(txs, j + 1, c); }
      StateIs(txs[1..], i - 1, c);
    } else {
      forall j | 0 <= j < |txs| - 1 ensures !StateAt(txs[1..], j, c) { assert !StateAt(txs, j + 1, c); }
      NoState(txs[1..], c);
    }
  }

  lemma {:induction false} NoState(txs: seq<Transaction>, c: Address)
    requires forall j :: 0 <= j < |txs| ==> !StateAt(txs, j, c)
    ensures c !in States(txs)
  {
    if txs != [] {
      assert !StateAt(txs, 0, c);
      forall j | 0 <= j < |txs| - 1 ensures !StateAt(txs[1..], j, c) { assert !StateAt(txs, j + 1, c); }
      NoState(txs[1..], c);
    }
  }

  lemma {:induction false} StateFrom(txs: seq<Transaction>, c: Address) returns (i: nat)
    requires c in States(txs)
    ensures i < |txs| && StateAt(txs, i, c) && forall j :: i < j < |txs| ==> !StateAt(txs, j, c)
    ensures States(txs)[c] == txs[i].id
  {
    if c in States(txs[1..]) {
      var k := StateFrom(txs[1..], c);
      i := k + 1;
      forall j | i < j < |txs| ensures !StateAt(txs, j, c) { assert !StateAt(txs[1..], j - 1, c); }
    } else {
      i := 0;
      forall j | 0 < j < |txs| ensures !StateAt(txs, j, c) {
        if StateAt(txs, j, c) {
          Tails(txs, j, c);
          var k := LastState(txs[1..], c, j - 1);
          StateIs(txs[1..], k, c);
        }
      }
    }
  }

  lemma {:induction false} LastState(txs: seq<Transaction>, c: Address, i: nat) returns (k: nat)
    requires i < |txs| && StateAt(txs, i, c)
    ensures i <= k < |txs| && StateAt(txs, k, c) && forall j :: k < j < |txs| ==> !StateAt(txs, j, c)
    decreases |txs| - i
  {
    if j: nat :| i < j < |txs| && StateAt(txs, j, c) {
      k := LastState(txs, c, j);
    } else {
      k := i;
    }
  }

  /** How many transactions with code come from a creator. */
  ghost function Count(txs: seq<Transaction>, creator: Address): nat {
    if txs == [] then 0
    else
      var t := txs[0];
      Count(txs[1..], creator) + if t.source == creator && t.smart.Some? && t.smart.value.byteCode != [] then 1 else 0
  }

  /** The list of a creator has one place for each of its transactions with code, and the
      place of each is the number of later ones. */
  lemma {:induction false} DeployedIs(txs: seq<Transaction>, i: nat)
    requires i < |txs| && txs[i].smart.Some? && txs[i].smart.value.byteCode != []
    ensures var d := Deployed(txs, txs[i].source);
            |d| == Count(txs, txs[i].source) && Count(txs[i + 1..], txs[i].source) < |d|
            && d[Count(txs[i + 1..], txs[i].source)] == txs[i].id
  {
    DeployedLength(txs, txs[i].source);
    if i > 0 {
      DeployedIs(txs[1..], i - 1);
      assert txs[1..][i..] == txs[i + 1..];
    } else {
      DeployedLength(txs[1..], txs[0].source);
    }
  }

  lemma {:induction false} DeployedLength(txs: seq<Transaction>, creator: Address)
    ensures |Deployed(txs, creator)| == Count(txs, creator)
  {
    if txs != [] { DeployedLength(txs[1..], creator); }
  }

  lemma NoOrigins()
    ensures Origins([]) == map[]
  {
  }

  /** Earlier deployments take precedence. */
  lemma {:induction false} OriginsAppend(a: seq<Transaction>, b: seq<Transaction>)
    ensures Origins(a + b) == Origins(b) + Origins(a)
  {
    if a == [] {
      assert a + b == b;
    } else {
      assert (a + b)[1..] == a[1..] + b;
      OriginsAppend(a[1..], b);
    }
  }

  /** Later states take precedence. */
  lemma {:induction false} StatesAppend(a: seq<Transaction>, b: seq<Transaction>)
    ensures States(a + b) == States(a) + States(b)
  {
    if a == [] {
      assert a + b == b;
    } else {
      assert (a + b)[1..] == a[1..] + b;
      StatesAppend(a[1..], b);
    }
  }

  lemma {:induction false} DeployedAppend(a: seq<Transaction>, b: seq<Transaction>, creator: Address)
    ensures Deployed(a + b, creator) == Deployed(b, creator) + Deployed(a, creator)
  {
    if a == [] {
      assert a + b == b;
    } else {
      assert (a + b)[1..] == a[1..] + b;
      DeployedAppend(a[1..], b, creator);
    }
  }

  //// Scanning in several passes

  ghost predicate DistinctIds(txs: seq<Transaction>) {
    forall i, j :: 0 <= i < j < |txs| ==> txs[i].id != txs[j].id
  }

  lemma DistinctPrefix(a: seq<Transaction>, b: seq<Transaction>)
    requires DistinctIds(a + b)
    ensures DistinctIds(a)
  {
    forall i, j | 0 <= i < j < |a| ensures a[i].id != a[j].id {
      assert (a + b)[i] == a[i] && (a + b)[j] == a[j];
    }
  }

  lemma OriginsDiffer(a: seq<Transaction>, b: seq<Transaction>, c: Address)
    requires DistinctIds(a + b) && c in Origins(a) && c in Origins(b)
    ensures Origins(a)[c] != Origins(b)[c]
  {
    var i := OriginFrom(a, c);
    var j := OriginFrom(b, c);
    assert (a + b)[i] == a[i] && (a + b)[|a| + j] == b[j];
  }

  /** Two ways to merge agree if and only if neither map is needed to decide. */
  lemma Merge(m: map<Address, Id>, p: map<Address, Id>, q: map<Address, Id>)
    requires m.Keys == p.Keys && forall c :: c in p && c in q ==> p[c] != q[c]
    ensures m + q == q + p <==> m == p && p.Keys !! q.Keys
  {
    if m + q == q + p {
      forall c | c in p ensures c !in q && m[c] == p[c] {
        assert (m + q)[c] == (q + p)[c];
      }
      assert m == p;
    } else if p.Keys !! q.Keys {
      assert p + q == q + p;
    }
  }

  /** Scanning b on top of the origins of a gives those of a and b together if and only
      if no contract is deployed in both. */
  lemma OriginsSplit(m: map<Address, Id>, a: seq<Transaction>, b: seq<Transaction>)
    requires DistinctIds(a + b) && m.Keys == Origins(a).Keys
    ensures m + Origins(b) == Origins(a + b) <==> m == Origins(a) && Origins(a).Keys !! Origins(b).Keys
  {
    OriginsAppend(a, b);
    forall c | c in Origins(a) && c in Origins(b) ensures Origins(a)[c] != Origins(b)[c] { OriginsDiffer(a, b, c); }
    Merge(m, Origins(a), Origins(b));
  }

  //// Every schedule of passes

  ghost function All(passes: seq<seq<Transaction>>): seq<Transaction> {
    if passes == [] then [] else All(passes[..|passes| - 1]) + passes[|passes| - 1]
  }

  /** The origins after a run of passes, each overwriting what it finds. */
  ghost function OriginsAfter(passes: seq<seq<Transaction>>): map<Address, Id> {
    if passes == [] then map[] else OriginsAfter(passes[..|passes| - 1]) + Origins(passes[|passes| - 1])
  }

  ghost predicate NoneTwice(passes: seq<seq<Transaction>>) {
    forall i, j :: 0 <= i < j < |passes| ==> Origins(passes[i]).Keys !! Origins(passes[j]).Keys
  }

  lemma {:induction false} KeysAfter(passes: seq<seq<Transaction>>)
    ensures OriginsAfter(passes).Keys == Origins(All(passes)).Keys
    ensures forall c :: c in OriginsAfter(passes) <==> exists i :: 0 <= i < |passes| && c in Origins(passes[i])
  {
    hide Origins;
    if passes == [] {
      NoOrigins();
    } else {
      var n := |passes| - 1;
      var init := passes[..n];
      KeysAfter(init);
      OriginsAppend(All(init), passes[n]);
      forall c ensures c in OriginsAfter(passes) <==> exists i :: 0 <= i < |passes| && c in Origins(passes[i]) {
        if c in OriginsAfter(init) {
          var i :| 0 <= i < |init| && c in Origins(init[i]);
          assert c in Origins(passes[i]);
        }
        if exists i :: 0 <= i < |passes| && c in Origins(passes[i]) {
          var i :| 0 <= i < |passes| && c in Origins(passes[i]);
          assert i < n ==> init[i] == passes[i];
        }
      }
    }
  }

  lemma NoneTwiceNext(passes: seq<seq<Transaction>>, init: seq<seq<Transaction>>, last: seq<Transaction>)
    requires passes == init + [last]
    ensures NoneTwice(passes) <==> NoneTwice(init) && OriginsAfter(init).Keys !! Origins(last).Keys
  {
    hide Origins, OriginsAfter, All;
    KeysAfter(init);
    var n := |init|;
    assert passes[n] == last && forall i :: 0 <= i < n ==> passes[i] == init[i];
    if NoneTwice(passes) {
      assert NoneTwice(init);
      forall c | c in OriginsAfter(init) ensures c !in Origins(last) {
        var i :| 0 <= i < n && c in Origins(init[i]);
        assert Origins(passes[i]).Keys !! Origins(passes[n]).Keys;
        assert c in Origins(passes[i]).Keys;
      }
    }
    if NoneTwice(init) && OriginsAfter(init).Keys !! Origins(last).Keys {
      forall i, j | 0 <= i < j < |passes| ensures Origins(passes[i]).Keys !! Origins(passes[j]).Keys {
        if j < n {
          assert Origins(init[i]).Keys !! Origins(init[j]).Keys;
        } else {
          assert forall c :: c in Origins(init[i]) ==> c in OriginsAfter(init).Keys;
        }
      }
    }
  }

  /** Over any run of passes the recorded origins are the first deployments if and only if
      no contract is deployed in two of the passes. */
  lemma {:induction false} EverySchedule(passes: seq<seq<Transaction>>)
    requires DistinctIds(All(passes))
    ensures OriginsAfter(passes) == Origins(All(passes)) <==> NoneTwice(passes)
  {
    hide Origins, DistinctIds;
    if passes == [] {
      NoOrigins();
    } else {
      var n := |passes| - 1;
      var init, last := passes[..n], passes[n];
      assert passes == init + [last];
      DistinctPrefix(All(init), last);
      EverySchedule(init);
      KeysAfter(init);
      OriginsSplit(OriginsAfter(init), All(init), last);
      NoneTwiceNext(passes, init, last);
    }
  }

  /** A contract deployed in two blocks: one scan of both finds the first deployment, a scan
      of each in turn ends with the second. */
  lemma Redeployed()
    ensures var first := Transaction(1, 7, Some(Smart(5, "a")));
            var second := Transaction(2, 7, Some(Smart(5, "b")));
            Origins([first] + [second]) == map[5 := 1] && OriginsAfter([[first], [second]]) == map[5 := 2]
  {
    var first := Transaction(1, 7, Some(Smart(5, "a")));
    var second := Transaction(2, 7, Some(Smart(5, "b")));
    OriginsAppend([first], [second]);
    var passes := [[first], [second]];
    assert passes[..1] == [[first]] && [[first]][..0] == [];
    assert Origins([first]) == map[5 := 1] && Origins([second]) == map[5 := 2];
    assert OriginsAfter(passes) == OriginsAfter([[first]]) + Origins([second]);
  }
}
