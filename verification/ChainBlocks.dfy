/** Blocks stored by their hash and linked by the hash of their predecessor. */
module ChainBlocks {
  type Hash = nat

  /** The hash of no block, the predecessor of a first block. */
  const EMPTY: Hash := 0

  datatype Block<T> = Block(hash: Hash, previous: Hash, transactions: seq<T>)

  /** The hash of block k - 1, which block k names as its predecessor. */
  function HashBefore<T>(chain: seq<Block<T>>, k: nat): Hash
    requires k <= |chain|
  {
    if k == 0 then EMPTY else chain[k - 1].hash
  }

  ghost predicate Stored<T>(chain: seq<Block<T>>, k: nat, blocks: map<Hash, Block<T>>)
    requires k < |chain|
  {
    && chain[k].hash != EMPTY && chain[k].hash in blocks && blocks[chain[k].hash] == chain[k]
    && chain[k].previous == HashBefore(chain, k)
  }

  /** Every block of the chain can be loaded, and none twice. */
  ghost predicate Chained<T>(chain: seq<Block<T>>, blocks: map<Hash, Block<T>>) {
    && EMPTY !in blocks
    && (forall k :: 0 <= k < |chain| ==> Stored(chain, k, blocks))
    && (forall i, j :: 0 <= i < j < |chain| ==> chain[i].hash != chain[j].hash)
  }

  lemma ChainedNext<T>(chain: seq<Block<T>>, b: Block<T>, blocks: map<Hash, Block<T>>)
    requires Chained(chain, blocks) && b.hash != EMPTY && b.hash !in blocks
    requires b.previous == HashBefore(chain, |chain|)
    ensures Chained(chain + [b], blocks[b.hash := b])
  {
    var c, stored := chain + [b], blocks[b.hash := b];
    forall k | 0 <= k < |c| ensures Stored(c, k, stored) {
      if k < |chain| { assert Stored(chain, k, blocks); }
    }
    forall i, j | 0 <= i < j < |c| ensures c[i].hash != c[j].hash { assert Stored(chain, i, blocks); }
  }

  /** Hashes tell the blocks apart. */
  lemma SamePlace<T>(chain: seq<Block<T>>, blocks: map<Hash, Block<T>>, n: nat, k: nat)
    requires Chained(chain, blocks) && n <= |chain| && k <= |chain|
    ensures HashBefore(chain, n) == HashBefore(chain, k) <==> n == k
  {
    if n > 0 { assert Stored(chain, n - 1, blocks); }
    if k > 0 { assert Stored(chain, k - 1, blocks); }
  }
}
