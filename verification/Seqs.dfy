/** Small facts about sequences that the solver uses best one at a time. */
module Seqs {

  lemma SplitAt<T>(s: seq<T>, k: nat)
    requires k <= |s|
    ensures s[..k] + s[k..] == s
  {
  }

  lemma Assoc<T>(a: seq<T>, b: seq<T>, c: seq<T>)
    ensures (a + b) + c == a + (b + c)
  {
  }

  lemma DropLeft<T>(a: seq<T>, b: seq<T>)
    ensures (a + b)[|a|..] == b && (a + b)[..|a|] == a
  {
  }

  lemma DropPrefix<T>(a: seq<T>, b: seq<T>, n: nat)
    requires n <= |a|
    ensures (a + b)[n..] == a[n..] + b && (a + b)[..n] == a[..n]
  {
  }

  lemma SliceTake<T>(s: seq<T>, lo: nat, n: nat, m: nat)
    requires m <= n && lo + n <= |s|
    ensures s[lo..lo + n][..m] == s[lo..lo + m]
  {
  }

  lemma DropDrop<T>(s: seq<T>, a: nat, b: nat)
    requires a + b <= |s|
    ensures s[a..][b..] == s[a + b..] && s[a..][..b] == s[a..a + b]
  {
  }

  /** What follows a + b in s, when s begins with a + b. */
  lemma DropDropAppend<T>(a: seq<T>, b: seq<T>, s: seq<T>)
    requires a + b <= s
    ensures a <= s && b <= s[|a|..] && s[|a|..][|b|..] == s[|a + b|..]
  {
    assert s[..|a + b|] == a + b;
    assert s[|a|..][..|b|] == (a + b)[|a|..];
  }
}
