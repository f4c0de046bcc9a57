/** Cutting a sequence into consecutive pieces of at most n elements: what both the
    packet splitter and the fragmenting publisher do. */
module Chunking {
  import opened Arithmetic

  function Chunks<T>(s: seq<T>, n: nat): (r: seq<seq<T>>)
    requires n > 0
    decreases |s|
  {
    if |s| == 0 then [] else if |s| <= n then [s] else [s[..n]] + Chunks(s[n..], n)
  }

  function Flatten<T>(ss: seq<seq<T>>): seq<T> {
    if ss == [] then [] else ss[0] + Flatten(ss[1..])
  }

  function CeilDiv(a: nat, n: nat): nat
    requires n > 0
  {
    (a + n - 1) / n
  }

  lemma CeilDivStep(a: nat, n: nat)
    requires n > 0
    ensures CeilDiv(a + n, n) == CeilDiv(a, n) + 1
    ensures 0 < a <= n ==> CeilDiv(a, n) == 1
    ensures CeilDiv(0, n) == 0
  {
    var q, r := (a + n - 1) / n, (a + n - 1) % n;
    assert a + n - 1 == q * n + r;
    DivUnique(a + n + n - 1, n, q + 1, r);
    DivUnique(n - 1, n, 0, n - 1);
    if 0 < a <= n { DivUnique(a + n - 1, n, 1, a - 1); }
  }

  /** The pieces are exactly as many as ceiling division says. */
  lemma {:induction false} ChunksCount<T>(s: seq<T>, n: nat)
    requires n > 0
    ensures |Chunks(s, n)| == CeilDiv(|s|, n)
    decreases |s|
  {
    hide CeilDiv;
    if |s| <= n {
      CeilDivStep(|s|, n);
    } else {
      ChunksCount(s[n..], n);
      CeilDivStep(|s| - n, n);
    }
  }

  /** They rebuild the sequence. */
  lemma {:induction false} ChunksRebuild<T>(s: seq<T>, n: nat)
    requires n > 0
    ensures Flatten(Chunks(s, n)) == s
    decreases |s|
  {
    if 0 < |s| <= n {
      assert Chunks(s, n)[1..] == [];
    } else if |s| > n {
      ChunksRebuild(s[n..], n);
      assert Chunks(s, n)[1..] == Chunks(s[n..], n);
      assert s == s[..n] + s[n..];
    }
  }

  /** All are full except possibly the last, which is not empty. */
  lemma {:induction false} ChunksFull<T>(s: seq<T>, n: nat, i: nat)
    requires n > 0 && i < |Chunks(s, n)|
    ensures 0 < |Chunks(s, n)[i]| <= n
    ensures i < |Chunks(s, n)| - 1 ==> |Chunks(s, n)[i]| == n
    decreases |s|
  {
    if |s| <= n || i == 0 {
    } else {
      ChunksFull(s[n..], n, i - 1);
    }
  }
}
