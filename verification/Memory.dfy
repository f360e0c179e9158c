/** Byte buffers. */
module Memory {
  import opened BitReader

  /** memcpy(dst + at, src, |src|) */
  method CopyBytes(dst: array<byte>, at: nat, src: seq<byte>)
    requires at + |src| <= dst.Length
    modifies dst
    ensures dst[..at] == old(dst[..at])
    ensures dst[at..at + |src|] == src
    ensures dst[at + |src|..] == old(dst[at + |src|..])
  {
    for j := 0 to |src|
      invariant dst[..at] == old(dst[..at])
      invariant dst[at..at + j] == src[..j]
      invariant dst[at + j..] == old(dst[at + j..])
    {
      dst[at + j] := src[j];
    }
  }

  lemma SameSlice(a: seq<byte>, b: seq<byte>, n: nat, lo: nat, hi: nat)
    requires lo <= hi <= n <= |a| && n <= |b| && a[..n] == b[..n]
    ensures a[lo..hi] == b[lo..hi]
  {
    assert a[lo..hi] == a[..n][lo..hi] && b[lo..hi] == b[..n][lo..hi];
  }

  lemma SubSlice(d: seq<byte>, lo: nat, hi: nat, p: nat, q: nat)
    requires lo <= hi <= |d| && p <= q <= hi - lo
    ensures d[lo..hi][p..q] == d[lo + p..lo + q]
  {
    var s := d[lo..hi];
    forall i | p <= i < q ensures s[i] == d[lo + i] {
    }
    forall i | 0 <= i < q - p ensures s[p..q][i] == d[lo + p..lo + q][i] {
      assert s[p..q][i] == s[p + i];
    }
  }
}
