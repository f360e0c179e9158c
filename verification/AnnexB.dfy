/** Concatenation of slice NAL units into an Annex B byte stream (H.264, Annex B). */
module AnnexB {
  import opened BitReader
  import opened Memory

  const CODE3: seq<byte> := [0, 0, 1]
  const CODE4: seq<byte> := [0, 0, 0, 1]

  predicate StartsWithCode(d: seq<byte>) {
    CODE3 <= d || CODE4 <= d
  }

  /** annexb_missing_prefix tests bytes; this is what it means. */
  predicate MissingPrefix(d: seq<byte>)
    ensures MissingPrefix(d) <==> !StartsWithCode(d)
  {
    PrefixBytes(d);
    !(|d| >= 3 && d[0] == 0 && d[1] == 0 && (d[2] == 1 || (|d| >= 4 && d[2] == 0 && d[3] == 1)))
  }

  lemma PrefixBytes(d: seq<byte>)
    ensures CODE3 <= d <==> |d| >= 3 && d[0] == 0 && d[1] == 0 && d[2] == 1
    ensures CODE4 <= d <==> |d| >= 4 && d[0] == 0 && d[1] == 0 && d[2] == 0 && d[3] == 1
  {
    assert |d| >= 3 ==> d[..3] == [d[0], d[1], d[2]];
    assert |d| >= 4 ==> d[..4] == [d[0], d[1], d[2], d[3]];
    assert CODE3 <= d ==> d[..3] == CODE3;
    assert CODE4 <= d ==> d[..4] == CODE4;
  }

  /** The start code that is written. */
  function Code(prefixLen: nat): seq<byte> {
    if prefixLen == 4 then CODE4 else CODE3
  }

  /** One slice with a start code. */
  function Normal(d: seq<byte>, prefixLen: nat): (s: seq<byte>)
    ensures StartsWithCode(s) && |s| >= 3 && |s| <= |d| + 4
    ensures StartsWithCode(d) ==> s == d
  {
    if MissingPrefix(d) then Code(prefixLen) + d else d
  }

  /** The stream of the first n slices. */
  function Stream(datas: seq<seq<byte>>, n: nat, prefixLen: nat): seq<byte>
    requires n <= |datas|
  {
    if n == 0 then [] else Stream(datas, n - 1, prefixLen) + Normal(datas[n - 1], prefixLen)
  }

  /** What the sizing pass computes. */
  function Sized(datas: seq<seq<byte>>, n: nat, prefixLen: nat): nat
    requires n <= |datas|
  {
    if n == 0 then 0
    else Sized(datas, n - 1, prefixLen) + |datas[n - 1]| + if MissingPrefix(datas[n - 1]) then prefixLen else 0
  }

  lemma {:induction false} SizedAboveStream(datas: seq<seq<byte>>, n: nat, prefixLen: nat)
    requires n <= |datas|
    ensures prefixLen >= 3 ==> Sized(datas, n, prefixLen) >= |Stream(datas, n, prefixLen)|
    ensures prefixLen < 3 ==> Sized(datas, n, prefixLen) <= |Stream(datas, n, prefixLen)|
    ensures Sized(datas, n, prefixLen) == |Stream(datas, n, prefixLen)| <==>
            prefixLen == 3 || prefixLen == 4 || forall i :: 0 <= i < n ==> !MissingPrefix(datas[i])
  {
    if n > 0 {
      SizedAboveStream(datas, n - 1, prefixLen);
    }
  }

  /** The two passes agree exactly when the prefix length is 3 or 4, or no slice needs a prefix. */
  lemma PassesAgree(datas: seq<seq<byte>>, prefixLen: nat)
    ensures Sized(datas, |datas|, prefixLen) == |Stream(datas, |datas|, prefixLen)| <==>
            prefixLen == 3 || prefixLen == 4 || forall i :: 0 <= i < |datas| ==> !MissingPrefix(datas[i])
  {
    SizedAboveStream(datas, |datas|, prefixLen);
  }

  /** Slice i stands whole, in order, right after the slices before it. */
  lemma {:induction false} SliceInPlace(datas: seq<seq<byte>>, n: nat, prefixLen: nat, i: nat)
    requires i < n <= |datas|
    ensures var s, at, d := Stream(datas, n, prefixLen), |Stream(datas, i, prefixLen)|, Normal(datas[i], prefixLen);
            at + |d| <= |s| && s[at..at + |d|] == d && s[..at] == Stream(datas, i, prefixLen)
  {
    hide Normal;
    var prev := Stream(datas, n - 1, prefixLen);
    var s := prev + Normal(datas[n - 1], prefixLen);
    assert s[..|prev|] == prev[..|prev|] == prev;
    if i < n - 1 {
      SliceInPlace(datas, n - 1, prefixLen, i);
      var at, d := |Stream(datas, i, prefixLen)|, Normal(datas[i], prefixLen);
      SameSlice(prev, s, |prev|, at, at + |d|);
      SameSlice(prev, s, |prev|, 0, at);
    } else {
      assert s[|prev|..] == Normal(datas[i], prefixLen);
    }
  }

  lemma {:induction false} StreamStarts(datas: seq<seq<byte>>, n: nat, prefixLen: nat)
    requires 0 < n <= |datas|
    ensures StartsWithCode(Stream(datas, n, prefixLen)) && |Stream(datas, n, prefixLen)| >= 3
  {
    if n > 1 {
      StreamStarts(datas, n - 1, prefixLen);
      StartsStays(Stream(datas, n - 1, prefixLen), Normal(datas[n - 1], prefixLen));
    } else {
      assert Stream(datas, 1, prefixLen) == Normal(datas[0], prefixLen);
    }
  }

  lemma StartsStays(a: seq<byte>, b: seq<byte>)
    requires StartsWithCode(a)
    ensures StartsWithCode(a + b)
  {
    PrefixBytes(a);
    PrefixBytes(a + b);
  }

  /** Main result: normalising is idempotent - slice by slice always, and on the whole stream exactly when
    * there is a slice; an empty stream would gain a start code. */
  lemma NormalisingTwice(datas: seq<seq<byte>>, prefixLen: nat)
    ensures var s := Stream(datas, |datas|, prefixLen);
            Stream([s], 1, prefixLen) == s <==> datas != []
    ensures forall d: seq<byte> :: Normal(Normal(d, prefixLen), prefixLen) == Normal(d, prefixLen)
  {
    var s := Stream(datas, |datas|, prefixLen);
    assert Stream([s], 0, prefixLen) == [];
    assert Stream([s], 1, prefixLen) == Normal(s, prefixLen);
    if datas != [] {
      StreamStarts(datas, |datas|, prefixLen);
    }
  }

  method HasNoPrefix(d: seq<byte>) returns (missing: bool)
    ensures missing == MissingPrefix(d)
  {
    missing := !(|d| >= 3 && d[0] == 0 && d[1] == 0 && (d[2] == 1 || (|d| >= 4 && d[2] == 0 && d[3] == 1)));
  }

  /** The start code, byte by byte. */
  method WriteCode(dst: array<byte>, off: nat, prefixLen: nat) returns (end: nat)
    requires off + |Code(prefixLen)| <= dst.Length
    modifies dst
    ensures end == off + |Code(prefixLen)|
    ensures dst[..off] == old(dst[..off])
    ensures dst[off..end] == Code(prefixLen)
    ensures dst[end..] == old(dst[end..])
  {
    end := off;
    if prefixLen == 4 {
      dst[end] := 0;
      end := end + 1;
    }
    dst[end] := 0;
    end := end + 1;
    dst[end] := 0;
    end := end + 1;
    dst[end] := 1;
    end := end + 1;
  }

  /** One slice written at `off`. */
  method WriteSlice(dst: array<byte>, off: nat, d: seq<byte>, prefixLen: nat) returns (end: nat)
    requires off + |Normal(d, prefixLen)| <= dst.Length
    modifies dst
    ensures end == off + |Normal(d, prefixLen)|
    ensures dst[..off] == old(dst[..off])
    ensures dst[off..end] == Normal(d, prefixLen)
    ensures dst[end..] == old(dst[end..])
  {
    var missing := HasNoPrefix(d);
    if !missing {
      CopyBytes(dst, off, d);
      return off + |d|;
    }
    hide Code;
    ghost var was := dst[..];
    var start := WriteCode(dst, off, prefixLen);
    ghost var mid := dst[..];
    CopyBytes(dst, start, d);
    end := start + |d|;
    Joined(was, mid, dst[..], off, start, end);
  }

  lemma Joined(was: seq<byte>, mid: seq<byte>, now: seq<byte>, off: nat, start: nat, end: nat)
    requires off <= start <= end <= |was| == |mid| == |now|
    requires mid[..off] == was[..off] && mid[start..] == was[start..]
    requires now[..start] == mid[..start] && now[end..] == mid[end..]
    ensures now[..off] == was[..off] && now[end..] == was[end..]
    ensures now[off..end] == mid[off..start] + now[start..end]
  {
    SameSlice(mid, now, start, 0, off);
    SameSlice(mid, now, start, off, start);
    SubSlice(mid, start, |mid|, end - start, |mid| - start);
    SubSlice(was, start, |was|, end - start, |was| - start);
    assert mid[end..] == mid[start..][end - start..] && was[end..] == was[start..][end - start..];
    assert now[..off] == now[0..off] && mid[..off] == mid[0..off];
    assert now[off..end] == now[off..start] + now[start..end];
  }

  /** The writing pass. */
  method WriteAll(dst: array<byte>, datas: seq<seq<byte>>, prefixLen: nat)
    requires |Stream(datas, |datas|, prefixLen)| <= dst.Length
    modifies dst
    ensures var total := |Stream(datas, |datas|, prefixLen)|;
            dst[..total] == Stream(datas, |datas|, prefixLen) && dst[total..] == old(dst[total..])
  {
    hide Normal;
    var off := 0;
    for i := 0 to |datas|
      invariant off == |Stream(datas, i, prefixLen)| <= dst.Length
      invariant dst[..off] == Stream(datas, i, prefixLen)
      invariant dst[off..] == old(dst[off..])
    {
      SliceInPlace(datas, |datas|, prefixLen, i);
      ghost var mid := dst[..];
      var end := WriteSlice(dst, off, datas[i], prefixLen);
      Extended(old(dst[..]), mid, dst[..], off, end);
      off := end;
    }
  }

  lemma Extended(was: seq<byte>, mid: seq<byte>, now: seq<byte>, off: nat, end: nat)
    requires off <= end <= |was| == |mid| == |now|
    requires mid[off..] == was[off..] && now[..off] == mid[..off] && now[end..] == mid[end..]
    ensures now[..end] == mid[..off] + now[off..end] && now[end..] == was[end..]
  {
    assert now[..end] == now[..off] + now[off..end];
    assert mid[end..] == mid[off..][end - off..] && was[end..] == was[off..][end - off..];
  }

  /** Main result: v4l2sl_annexb_concat. When the stream fits, the buffer starts with exactly the stream and
    * is unchanged behind it; when it does not fit the result is 0 and nothing is written. Without a buffer
    * the call only sizes. */
  method Concat(datas: seq<seq<byte>>, prefixLen: nat, dst: array?<byte>, capacity: nat) returns (total: nat)
    requires prefixLen == 3 || prefixLen == 4
    requires dst != null ==> dst.Length == capacity
    modifies dst
    ensures total == if |Stream(datas, |datas|, prefixLen)| > capacity then 0 else |Stream(datas, |datas|, prefixLen)|
    ensures dst != null && |Stream(datas, |datas|, prefixLen)| <= capacity ==>
              dst[..total] == Stream(datas, |datas|, prefixLen) && dst[total..] == old(dst[total..])
    ensures dst != null && |Stream(datas, |datas|, prefixLen)| > capacity ==> dst[..] == old(dst[..])
  {
    total := 0;
    for i := 0 to |datas|
      invariant total == Sized(datas, i, prefixLen)
      modifies {}
    {
      var missing := HasNoPrefix(datas[i]);
      total := total + |datas[i]| + if missing then prefixLen else 0;
    }
    PassesAgree(datas, prefixLen);
    hide Stream, Sized;
    if total > capacity {
      return 0;
    }
    if dst == null {
      return;
    }
    WriteAll(dst, datas, prefixLen);
  }

  /** The result 0 means the stream did not fit, or there was no slice. */
  lemma ZeroMeans(datas: seq<seq<byte>>, prefixLen: nat)
    ensures |Stream(datas, |datas|, prefixLen)| == 0 <==> datas == []
  {
    if datas != [] {
      StreamStarts(datas, |datas|, prefixLen);
    }
  }
}
