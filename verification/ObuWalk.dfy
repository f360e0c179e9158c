/** The walk over a run of OBUs (sections 5.3.2 and 4.10.5 of the AV1 specification) that looks for the
  * frame header matching VA's picture parameters, and the printer it undoes. */
module ObuWalk {
  import opened Wrappers
  import opened OrderHint
  import opened BitReader
  import opened FrameHeader

  /** The picture parameters the parser compares with. */
  datatype Pic = Pic(
    stillPicture: bool, frameType: nat, showFrame: nat, enableOrderHint: bool, bitsMinus1: nat,
    orderHint: nat, primaryRef: nat, allowSct: bool)
  {
    function LayoutOf(cand: nat): Layout {
      Layout(cand % 2 == 1, if enableOrderHint then bitsMinus1 + 1 else 0)
    }
  }

  predicate Matches(h: Header, sct: bool, pic: Pic) {
    && h.frameType == pic.frameType && h.show == pic.showFrame
    && (pic.enableOrderHint ==> h.orderHint == pic.orderHint)
    && h.primaryRef == pic.primaryRef
    && (sct ==> (h.allowSct != 0) == pic.allowSct)
  }

  /** One of the four candidate layouts of a frame OBU payload. */
  function TryCandidate(d: Span, cand: nat, pic: Pic): Option<nat> {
    var l := pic.LayoutOf(cand);
    var h := Parse(d, l);
    if h.Some? && Matches(h.value, l.sct, pic) then Some(h.value.refresh % 256) else None
  }

  function TryFrom(d: Span, cand: nat, pic: Pic): Option<nat>
    decreases 4 - cand
  {
    if cand >= 4 then None
    else if TryCandidate(d, cand, pic).Some? then TryCandidate(d, cand, pic)
    else TryFrom(d, cand + 1, pic)
  }

  /** The LEB128 size: (size, position after it), or None after five continuation bytes. */
  function Leb(span: Span, pos: nat, shift: nat, acc: nat): Option<(nat, nat)>
    decreases |span| - pos
  {
    if pos >= |span| then Some((acc, pos)) else
    var b := span[pos];
    var acc' := acc + b % 128 * Pow2(shift);
    if b < 128 then Some((acc', pos + 1))
    else if shift + 7 > 28 then None
    else Leb(span, pos + 1, shift + 7, acc')
  }

  lemma LebRange(span: Span, pos: nat, shift: nat, acc: nat)
    requires pos <= |span| && Leb(span, pos, shift, acc).Some?
    ensures pos <= Leb(span, pos, shift, acc).value.1 <= |span|
    decreases |span| - pos
  {
  }

  /** Type, payload start and payload end of the OBU at `pos`; None when its size is malformed or runs past
    * the span. */
  function ObuAt(span: Span, pos: nat): (r: Option<(nat, nat, nat)>)
    requires pos + 1 < |span|
    ensures r.Some? ==> pos < r.value.1 <= r.value.2 <= |span|
  {
    var h := span[pos];
    var p := if h / 4 % 2 == 1 then pos + 2 else pos + 1;
    var sized := if h / 2 % 2 == 1 then Leb(span, p, 0, 0) else Some((|span| - p, p));
    if sized.None? then None else
    LebRangeIf(span, p, h / 2 % 2 == 1);
    var (size, start) := sized.value;
    if size > |span| - start then None else Some((h / 8 % 16, start, start + size))
  }

  lemma LebRangeIf(span: Span, p: nat, present: bool)
    requires p <= |span| && (present ==> Leb(span, p, 0, 0).Some?)
    ensures present ==> p <= Leb(span, p, 0, 0).value.1 <= |span|
  {
    if present { LebRange(span, p, 0, 0); }
  }

  predicate IsFrame(obuType: nat) {
    obuType == 6 || obuType == 3
  }

  /** The refresh mask found from position `pos` on. */
  function Walk(span: Span, pos: nat, pic: Pic): Option<nat>
    decreases |span| - pos
  {
    if pos + 1 >= |span| then None else
    var obu := ObuAt(span, pos);
    if obu.None? then None else
    var (obuType, start, end) := obu.value;
    var found := if IsFrame(obuType) then TryFrom(span[start..end], 0, pic) else None;
    if found.Some? then found else Walk(span, end, pic)
  }

  function ParseRefresh(span: Span, pic: Pic): Option<nat> {
    if pic.stillPicture then None else Walk(span, 0, pic)
  }

  // ----- the candidates

  /** Candidates 2 and 3 repeat 0 and 1. */
  lemma TwoCandidates(d: Span, pic: Pic)
    ensures TryFrom(d, 0, pic) == if TryCandidate(d, 0, pic).Some? then TryCandidate(d, 0, pic)
                                  else TryCandidate(d, 1, pic)
  {
    assert pic.LayoutOf(2) == pic.LayoutOf(0) && pic.LayoutOf(3) == pic.LayoutOf(1);
    assert TryFrom(d, 4, pic) == None;
    assert TryFrom(d, 2, pic) == if TryCandidate(d, 2, pic).Some? then TryCandidate(d, 2, pic) else TryFrom(d, 3, pic);
  }

  /** The OBU starting at `pos` is on the walk that starts at `from`. */
  ghost predicate Visits(span: Span, from: nat, pos: nat)
    decreases |span| - from
  {
    || from == pos
    || (from + 1 < |span| && ObuAt(span, from).Some? && Visits(span, ObuAt(span, from).value.2, pos))
  }

  /** A header printed at the front of a frame OBU of the span that agrees with VA's parameters. */
  ghost predicate Witnesses(span: Span, pic: Pic, pos: nat, cand: nat, h: Header, mask: nat) {
    && pos + 1 < |span| && ObuAt(span, pos).Some? && cand < 2
    && var (obuType, start, end) := ObuAt(span, pos).value;
       && IsFrame(obuType)
       && WellFormed(h, pic.LayoutOf(cand)) && At(span[start..end], 0, Print(h, pic.LayoutOf(cand)))
       && Matches(h, cand == 1, pic) && mask == h.refresh
  }

  lemma CandidateSound(d: Span, cand: nat, pic: Pic)
    requires pic.bitsMinus1 < 32 && TryCandidate(d, cand, pic).Some?
    ensures var h := Parse(d, pic.LayoutOf(cand)).value;
            && WellFormed(h, pic.LayoutOf(cand)) && At(d, 0, Print(h, pic.LayoutOf(cand)))
            && Matches(h, cand % 2 == 1, pic) && TryCandidate(d, cand, pic) == Some(h.refresh)
  {
    hide Print, Parse;
    ParseSound(d, pic.LayoutOf(cand));
  }

  /** Main result, soundness: an accepted mask is the refresh field of a header that stands at the front of a
    * frame OBU on the walk and agrees with VA in type, show flag, order hint and primary reference. */
  lemma {:induction false} WalkSound(span: Span, from: nat, pic: Pic) returns (pos: nat, cand: nat, h: Header)
    requires pic.bitsMinus1 < 32 && Walk(span, from, pic).Some?
    ensures Visits(span, from, pos) && Witnesses(span, pic, pos, cand, h, Walk(span, from, pic).value)
    decreases |span| - from
  {
    var (obuType, start, end) := ObuAt(span, from).value;
    var d: Span := span[start..end];
    TwoCandidates(d, pic);
    if IsFrame(obuType) && TryFrom(d, 0, pic).Some? {
      pos, cand := from, if TryCandidate(d, 0, pic).Some? then 0 else 1;
      CandidateSound(d, cand, pic);
      h := Parse(d, pic.LayoutOf(cand)).value;
    } else {
      pos, cand, h := WalkSound(span, end, pic);
    }
  }

  // ----- printing OBUs

  type ObuType = n: nat | n < 16

  datatype Obu = Obu(obuType: ObuType, ext: Option<byte>, payload: seq<byte>)

  function EncodeLeb(n: nat): (s: seq<byte>)
    ensures |s| > 0
  {
    if n < 128 then [n] else [n % 128 + 128] + EncodeLeb(n / 128)
  }

  function PrintStart(o: Obu): (s: seq<byte>)
    ensures |s| >= 2
  {
    [o.obuType * 8 + (if o.ext.Some? then 4 else 0) + 2]
    + (if o.ext.Some? then [o.ext.value] else [])
    + EncodeLeb(|o.payload|)
  }

  /** An OBU with its size field. */
  function PrintObu(o: Obu): (s: seq<byte>)
    ensures |s| >= 2
  {
    PrintStart(o) + o.payload
  }

  function PrintAll(os: seq<Obu>): seq<byte> {
    if os == [] then [] else PrintObu(os[0]) + PrintAll(os[1..])
  }

  /** The bytes s stand at position pos of the span. */
  ghost predicate Stands(span: seq<byte>, pos: nat, s: seq<byte>) {
    pos + |s| <= |span| && span[pos..pos + |s|] == s
  }

  lemma StandsSplit(span: seq<byte>, pos: nat, a: seq<byte>, b: seq<byte>)
    requires Stands(span, pos, a + b)
    ensures Stands(span, pos, a) && Stands(span, pos + |a|, b)
  {
    var s := span[pos..pos + |a + b|];
    assert span[pos..pos + |a|] == s[..|a|] == a;
    assert span[pos + |a|..pos + |a| + |b|] == s[|a|..] == b;
  }

  /** Seven payload bits per byte. */
  lemma LebDigits(n: nat, shift: nat)
    ensures n % 128 * Pow2(shift) + n / 128 * Pow2(shift + 7) == n * Pow2(shift)
  {
    Pow2Grows(shift, shift + 7);
    assert Pow2(7) == 128 by { assert Pow2(4) == 16; }
    var p, q, r := Pow2(shift), n / 128, n % 128;
    assert n == 128 * q + r;
    assert (128 * q + r) * p == q * (p * 128) + r * p;
  }

  /** Decoding undoes encoding, as long as the encoding has room before the fifth continuation byte. */
  lemma {:induction false} LebRoundTrip(span: Span, pos: nat, shift: nat, acc: nat, n: nat)
    requires Stands(span, pos, EncodeLeb(n))
    requires shift + 7 * |EncodeLeb(n)| <= 35
    ensures Leb(span, pos, shift, acc) == Some((acc + n * Pow2(shift), pos + |EncodeLeb(n)|))
    decreases n
  {
    assert span[pos] == span[pos..pos + |EncodeLeb(n)|][0];
    if n >= 128 {
      StandsSplit(span, pos, [n % 128 + 128], EncodeLeb(n / 128));
      LebRoundTrip(span, pos + 1, shift + 7, acc + n % 128 * Pow2(shift), n / 128);
      LebDigits(n, shift);
    }
  }

  /** 32-bit sizes take at most five bytes. */
  lemma LebLength(n: nat)
    requires n < SPAN_LIMIT
    ensures |EncodeLeb(n)| <= 5
  {
    var n1 := n / 128;
    var n2 := n1 / 128;
    var n3 := n2 / 128;
    var n4 := n3 / 128;
    assert n4 < 128;
    assert |EncodeLeb(n4)| == 1;
    assert |EncodeLeb(n3)| <= 2;
    assert |EncodeLeb(n2)| <= 3;
    assert |EncodeLeb(n1)| <= 4;
  }

  lemma HeaderByte(t: ObuType, e: bit)
    ensures var h := t * 8 + e * 4 + 2; h / 8 % 16 == t && h / 4 % 2 == e && h / 2 % 2 == 1
  {
  }

  lemma SizeRoundTrip(span: Span, pos: nat, n: nat)
    requires Stands(span, pos, EncodeLeb(n)) && n < SPAN_LIMIT
    ensures Leb(span, pos, 0, 0) == Some((n, pos + |EncodeLeb(n)|))
  {
    LebLength(n);
    LebRoundTrip(span, pos, 0, 0, n);
  }

  /** The header byte, the extension and the size are read back. */
  lemma StartRoundTrip(span: Span, pos: nat, o: Obu)
    requires Stands(span, pos, PrintStart(o)) && |o.payload| < SPAN_LIMIT
    ensures span[pos] == o.obuType * 8 + (if o.ext.Some? then 4 else 0) + 2
    ensures var p := if o.ext.Some? then pos + 2 else pos + 1;
            Leb(span, p, 0, 0) == Some((|o.payload|, pos + |PrintStart(o)|))
  {
    hide Leb, EncodeLeb;
    var h := [o.obuType * 8 + (if o.ext.Some? then 4 else 0) + 2];
    var e: seq<byte> := if o.ext.Some? then [o.ext.value] else [];
    StandsSplit(span, pos, h + e, EncodeLeb(|o.payload|));
    StandsSplit(span, pos, h, e);
    assert span[pos] == span[pos..pos + 1][0] == h[0];
    SizeRoundTrip(span, pos + |h + e|, |o.payload|);
  }

  /** A printed OBU is found with its type and its payload. */
  lemma ObuRoundTrip(span: Span, pos: nat, o: Obu)
    requires Stands(span, pos, PrintObu(o)) && |o.payload| < SPAN_LIMIT
    ensures var start, end := pos + |PrintStart(o)|, pos + |PrintObu(o)|;
            && pos + 1 < |span|
            && ObuAt(span, pos) == Some((o.obuType, start, end))
            && span[start..end] == o.payload
  {
    hide Leb, PrintStart;
    StandsSplit(span, pos, PrintStart(o), o.payload);
    StartRoundTrip(span, pos, o);
    HeaderByte(o.obuType, if o.ext.Some? then 1 else 0);
  }

  /** An OBU the walk passes over: not a frame, or a frame whose headers do not agree with VA. */
  ghost predicate Skipped(o: Obu, pic: Pic) {
    && |o.payload| < SPAN_LIMIT
    && (IsFrame(o.obuType) ==> TryFrom(o.payload, 0, pic).None?)
  }

  /** Earlier OBUs that do not match are skipped exactly. */
  lemma {:induction false} WalkSkips(span: Span, pos: nat, pre: seq<Obu>, pic: Pic)
    requires forall o :: o in pre ==> Skipped(o, pic)
    requires Stands(span, pos, PrintAll(pre))
    ensures Walk(span, pos, pic) == Walk(span, pos + |PrintAll(pre)|, pic)
    decreases |pre|
  {
    hide ObuAt, PrintObu, TryFrom;
    if pre != [] {
      var o := pre[0];
      assert o in pre;
      StandsSplit(span, pos, PrintObu(o), PrintAll(pre[1..]));
      ObuRoundTrip(span, pos, o);
      WalkSkips(span, pos + |PrintObu(o)|, pre[1..], pic);
    }
  }

  /** Main result, completeness: for a header printed at the front of a frame OBU, after any OBUs that are
    * skipped and before any bytes, the parser returns the printed refresh mask - always in the layout without
    * screen-content bits, and in the other one if and only if candidate 0 does not match or finds the same mask. */
  lemma RefreshRoundTrip(pre: seq<Obu>, o: Obu, rest: seq<byte>, h: Header, cand: nat, pic: Pic)
    requires forall p :: p in pre ==> Skipped(p, pic)
    requires cand < 2 && IsFrame(o.obuType) && !pic.stillPicture && pic.bitsMinus1 < 32
    requires |PrintAll(pre) + PrintObu(o) + rest| < SPAN_LIMIT
    requires WellFormed(h, pic.LayoutOf(cand)) && At(o.payload, 0, Print(h, pic.LayoutOf(cand)))
    requires Matches(h, cand == 1, pic)
    ensures var first := TryCandidate(o.payload, 0, pic);
            ParseRefresh(PrintAll(pre) + PrintObu(o) + rest, pic) == Some(h.refresh)
            <==> cand == 0 || first == None || first == Some(h.refresh)
  {
    hide Print, Parse, At, ObuAt, PrintAll, PrintStart;
    var span: Span := PrintAll(pre) + PrintObu(o) + rest;
    assert Stands(span, 0, PrintAll(pre));
    assert Stands(span, |PrintAll(pre)|, PrintObu(o));
    WalkSkips(span, 0, pre, pic);
    ObuRoundTrip(span, |PrintAll(pre)|, o);
    TwoCandidates(o.payload, pic);
    ParseComplete(o.payload, h, pic.LayoutOf(cand));
    assert TryCandidate(o.payload, cand, pic) == Some(h.refresh);
  }

  /** Why the condition is needed: with order hints disabled, the two bytes below carry refresh mask 2 in the
    * layout with screen-content bits, but candidate 0 matches first and yields 1. */
  lemma CandidateZeroShadows()
    ensures var pic := Pic(false, INTER, 1, false, 0, 0, 7, false);
            var d := [0x38, 0x02];
            TryCandidate(d, 1, pic) == Some(2) && TryFrom(d, 0, pic) == Some(1)
  {
    hide Parse, At, Print, WellFormed;
    var pic := Pic(false, INTER, 1, false, 0, 0, 7, false);
    var d: Span := [0x38, 0x02];
    ShadowBytes();
    ShadowHeader(d, true);
    ShadowHeader(d, false);
    TwoCandidates(d, pic);
  }

  function ShadowBits(): seq<bit> {
    [0, 0, 1, 1, 1, 0, 0, 0, 0, 0, 0, 0, 0, 0, 1, 0]
  }

  lemma ShadowBytes()
    ensures var d: seq<byte> := [0x38, 0x02]; At(d, 0, ShadowBits())
  {
    hide At;
    var d: seq<byte> := [0x38, 0x02];
    var s := ShadowBits();
    assert s[..8] == [0, 0, 1, 1, 1, 0, 0, 0] && s[8..] == [0, 0, 0, 0, 0, 0, 1, 0];
    assert PackByte(s[..8]) == 0x38 && PackByte(s[8..]) == 0x02;
    assert Pack(s[8..]) == [0x02];
    assert Pack(s) == [0x38] + Pack(s[8..]);
    assert Pack(s) + [] == d;
    PackAt(s, []);
  }

  lemma ShadowMask(v: nat)
    requires v == 1 || v == 2
    ensures ToBits(v, 8) == [0, 0, 0, 0, 0, 0, v / 2, v % 2]
    ensures ToBits(1, 2) == [0, 1] && ToBits(0, 1) == [0] && ToBits(1, 1) == [1]
  {
    assert ToBits(0, 3) == [0, 0, 0];
    assert ToBits(0, 6) == [0, 0, 0, 0, 0, 0];
    assert ToBits(v / 2, 7) == [0, 0, 0, 0, 0, 0] + [v / 2];
  }

  lemma ShadowHeader(d: Span, sct: bool)
    requires At(d, 0, ShadowBits())
    ensures Parse(d, Layout(sct, 0)) == Some(Header(INTER, 1, 0, 1, 0, 0, 0, 0, 0, 7, if sct then 2 else 1))
  {
    hide Parse, At, ToBits;
    var l := Layout(sct, 0);
    var h := Header(INTER, 1, 0, 1, 0, 0, 0, 0, 0, 7, if sct then 2 else 1);
    ShadowMask(h.refresh);
    assert ToBits(0, 0) == [];
    var rest: seq<bit> := if sct then [] else [0];
    assert ShadowBits() == Print(h, l) + rest;
    AtSplit(d, 0, Print(h, l), rest);
    ParseComplete(d, h, l);
  }

  // ----- the parser in place

  /** The size field: a loop of at most five bytes. */
  method ReadSize(span: Span, pos: nat) returns (ok: bool, size: nat, next: nat)
    requires pos <= |span|
    ensures Leb(span, pos, 0, 0) == if ok then Some((size, next)) else None
  {
    var shift := 0;
    size, next := 0, pos;
    while next < |span|
      invariant pos <= next <= |span|
      invariant Leb(span, next, shift, size) == Leb(span, pos, 0, 0)
    {
      var b := span[next];
      next := next + 1;
      size := size + b % 128 * Pow2(shift);
      shift := shift + 7;
      if b < 128 {
        return true, size, next;
      }
      if shift > 28 {
        return false, 0, 0;
      }
    }
    return true, size, next;
  }

  /** One candidate layout, read field by field. */
  method TryHeader(d: Span, cand: nat, pic: Pic) returns (r: Option<nat>)
    ensures r == TryCandidate(d, cand, pic)
  {
    hide Read, ToBits, Print, At;
    var sct := cand % 2 == 1;
    var hintBits := if pic.enableOrderHint then pic.bitsMinus1 + 1 else 0;
    var br := new Reader(d);
    var existing := br.F(1);
    if br.pos == OVERRUN || existing != 0 {
      return None;
    }
    var frameType := br.F(2);
    var show := br.F(1);
    var showable, errorResilient, allowSct, forceMv, sizeOverride := 0, 1, 0, 0, 0;
    if show == 0 {
      showable := br.F(1);
    }
    if !((frameType == KEY && show != 0) || frameType == 2) {
      errorResilient := br.F(1);
    }
    var disableCdf := br.F(1);
    if sct {
      allowSct := br.F(1);
      if allowSct != 0 {
        forceMv := br.F(1);
      }
    }
    if frameType != 2 {
      sizeOverride := br.F(1);
    }
    var orderHint := br.F(hintBits);
    var primaryRef, refresh := 7, 0xff;
    if errorResilient == 0 && frameType == INTER {
      primaryRef := br.F(3);
    }
    if !(frameType == 2 || (frameType == KEY && show != 0)) {
      refresh := br.F(8);
    }
    if br.pos == OVERRUN || frameType != pic.frameType || show != pic.showFrame
       || (pic.enableOrderHint && orderHint != pic.orderHint) || primaryRef != pic.primaryRef
       || (sct && (allowSct != 0) != pic.allowSct) {
      return None;
    }
    return Some(refresh % 256);
  }

  /** All four candidate layouts of one frame OBU payload. */
  method TryHeaders(d: Span, pic: Pic) returns (mask: Option<nat>)
    ensures mask == TryFrom(d, 0, pic)
  {
    hide TryCandidate;
    for cand := 0 to 4
      invariant TryFrom(d, cand, pic) == TryFrom(d, 0, pic)
    {
      mask := TryHeader(d, cand, pic);
      if mask.Some? {
        return;
      }
    }
    return None;
  }

  /** The OBU header byte, its optional extension byte and its size. */
  method ReadStart(span: Span, pos: nat) returns (ok: bool, start: nat, size: nat)
    requires pos + 1 < |span|
    ensures ObuAt(span, pos) == if ok then Some((span[pos] / 8 % 16, start, start + size)) else None
  {
    hide Leb;
    var h := span[pos];
    start := if h / 4 % 2 == 1 then pos + 2 else pos + 1;
    size := |span| - start;
    if h / 2 % 2 == 1 {
      var sized, n, next := ReadSize(span, start);
      if !sized {
        return false, 0, 0;
      }
      LebRange(span, start, 0, 0);
      size, start := n, next;
    }
    if size > |span| - start {
      return false, 0, 0;
    }
    return true, start, size;
  }

  /** The whole walk: it terminates on every span, reads only inside it, and finds what `ParseRefresh`
    * specifies. */
  method ParseHdrRefresh(span: Span, pic: Pic) returns (mask: Option<nat>)
    ensures mask == ParseRefresh(span, pic)
  {
    hide TryFrom, ObuAt;
    if pic.stillPicture {
      return None;
    }
    var pos := 0;
    while pos + 1 < |span|
      invariant pos <= |span| && Walk(span, pos, pic) == Walk(span, 0, pic)
    {
      var ok, start, size := ReadStart(span, pos);
      if !ok {
        return None;
      }
      var t := span[pos] / 8 % 16;
      if t == 6 || t == 3 {
        mask := TryHeaders(span[start..start + size], pic);
        if mask.Some? {
          return;
        }
      }
      pos := start + size;
    }
    return None;
  }
}
