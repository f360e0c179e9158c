/** The start of an AV1 uncompressed header as the driver reads it (section 5.9.2 of the AV1
  * specification, exactly for KEY and INTER frames): a printer, the parser, and that each undoes the
  * other. */
module FrameHeader {
  import opened Wrappers
  import opened OrderHint
  import opened BitReader

  const KEY := 0
  const INTER := 1

  datatype Header = Header(
    frameType: nat, show: nat, showable: nat, errorResilient: nat, disableCdf: nat,
    allowSct: nat, forceMv: nat, sizeOverride: nat, orderHint: nat, primaryRef: nat, refresh: nat)

  /** What the layout depends on besides the header: whether the screen-content bits are present, and the
    * order-hint width, 0 when order hints are disabled. */
  datatype Layout = Layout(sct: bool, hintBits: nat)

  // ----- which fields are present

  predicate ReadsResilient(frameType: nat, show: nat) {
    !((frameType == KEY && show != 0) || frameType == 2)
  }

  predicate ReadsPrimaryRef(frameType: nat, errorResilient: nat) {
    errorResilient == 0 && frameType == INTER
  }

  predicate ReadsRefresh(frameType: nat, show: nat) {
    !(frameType == 2 || (frameType == KEY && show != 0))
  }

  // ----- printing

  function Opt(present: bool, v: nat, nb: nat): seq<bit> {
    if present then ToBits(v, nb) else []
  }

  function PrintTail(h: Header, l: Layout): seq<bit> {
    Opt(h.frameType != 2, h.sizeOverride, 1)
    + (Opt(true, h.orderHint, l.hintBits)
       + (Opt(ReadsPrimaryRef(h.frameType, h.errorResilient), h.primaryRef, 3)
          + Opt(ReadsRefresh(h.frameType, h.show), h.refresh, 8)))
  }

  /** show_existing_frame = 0, then the fields in order. */
  function Print(h: Header, l: Layout): seq<bit> {
    Opt(true, 0, 1)
    + (Opt(true, h.frameType, 2)
       + (Opt(true, h.show, 1)
          + (Opt(h.show == 0, h.showable, 1)
             + (Opt(ReadsResilient(h.frameType, h.show), h.errorResilient, 1)
                + (Opt(true, h.disableCdf, 1)
                   + (Opt(l.sct, h.allowSct, 1)
                      + (Opt(l.sct && h.allowSct != 0, h.forceMv, 1)
                         + PrintTail(h, l))))))))
  }

  /** Every field fits its width, and absent fields have the values the parser infers. */
  predicate WellFormed(h: Header, l: Layout) {
    && h.frameType < 4 && h.show < 2 && h.disableCdf < 2
    && (if h.show == 0 then h.showable < 2 else h.showable == 0)
    && (if ReadsResilient(h.frameType, h.show) then h.errorResilient < 2 else h.errorResilient == 1)
    && (if l.sct then h.allowSct < 2 else h.allowSct == 0)
    && (if l.sct && h.allowSct != 0 then h.forceMv < 2 else h.forceMv == 0)
    && (if h.frameType != 2 then h.sizeOverride < 2 else h.sizeOverride == 0)
    && h.orderHint < Pow2(l.hintBits)
    && (if ReadsPrimaryRef(h.frameType, h.errorResilient) then h.primaryRef < 8 else h.primaryRef == 7)
    && (if ReadsRefresh(h.frameType, h.show) then h.refresh < 256 else h.refresh == 0xff)
  }

  // ----- parsing

  function ReadOpt(d: Span, pos: nat, present: bool, nb: nat, absent: nat): (nat, nat) {
    if present then Read(d, pos, nb) else (absent, pos)
  }

  /** The fields from the size override flag on. */
  function ParseTail(d: Span, pos: nat, h: Header, l: Layout): Option<Header> {
    var (sizeOverride, p1) := ReadOpt(d, pos, h.frameType != 2, 1, 0);
    var (orderHint, p2) := Read(d, p1, l.hintBits);
    var (primaryRef, p3) := ReadOpt(d, p2, ReadsPrimaryRef(h.frameType, h.errorResilient), 3, 7);
    var (refresh, p4) := ReadOpt(d, p3, ReadsRefresh(h.frameType, h.show), 8, 0xff);
    if p4 == OVERRUN then None
    else Some(h.(sizeOverride := sizeOverride, orderHint := orderHint, primaryRef := primaryRef, refresh := refresh))
  }

  /** One candidate layout of one frame OBU payload; None when it overruns or shows an existing frame. */
  function Parse(d: Span, l: Layout): Option<Header> {
    var (existing, p0) := Read(d, 0, 1);
    if p0 == OVERRUN || existing != 0 then None else
    var (frameType, p1) := Read(d, p0, 2);
    var (show, p2) := Read(d, p1, 1);
    var (showable, p3) := ReadOpt(d, p2, show == 0, 1, 0);
    var (errorResilient, p4) := ReadOpt(d, p3, ReadsResilient(frameType, show), 1, 1);
    var (disableCdf, p5) := Read(d, p4, 1);
    var (allowSct, p6) := ReadOpt(d, p5, l.sct, 1, 0);
    var (forceMv, p7) := ReadOpt(d, p6, l.sct && allowSct != 0, 1, 0);
    ParseTail(d, p7, Header(frameType, show, showable, errorResilient, disableCdf, allowSct, forceMv, 0, 0, 0, 0), l)
  }

  // ----- one field

  /** Reading an optional field: inside the data it returns what is printed there, otherwise it overruns and
    * stays there. */
  lemma OptExact(d: Span, pos: nat, present: bool, nb: nat, absent: nat)
    requires nb <= 32 && (pos <= 8 * |d| || pos == OVERRUN)
    ensures var (v, p) := ReadOpt(d, pos, present, nb, absent);
            && (p == OVERRUN || (pos <= p <= 8 * |d|))
            && (pos == OVERRUN ==> p == OVERRUN)
            && (p != OVERRUN ==> p == pos + |Opt(present, v, nb)| && At(d, pos, Opt(present, v, nb))
                                 && (if present then v < Pow2(nb) else v == absent))
  {
    if present {
      if pos == OVERRUN {
        OverrunSticky(d, nb);
      } else {
        ReadExact(d, pos, nb);
      }
    }
  }

  /** A printed field is read back, and the rest of the header stands right after it. */
  lemma OptRead(d: Span, pos: nat, present: bool, nb: nat, absent: nat, v: nat, rest: seq<bit>)
    requires nb <= 32 && (if present then v < Pow2(nb) else v == absent)
    requires At(d, pos, Opt(present, v, nb) + rest)
    ensures ReadOpt(d, pos, present, nb, absent) == (v, pos + |Opt(present, v, nb)|)
    ensures At(d, pos + |Opt(present, v, nb)|, rest)
  {
    AtSplit(d, pos, Opt(present, v, nb), rest);
    if present {
      ReadInverse(d, pos, nb, v);
    }
  }

  // ----- the whole header

  lemma ParseTailComplete(d: Span, pos: nat, h: Header, h0: Header, l: Layout)
    requires l.hintBits <= 32 && WellFormed(h, l) && At(d, pos, PrintTail(h, l))
    requires h0 == h.(sizeOverride := 0, orderHint := 0, primaryRef := 0, refresh := 0)
    ensures ParseTail(d, pos, h0, l) == Some(h)
  {
    hide At, BitAt, Read, ToBits;
    var f4 := Opt(ReadsRefresh(h.frameType, h.show), h.refresh, 8);
    var f3 := Opt(ReadsPrimaryRef(h.frameType, h.errorResilient), h.primaryRef, 3);
    var f2 := Opt(true, h.orderHint, l.hintBits);
    OptRead(d, pos, h.frameType != 2, 1, 0, h.sizeOverride, f2 + (f3 + f4));
    var p1 := pos + |Opt(h.frameType != 2, h.sizeOverride, 1)|;
    OptRead(d, p1, true, l.hintBits, 0, h.orderHint, f3 + f4);
    var p2 := p1 + |f2|;
    OptRead(d, p2, ReadsPrimaryRef(h.frameType, h.errorResilient), 3, 7, h.primaryRef, f4);
    assert f4 == f4 + [];
    Pow2Widths();
    OptRead(d, p2 + |f3|, ReadsRefresh(h.frameType, h.show), 8, 0xff, h.refresh, []);
  }

  /** The printed header is parsed back, whatever bytes follow it. */
  lemma ParseComplete(d: Span, h: Header, l: Layout)
    requires l.hintBits <= 32 && WellFormed(h, l) && At(d, 0, Print(h, l))
    ensures Parse(d, l) == Some(h)
  {
    hide At, BitAt, Read, ToBits, ParseTail, PrintTail;
    var f8 := PrintTail(h, l);
    var f7 := Opt(l.sct && h.allowSct != 0, h.forceMv, 1);
    var f6 := Opt(l.sct, h.allowSct, 1);
    var f5 := Opt(true, h.disableCdf, 1);
    var f4 := Opt(ReadsResilient(h.frameType, h.show), h.errorResilient, 1);
    var f3 := Opt(h.show == 0, h.showable, 1);
    var f2 := Opt(true, h.show, 1);
    var f1 := Opt(true, h.frameType, 2);
    OptRead(d, 0, true, 1, 0, 0, f1 + (f2 + (f3 + (f4 + (f5 + (f6 + (f7 + f8)))))));
    OptRead(d, 1, true, 2, 0, h.frameType, f2 + (f3 + (f4 + (f5 + (f6 + (f7 + f8))))));
    OptRead(d, 3, true, 1, 0, h.show, f3 + (f4 + (f5 + (f6 + (f7 + f8)))));
    OptRead(d, 4, h.show == 0, 1, 0, h.showable, f4 + (f5 + (f6 + (f7 + f8))));
    var p3 := 4 + |f3|;
    OptRead(d, p3, ReadsResilient(h.frameType, h.show), 1, 1, h.errorResilient, f5 + (f6 + (f7 + f8)));
    var p4 := p3 + |f4|;
    OptRead(d, p4, true, 1, 0, h.disableCdf, f6 + (f7 + f8));
    var p5 := p4 + |f5|;
    OptRead(d, p5, l.sct, 1, 0, h.allowSct, f7 + f8);
    var p6 := p5 + |f6|;
    OptRead(d, p6, l.sct && h.allowSct != 0, 1, 0, h.forceMv, f8);
    ParseTailComplete(d, p6 + |f7|, h, h.(sizeOverride := 0, orderHint := 0, primaryRef := 0, refresh := 0), l);
  }

  lemma ParseTailSound(d: Span, pos: nat, h0: Header, l: Layout)
    requires l.hintBits <= 32 && (pos <= 8 * |d| || pos == OVERRUN) && ParseTail(d, pos, h0, l).Some?
    ensures var h := ParseTail(d, pos, h0, l).value;
            && pos != OVERRUN && At(d, pos, PrintTail(h, l))
            && h == h0.(sizeOverride := h.sizeOverride, orderHint := h.orderHint,
                        primaryRef := h.primaryRef, refresh := h.refresh)
            && (if h.frameType != 2 then h.sizeOverride < 2 else h.sizeOverride == 0)
            && h.orderHint < Pow2(l.hintBits)
            && (if ReadsPrimaryRef(h.frameType, h.errorResilient) then h.primaryRef < 8 else h.primaryRef == 7)
            && (if ReadsRefresh(h.frameType, h.show) then h.refresh < 256 else h.refresh == 0xff)
  {
    hide At, BitAt, Read, ToBits, Pow2;
    var h := ParseTail(d, pos, h0, l).value;
    OptExact(d, pos, h0.frameType != 2, 1, 0);
    var p1 := ReadOpt(d, pos, h0.frameType != 2, 1, 0).1;
    OptExact(d, p1, true, l.hintBits, 0);
    var p2 := Read(d, p1, l.hintBits).1;
    OptExact(d, p2, ReadsPrimaryRef(h0.frameType, h0.errorResilient), 3, 7);
    var p3 := ReadOpt(d, p2, ReadsPrimaryRef(h0.frameType, h0.errorResilient), 3, 7).1;
    OptExact(d, p3, ReadsRefresh(h0.frameType, h0.show), 8, 0xff);
    Pow2Widths();
    var f4 := Opt(ReadsRefresh(h.frameType, h.show), h.refresh, 8);
    var f3 := Opt(ReadsPrimaryRef(h.frameType, h.errorResilient), h.primaryRef, 3);
    var f2 := Opt(true, h.orderHint, l.hintBits);
    AtSplit(d, p2, f3, f4);
    AtSplit(d, p1, f2, f3 + f4);
    AtSplit(d, pos, Opt(h.frameType != 2, h.sizeOverride, 1), f2 + (f3 + f4));
  }

  /** What the parser accepts really is a printed header at the front of the payload. */
  lemma ParseSound(d: Span, l: Layout)
    requires l.hintBits <= 32 && Parse(d, l).Some?
    ensures WellFormed(Parse(d, l).value, l) && At(d, 0, Print(Parse(d, l).value, l))
  {
    hide At, BitAt, Read, ToBits, ParseTail, Print, PrintTail;
    var h := Parse(d, l).value;
    OptExact(d, 0, true, 1, 0);
    var (existing, p0) := Read(d, 0, 1);
    OptExact(d, p0, true, 2, 0);
    var (frameType, p1) := Read(d, p0, 2);
    OptExact(d, p1, true, 1, 0);
    var (show, p2) := Read(d, p1, 1);
    OptExact(d, p2, show == 0, 1, 0);
    var (showable, p3) := ReadOpt(d, p2, show == 0, 1, 0);
    OptExact(d, p3, ReadsResilient(frameType, show), 1, 1);
    var (errorResilient, p4) := ReadOpt(d, p3, ReadsResilient(frameType, show), 1, 1);
    OptExact(d, p4, true, 1, 0);
    var (disableCdf, p5) := Read(d, p4, 1);
    OptExact(d, p5, l.sct, 1, 0);
    var (allowSct, p6) := ReadOpt(d, p5, l.sct, 1, 0);
    OptExact(d, p6, l.sct && allowSct != 0, 1, 0);
    var (forceMv, p7) := ReadOpt(d, p6, l.sct && allowSct != 0, 1, 0);
    ParseTailSound(d, p7,
      Header(frameType, show, showable, errorResilient, disableCdf, allowSct, forceMv, 0, 0, 0, 0), l);
    JoinHeader(d, h, l, p0, p1, p2, p3, p4, p5, p6, p7);
  }

  /** The fields stand one after the other, so the whole header stands at the front. */
  lemma JoinHeader(d: Span, h: Header, l: Layout,
                   p0: nat, p1: nat, p2: nat, p3: nat, p4: nat, p5: nat, p6: nat, p7: nat)
    requires At(d, 0, Opt(true, 0, 1)) && p0 == 1
    requires At(d, p0, Opt(true, h.frameType, 2)) && p1 == p0 + 2
    requires At(d, p1, Opt(true, h.show, 1)) && p2 == p1 + 1
    requires At(d, p2, Opt(h.show == 0, h.showable, 1)) && p3 == p2 + |Opt(h.show == 0, h.showable, 1)|
    requires At(d, p3, Opt(ReadsResilient(h.frameType, h.show), h.errorResilient, 1))
    requires p4 == p3 + |Opt(ReadsResilient(h.frameType, h.show), h.errorResilient, 1)|
    requires At(d, p4, Opt(true, h.disableCdf, 1)) && p5 == p4 + 1
    requires At(d, p5, Opt(l.sct, h.allowSct, 1)) && p6 == p5 + |Opt(l.sct, h.allowSct, 1)|
    requires At(d, p6, Opt(l.sct && h.allowSct != 0, h.forceMv, 1))
    requires p7 == p6 + |Opt(l.sct && h.allowSct != 0, h.forceMv, 1)|
    requires At(d, p7, PrintTail(h, l))
    ensures At(d, 0, Print(h, l))
  {
    hide At, BitAt, ToBits, PrintTail;
    var f8 := PrintTail(h, l);
    var f7 := Opt(l.sct && h.allowSct != 0, h.forceMv, 1);
    var f6 := Opt(l.sct, h.allowSct, 1);
    var f5 := Opt(true, h.disableCdf, 1);
    var f4 := Opt(ReadsResilient(h.frameType, h.show), h.errorResilient, 1);
    var f3 := Opt(h.show == 0, h.showable, 1);
    var f2 := Opt(true, h.show, 1);
    var f1 := Opt(true, h.frameType, 2);
    AtSplit(d, p6, f7, f8);
    AtSplit(d, p5, f6, f7 + f8);
    AtSplit(d, p4, f5, f6 + (f7 + f8));
    AtSplit(d, p3, f4, f5 + (f6 + (f7 + f8)));
    AtSplit(d, p2, f3, f4 + (f5 + (f6 + (f7 + f8))));
    AtSplit(d, p1, f2, f3 + (f4 + (f5 + (f6 + (f7 + f8)))));
    AtSplit(d, p0, f1, f2 + (f3 + (f4 + (f5 + (f6 + (f7 + f8))))));
    AtSplit(d, 0, Opt(true, 0, 1), f1 + (f2 + (f3 + (f4 + (f5 + (f6 + (f7 + f8)))))));
  }

  /** Main result: parsing is the exact inverse of printing, for both layouts and any payload. */
  lemma ParseInverse(d: Span, h: Header, l: Layout)
    requires l.hintBits <= 32
    ensures Parse(d, l) == Some(h) <==> WellFormed(h, l) && At(d, 0, Print(h, l))
  {
    if Parse(d, l) == Some(h) {
      ParseSound(d, l);
    }
    if WellFormed(h, l) && At(d, 0, Print(h, l)) {
      ParseComplete(d, h, l);
    }
  }
}
