/**
 Ancillary data, bits/socket.h: the alignment macros and the walk over a control buffer, for an
 eight-byte `size_t`, a four-byte `socklen_t` and little-endian fields.  The interface is that of
 section 20 of RFC 3542.
 */
module Cmsg {
  import opened Options

  type Byte = x: nat | x < 256

  const WORD: nat := 8
  const HEADER: nat := 12

  // ---------- The macros ----------

  /** CMSG_ALIGN; masking with the complement of seven drops the remainder by eight. */
  function Align(len: nat): nat {
    (len + WORD - 1) - (len + WORD - 1) % WORD
  }

  /** __CMSG_PADDING; masking with seven is the remainder by eight. */
  function Padding(len: nat): nat {
    (WORD - len % WORD) % WORD
  }

  function Space(len: nat): nat {
    Align(len) + Align(HEADER)
  }

  function Len(len: nat): nat {
    Align(HEADER) + len
  }

  /** CMSG_ALIGN rounds up to the next multiple of the word, and the other macros agree with it. */
  lemma Aligns(len: nat)
    ensures Align(len) % 8 == 0 && len <= Align(len) < len + 8
    ensures len + Padding(len) == Align(len)
    ensures Space(len) == Align(Len(len)) && Space(len) % 8 == 0 && Len(len) == 16 + len
  {
    var q, r := len / WORD, len % WORD;
    assert len == WORD * q + r;
    assert Align(len) == if r == 0 then len else WORD * (q + 1) by {
      assert (len + 7) % 8 == if r == 0 then 7 else r - 1;
    }
    assert (Len(len) + 7) % 8 == (len + 7) % 8;
  }

  // ---------- The walk ----------

  function U32(s: seq<Byte>): (n: nat)
    requires |s| == 4
    ensures n < 0x1_0000_0000
  {
    s[0] as int + 0x100 * (s[1] as int) + 0x1_0000 * (s[2] as int) + 0x100_0000 * (s[3] as int)
  }

  /** The field `cmsg_len` of the header at `off`. */
  function LenAt(b: seq<Byte>, off: nat): nat
    requires off + HEADER <= |b|
  {
    U32(b[off..off + 4])
  }

  /** CMSG_FIRSTHDR: `n` is `msg_controllen`. */
  function FirstHdr(n: nat): Option<nat> {
    if n >= HEADER then Some(0) else None
  }

  /** __cmsg_nxthdr, in offsets; `n` is `msg_controllen`. */
  function NextHdr(b: seq<Byte>, n: nat, off: nat): Option<nat>
    requires off + HEADER <= n <= |b|
  {
    var len := LenAt(b, off);
    var needed := HEADER + Padding(len);
    if len < HEADER then None
    else if n - off < needed || n - off - needed < len then None
    else Some(off + Align(len))
  }

  /** A header is returned exactly when it and the whole message before it fit. */
  lemma NextHdrFits(b: seq<Byte>, n: nat, off: nat)
    requires off + HEADER <= n <= |b|
    ensures var len := LenAt(b, off);
      NextHdr(b, n, off) ==
        if len >= 12 && off + Align(len) + 12 <= n then Some(off + Align(len)) else None
    ensures LenAt(b, off) >= HEADER ==> Align(LenAt(b, off)) >= 16
  {
    Aligns(LenAt(b, off));
  }

  /** The offsets of the headers a loop over CMSG_FIRSTHDR and CMSG_NXTHDR visits. */
  function Walk(b: seq<Byte>, n: nat): seq<nat>
    requires n <= |b|
  {
    if FirstHdr(n).None? then [] else WalkFrom(b, n, FirstHdr(n).value)
  }

  function WalkFrom(b: seq<Byte>, n: nat, off: nat): seq<nat>
    requires off + HEADER <= n <= |b|
    decreases n - off
  {
    NextHdrFits(b, n, off);
    var next := NextHdr(b, n, off);
    if next.None? then [off] else [off] + WalkFrom(b, n, next.value)
  }

  /** Every header lies in the buffer, aligned, and starts where the message before it ends. */
  predicate Chained(b: seq<Byte>, n: nat, w: seq<nat>)
    requires n <= |b|
  {
    && (forall i :: 0 <= i < |w| ==> w[i] + HEADER <= n && w[i] % WORD == 0)
    && (forall i :: 0 <= i < |w| - 1 ==> LenAt(b, w[i]) >= HEADER && w[i + 1] == w[i] + Align(LenAt(b, w[i])))
  }

  lemma ChainedMore(b: seq<Byte>, n: nat, off: nat, w: seq<nat>)
    requires n <= |b| && off + HEADER <= n && off % WORD == 0 && LenAt(b, off) >= HEADER
    requires w != [] && w[0] == off + Align(LenAt(b, off)) && Chained(b, n, w)
    ensures Chained(b, n, [off] + w)
  {
    hide Align;
    hide LenAt;
    var v := [off] + w;
    forall i | 0 <= i < |v| - 1 ensures LenAt(b, v[i]) >= HEADER && v[i + 1] == v[i] + Align(LenAt(b, v[i])) {
      if i > 0 {
        assert v[i] == w[i - 1] && v[i + 1] == w[i - 1 + 1];
      }
    }
  }

  lemma AlignedSum(off: nat, step: nat)
    requires off % WORD == 0 && step % WORD == 0
    ensures (off + step) % WORD == 0
  {
  }

  lemma {:induction false} WalkFromSafe(b: seq<Byte>, n: nat, off: nat)
    requires off + HEADER <= n <= |b| && off % WORD == 0
    ensures var w := WalkFrom(b, n, off);
      && w != [] && w[0] == off
      && Chained(b, n, w)
      && 16 * (|w| - 1) + HEADER <= n - off
    decreases n - off
  {
    hide NextHdr;
    hide Align;
    hide LenAt;
    NextHdrFits(b, n, off);
    var next := NextHdr(b, n, off);
    if next.Some? {
      Aligns(LenAt(b, off));
      AlignedSum(off, Align(LenAt(b, off)));
      WalkFromSafe(b, n, next.value);
      ChainedMore(b, n, off, WalkFrom(b, n, next.value));
    }
  }

  /**
   Whatever the buffer holds, every header visited lies in the buffer at an aligned offset, each one
   starts where the message before it ends, and there is at most one header for each sixteen bytes.
   */
  lemma WalkSafe(b: seq<Byte>, n: nat)
    requires n <= |b|
    ensures Chained(b, n, Walk(b, n))
    ensures var w := Walk(b, n); (w == [] <==> n < 12) && (w != [] ==> w[0] == 0) && 16 * |w| <= n + 4
  {
    if n >= HEADER {
      WalkFromSafe(b, n, 0);
    }
  }

  function Last(w: seq<nat>): nat
    requires w != []
  {
    w[|w| - 1]
  }

  /** The walk goes on as long as it can: it ends at a malformed header or for want of space. */
  lemma {:induction false} WalkEnds(b: seq<Byte>, n: nat, off: nat)
    requires off + HEADER <= n <= |b|
    ensures WalkFrom(b, n, off) != [] && Last(WalkFrom(b, n, off)) + HEADER <= n
    ensures var last := Last(WalkFrom(b, n, off));
      LenAt(b, last) < HEADER || n < last + Align(LenAt(b, last)) + HEADER
    decreases n - off
  {
    NextHdrFits(b, n, off);
    var next := NextHdr(b, n, off);
    if next.Some? {
      WalkEnds(b, n, next.value);
    }
  }

  // ---------- Laying messages out ----------

  datatype Message = Message(level: nat, kind: nat, data: seq<Byte>)

  predicate Fits(m: Message) {
    m.level < 0x1_0000_0000 && m.kind < 0x1_0000_0000 && Len(|m.data|) < 0x1_0000_0000
  }

  function LE(n: nat): (s: seq<Byte>)
    requires n < 0x1_0000_0000
    ensures |s| == 4
  {
    [n % 0x100, n / 0x100 % 0x100, n / 0x1_0000 % 0x100, n / 0x100_0000]
  }

  lemma U32OfLE(n: nat)
    requires n < 0x1_0000_0000
    ensures U32(LE(n)) == n
  {
    assert n / 0x1_0000 == n / 0x100 / 0x100;
    assert n / 0x100_0000 == n / 0x100 / 0x100 / 0x100;
  }

  function Zeros(n: nat): (s: seq<Byte>)
    ensures |s| == n
  {
    seq(n, _ => 0)
  }

  /** A header with the length CMSG_LEN gives, the data at CMSG_DATA, padded to CMSG_SPACE. */
  function MessageBytes(m: Message): (s: seq<Byte>)
    requires Fits(m)
    ensures |s| == Space(|m.data|)
  {
    Aligns(|m.data|);
    LE(Len(|m.data|)) + (LE(m.level) + (LE(m.kind) + (Zeros(4) + (m.data + Zeros(Padding(|m.data|))))))
  }

  predicate AllFit(ms: seq<Message>) {
    forall i :: 0 <= i < |ms| ==> Fits(ms[i])
  }

  function Layout(ms: seq<Message>): seq<Byte>
    requires AllFit(ms)
  {
    if ms == [] then [] else MessageBytes(ms[0]) + Layout(ms[1..])
  }

  /** Where the headers start when the first one is at `off`. */
  function Offsets(ms: seq<Message>, off: nat): (w: seq<nat>)
    ensures |w| == |ms|
  {
    if ms == [] then [] else [off] + Offsets(ms[1..], off + Space(|ms[0].data|))
  }

  /** The message at `off`: the data runs from CMSG_DATA to the end that `cmsg_len` gives. */
  function MessageAt(b: seq<Byte>, off: nat): Option<Message>
    requires off + HEADER <= |b|
  {
    var len := LenAt(b, off);
    if len < Len(0) || off + len > |b| then None
    else Some(Message(U32(b[off + 4..off + 8]), U32(b[off + 8..off + 12]), b[off + Len(0)..off + len]))
  }

  lemma Middle(a: seq<Byte>, x: seq<Byte>, c: seq<Byte>)
    ensures (a + (x + c))[|a|..|a| + |x|] == x
  {
  }

  lemma Shift(a: seq<Byte>, x: seq<Byte>, c: seq<Byte>)
    ensures a + (x + c) == (a + x) + c
  {
  }

  /** A message can be read back from wherever it stands. */
  lemma MessageBack(pre: seq<Byte>, m: Message, post: seq<Byte>)
    requires Fits(m)
    ensures var b := pre + (MessageBytes(m) + post);
      && LenAt(b, |pre|) == Len(|m.data|) && MessageAt(b, |pre|) == Some(m)
      && U32(b[|pre|..|pre| + 4]) == 16 + |m.data|
      && U32(b[|pre| + 4..|pre| + 8]) == m.level && U32(b[|pre| + 8..|pre| + 12]) == m.kind
      && b[|pre| + 16..|pre| + 16 + |m.data|] == m.data
  {
    hide LE;
    hide U32;
    hide Zeros;
    var pad := Zeros(Padding(|m.data|));
    var r3 := m.data + (pad + post);
    var r2 := LE(m.kind) + (Zeros(4) + r3);
    var r1 := LE(m.level) + r2;
    var b := pre + (LE(Len(|m.data|)) + r1);
    Flatten(pre, LE(Len(|m.data|)), LE(m.level), LE(m.kind), Zeros(4), m.data, pad, post);
    Middle(pre, LE(Len(|m.data|)), r1);
    U32OfLE(Len(|m.data|));
    var p1 := pre + LE(Len(|m.data|));
    Shift(pre, LE(Len(|m.data|)), r1);
    Middle(p1, LE(m.level), r2);
    U32OfLE(m.level);
    var p2 := p1 + LE(m.level);
    Shift(p1, LE(m.level), r2);
    Middle(p2, LE(m.kind), Zeros(4) + r3);
    U32OfLE(m.kind);
    var p3 := (p2 + LE(m.kind)) + Zeros(4);
    Shift(p2, LE(m.kind), Zeros(4) + r3);
    Shift(p2 + LE(m.kind), Zeros(4), r3);
    Middle(p3, m.data, pad + post);
  }

  lemma Flatten(a: seq<Byte>, b: seq<Byte>, c: seq<Byte>, d: seq<Byte>, e: seq<Byte>, f: seq<Byte>, g: seq<Byte>,
                h: seq<Byte>)
    ensures a + ((b + (c + (d + (e + (f + g))))) + h) == a + (b + (c + (d + (e + (f + (g + h))))))
  {
    assert (b + (c + (d + (e + (f + g))))) + h == b + (c + (d + (e + (f + (g + h)))));
  }

  /** The control lengths for which the walk is right, when the first header is at `off`. */
  predicate RightLength(ms: seq<Message>, off: nat, n: nat)
    requires AllFit(ms)
  {
    (ms != [] ==> Last(Offsets(ms, off)) + HEADER <= n) && n < off + |Layout(ms)| + HEADER
  }

  lemma LayoutFirst(pre: seq<Byte>, ms: seq<Message>, post: seq<Byte>)
    requires ms != [] && AllFit(ms)
    ensures var first := MessageBytes(ms[0]); var rest := Layout(ms[1..]);
      && |Layout(ms)| == |first| + |rest|
      && pre + (Layout(ms) + post) == pre + (first + (rest + post)) == (pre + first) + (rest + post)
  {
    hide MessageBytes;
    var first, rest := MessageBytes(ms[0]), Layout(ms[1..]);
    assert (first + rest) + post == first + (rest + post);
    Shift(pre, first, rest + post);
  }

  /** From a laid-out message the walk goes to the end of its CMSG_SPACE. */
  lemma LayoutStep(pre: seq<Byte>, m: Message, post: seq<Byte>, n: nat)
    requires Fits(m) && |pre| + HEADER <= n <= |pre + (MessageBytes(m) + post)|
    ensures NextHdr(pre + (MessageBytes(m) + post), n, |pre|) ==
      var next := |pre| + Space(|m.data|); if next + HEADER <= n then Some(next) else None
  {
    hide MessageBytes;
    hide MessageAt;
    hide LenAt;
    hide NextHdr;
    MessageBack(pre, m, post);
    Aligns(|m.data|);
    NextHdrFits(pre + (MessageBytes(m) + post), n, |pre|);
  }

  lemma LastOffset(ms: seq<Message>, off: nat)
    requires ms != []
    ensures Last(Offsets(ms, off)) == if |ms| == 1 then off else Last(Offsets(ms[1..], off + Space(|ms[0].data|)))
  {
  }

  lemma {:induction false} WalkLayout(pre: seq<Byte>, ms: seq<Message>, post: seq<Byte>, n: nat)
    requires ms != [] && AllFit(ms) && |pre| + HEADER <= n
    requires n <= |pre + (Layout(ms) + post)|
    ensures WalkFrom(pre + (Layout(ms) + post), n, |pre|) == Offsets(ms, |pre|) <==> RightLength(ms, |pre|, n)
    decreases |ms|
  {
    hide MessageBytes;
    hide NextHdr;
    hide Layout;
    hide Last;
    hide Space;
    hide Fits;
    var m := ms[0];
    var b := pre + (Layout(ms) + post);
    var rest := Layout(ms[1..]);
    var next := |pre| + Space(|m.data|);
    LayoutFirst(pre, ms, post);
    LayoutStep(pre, m, rest + post, n);
    LastOffset(ms, |pre|);
    if |ms| == 1 {
      OneLeft(ms);
    } else if next + HEADER <= n {
      WalkLayout(pre + MessageBytes(m), ms[1..], post, n);
      SameTail(|pre|, WalkFrom(b, n, next), Offsets(ms[1..], next));
    } else {
      OffsetsStart(ms[1..], next);
    }
  }

  lemma SameTail(off: nat, v: seq<nat>, w: seq<nat>)
    ensures [off] + v == [off] + w <==> v == w
  {
    assert ([off] + v)[1..] == v && ([off] + w)[1..] == w;
  }

  lemma OneLeft(ms: seq<Message>)
    requires |ms| == 1
    ensures Layout(ms[1..]) == []
  {
  }

  lemma {:induction false} OffsetsStart(ms: seq<Message>, off: nat)
    requires ms != []
    ensures Last(Offsets(ms, off)) >= off
    decreases |ms|
  {
    if |ms| > 1 {
      OffsetsStart(ms[1..], off + Space(|ms[0].data|));
      assert Last(Offsets(ms, off)) == Last(Offsets(ms[1..], off + Space(|ms[0].data|)));
    }
  }

  lemma {:induction false} LayoutBack(pre: seq<Byte>, ms: seq<Message>, post: seq<Byte>, i: nat)
    requires AllFit(ms) && i < |ms|
    ensures var b := pre + (Layout(ms) + post); var off := Offsets(ms, |pre|)[i];
      off + HEADER <= |b| && MessageAt(b, off) == Some(ms[i])
    decreases |ms|
  {
    hide MessageBytes;
    hide MessageAt;
    hide Layout;
    hide Fits;
    LayoutFirst(pre, ms, post);
    if i == 0 {
      MessageBack(pre, ms[0], Layout(ms[1..]) + post);
    } else {
      LayoutBack(pre + MessageBytes(ms[0]), ms[1..], post, i - 1);
    }
  }

  /**
   A buffer laid out with the macros and followed by anything is walked back to exactly its
   messages, if and only if the control length reaches past the last header and not past a further one.
   */
  lemma RoundTrip(ms: seq<Message>, post: seq<Byte>, n: nat)
    requires AllFit(ms) && n <= |Layout(ms) + post|
    ensures var b := Layout(ms) + post;
      && (Walk(b, n) == Offsets(ms, 0) <==> RightLength(ms, 0, n))
      && (forall i :: 0 <= i < |ms| ==> var off := Offsets(ms, 0)[i];
                                        off + HEADER <= |b| && MessageAt(b, off) == Some(ms[i]))
  {
    var b := Layout(ms) + post;
    assert [] + b == b;
    forall i | 0 <= i < |ms|
      ensures var off := Offsets(ms, 0)[i]; off + HEADER <= |b| && MessageAt(b, off) == Some(ms[i])
    {
      LayoutBack([], ms, post, i);
    }
    if n >= HEADER && ms != [] {
      WalkLayout([], ms, post, n);
    } else if ms != [] {
      OffsetsStart(ms, 0);
    } else if n >= HEADER {
      assert Walk(b, n) != [];
    }
  }

  /** The length a sender passes, the sum of the CMSG_SPACE sizes, is always right. */
  lemma {:induction false} SumIsRight(ms: seq<Message>, off: nat)
    requires AllFit(ms)
    ensures RightLength(ms, off, off + |Layout(ms)|)
    decreases |ms|
  {
    if ms != [] {
      var next := off + Space(|ms[0].data|);
      SumIsRight(ms[1..], next);
      if |ms| > 1 {
        assert Last(Offsets(ms, off)) == Last(Offsets(ms[1..], next));
      }
    }
  }
}
