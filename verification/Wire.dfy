/** The wire format: little-endian headers of 24 bytes, several segments to a datagram. */
module WireFormat {
  import opened Words
  import opened Protocol
  import Seqs

  /** The n low-order bytes of x, least significant first. */
  function Le(x: int, n: nat): (b: seq<byte>)
    ensures |b| == n
    decreases n
  {
    if n == 0 then [] else [x % 256] + Le(x / 256, n - 1)
  }

  /** The number that little-endian bytes stand for. */
  function Value(b: seq<byte>): (x: int)
    ensures 0 <= x
  {
    if b == [] then 0 else b[0] as int + 256 * Value(b[1..])
  }

  function Get16(b: seq<byte>, i: nat): (x: int)
    requires i + 2 <= |b|
  {
    Value(b[i..i + 2])
  }

  function Get32(b: seq<byte>, i: nat): (x: int)
    requires i + 4 <= |b|
  {
    Value(b[i..i + 4])
  }

  /** ikcp_encode_seg. */
  function Header(conv: int, w: Wire): (b: seq<byte>)
    ensures |b| == OVERHEAD
  {
    Le(conv, 4) + Le(w.cmd, 1) + Le(w.frg, 1) + Le(w.wnd, 2)
    + Le(w.ts, 4) + Le(w.sn, 4) + Le(w.una, 4) + Le(|w.data|, 4)
  }

  function EncodeSeg(conv: int, w: Wire): (b: seq<byte>)
    ensures |b| == OVERHEAD + |w.data|
  {
    Header(conv, w) + w.data
  }

  function Encode(conv: int, d: Datagram): (b: seq<byte>)
    ensures |b| == Size(d)
  {
    if d == [] then [] else Encode(conv, d[..|d| - 1]) + EncodeSeg(conv, d[|d| - 1])
  }

  /** The segments ikcp_input processes, and its return value if it stops early (else 0). */
  datatype Decoded = Decoded(segs: Datagram, status: int)

  function HeaderWire(b: seq<byte>, data: seq<byte>): (w: Wire)
    requires |b| >= OVERHEAD
  {
    Wire(b[4], b[5], Get16(b, 6), Get32(b, 8), Get32(b, 12), Get32(b, 16), data)
  }

  predicate KnownCmd(cmd: int) {
    cmd == PUSH || cmd == ACK || cmd == WASK || cmd == WINS
  }

  function Decode(conv: int, b: seq<byte>): (r: Decoded)
    decreases |b|
  {
    if |b| < OVERHEAD then Decoded([], 0)
    else if Get32(b, 0) != conv then Decoded([], -1)
    else
      var len := Get32(b, 20);
      if |b| - OVERHEAD < len || Signed(len) < 0 then Decoded([], -2)
      else if !KnownCmd(b[4]) then Decoded([], -3)
      else
        var rest := Decode(conv, b[OVERHEAD + len..]);
        Decoded([HeaderWire(b, b[OVERHEAD..OVERHEAD + len])] + rest.segs, rest.status)
  }

  /** ikcp_input on raw bytes: new state and return value. */
  function InputBytes(cfg: Config, k: Ctl, b: seq<byte>): (r: (Ctl, int)) {
    if |b| < OVERHEAD then (k, -1)
    else
      var p := Decode(cfg.conv, b);
      var s := InputSegs(Mod32, cfg, Scan(k, false, 0), p.segs);
      if p.status != 0 then (s.k, p.status) else (InputTail(Mod32, cfg, k.snd.una, s), 0)
  }

  // ----- round trip ----------------------------------------------------------------------

  /** Segments whose fields fit their places in the header. */
  ghost predicate WireOk(w: Wire) {
    && KnownCmd(w.cmd) && 0 <= w.frg < 256 && 0 <= w.wnd < 65536
    && 0 <= w.ts < 0x1_0000_0000 && 0 <= w.sn < 0x1_0000_0000 && 0 <= w.una < 0x1_0000_0000
    && |w.data| < 0x8000_0000
  }

  lemma ValueLe1(x: int)
    requires 0 <= x < 256
    ensures Value(Le(x, 1)) == x
  {
    assert Le(x, 1)[1..] == [];
  }

  lemma ValueStep(x: int, n: nat)
    requires n > 0 && Value(Le(x / 256, n - 1)) == x / 256
    ensures Value(Le(x, n)) == x
  {
    assert Le(x, n)[1..] == Le(x / 256, n - 1);
  }

  lemma ValueLe2(x: int)
    requires 0 <= x < 65536
    ensures Value(Le(x, 2)) == x
  {
    ValueLe1(x / 256);
    ValueStep(x, 2);
  }

  lemma ValueLe4(x: int)
    requires 0 <= x < 0x1_0000_0000
    ensures Value(Le(x, 4)) == x
  {
    ValueLe2(x / 256 / 256);
    ValueStep(x / 256, 3);
    ValueStep(x, 4);
  }

  /** Where the parts of a concatenation of a header's field widths lie. */
  lemma Slices(a: seq<byte>, b: seq<byte>, c: seq<byte>, d: seq<byte>, e: seq<byte>, f: seq<byte>, g: seq<byte>, h: seq<byte>)
    requires |a| == 4 && |b| == 1 && |c| == 1 && |d| == 2 && |e| == 4 && |f| == 4 && |g| == 4 && |h| == 4
    ensures var s := a + b + c + d + e + f + g + h;
            && s[0..4] == a && s[4..5] == b && s[5..6] == c && s[6..8] == d
            && s[8..12] == e && s[12..16] == f && s[16..20] == g && s[20..24] == h
  {
  }

  /** h begins with a header that announces w. */
  ghost predicate Announces(h: seq<byte>, conv: int, w: Wire) {
    && |h| >= OVERHEAD && Get32(h, 0) == conv && Get32(h, 20) == |w.data| && h[4] as int == w.cmd
    && HeaderWire(h, w.data) == w
  }

  lemma HeaderGet(conv: u32, w: Wire)
    requires WireOk(w)
    ensures Announces(Header(conv, w), conv, w)
  {
    Slices(Le(conv, 4), Le(w.cmd, 1), Le(w.frg, 1), Le(w.wnd, 2), Le(w.ts, 4), Le(w.sn, 4), Le(w.una, 4), Le(|w.data|, 4));
    ValueLe4(conv);
    ValueLe1(w.cmd);
    ValueLe1(w.frg);
    ValueLe2(w.wnd);
    ValueLe4(w.ts);
    ValueLe4(w.sn);
    ValueLe4(w.una);
    ValueLe4(|w.data|);
    AnnouncesSlices(Header(conv, w), conv, w);
  }

  lemma AnnouncesSlices(h: seq<byte>, conv: int, w: Wire)
    requires |h| == OVERHEAD && Value(h[0..4]) == conv && Value(h[4..5]) == w.cmd && Value(h[5..6]) == w.frg
    requires Value(h[6..8]) == w.wnd && Value(h[8..12]) == w.ts && Value(h[12..16]) == w.sn
    requires Value(h[16..20]) == w.una && Value(h[20..24]) == |w.data|
    ensures Announces(h, conv, w)
  {
    assert h[4..5] == [h[4]] && h[5..6] == [h[5]];
  }

  lemma AnnouncesMore(h: seq<byte>, conv: int, w: Wire, rest: seq<byte>)
    requires Announces(h, conv, w)
    ensures Announces(h + rest, conv, w)
  {
    var b := h + rest;
    assert b[0..4] == h[0..4] && b[6..8] == h[6..8] && b[8..12] == h[8..12];
    assert b[12..16] == h[12..16] && b[16..20] == h[16..20] && b[20..24] == h[20..24];
  }

  lemma DecodeHead(conv: int, b: seq<byte>, w: Wire)
    requires WireOk(w) && |b| >= OVERHEAD + |w.data| && Announces(b, conv, w)
    requires b[OVERHEAD..OVERHEAD + |w.data|] == w.data
    ensures var rest := Decode(conv, b[OVERHEAD + |w.data|..]);
            Decode(conv, b) == Decoded([w] + rest.segs, rest.status)
  {
  }

  lemma DecodeOne(conv: u32, w: Wire, rest: seq<byte>)
    requires WireOk(w)
    ensures Decode(conv, EncodeSeg(conv, w) + rest) ==
            Decoded([w] + Decode(conv, rest).segs, Decode(conv, rest).status)
  {
    HeaderGet(conv, w);
    DecodeAfter(conv, Header(conv, w), w, rest);
  }

  lemma DecodeAfter(conv: u32, h: seq<byte>, w: Wire, rest: seq<byte>)
    requires WireOk(w) && |h| == OVERHEAD && Announces(h, conv, w)
    ensures Decode(conv, h + w.data + rest) ==
            Decoded([w] + Decode(conv, rest).segs, Decode(conv, rest).status)
  {
    var b := h + w.data + rest;
    assert b == h + (w.data + rest);
    AnnouncesMore(h, conv, w, w.data + rest);
    assert b[OVERHEAD..OVERHEAD + |w.data|] == w.data;
    assert b[OVERHEAD + |w.data|..] == rest;
    DecodeHead(conv, b, w);
  }

  lemma {:induction false} DecodeAppend(conv: u32, d: Datagram, rest: seq<byte>)
    requires forall w :: w in d ==> WireOk(w)
    ensures Decode(conv, Encode(conv, d) + rest) ==
            Decoded(d + Decode(conv, rest).segs, Decode(conv, rest).status)
    decreases |d|
  {
    if d == [] {
      assert Encode(conv, d) + rest == rest;
      assert d + Decode(conv, rest).segs == Decode(conv, rest).segs;
    } else {
      var front, w := d[..|d| - 1], d[|d| - 1];
      DecodeOne(conv, w, rest);
      DecodeAppend(conv, front, EncodeSeg(conv, w) + rest);
      Seqs.Assoc(Encode(conv, front), EncodeSeg(conv, w), rest);
      Seqs.Assoc(front, [w], Decode(conv, rest).segs);
      Seqs.SplitLast(d);
    }
  }

  /** Parsing an encoded datagram gives back its segments. */
  lemma DecodeEncode(conv: u32, d: Datagram)
    requires forall w :: w in d ==> WireOk(w)
    ensures Decode(conv, Encode(conv, d)) == Decoded(d, 0)
  {
    DecodeAppend(conv, d, []);
    assert Encode(conv, d) + [] == Encode(conv, d);
    assert d + [] == d;
  }

  /** A datagram of another conversation is refused before it changes anything. */
  lemma WrongConversation(cfg: Config, k: Ctl, d: Datagram, conv: u32)
    requires conv != cfg.conv && d != [] && forall w :: w in d ==> WireOk(w)
    ensures InputBytes(cfg, k, Encode(conv, d)) == (k, -1)
  {
    var b := Encode(conv, d);
    FirstHeader(conv, d);
  }

  lemma FourFirst(a: seq<byte>, b: seq<byte>)
    requires |a| >= 4
    ensures (a + b)[0..4] == a[0..4]
  {
  }

  lemma {:induction false} FirstHeader(conv: u32, d: Datagram)
    requires d != []
    ensures |Encode(conv, d)| >= OVERHEAD && Get32(Encode(conv, d), 0) == conv
  {
    var front, w := d[..|d| - 1], d[|d| - 1];
    if front == [] {
      assert Encode(conv, d) == EncodeSeg(conv, w);
      FourFirst(Header(conv, w), w.data);
      Slices(Le(conv, 4), Le(w.cmd, 1), Le(w.frg, 1), Le(w.wnd, 2), Le(w.ts, 4), Le(w.sn, 4), Le(w.una, 4), Le(|w.data|, 4));
      ValueLe4(conv);
    } else {
      FirstHeader(conv, front);
      FourFirst(Encode(conv, front), EncodeSeg(conv, w));
    }
  }

  /** On the bytes of a well-formed datagram, ikcp_input does what the protocol does on its segments. */
  lemma InputEncoded(cfg: Config, k: Ctl, d: Datagram)
    requires d != [] && forall w :: w in d ==> WireOk(w)
    ensures InputBytes(cfg, k, Encode(cfg.conv, d)) == (Input(Mod32, cfg, k, d), 0)
  {
    DecodeEncode(cfg.conv, d);
  }

  // ----- the layout ----------------------------------------------------------------------

  /** Four bytes as an unsigned number, least significant first. */
  function Word(b0: byte, b1: byte, b2: byte, b3: byte): (x: int) {
    b0 as int + 0x100 * b1 as int + 0x1_0000 * b2 as int + 0x100_0000 * b3 as int
  }

  lemma Get32Is(b: seq<byte>, i: nat)
    requires i + 4 <= |b|
    ensures Get32(b, i) == Word(b[i], b[i + 1], b[i + 2], b[i + 3])
  {
    var s := b[i..i + 4];
    assert s[1..][1..] == s[2..] && s[2..][1..] == s[3..] && s[3..][1..] == [];
    assert Value(s[3..]) == s[3] as int + 256 * Value([]);
    assert Value(s[2..]) == s[2] as int + 256 * Value(s[3..]);
    assert Value(s[1..]) == s[1] as int + 256 * Value(s[2..]);
  }

  lemma Get16Is(b: seq<byte>, i: nat)
    requires i + 2 <= |b|
    ensures Get16(b, i) == b[i] as int + 0x100 * b[i + 1] as int
  {
    var s := b[i..i + 2];
    assert s[1..][1..] == [];
    assert Value(s[1..]) == s[1] as int + 256 * Value([]);
  }

  /** A segment on the wire, byte by byte: conversation, command, fragment, window, timestamp, number, cumulative
      acknowledgement and length, least significant bytes first, and then the data. */
  lemma Layout(conv: u32, w: Wire)
    requires WireOk(w)
    ensures var b := EncodeSeg(conv, w);
            && |b| == 24 + |w.data|
            && Word(b[0], b[1], b[2], b[3]) == conv
            && b[4] == w.cmd && b[5] == w.frg
            && b[6] as int + 0x100 * b[7] as int == w.wnd
            && Word(b[8], b[9], b[10], b[11]) == w.ts
            && Word(b[12], b[13], b[14], b[15]) == w.sn
            && Word(b[16], b[17], b[18], b[19]) == w.una
            && Word(b[20], b[21], b[22], b[23]) == |w.data|
            && b[24..] == w.data
  {
    hide Header, Get32, Get16, Word, Announces, WireOk;
    var b := EncodeSeg(conv, w);
    HeaderGet(conv, w);
    AnnouncesMore(Header(conv, w), conv, w, w.data);
    Announced(b, conv, w);
    Get32Is(b, 0);
    Get16Is(b, 6);
    Get32Is(b, 8);
    Get32Is(b, 12);
    Get32Is(b, 16);
    Get32Is(b, 20);
  }

  lemma Announced(b: seq<byte>, conv: int, w: Wire)
    requires Announces(b, conv, w)
    ensures |b| >= 24 && Get32(b, 0) == conv && b[4] == w.cmd && b[5] == w.frg && Get16(b, 6) == w.wnd
    ensures Get32(b, 8) == w.ts && Get32(b, 12) == w.sn && Get32(b, 16) == w.una && Get32(b, 20) == |w.data|
  {
    hide Get32, Get16;
  }

  /** The commands of the protocol. */
  lemma Commands(w: Wire)
    ensures WireOk(w) ==> 81 <= w.cmd <= 84
  {
  }

  // ----- what does not parse -------------------------------------------------------------

  /** The return value of ikcp_input for what begins with these bytes, after any well-formed segments: less than a header
      ends the datagram; a foreign conversation, missing or too much data, and an unknown command end it with an error. */
  function Verdict(conv: int, b: seq<byte>): (status: int) {
    if |b| < 24 then 0
    else if Word(b[0], b[1], b[2], b[3]) != conv then -1
    else if Word(b[20], b[21], b[22], b[23]) > |b| - 24 || Word(b[20], b[21], b[22], b[23]) >= 0x8000_0000 then -2
    else if b[4] !in {81, 82, 83, 84} then -3
    else 1
  }

  lemma DecodeStops(conv: int, b: seq<byte>)
    requires Verdict(conv, b) != 1
    ensures Decode(conv, b) == Decoded([], Verdict(conv, b))
  {
    if |b| >= 24 {
      Get32Is(b, 0);
      Get32Is(b, 20);
    }
  }

  /** ikcp_input on a datagram that goes wrong somewhere: the segments before that are applied, the rest is not looked at,
      and neither the skips nor the congestion window are updated when there is an error. */
  lemma InputStops(cfg: Config, k: Ctl, d: Datagram, rest: seq<byte>)
    requires (forall w :: w in d ==> WireOk(w)) && Verdict(cfg.conv, rest) != 1 && |Encode(cfg.conv, d) + rest| >= 24
    ensures var s := InputSegs(Mod32, cfg, Scan(k, false, 0), d);
            InputBytes(cfg, k, Encode(cfg.conv, d) + rest) ==
            if Verdict(cfg.conv, rest) < 0 then (s.k, Verdict(cfg.conv, rest)) else (Input(Mod32, cfg, k, d), 0)
  {
    hide InputSegs, InputTail, Encode, Verdict, Decode;
    DecodeAppend(cfg.conv, d, rest);
    DecodeStops(cfg.conv, rest);
    assert d + [] == d;
    VerdictRange(cfg.conv, rest);
  }

  lemma VerdictRange(conv: int, b: seq<byte>)
    ensures -3 <= Verdict(conv, b) <= 1
  {
  }

  /** A datagram shorter than a header is refused. */
  lemma InputShort(cfg: Config, k: Ctl, b: seq<byte>)
    requires |b| < 24
    ensures InputBytes(cfg, k, b) == (k, -1)
  {
  }
}
