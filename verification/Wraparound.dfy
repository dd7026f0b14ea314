/**
 The 32-bit engine refines the unbounded protocol: as long as no datagram is delivered about
 2^31 numbers late, it takes the same branches and keeps the same state modulo 2^32.
 */
module Wraparound {
  import opened Words
  import opened Protocol
  import opened Safety
  import opened System
  import opened Datagrams
  import opened Seqs

  // ----- reduction modulo 2^32 -----------------------------------------------------------

  function OutW(s: OutSeg): (r: OutSeg) { s.(sn := Wrap(s.sn), una := Wrap(s.una)) }
  function InW(s: InSeg): (r: InSeg) { s.(sn := Wrap(s.sn)) }
  function AckW(a: Ack): (r: Ack) { a.(sn := Wrap(a.sn)) }
  function WireW(w: Wire): (r: Wire) { w.(sn := Wrap(w.sn), una := Wrap(w.una)) }
  function OutsW(b: seq<OutSeg>): (r: seq<OutSeg>)
    ensures |r| == |b| && forall i :: 0 <= i < |b| ==> r[i] == OutW(b[i])
  { Map(OutW, b) }
  function InsW(b: seq<InSeg>): (r: seq<InSeg>)
    ensures |r| == |b| && forall i :: 0 <= i < |b| ==> r[i] == InW(b[i])
  { Map(InW, b) }
  function AcksW(b: seq<Ack>): (r: seq<Ack>)
    ensures |r| == |b| && forall i :: 0 <= i < |b| ==> r[i] == AckW(b[i])
  { Map(AckW, b) }
  function DatagramW(d: Datagram): (r: Datagram)
    ensures |r| == |d| && forall i :: 0 <= i < |d| ==> r[i] == WireW(d[i])
  { Map(WireW, d) }
  function LogW(l: seq<Datagram>): (r: seq<Datagram>)
    ensures |r| == |l| && forall i :: 0 <= i < |l| ==> r[i] == DatagramW(l[i])
  { Map(DatagramW, l) }
  function SndW(s: Snd): (r: Snd) { s.(una := Wrap(s.una), nxt := Wrap(s.nxt), buf := OutsW(s.buf)) }
  function RcvW(r: Rcv): (r': Rcv) { r.(nxt := Wrap(r.nxt), buf := InsW(r.buf), queue := InsW(r.queue)) }
  function CtlW(k: Ctl): (r: Ctl) { k.(snd := SndW(k.snd), rcv := RcvW(k.rcv), acks := AcksW(k.acks)) }
  function ScanW(s: Scan): (r: Scan) { Scan(CtlW(s.k), s.flag, Wrap(s.maxack)) }
  function SysW(s: Sys): (r: Sys) { Sys(CtlW(s.x), CtlW(s.y), LogW(s.xy), LogW(s.yx)) }

  /** a and b compare alike as 32-bit numbers and as integers. */
  ghost predicate Near(a: int, b: int) {
    -0x8000_0000 <= a - b < 0x8000_0000
  }

  lemma NearSame(a: int, b: int)
    requires Near(a, b)
    ensures Diff(Mod32, Wrap(a), Wrap(b)) == a - b
    ensures Wrap(a) == Wrap(b) <==> a == b
  {
    DiffNear(a, b);
    WrapInjective(a, b);
  }

  // ----- sending half --------------------------------------------------------------------

  ghost predicate NearAll(n: int, buf: seq<OutSeg>) {
    forall i :: 0 <= i < |buf| ==> Near(n, buf[i].sn)
  }

  lemma {:induction false} DropW(buf: seq<OutSeg>, una: int)
    requires NearAll(una, buf)
    ensures DropBelow(Mod32, OutsW(buf), Wrap(una)) == OutsW(DropBelow(Exact, buf, una))
  {
    if buf != [] {
      NearSame(una, buf[0].sn);
      if una > buf[0].sn {
        DropW(buf[1..], una);
        assert OutsW(buf)[1..] == OutsW(buf[1..]);
      }
    }
  }

  lemma {:induction false} RemoveW(buf: seq<OutSeg>, sn: int)
    requires NearAll(sn, buf)
    ensures RemoveSn(Mod32, OutsW(buf), Wrap(sn)) == OutsW(RemoveSn(Exact, buf, sn))
  {
    if buf != [] {
      NearSame(sn, buf[0].sn);
      assert OutsW(buf)[1..] == OutsW(buf[1..]);
      if sn > buf[0].sn {
        RemoveW(buf[1..], sn);
      }
    }
  }

  lemma {:induction false} SkippedW(buf: seq<OutSeg>, sn: int)
    requires NearAll(sn, buf)
    ensures Skipped(Mod32, OutsW(buf), Wrap(sn)) == OutsW(Skipped(Exact, buf, sn))
  {
    if buf != [] {
      NearSame(sn, buf[0].sn);
      assert OutsW(buf)[1..] == OutsW(buf[1..]);
      if sn >= buf[0].sn {
        SkippedW(buf[1..], sn);
      }
    }
  }

  /** A number that a delivered segment may refer to: given out by s, and less than 2^31 ago. */
  ghost predicate Recent(n: int, s: Snd) {
    s.nxt - 0x8000_0000 <= n <= s.nxt
  }

  ghost predicate Windowed(s: Snd) {
    SndOk(s) && s.nxt - s.una < 0x8000_0000
  }

  lemma RecentNear(n: int, s: Snd)
    requires Windowed(s) && Recent(n, s)
    ensures NearAll(n, s.buf) && Near(n, s.una) && Near(n, s.nxt)
  {
    forall i | 0 <= i < |s.buf| ensures Near(n, s.buf[i].sn) {
      assert Numbered(s.buf[i], s.una, s.numbered);
    }
  }

  lemma InFlightW(s: Snd, sn: int)
    requires Windowed(s) && Recent(sn, s)
    ensures InFlight(Mod32, SndW(s), Wrap(sn)) <==> InFlight(Exact, s, sn)
  {
    RecentNear(sn, s);
    NearSame(sn, s.una);
    NearSame(sn, s.nxt);
  }

  lemma ShrinkW(s: Snd)
    ensures Shrink(SndW(s)) == SndW(Shrink(s))
  {
  }

  lemma UnaW(s: Snd, una: int)
    requires Windowed(s) && Recent(una, s)
    ensures Shrink(SndW(s).(buf := DropBelow(Mod32, SndW(s).buf, Wrap(una)))) ==
            SndW(Shrink(s.(buf := DropBelow(Exact, s.buf, una))))
  {
    RecentNear(una, s);
    DropW(s.buf, una);
    ShrinkW(s.(buf := DropBelow(Exact, s.buf, una)));
  }

  lemma AckedW(s: Snd, sn: int)
    requires Windowed(s) && Recent(sn, s)
    ensures Shrink(ParseAck(Mod32, SndW(s), Wrap(sn))) == SndW(Shrink(ParseAck(Exact, s, sn)))
  {
    InFlightW(s, sn);
    RecentNear(sn, s);
    RemoveW(s.buf, sn);
    ShrinkW(ParseAck(Exact, s, sn));
  }

  lemma SndInputW(s: Snd, w: Wire, r: Rcv)
    requires Windowed(s) && Recent(w.una, s) && (w.cmd == ACK ==> Recent(w.sn, s))
    requires BackOk(w, r)
    ensures SndInput(Mod32, SndW(s), WireW(w)) == SndW(SndInput(Exact, s, w))
    ensures Windowed(SndInput(Exact, s, w))
  {
    SndInputOk(s, w, r);
    UnaW(s, w.una);
    UnaOk(s, w.una);
    if w.cmd == ACK {
      AckedW(Shrink(s.(buf := DropBelow(Exact, s.buf, w.una))), w.sn);
    }
  }

  lemma FastackW(s: Snd, sn: int)
    requires Windowed(s) && Recent(sn, s)
    ensures ParseFastack(Mod32, SndW(s), Wrap(sn)) == SndW(ParseFastack(Exact, s, sn))
  {
    InFlightW(s, sn);
    RecentNear(sn, s);
    SkippedW(s.buf, sn);
  }

  // ----- receiving half ------------------------------------------------------------------

  lemma {:induction false} InsertW(buf: seq<InSeg>, seg: InSeg)
    requires forall i :: 0 <= i < |buf| ==> Near(seg.sn, buf[i].sn)
    ensures InsertBack(Mod32, InsW(buf), InW(seg)) == InsW(InsertBack(Exact, buf, seg))
  {
    if buf != [] {
      var last := buf[|buf| - 1];
      NearSame(seg.sn, last.sn);
      var front := buf[..|buf| - 1];
      assert InsW(buf)[..|buf| - 1] == InsW(front);
      if seg.sn < last.sn {
        InsertW(front, seg);
      }
    }
  }

  lemma {:induction false} DrainW(wnd: int, r: Rcv, source: seq<Piece>)
    requires RcvCore(wnd, r, source) && wnd < 0x8000_0000
    ensures Drain(Mod32, wnd, RcvW(r)) == RcvW(Drain(Exact, wnd, r))
    decreases |r.buf|
  {
    if r.buf != [] {
      assert Awaited(r.buf[0], r.nxt, wnd, source);
      WrapInjective(r.buf[0].sn, r.nxt);
      if r.buf[0].sn == r.nxt && |r.queue| < wnd {
        var r1 := r.(buf := r.buf[1..], queue := r.queue + [r.buf[0]], nxt := r.nxt + 1,
                     moved := r.moved + [r.buf[0].piece]);
        DrainOne(wnd, r, source);
        WrapWrap(r.nxt, 1);
        assert InsW(r.buf)[1..] == InsW(r1.buf);
        assert InsW(r.queue) + [InW(r.buf[0])] == InsW(r1.queue);
        DrainW(wnd, r1, source);
      }
    }
  }

  lemma DrainOne(wnd: int, r: Rcv, source: seq<Piece>)
    requires RcvCore(wnd, r, source) && r.buf != [] && r.buf[0].sn == r.nxt && |r.queue| < wnd
    ensures RcvCore(wnd, r.(buf := r.buf[1..], queue := r.queue + [r.buf[0]], nxt := r.nxt + 1,
                            moved := r.moved + [r.buf[0].piece]), source)
  {
    assert Awaited(r.buf[0], r.nxt, wnd, source);
    forall i | 0 <= i < |r.buf| - 1 ensures Awaited(r.buf[1..][i], r.nxt + 1, wnd, source) {
      assert Awaited(r.buf[i + 1], r.nxt, wnd, source) && r.buf[0].sn < r.buf[i + 1].sn;
    }
  }

  /** Data number sn is comparable with both ends of the receive window. */
  ghost predicate Comparable(wnd: int, r: Rcv, sn: int) {
    Near(sn, r.nxt) && Near(sn, r.nxt + wnd)
  }

  lemma WindowW(wnd: int, r: Rcv, sn: int)
    requires Comparable(wnd, r, sn)
    ensures BelowWindow(Mod32, wnd, RcvW(r), Wrap(sn)) <==> BelowWindow(Exact, wnd, r, sn)
    ensures Diff(Mod32, Wrap(sn), Wrap(r.nxt)) == sn - r.nxt
  {
    NearSame(sn, r.nxt);
    NearSame(sn, r.nxt + wnd);
    WrapWrap(r.nxt, wnd);
  }

  lemma RcvInputW(wnd: int, r: Rcv, w: Wire, source: seq<Piece>)
    requires RcvOk(wnd, r, source) && PushOk(w, source) && 0 < wnd < 0x8000_0000
    requires w.cmd == PUSH ==> Comparable(wnd, r, w.sn)
    ensures RcvInput(Mod32, wnd, RcvW(r), WireW(w)) == RcvW(RcvInput(Exact, wnd, r, w))
  {
    if w.cmd == PUSH {
      WindowW(wnd, r, w.sn);
      if r.nxt <= w.sn < r.nxt + wnd {
        var seg := InSeg(w.sn, Piece(w.frg, w.data));
        forall i | 0 <= i < |r.buf| ensures Near(seg.sn, r.buf[i].sn) {
          assert Awaited(r.buf[i], r.nxt, wnd, source);
        }
        InsertW(r.buf, seg);
        InsertCore(wnd, r, seg, source);
        DrainW(wnd, r.(buf := InsertBack(Exact, r.buf, seg)), source);
      }
    }
  }

  lemma AckInputW(wnd: int, r: Rcv, acks: seq<Ack>, w: Wire)
    requires w.cmd == PUSH ==> Comparable(wnd, r, w.sn)
    ensures AckInput(Mod32, wnd, RcvW(r), AcksW(acks), WireW(w)) == AcksW(AckInput(Exact, wnd, r, acks, w))
  {
    if w.cmd == PUSH {
      WindowW(wnd, r, w.sn);
      assert AcksW(acks + [Ack(w.sn, w.ts)]) == AcksW(acks) + [Ack(Wrap(w.sn), w.ts)];
    }
  }

  // ----- input ---------------------------------------------------------------------------

  /** Segment w, sent by the peer that numbered `source`, reaches an endpoint with sending half s
      and receive window wnd before it is stale. */
  ghost predicate Timely(wnd: int, s: Snd, source: seq<Piece>, w: Wire) {
    && s.nxt - 0x8000_0000 <= w.una
    && (w.cmd == ACK ==> s.nxt - 0x8000_0000 <= w.sn)
    && (w.cmd == PUSH ==> |source| + wnd - 0x8000_0000 <= w.sn)
  }

  /** Numbers given out by the peer are not far above the receiver's next number. */
  ghost predicate Close(r: Rcv, source: seq<Piece>) {
    |source| - r.nxt <= 0x8000_0000
  }

  lemma HeldBelow(wnd: int, r: Rcv, source: seq<Piece>, n: int)
    requires RcvOk(wnd, r, source) && Held(r, n)
    ensures n < |source|
  {
    if !(n < r.nxt) {
      var i :| 0 <= i < |r.buf| && r.buf[i].sn == n;
      assert Awaited(r.buf[i], r.nxt, wnd, source);
    }
  }

  /** What InputSegsW needs of the endpoint, of the peer's receiving half and of the datagram. */
  ghost predicate Ready(cfg: Config, k: Ctl, pwnd: int, peer: Rcv, source: seq<Piece>, d: Datagram) {
    && Windowed(k.snd) && RcvOk(pwnd, peer, k.snd.numbered)
    && RcvOk(cfg.rcvWnd, k.rcv, source) && AcksHeld(k.acks, k.rcv) && Close(k.rcv, source)
    && forall w :: w in d ==> BackOk(w, peer) && PushOk(w, source) && Timely(cfg.rcvWnd, k.snd, source, w)
  }

  lemma SegFacts(cfg: Config, k: Ctl, pwnd: int, peer: Rcv, source: seq<Piece>, d: Datagram)
    requires d != [] && Ready(cfg, k, pwnd, peer, source, d)
    ensures var w := d[0];
            && Recent(w.una, k.snd) && (w.cmd == ACK ==> Recent(w.sn, k.snd) && w.sn < k.snd.nxt)
            && (w.cmd == PUSH ==> Comparable(cfg.rcvWnd, k.rcv, w.sn))
  {
    var w := d[0];
    assert w in d;
    if w.cmd == ACK { HeldBelow(pwnd, peer, k.snd.numbered, w.sn); }
  }

  lemma ReadyNext(cfg: Config, s: Scan, pwnd: int, peer: Rcv, source: seq<Piece>, d: Datagram)
    requires d != [] && Ready(cfg, s.k, pwnd, peer, source, d)
    ensures Ready(cfg, InputSeg(Exact, cfg, s, d[0]).k, pwnd, peer, source, d[1..])
  {
    assert d[0] in d;
    SndInputOk(s.k.snd, d[0], peer);
    RcvInputOk(cfg, s.k, d[0], source);
    var k' := InputSeg(Exact, cfg, s, d[0]).k;
    forall w | w in d[1..] ensures BackOk(w, peer) && PushOk(w, source) && Timely(cfg.rcvWnd, k'.snd, source, w) {
      assert w in d;
      assert k'.snd.nxt == s.k.snd.nxt;
    }
  }

  /** The loop's maxack, once set, is a number the endpoint gave out recently. */
  ghost predicate MaxackOk(s: Scan) {
    s.flag ==> s.k.snd.nxt - 0x8000_0000 <= s.maxack < s.k.snd.nxt
  }

  lemma InputSegW(cfg: Config, s: Scan, pwnd: int, peer: Rcv, source: seq<Piece>, d: Datagram)
    requires d != [] && Ready(cfg, s.k, pwnd, peer, source, d) && MaxackOk(s)
    ensures InputSeg(Mod32, cfg, ScanW(s), WireW(d[0])) == ScanW(InputSeg(Exact, cfg, s, d[0]))
    ensures MaxackOk(InputSeg(Exact, cfg, s, d[0]))
  {
    var w := d[0];
    assert w in d;
    SegFacts(cfg, s.k, pwnd, peer, source, d);
    SndInputW(s.k.snd, w, peer);
    SndInputOk(s.k.snd, w, peer);
    RcvInputW(cfg.rcvWnd, s.k.rcv, w, source);
    AckInputW(cfg.rcvWnd, s.k.rcv, s.k.acks, w);
    if w.cmd == ACK && s.flag { NearSame(w.sn, s.maxack); }
  }

  lemma {:induction false} InputSegsW(cfg: Config, s: Scan, pwnd: int, peer: Rcv, source: seq<Piece>, d: Datagram)
    requires Ready(cfg, s.k, pwnd, peer, source, d) && MaxackOk(s)
    ensures InputSegs(Mod32, cfg, ScanW(s), DatagramW(d)) == ScanW(InputSegs(Exact, cfg, s, d))
    ensures MaxackOk(InputSegs(Exact, cfg, s, d))
    ensures Windowed(InputSegs(Exact, cfg, s, d).k.snd)
    decreases |d|
  {
    if d != [] {
      InputSegW(cfg, s, pwnd, peer, source, d);
      ReadyNext(cfg, s, pwnd, peer, source, d);
      assert DatagramW(d)[1..] == DatagramW(d[1..]);
      InputSegsW(cfg, InputSeg(Exact, cfg, s, d[0]), pwnd, peer, source, d[1..]);
    }
  }

  lemma TailW(cfg: Config, prevUna: int, s: Scan)
    requires Windowed(s.k.snd) && MaxackOk(s) && Near(s.k.snd.una, prevUna)
    ensures InputTail(Mod32, cfg, Wrap(prevUna), ScanW(s)) == CtlW(InputTail(Exact, cfg, prevUna, s))
  {
    if s.flag { FastackW(s.k.snd, s.maxack); }
    NearSame(s.k.snd.una, prevUna);
  }

  lemma InputW(cfg: Config, k: Ctl, pwnd: int, peer: Rcv, source: seq<Piece>, d: Datagram)
    requires Ready(cfg, k, pwnd, peer, source, d)
    ensures Input(Mod32, cfg, CtlW(k), DatagramW(d)) == CtlW(Input(Exact, cfg, k, d))
  {
    var s0 := Scan(k, false, 0);
    assert ScanW(s0) == Scan(CtlW(k), false, 0);
    InputSegsW(cfg, s0, pwnd, peer, source, d);
    InputSegsOk(cfg, s0, d, peer, source);
    TailW(cfg, k.snd.una, InputSegs(Exact, cfg, s0, d));
  }

  // ----- receive -------------------------------------------------------------------------

  lemma {:induction false} QueueW(q: seq<InSeg>)
    ensures Joined(InsW(q)) == Joined(q) && HeadLen(InsW(q)) == HeadLen(q)
  {
    if q != [] {
      assert InsW(q)[1..] == InsW(q[1..]);
      QueueW(q[1..]);
    }
  }

  lemma RecvCodeW(r: Rcv, len: int)
    ensures RecvCode(RcvW(r), len) == RecvCode(r, len)
  {
    QueueW(r.queue);
    var n := HeadLen(r.queue);
    QueueW(r.queue[..n]);
    assert InsW(r.queue)[..n] == InsW(r.queue[..n]);
  }

  lemma RecvW(cfg: Config, k: Ctl, len: int, source: seq<Piece>)
    requires RcvOk(cfg.rcvWnd, k.rcv, source)
    ensures Recv(Mod32, cfg, CtlW(k), len) == CtlW(Recv(Exact, cfg, k, len))
  {
    RecvCodeW(k.rcv, len);
    QueueW(k.rcv.queue);
    var n := HeadLen(k.rcv.queue);
    QueueW(k.rcv.queue[..n]);
    assert InsW(k.rcv.queue)[..n] == InsW(k.rcv.queue[..n]);
    assert InsW(k.rcv.queue)[n..] == InsW(k.rcv.queue[n..]);
    DrainW(cfg.rcvWnd, TakeHead(k.rcv, len < 0), source);
  }

  // ----- flush ---------------------------------------------------------------------------

  function EnvW(e: Env): (r: Env) { e.(una := Wrap(e.una)) }

  lemma {:induction false} NumberW(e: Env, wnd: int, s: Snd)
    requires Windowed(s) && 0 <= wnd < 0x8000_0000
    ensures Number(Mod32, EnvW(e), wnd, SndW(s)) == SndW(Number(Exact, e, wnd, s))
    decreases |s.queue|
  {
    assert Windowed(s) ==> s.nxt - s.una < 0x8000_0000;
    hide Windowed, OutsW, Fresh, Wrap, Diff, Norm;
    WindowOpenW(wnd, s);
    if s.nxt < s.una + wnd && s.queue != [] {
      NumberNext(e, s);
      NumberOneW(e, s);
      NumberW(e, wnd, NumberOne(e, s));
    }
  }

  /** The numbering loop of both arithmetics goes on or stops alike. */
  lemma WindowOpenW(wnd: int, s: Snd)
    requires Windowed(s) && 0 <= wnd < 0x8000_0000
    ensures Diff(Mod32, SndW(s).nxt, Norm(Mod32, SndW(s).una + wnd)) < 0 <==> s.nxt < s.una + wnd
    ensures Diff(Exact, s.nxt, Norm(Exact, s.una + wnd)) < 0 <==> s.nxt < s.una + wnd
  {
    NearSame(s.nxt, s.una + wnd);
    WrapWrap(s.una, wnd);
  }

  lemma NumberNext(e: Env, s: Snd)
    requires Windowed(s) && s.queue != [] && s.nxt - s.una < 0x7fff_ffff
    ensures Windowed(NumberOne(e, s))
  {
    NumberOneOk(e, s);
  }

  lemma NumberOneW(e: Env, s: Snd)
    requires s.queue != []
    ensures var t := SndW(s);
            SndW(NumberOne(e, s)) ==
            t.(queue := t.queue[1..], buf := t.buf + [Fresh(EnvW(e), t.nxt, t.queue[0])],
               nxt := Norm(Mod32, t.nxt + 1), numbered := t.numbered + [t.queue[0]])
  {
    WrapWrap(s.nxt, 1);
    assert OutsW(s.buf) + [Fresh(EnvW(e), Wrap(s.nxt), s.queue[0])] == OutsW(NumberOne(e, s).buf);
  }

  lemma TouchW(cfg: Config, e: Env, s: OutSeg)
    ensures Touch(cfg, EnvW(e), OutW(s)) == OutW(Touch(cfg, e, s))
    ensures FateOf(cfg, e.current, OutW(s)) == FateOf(cfg, e.current, s)
  {
  }

  lemma {:induction false} TransmitW(cfg: Config, e: Env, buf: seq<OutSeg>)
    ensures var t := Transmit(cfg, e, buf);
            Transmit(cfg, EnvW(e), OutsW(buf)) == t.(buf := OutsW(t.buf), wires := DatagramW(t.wires))
  {
    if buf != [] {
      var k := |buf| - 1;
      TransmitW(cfg, e, buf[..k]);
      assert OutsW(buf)[..k] == OutsW(buf[..k]);
      TouchW(cfg, e, buf[k]);
      var t0, t := Transmit(cfg, e, buf[..k]), Transmit(cfg, e, buf);
      assert OutsW(t0.buf) + [OutW(Touch(cfg, e, buf[k]))] == OutsW(t0.buf + [Touch(cfg, e, buf[k])]);
      assert DatagramW(t0.wires) + [WireW(PushWire(Touch(cfg, e, buf[k])))]
          == DatagramW(t0.wires + [PushWire(Touch(cfg, e, buf[k]))]);
    }
  }

  lemma AckWiresW(e: Env, acks: seq<Ack>)
    ensures AckWires(EnvW(e), AcksW(acks)) == DatagramW(AckWires(e, acks))
  {
  }

  lemma ProbeWiresW(e: Env, p: Probe, last: Ack)
    ensures ProbeWires(EnvW(e), p, AckW(last)) == DatagramW(ProbeWires(e, p, last))
  {
  }

  lemma {:induction false} SizeW(d: Datagram)
    ensures Size(DatagramW(d)) == Size(d)
  {
    if d != [] {
      assert DatagramW(d)[..|d| - 1] == DatagramW(d[..|d| - 1]);
      SizeW(d[..|d| - 1]);
    }
  }

  function PackerW(p: Packer): (r: Packer) { Packer(LogW(p.done), DatagramW(p.cur)) }

  lemma PutW(mtu: int, p: Packer, w: Wire)
    ensures Put(mtu, PackerW(p), WireW(w)) == PackerW(Put(mtu, p, w))
  {
    SizeW(p.cur);
    CutW(p);
    assert DatagramW(p.cur + [w]) == DatagramW(p.cur) + [WireW(w)];
    assert DatagramW([w]) == [WireW(w)];
  }

  lemma CutW(p: Packer)
    ensures Cut(PackerW(p)) == LogW(Cut(p))
  {
    assert LogW(p.done + [p.cur]) == LogW(p.done) + [DatagramW(p.cur)];
  }

  lemma {:induction false} PutAllW(mtu: int, p: Packer, ws: seq<Wire>)
    ensures PutAll(mtu, PackerW(p), DatagramW(ws)) == PackerW(PutAll(mtu, p, ws))
  {
    if ws != [] {
      var front := ws[..|ws| - 1];
      PutAllW(mtu, p, front);
      assert DatagramW(ws)[..|ws| - 1] == DatagramW(front);
      PutW(mtu, PutAll(mtu, p, front), ws[|ws| - 1]);
    }
  }

  lemma PackW(mtu: int, ws: seq<Wire>)
    ensures Pack(mtu, DatagramW(ws)) == LogW(Pack(mtu, ws))
  {
    var p := Packer([], []);
    assert PackerW(p) == p;
    PutAllW(mtu, p, ws);
    CutW(PutAll(mtu, p, ws));
  }

  ghost predicate WndOk(cfg: Config, k: Ctl) {
    Windowed(k.snd) && k.snd.nxt - k.snd.una <= cfg.sndWnd && EndShaped(cfg, k)
  }

  lemma EnvOfW(cfg: Config, k: Ctl)
    ensures EnvOf(cfg, CtlW(k)) == EnvW(EnvOf(cfg, k))
  {
  }

  lemma RefillW(cfg: Config, k: Ctl)
    requires WndOk(cfg, k)
    ensures Refill(Mod32, cfg, CtlW(k)) == SndW(Refill(Exact, cfg, k))
  {
    EnvOfW(cfg, k);
    NumberW(EnvOf(cfg, k), EffectiveWnd(cfg, k.cc), k.snd);
  }

  lemma AppendW(a: Datagram, p: Datagram, t: Datagram)
    ensures DatagramW(a) + DatagramW(p) + DatagramW(t) == DatagramW(a + p + t)
  {
  }

  lemma LastAckW(acks: seq<Ack>)
    ensures LastAck(AcksW(acks)) == AckW(LastAck(acks))
  {
  }

  lemma SentW(cfg: Config, k: Ctl)
    requires WndOk(cfg, k)
    ensures Sent(Mod32, cfg, CtlW(k)) == DatagramW(Sent(Exact, cfg, k))
  {
    var e := EnvOf(cfg, k);
    var p := ProbeTimer(k.probe, k.cc.rmtWnd, e.current);
    EnvOfW(cfg, k);
    RefillW(cfg, k);
    AckWiresW(e, k.acks);
    LastAckW(k.acks);
    ProbeWiresW(e, p, LastAck(k.acks));
    var s := Refill(Exact, cfg, k);
    TransmitW(cfg, e, s.buf);
    AppendW(AckWires(e, k.acks), ProbeWires(e, p, LastAck(k.acks)), Transmit(cfg, e, s.buf).wires);
  }

  lemma InflightW(a: int, b: int)
    requires 0 <= a - b < 0x8000_0000
    ensures Wrap(Wrap(a) - Wrap(b)) == a - b
  {
    NearSame(a, b);
  }

  lemma AfterFlushW(cfg: Config, k: Ctl, s: Snd, t: Tx, inflight: int)
    ensures AfterFlush(cfg, CtlW(k), SndW(s), t.(buf := OutsW(t.buf), wires := DatagramW(t.wires)), inflight)
         == CtlW(AfterFlush(cfg, k, s, t, inflight))
  {
  }

  lemma SpanW(cfg: Config, k: Ctl)
    requires WndOk(cfg, k)
    ensures var s := Refill(Exact, cfg, k); Norm(Mod32, SndW(s).nxt - SndW(s).una) == Norm(Exact, s.nxt - s.una)
  {
    var s := Refill(Exact, cfg, k);
    NumberOk(EnvOf(cfg, k), EffectiveWnd(cfg, k.cc), k.snd);
    InflightW(s.nxt, s.una);
  }

  lemma FlushW(cfg: Config, k: Ctl)
    requires WndOk(cfg, k)
    ensures FlushState(Mod32, cfg, CtlW(k)) == CtlW(FlushState(Exact, cfg, k))
  {
    hide Refill, Transmit, OutsW, DatagramW, AfterFlush, WndOk, EnvOf;
    var e, s := EnvOf(cfg, k), Refill(Exact, cfg, k);
    var t, n := Transmit(cfg, e, s.buf), Norm(Exact, s.nxt - s.una);
    var s' := SndW(s);
    assert Refill(Mod32, cfg, CtlW(k)) == s' by { RefillW(cfg, k); }
    assert Norm(Mod32, s'.nxt - s'.una) == n by { SpanW(cfg, k); }
    var t' := t.(buf := OutsW(t.buf), wires := DatagramW(t.wires));
    assert Transmit(cfg, EnvOf(cfg, CtlW(k)), s'.buf) == t' by { EnvOfW(cfg, k); TransmitW(cfg, e, s.buf); }
    AfterFlushW(cfg, k, s, t, n);
  }

  lemma FlushBothW(cfg: Config, k: Ctl)
    requires WndOk(cfg, k)
    ensures Flush(Mod32, cfg, CtlW(k)) == (CtlW(Flush(Exact, cfg, k).0), LogW(Flush(Exact, cfg, k).1))
  {
    if k.clock.updated {
      FlushW(cfg, k);
      SentW(cfg, k);
      PackW(cfg.mtu, Sent(Exact, cfg, k));
    }
  }

  // ----- runs ----------------------------------------------------------------------------

  /** The windows leave room in half of the number space. */
  ghost predicate WindowsFit(c: Pair) {
    c.x.sndWnd + c.y.rcvWnd <= 0x8000_0000 && c.y.sndWnd + c.x.rcvWnd <= 0x8000_0000
  }

  /** Operation op of x delivers nothing stale. */
  ghost predicate TimelyOp(c: Pair, s: Sys, op: Op) {
    op.DoDeliver? && op.i < |s.yx| ==>
      forall w :: w in s.yx[op.i] ==> Timely(c.x.rcvWnd, s.x.snd, s.y.snd.numbered, w)
  }

  ghost predicate TimelyStep(c: Pair, s: Sys, a: Action) {
    if a.side.A? then TimelyOp(c, s, a.op) else TimelyOp(c.Flip(), s.Flip(), a.op)
  }

  /** No delivery of the run is stale when it happens. */
  ghost predicate TimelyRun(c: Pair, acts: seq<Action>) {
    acts == [] ||
    (TimelyRun(c, acts[..|acts| - 1]) && TimelyStep(c, Run(Exact, c, acts[..|acts| - 1]), acts[|acts| - 1]))
  }

  lemma DeliverW(c: Pair, s: Sys, i: nat)
    requires Inv(c, s) && WindowsFit(c) && i < |s.yx| && TimelyOp(c, s, DoDeliver(i))
    ensures Input(Mod32, c.x, CtlW(s.x), LogW(s.yx)[i]) == CtlW(Input(Exact, c.x, s.x, s.yx[i]))
  {
    AckBounds(s.y.snd, c.x.rcvWnd, s.x.rcv);
    assert s.yx[i] in s.yx;
    InputW(c.x, s.x, c.y.rcvWnd, s.y.rcv, s.y.snd.numbered, s.yx[i]);
  }

  ghost predicate SameAct(m: (Ctl, seq<Datagram>), e: (Ctl, seq<Datagram>)) {
    m.0 == CtlW(e.0) && m.1 == LogW(e.1)
  }

  lemma ActW(c: Pair, s: Sys, op: Op)
    requires Inv(c, s) && ShapeInv(c, s) && WindowsFit(c) && TimelyOp(c, s, op)
    ensures SameAct(Act(Mod32, c.x, CtlW(s.x), LogW(s.yx), op), Act(Exact, c.x, s.x, s.yx, op))
  {
    assert LogW([]) == [];
    OpReady(c, s);
    hide Send, Recv, Update, Flush, Input, CtlW, Inv, ShapeInv, TimelyOp, WindowsFit, WndOk;
    match op
    case DoSend(data) => SendW(c.x, s.x, data);
    case DoRecv(len) => RecvW(c.x, s.x, len, s.y.snd.numbered);
    case DoUpdate(time) => UpdateW(c.x, s.x, time);
    case DoFlush => FlushBothW(c.x, s.x);
    case DoDeliver(i) => if i < |s.yx| { DeliverW(c, s, i); }
  }

  lemma OpReady(c: Pair, s: Sys)
    requires Inv(c, s) && ShapeInv(c, s) && WindowsFit(c)
    ensures WndOk(c.x, s.x) && RcvOk(c.x.rcvWnd, s.x.rcv, s.y.snd.numbered)
  {
  }

  lemma SendW(cfg: Config, k: Ctl, data: seq<byte>)
    ensures CtlW(k).(snd := Send(cfg, CtlW(k).snd, data).0) == CtlW(k.(snd := Send(cfg, k.snd, data).0))
  {
    SendSndW(cfg, k.snd, data);
    hide Send, SndW, RcvW, AcksW;
  }

  lemma SendSndW(cfg: Config, s: Snd, data: seq<byte>)
    ensures Send(cfg, SndW(s), data).0 == SndW(Send(cfg, s, data).0)
  {
    var ext := Extension(cfg, s, |data|);
    ExtensionW(cfg, s, |data|);
    ExtendW(cfg, s, data[..ext]);
    hide Extension, ExtendLast, OutsW, Fragment, FragCount;
  }

  lemma ExtensionW(cfg: Config, s: Snd, len: nat)
    ensures Extension(cfg, SndW(s), len) == Extension(cfg, s, len)
  {
  }

  lemma ExtendW(cfg: Config, s: Snd, more: seq<byte>)
    ensures ExtendLast(cfg, SndW(s), more) == SndW(ExtendLast(cfg, s, more))
  {
  }

  lemma UpdateW(cfg: Config, k: Ctl, time: u32)
    requires WndOk(cfg, k)
    ensures Update(Mod32, cfg, CtlW(k), time) ==
            (CtlW(Update(Exact, cfg, k, time).0), LogW(Update(Exact, cfg, k, time).1))
  {
    var k1 := k.(clock := Tick(cfg.interval, k.clock, time).0);
    FlushBothW(cfg, k1);
    assert CtlW(k).(clock := k1.clock) == CtlW(k1);
    assert LogW([]) == [];
    hide Flush, CtlW, WndOk, Tick;
  }

  lemma LogAppendW(a: seq<Datagram>, b: seq<Datagram>)
    ensures LogW(a + b) == LogW(a) + LogW(b)
  {
  }

  lemma StepXW(c: Pair, s: Sys, op: Op)
    requires Inv(c, s) && ShapeInv(c, s) && WindowsFit(c) && TimelyOp(c, s, op)
    ensures StepX(Mod32, c, SysW(s), op) == SysW(StepX(Exact, c, s, op))
  {
    hide Act, Inv, ShapeInv, TimelyOp, WindowsFit, CtlW, DatagramW;
    ActW(c, s, op);
    LogAppendW(s.xy, Act(Exact, c.x, s.x, s.yx, op).1);
  }

  /** Wraparound refinement: on every timely run, of any length, the 32-bit system is in the state
      of the unbounded one modulo 2^32. */
  lemma {:induction false} RunW(c: Pair, acts: seq<Action>)
    requires WindowsFit(c) && TimelyRun(c, acts)
    ensures Run(Mod32, c, acts) == SysW(Run(Exact, c, acts))
  {
    if acts == [] {
      assert CtlW(Create()) == Create();
    } else {
      var before, a := acts[..|acts| - 1], acts[|acts| - 1];
      RunW(c, before);
      RunInv(c, before);
      RunShape(c, before);
      var s := Run(Exact, c, before);
      if a.side.A? {
        StepXW(c, s, a.op);
      } else {
        StepXW(c.Flip(), s.Flip(), a.op);
        assert SysW(s).Flip() == SysW(s.Flip());
      }
    }
  }
}
