/**
 The KCP engine as functions on its control block. Every function that touches a
 sequence number takes the arithmetic `m` as a parameter, so one definition serves both as
 the 32-bit behaviour of the code and as the protocol on unbounded numbers.
 */
module Protocol {
  import opened Words

  const OVERHEAD := 24
  const PUSH := 81
  const ACK := 82
  const WASK := 83
  const WINS := 84
  const RTO_MAX := 60000
  const PROBE_INIT := 7000
  const PROBE_LIMIT := 120000
  const THRESH_MIN := 2
  const WND_RCV := 128

  // ----- configuration -------------------------------------------------------------------

  datatype RawConfig = RawConfig(conv: u32, mtu: int, sndWnd: int, rcvWnd: int, interval: int,
                                 nodelay: u32, minRto: int, fastResend: int, fastLimit: int,
                                 noCwnd: bool, stream: bool, deadLink: u32)
  {
    function Mss(): (r: int) {
      mtu - OVERHEAD
    }

    predicate Ok() {
      && 50 <= mtu < 0x8000_0000
      && 0 < sndWnd < 0x8000_0000
      && WND_RCV <= rcvWnd < 0x8000_0000
      && 10 <= interval <= 5000
      && 0 < minRto <= RTO_MAX
      && -0x8000_0000 <= fastResend < 0x8000_0000
    }
  }

  /** Configurations that the setters of the engine can produce. */
  type Config = c: RawConfig | c.Ok()
    witness RawConfig(0, 1400, 32, 128, 100, 0, 100, 0, 5, false, false, 20)

  // ----- state ---------------------------------------------------------------------------

  /** A fragment of user data; frg counts the fragments of its message still to come. */
  datatype Piece = Piece(frg: int, data: seq<byte>)

  /** An entry of snd_buf. */
  datatype OutSeg = OutSeg(sn: int, piece: Piece, wnd: int, ts: int, una: int,
                           resendts: int, rto: int, fastack: int, xmit: int)

  /** An entry of rcv_buf or rcv_queue. */
  datatype InSeg = InSeg(sn: int, piece: Piece)

  datatype Ack = Ack(sn: int, ts: int)

  /** A segment as it travels: frg has 8 bits and wnd 16 bits there. */
  datatype Wire = Wire(cmd: int, frg: int, wnd: int, ts: int, sn: int, una: int, data: seq<byte>)

  type Datagram = seq<Wire>

  /** The sending half. `numbered` (all pieces that got a number, in order) and `accepted`
      (what the user's sends put in) are histories. */
  datatype Snd = Snd(una: int, nxt: int, queue: seq<Piece>, buf: seq<OutSeg>,
                     numbered: seq<Piece>, accepted: seq<seq<byte>>)

  /** The receiving half. `moved` (all pieces moved to rcv_queue, in order) and `taken`
      (what the user's receives returned) are histories. */
  datatype Rcv = Rcv(nxt: int, queue: seq<InSeg>, buf: seq<InSeg>,
                     moved: seq<Piece>, taken: seq<seq<byte>>)

  datatype Rtt = Rtt(srtt: int, rttval: int, rto: int)
  datatype Cc = Cc(cwnd: int, incr: int, ssthresh: int, rmtWnd: int)
  datatype Probe = Probe(ask: bool, tell: bool, ts: int, wait: int)
  datatype Clock = Clock(current: int, tsFlush: int, updated: bool)

  datatype Ctl = Ctl(snd: Snd, rcv: Rcv, acks: seq<Ack>, rtt: Rtt, cc: Cc, probe: Probe,
                     clock: Clock, xmit: int, dead: bool)

  function Create(): (k: Ctl) {
    Ctl(Snd(0, 0, [], [], [], []), Rcv(0, [], [], [], []), [], Rtt(0, 0, 200),
        Cc(0, 0, THRESH_MIN, WND_RCV), Probe(false, false, 0, 0), Clock(0, 100, false), 0, false)
  }

  // ----- user send -----------------------------------------------------------------------

  /** How many fragments ikcp_send cuts len bytes into. */
  function FragCount(len: int, mss: int): (r: int)
    requires mss > 0
  {
    if len <= mss then 1 else (len + mss - 1) / mss
  }

  function Fragment(data: seq<byte>, mss: int, stream: bool): (r: seq<Piece>)
    requires mss > 0
    ensures |r| >= 1
    decreases |data|
  {
    if |data| <= mss then [Piece(0, data)]
    else
      var rest := Fragment(data[mss..], mss, stream);
      [Piece(if stream then 0 else |rest|, data[..mss])] + rest
  }

  /** How many bytes of a send go into the last queued segment (stream mode). */
  function Extension(cfg: Config, snd: Snd, len: int): (r: int)
    requires 0 <= len
    ensures 0 <= r <= len
  {
    if cfg.stream && snd.queue != [] && |snd.queue[|snd.queue| - 1].data| < cfg.Mss()
    then Min(len, cfg.Mss() - |snd.queue[|snd.queue| - 1].data|)
    else 0
  }

  function ExtendLast(cfg: Config, snd: Snd, more: seq<byte>): (r: Snd)
  {
    if cfg.stream && snd.queue != [] && |snd.queue[|snd.queue| - 1].data| < cfg.Mss() then
      var n := |snd.queue| - 1;
      snd.(queue := snd.queue[..n] + [Piece(0, snd.queue[n].data + more)])
    else snd
  }

  /** ikcp_send; the second result is its return value. */
  function Send(cfg: Config, snd: Snd, data: seq<byte>): (r: (Snd, int))
  {
    var ext := Extension(cfg, snd, |data|);
    var snd1 := ExtendLast(cfg, snd, data[..ext]);
    var rest := data[ext..];
    if cfg.stream && rest == [] then (snd1.(accepted := snd.accepted + [data]), 0)
    else if FragCount(|rest|, cfg.Mss()) >= WND_RCV then
      (if ext > 0 then snd1.(accepted := snd.accepted + [data[..ext]]) else snd1, -2)
    else
      (snd1.(queue := snd1.queue + Fragment(rest, cfg.Mss(), cfg.stream),
             accepted := snd.accepted + [data]), 0)
  }

  // ----- user receive --------------------------------------------------------------------

  /** Bytes of a run of segments. */
  function Joined(q: seq<InSeg>): (r: seq<byte>) {
    if q == [] then [] else q[0].piece.data + Joined(q[1..])
  }

  /** Length of the head message: up to and including the first segment with frg 0. */
  function HeadLen(q: seq<InSeg>): (n: nat)
    ensures n <= |q|
    ensures q != [] ==> n > 0
  {
    if q == [] then 0 else if q[0].piece.frg == 0 then 1 else 1 + HeadLen(q[1..])
  }

  function PeekSize(q: seq<InSeg>): (r: int) {
    if q == [] then -1
    else if q[0].piece.frg != 0 && |q| < q[0].piece.frg + 1 then -1
    else |Joined(q[..HeadLen(q)])|
  }

  /** Moves what is in order from rcv_buf to rcv_queue while the queue has room. */
  function Drain(m: Arith, wnd: int, r: Rcv): (r': Rcv)
    decreases |r.buf|
  {
    if r.buf != [] && r.buf[0].sn == r.nxt && |r.queue| < wnd then
      Drain(m, wnd, r.(buf := r.buf[1..], queue := r.queue + [r.buf[0]], nxt := Norm(m, r.nxt + 1),
                       moved := r.moved + [r.buf[0].piece]))
    else r
  }

  /** The return value of ikcp_recv with a buffer length len (negative: only peek). */
  function RecvCode(rcv: Rcv, len: int): (ret: int) {
    if rcv.queue == [] then -1
    else
      var size := PeekSize(rcv.queue);
      if size < 0 then -2
      else if size > (if len < 0 then -len else len) then -3
      else size
  }

  /** The receiving half without its head message, unless the call only peeks. */
  function TakeHead(rcv: Rcv, peek: bool): (r: Rcv) {
    var n := HeadLen(rcv.queue);
    if peek then rcv
    else rcv.(queue := rcv.queue[n..], taken := rcv.taken + [Joined(rcv.queue[..n])])
  }

  /** ikcp_recv with a buffer length len; the new state. */
  function Recv(m: Arith, cfg: Config, k: Ctl, len: int): (k': Ctl) {
    if RecvCode(k.rcv, len) < 0 then k
    else
      var r := Drain(m, cfg.rcvWnd, TakeHead(k.rcv, len < 0));
      var tell := |k.rcv.queue| >= cfg.rcvWnd && |r.queue| < cfg.rcvWnd;
      k.(rcv := r, probe := k.probe.(tell := k.probe.tell || tell))
  }

  // ----- acknowledgements ----------------------------------------------------------------

  function Shrink(s: Snd): (r: Snd) {
    s.(una := if s.buf == [] then s.nxt else s.buf[0].sn)
  }

  function DropBelow(m: Arith, buf: seq<OutSeg>, una: int): (r: seq<OutSeg>) {
    if buf != [] && Diff(m, una, buf[0].sn) > 0 then DropBelow(m, buf[1..], una) else buf
  }

  function RemoveSn(m: Arith, buf: seq<OutSeg>, sn: int): (r: seq<OutSeg>) {
    if buf == [] then []
    else if sn == buf[0].sn then buf[1..]
    else if Diff(m, sn, buf[0].sn) < 0 then buf
    else [buf[0]] + RemoveSn(m, buf[1..], sn)
  }

  predicate InFlight(m: Arith, s: Snd, sn: int) {
    !(Diff(m, sn, s.una) < 0 || Diff(m, sn, s.nxt) >= 0)
  }

  function ParseAck(m: Arith, s: Snd, sn: int): (r: Snd) {
    if InFlight(m, s, sn) then s.(buf := RemoveSn(m, s.buf, sn)) else s
  }

  function Skipped(m: Arith, buf: seq<OutSeg>, sn: int): (r: seq<OutSeg>) {
    if buf == [] || Diff(m, sn, buf[0].sn) < 0 then buf
    else
      [if sn != buf[0].sn then buf[0].(fastack := Wrap(buf[0].fastack + 1)) else buf[0]]
      + Skipped(m, buf[1..], sn)
  }

  function ParseFastack(m: Arith, s: Snd, sn: int): (r: Snd) {
    if InFlight(m, s, sn) then s.(buf := Skipped(m, s.buf, sn)) else s
  }

  function UpdateRtt(cfg: Config, r: Rtt, rtt: int): (r': Rtt) {
    var r1 :=
      if r.srtt == 0 then r.(srtt := rtt, rttval := rtt / 2)
      else
        var delta := if rtt < r.srtt then r.srtt - rtt else rtt - r.srtt;
        r.(rttval := (3 * r.rttval + delta) / 4, srtt := Max(1, (7 * r.srtt + rtt) / 8));
    r1.(rto := Min(Max(cfg.minRto, r1.srtt + Max(cfg.interval, 4 * r1.rttval)), RTO_MAX))
  }

  // ----- incoming data -------------------------------------------------------------------

  /** Backward scan of rcv_buf: insert after the first smaller number, unless present. */
  function InsertBack(m: Arith, buf: seq<InSeg>, seg: InSeg): (r: seq<InSeg>) {
    if buf == [] then [seg]
    else
      var last := buf[|buf| - 1];
      if last.sn == seg.sn then buf
      else if Diff(m, seg.sn, last.sn) > 0 then buf + [seg]
      else InsertBack(m, buf[..|buf| - 1], seg) + [last]
  }

  predicate BelowWindow(m: Arith, wnd: int, r: Rcv, sn: int) {
    Diff(m, sn, Norm(m, r.nxt + wnd)) < 0
  }

  function ParseData(m: Arith, wnd: int, r: Rcv, seg: InSeg): (r': Rcv) {
    if !BelowWindow(m, wnd, r, seg.sn) || Diff(m, seg.sn, r.nxt) < 0 then r
    else Drain(m, wnd, r.(buf := InsertBack(m, r.buf, seg)))
  }

  /** What one incoming segment does to the sending half. */
  function SndInput(m: Arith, s: Snd, w: Wire): (s': Snd) {
    var s1 := Shrink(s.(buf := DropBelow(m, s.buf, w.una)));
    if w.cmd == ACK then Shrink(ParseAck(m, s1, w.sn)) else s1
  }

  /** What one incoming segment does to the receiving half. */
  function RcvInput(m: Arith, wnd: int, r: Rcv, w: Wire): (r': Rcv) {
    if w.cmd == PUSH && BelowWindow(m, wnd, r, w.sn) && Diff(m, w.sn, r.nxt) >= 0
    then ParseData(m, wnd, r, InSeg(w.sn, Piece(w.frg, w.data)))
    else r
  }

  function AckInput(m: Arith, wnd: int, r: Rcv, acks: seq<Ack>, w: Wire): (acks': seq<Ack>) {
    if w.cmd == PUSH && BelowWindow(m, wnd, r, w.sn) then acks + [Ack(w.sn, w.ts)] else acks
  }

  /** The control block inside ikcp_input, with the loop's maxack. */
  datatype Scan = Scan(k: Ctl, flag: bool, maxack: int)

  /** The effect of one segment inside the loop of ikcp_input. */
  function InputSeg(m: Arith, cfg: Config, s: Scan, w: Wire): (s': Scan) {
    var k := s.k;
    var sample := TimeDiff(k.clock.current, w.ts);
    Scan(k.(cc := k.cc.(rmtWnd := w.wnd),
            snd := SndInput(m, k.snd, w),
            rcv := RcvInput(m, cfg.rcvWnd, k.rcv, w),
            acks := AckInput(m, cfg.rcvWnd, k.rcv, k.acks, w),
            rtt := if w.cmd == ACK && sample >= 0 then UpdateRtt(cfg, k.rtt, sample) else k.rtt,
            probe := if w.cmd == WASK then k.probe.(tell := true) else k.probe),
         s.flag || w.cmd == ACK,
         if w.cmd == ACK && (!s.flag || Diff(m, w.sn, s.maxack) > 0) then w.sn else s.maxack)
  }

  function InputSegs(m: Arith, cfg: Config, s: Scan, d: Datagram): (s': Scan)
    decreases |d|
  {
    if d == [] then s else InputSegs(m, cfg, InputSeg(m, cfg, s, d[0]), d[1..])
  }

  /** incr after one step of congestion avoidance. */
  function Increase(mss: int, incr: int): (r: u32)
    requires mss > 0
  {
    var i0 := Max(incr, mss);
    Wrap(i0 + Wrap(mss * mss) / i0 + mss / 16)
  }

  /** How many segments of mss bytes cover the given number of bytes. */
  function Segments(mss: int, bytes: int): (r: int)
    requires mss > 0
    ensures r >= 0
  {
    DivNonNegative(Wrap(bytes + mss - 1), mss);
    Wrap(bytes + mss - 1) / mss
  }

  function SlowStart(mss: int, cc: Cc): (r: Cc) {
    cc.(cwnd := Wrap(cc.cwnd + 1), incr := Wrap(cc.incr + mss))
  }

  /** The window once congestion avoidance has set incr to i1. */
  function AvoidTo(mss: int, cc: Cc, i1: int): (r: Cc)
    requires mss > 0
  {
    if Wrap(Wrap(cc.cwnd + 1) * mss) <= i1 then cc.(cwnd := Segments(mss, i1), incr := i1) else cc.(incr := i1)
  }

  function Avoid(mss: int, cc: Cc): (r: Cc)
    requires mss > 0
  {
    AvoidTo(mss, cc, Increase(mss, cc.incr))
  }

  function Clip(mss: int, cc: Cc): (r: Cc) {
    if cc.cwnd > cc.rmtWnd then cc.(cwnd := cc.rmtWnd, incr := Wrap(cc.rmtWnd * mss)) else cc
  }

  /** Congestion window growth after new data was acknowledged. */
  function Grow(cfg: Config, cc: Cc): (r: Cc) {
    var mss := cfg.Mss();
    if cc.cwnd >= cc.rmtWnd then cc
    else Clip(mss, if cc.cwnd < cc.ssthresh then SlowStart(mss, cc) else Avoid(mss, cc))
  }

  /** What ikcp_input does after its loop. */
  function InputTail(m: Arith, cfg: Config, prevUna: int, s: Scan): (k': Ctl) {
    var k := if s.flag then s.k.(snd := ParseFastack(m, s.k.snd, s.maxack)) else s.k;
    if Diff(m, k.snd.una, prevUna) > 0 then k.(cc := Grow(cfg, k.cc)) else k
  }

  /** ikcp_input on a datagram that parses completely. */
  function Input(m: Arith, cfg: Config, k: Ctl, d: Datagram): (k': Ctl) {
    InputTail(m, cfg, k.snd.una, InputSegs(m, cfg, Scan(k, false, 0), d))
  }

  // ----- flush ---------------------------------------------------------------------------

  /** Values that ikcp_flush reads once and stamps on what it sends. */
  datatype Env = Env(current: int, rto: int, wnd: int, una: int)

  function WndUnused(cfg: Config, r: Rcv): (w: int) {
    if |r.queue| < cfg.rcvWnd then cfg.rcvWnd - |r.queue| else 0
  }

  function EnvOf(cfg: Config, k: Ctl): (e: Env) {
    Env(k.clock.current, k.rtt.rto, WndUnused(cfg, k.rcv), k.rcv.nxt)
  }

  function Control(e: Env, cmd: int, a: Ack): (w: Wire) {
    Wire(cmd, 0, e.wnd % 65536, a.ts, a.sn, e.una, [])
  }

  function AckWires(e: Env, acks: seq<Ack>): (ws: seq<Wire>)
    ensures |ws| == |acks|
    ensures forall i :: 0 <= i < |ws| ==> ws[i] == Control(e, ACK, acks[i])
  {
    if acks == [] then []
    else AckWires(e, acks[..|acks| - 1]) + [Control(e, ACK, acks[|acks| - 1])]
  }

  function ProbeTimer(p: Probe, rmtWnd: int, current: int): (r: Probe) {
    if rmtWnd != 0 then p.(ts := 0, wait := 0)
    else if p.wait == 0 then p.(wait := PROBE_INIT, ts := Wrap(current + PROBE_INIT))
    else if TimeDiff(current, p.ts) >= 0 then
      var w := Max(p.wait, PROBE_INIT);
      var w' := Min(w + w / 2, PROBE_LIMIT);
      p.(wait := w', ts := Wrap(current + w'), ask := true)
    else p
  }

  /** The template keeps the sn and ts of the last acknowledgement it was used for. */
  function LastAck(acks: seq<Ack>): (a: Ack) {
    if acks == [] then Ack(0, 0) else acks[|acks| - 1]
  }

  function ProbeWires(e: Env, p: Probe, last: Ack): (ws: seq<Wire>) {
    (if p.ask then [Control(e, WASK, last)] else [])
    + (if p.tell then [Control(e, WINS, last)] else [])
  }

  function EffectiveWnd(cfg: Config, cc: Cc): (w: int) {
    var w := Min(cfg.sndWnd, cc.rmtWnd);
    if cfg.noCwnd then w else Min(cc.cwnd, w)
  }

  function Fresh(e: Env, sn: int, p: Piece): (s: OutSeg) {
    OutSeg(sn, p, e.wnd, e.current, e.una, e.current, e.rto, 0, 0)
  }

  /** Numbers queued pieces while the window is open. */
  function Number(m: Arith, e: Env, wnd: int, s: Snd): (r: Snd)
    decreases |s.queue|
  {
    if Diff(m, s.nxt, Norm(m, s.una + wnd)) < 0 && s.queue != [] then
      Number(m, e, wnd, s.(queue := s.queue[1..], buf := s.buf + [Fresh(e, s.nxt, s.queue[0])],
                           nxt := Norm(m, s.nxt + 1), numbered := s.numbered + [s.queue[0]]))
    else s
  }

  function Resent(cfg: Config): (r: int) {
    if cfg.fastResend > 0 then cfg.fastResend else 0xffff_ffff
  }

  datatype Fate = Keep | First | Timeout | Fast

  function FateOf(cfg: Config, current: int, s: OutSeg): (f: Fate) {
    if s.xmit == 0 then First
    else if TimeDiff(current, s.resendts) >= 0 then Timeout
    else if s.fastack >= Resent(cfg) && (Signed(s.xmit) <= cfg.fastLimit || cfg.fastLimit <= 0) then Fast
    else Keep
  }

  function BackOff(cfg: Config, e: Env, rto: int): (r: int) {
    if cfg.nodelay == 0 then Wrap(rto + Max(rto, e.rto))
    else Wrap(rto + HalfTrunc(if cfg.nodelay < 2 then Signed(rto) else e.rto))
  }

  /** The entry of snd_buf after flush has looked at it. */
  function Touch(cfg: Config, e: Env, s: OutSeg): (r: OutSeg) {
    var f := FateOf(cfg, e.current, s);
    if f.Keep? then s
    else
      var t := s.(xmit := Wrap(s.xmit + 1), ts := e.current, wnd := e.wnd, una := e.una);
      match f
      case First => t.(rto := e.rto, resendts := Wrap(e.current + e.rto + (if cfg.nodelay == 0 then e.rto / 8 else 0)))
      case Timeout =>
        var rto := BackOff(cfg, e, s.rto);
        t.(rto := rto, resendts := Wrap(e.current + rto))
      case Fast => t.(fastack := 0, resendts := Wrap(e.current + s.rto))
  }

  function PushWire(s: OutSeg): (w: Wire) {
    Wire(PUSH, s.piece.frg % 256, s.wnd % 65536, s.ts, s.sn, s.una, s.piece.data)
  }

  /** The data loop of flush: new buffer, transmitted segments, and its counters. */
  datatype Tx = Tx(buf: seq<OutSeg>, wires: seq<Wire>, timeouts: nat, fasts: nat, dead: bool)

  function Transmit(cfg: Config, e: Env, buf: seq<OutSeg>): (t: Tx) {
    if buf == [] then Tx([], [], 0, 0, false)
    else
      var t := Transmit(cfg, e, buf[..|buf| - 1]);
      var s := buf[|buf| - 1];
      var f := FateOf(cfg, e.current, s);
      var s' := Touch(cfg, e, s);
      Tx(t.buf + [s'],
         if f.Keep? then t.wires else t.wires + [PushWire(s')],
         t.timeouts + (if f.Timeout? then 1 else 0),
         t.fasts + (if f.Fast? then 1 else 0),
         t.dead || (!f.Keep? && s'.xmit >= cfg.deadLink))
  }

  function Backed(cfg: Config, cc: Cc, inflight: int, wnd: int, fast: bool, lost: bool): (r: Cc) {
    var c1 :=
      if !fast then cc
      else
        var th := Max(inflight / 2, THRESH_MIN);
        var cw := Wrap(th + Resent(cfg));
        cc.(ssthresh := th, cwnd := cw, incr := Wrap(cw * cfg.Mss()));
    var c2 := if lost then c1.(ssthresh := Max(wnd / 2, THRESH_MIN), cwnd := 1, incr := cfg.Mss()) else c1;
    if c2.cwnd < 1 then c2.(cwnd := 1, incr := cfg.Mss()) else c2
  }

  // ----- packing -------------------------------------------------------------------------

  function Size(d: Datagram): (n: nat)
  {
    if d == [] then 0 else Size(d[..|d| - 1]) + OVERHEAD + |d[|d| - 1].data|
  }

  /** The output buffer of flush: datagrams already output and the one being filled. */
  datatype Packer = Packer(done: seq<Datagram>, cur: Datagram)

  function Cut(p: Packer): (r: seq<Datagram>) {
    if p.cur == [] then p.done else p.done + [p.cur]
  }

  function Put(mtu: int, p: Packer, w: Wire): (r: Packer) {
    if Size(p.cur) + OVERHEAD + |w.data| > mtu then Packer(Cut(p), [w]) else p.(cur := p.cur + [w])
  }

  function PutAll(mtu: int, p: Packer, ws: seq<Wire>): (r: Packer) {
    if ws == [] then p else Put(mtu, PutAll(mtu, p, ws[..|ws| - 1]), ws[|ws| - 1])
  }

  function Pack(mtu: int, ws: seq<Wire>): (r: seq<Datagram>) {
    Cut(PutAll(mtu, Packer([], []), ws))
  }

  // ----- flush, update, check ------------------------------------------------------------

  /** snd_queue and snd_buf when flush enters its data loop. */
  function Refill(m: Arith, cfg: Config, k: Ctl): (s: Snd) {
    Number(m, EnvOf(cfg, k), EffectiveWnd(cfg, k.cc), k.snd)
  }

  /** All segments one flush sends: acknowledgements, probes, then due data. */
  function Sent(m: Arith, cfg: Config, k: Ctl): (ws: seq<Wire>) {
    var e := EnvOf(cfg, k);
    AckWires(e, k.acks)
    + ProbeWires(e, ProbeTimer(k.probe, k.cc.rmtWnd, e.current), LastAck(k.acks))
    + Transmit(cfg, e, Refill(m, cfg, k).buf).wires
  }

  /** The control block after flush: s is the refilled sending half, t its data loop. */
  function AfterFlush(cfg: Config, k: Ctl, s: Snd, t: Tx, inflight: int): (k': Ctl) {
    k.(snd := s.(buf := t.buf),
       acks := [],
       probe := ProbeTimer(k.probe, k.cc.rmtWnd, k.clock.current).(ask := false, tell := false),
       cc := Backed(cfg, k.cc, inflight, EffectiveWnd(cfg, k.cc), t.fasts > 0, t.timeouts > 0),
       xmit := Wrap(k.xmit + t.timeouts),
       dead := k.dead || t.dead)
  }

  /** ikcp_flush once ikcp_update has been called; the new state. */
  function FlushState(m: Arith, cfg: Config, k: Ctl): (k': Ctl) {
    var s := Refill(m, cfg, k);
    AfterFlush(cfg, k, s, Transmit(cfg, EnvOf(cfg, k), s.buf), Norm(m, s.nxt - s.una))
  }

  /** ikcp_flush: new state and datagrams output. */
  function Flush(m: Arith, cfg: Config, k: Ctl): (r: (Ctl, seq<Datagram>)) {
    if !k.clock.updated then (k, []) else (FlushState(m, cfg, k), Pack(cfg.mtu, Sent(m, cfg, k)))
  }

  /** The clock part of ikcp_update: the new clock, and whether it flushes. */
  function Tick(interval: int, c: Clock, current: int): (r: (Clock, bool)) {
    var start := if c.updated then c.tsFlush else current;
    var slap := TimeDiff(current, start);
    var reset := slap >= 10000 || slap < -10000;
    var start' := if reset then current else start;
    if reset || slap >= 0 then
      var next := Wrap(start' + interval);
      (Clock(current, if TimeDiff(current, next) >= 0 then Wrap(current + interval) else next, true), true)
    else (Clock(current, start', true), false)
  }

  function Update(m: Arith, cfg: Config, k: Ctl, current: u32): (r: (Ctl, seq<Datagram>)) {
    var (c, go) := Tick(cfg.interval, k.clock, current);
    if go then Flush(m, cfg, k.(clock := c)) else (k.(clock := c), [])
  }

  /** The loop of ikcp_check: None when some segment is already due, else the least wait. */
  datatype Wait = Due | In(ms: int)

  function Soonest(buf: seq<OutSeg>, current: int): (w: Wait) {
    if buf == [] then In(0x7fff_ffff)
    else
      var w := Soonest(buf[..|buf| - 1], current);
      var d := TimeDiff(buf[|buf| - 1].resendts, current);
      if w.Due? || d <= 0 then Due else In(Min(d, w.ms))
  }

  function Check(cfg: Config, k: Ctl, current: u32): (r: u32) {
    var lag := TimeDiff(current, k.clock.tsFlush);
    if !k.clock.updated || lag >= 10000 || lag < -10000 || lag >= 0 then current
    else
      match Soonest(k.snd.buf, current)
      case Due => current
      case In(ms) =>
        var minimal := Min(ms, TimeDiff(k.clock.tsFlush, current));
        Wrap(current + Min(minimal, cfg.interval))
  }
}
