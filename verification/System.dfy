/**
 Two endpoints over a network that loses, duplicates and reorders datagrams. The network is the
 log of every datagram ever output; a delivery picks any entry of the log, any number of times.
 */
module System {
  import opened Words
  import opened Protocol
  import opened Safety
  import Packing
  import Seqs

  // ----- runs ----------------------------------------------------------------------------

  datatype Op = DoSend(data: seq<byte>) | DoRecv(len: int) | DoUpdate(time: u32) | DoFlush | DoDeliver(i: nat)
  datatype Side = A | B
  datatype Action = Action(side: Side, op: Op)

  /** xy holds the datagrams output by x, yx those output by y. */
  datatype Sys = Sys(x: Ctl, y: Ctl, xy: seq<Datagram>, yx: seq<Datagram>)
  {
    function Flip(): (s: Sys) {
      Sys(y, x, yx, xy)
    }
  }

  datatype Pair = Pair(x: Config, y: Config)
  {
    function Flip(): (c: Pair) {
      Pair(y, x)
    }
  }

  /** One call on an endpoint: its new state and what it outputs. */
  function Act(m: Arith, cfg: Config, k: Ctl, inbox: seq<Datagram>, op: Op): (r: (Ctl, seq<Datagram>)) {
    match op
    case DoSend(data) => (k.(snd := Send(cfg, k.snd, data).0), [])
    case DoRecv(len) => (Recv(m, cfg, k, len), [])
    case DoUpdate(time) => Update(m, cfg, k, time)
    case DoFlush => Flush(m, cfg, k)
    case DoDeliver(i) => (if i < |inbox| then Input(m, cfg, k, inbox[i]) else k, [])
  }

  function StepX(m: Arith, c: Pair, s: Sys, op: Op): (s': Sys) {
    var (k, out) := Act(m, c.x, s.x, s.yx, op);
    s.(x := k, xy := s.xy + out)
  }

  function Step(m: Arith, c: Pair, s: Sys, a: Action): (s': Sys) {
    if a.side.A? then StepX(m, c, s, a.op) else StepX(m, c.Flip(), s.Flip(), a.op).Flip()
  }

  function Start(): (s: Sys) {
    Sys(Create(), Create(), [], [])
  }

  function Run(m: Arith, c: Pair, acts: seq<Action>): (s: Sys) {
    if acts == [] then Start() else Step(m, c, Run(m, c, acts[..|acts| - 1]), acts[|acts| - 1])
  }

  // ----- the invariant -------------------------------------------------------------------

  /** A data segment in the network is what the sender numbered. */
  ghost predicate PushOk(w: Wire, numbered: seq<Piece>) {
    w.cmd == PUSH ==> 0 <= w.sn < |numbered| && Piece(w.frg, w.data) == numbered[w.sn]
  }

  /** An acknowledgement in the network speaks of numbers the receiver holds. */
  ghost predicate BackOk(w: Wire, r: Rcv) {
    w.una <= r.nxt && (w.cmd == ACK ==> Held(r, w.sn))
  }

  ghost predicate Pushes(log: seq<Datagram>, numbered: seq<Piece>) {
    forall d, w :: d in log && w in d ==> PushOk(w, numbered)
  }

  ghost predicate Backs(log: seq<Datagram>, r: Rcv) {
    forall d, w :: d in log && w in d ==> BackOk(w, r)
  }

  ghost predicate AcksHeld(acks: seq<Ack>, r: Rcv) {
    forall a :: a in acks ==> Held(r, a.sn)
  }

  /** Each number given out is still buffered by the sender or is held by the receiver. */
  ghost predicate NoLoss(s: Snd, r: Rcv) {
    forall n :: 0 <= n < s.nxt ==> InOut(s.buf, n) || Held(r, n)
  }

  /** What the sending half of an endpoint keeps, r being the peer's receiving half. */
  ghost predicate Sender(cfg: Config, s: Snd, r: Rcv, out: seq<Datagram>) {
    SndOk(s) && s.nxt - s.una <= cfg.sndWnd && NoLoss(s, r) && Pushes(out, s.numbered)
  }

  /** What the receiving half keeps, source being what the peer numbered. */
  ghost predicate Receiver(cfg: Config, k: Ctl, source: seq<Piece>, out: seq<Datagram>) {
    RcvOk(cfg.rcvWnd, k.rcv, source) && AcksHeld(k.acks, k.rcv) && Backs(out, k.rcv)
  }

  ghost predicate Inv(c: Pair, s: Sys) {
    && Sender(c.x, s.x.snd, s.y.rcv, s.xy)
    && Sender(c.y, s.y.snd, s.x.rcv, s.yx)
    && Receiver(c.x, s.x, s.y.snd.numbered, s.xy)
    && Receiver(c.y, s.y, s.x.snd.numbered, s.yx)
  }

  // ----- monotonicity --------------------------------------------------------------------

  ghost predicate Grows(r: Rcv, r': Rcv) {
    r.nxt <= r'.nxt && forall n :: Held(r, n) ==> Held(r', n)
  }

  lemma SourceGrows(wnd: int, r: Rcv, source: seq<Piece>, source': seq<Piece>)
    requires RcvOk(wnd, r, source) && source <= source'
    ensures RcvOk(wnd, r, source')
  {
    forall i | 0 <= i < |r.buf| ensures Awaited(r.buf[i], r.nxt, wnd, source') {
      assert Awaited(r.buf[i], r.nxt, wnd, source);
    }
  }

  // ----- input ---------------------------------------------------------------------------

  /** The sending half loses only numbers that the peer holds. */
  ghost predicate Releases(s: Snd, s': Snd, r: Rcv) {
    && s' == s.(una := s'.una, buf := s'.buf)
    && s.una <= s'.una
    && forall n :: InOut(s.buf, n) ==> InOut(s'.buf, n) || Held(r, n)
  }

  lemma SndInputOk(s: Snd, w: Wire, r: Rcv)
    requires SndOk(s) && BackOk(w, r)
    ensures SndOk(SndInput(Exact, s, w)) && Releases(s, SndInput(Exact, s, w), r)
    ensures Min(w.una, s.nxt) <= SndInput(Exact, s, w).una
  {
    UnaOk(s, w.una);
    var s1 := Shrink(s.(buf := DropBelow(Exact, s.buf, w.una)));
    if w.cmd == ACK {
      AckOk(s1, w.sn);
    }
  }

  lemma RcvInputOk(cfg: Config, k: Ctl, w: Wire, source: seq<Piece>)
    requires RcvOk(cfg.rcvWnd, k.rcv, source) && AcksHeld(k.acks, k.rcv) && PushOk(w, source)
    ensures var r := RcvInput(Exact, cfg.rcvWnd, k.rcv, w);
            && RcvOk(cfg.rcvWnd, r, source) && Grows(k.rcv, r) && r.taken == k.rcv.taken
            && AcksHeld(AckInput(Exact, cfg.rcvWnd, k.rcv, k.acks, w), r)
  {
    if w.cmd == PUSH {
      ParseDataOk(cfg.rcvWnd, k.rcv, InSeg(w.sn, Piece(w.frg, w.data)), source);
    }
  }

  lemma {:induction false} InputSegsOk(cfg: Config, s: Scan, d: Datagram, peer: Rcv, source: seq<Piece>)
    requires SndOk(s.k.snd) && RcvOk(cfg.rcvWnd, s.k.rcv, source) && AcksHeld(s.k.acks, s.k.rcv)
    requires forall w :: w in d ==> BackOk(w, peer) && PushOk(w, source)
    ensures var k := InputSegs(Exact, cfg, s, d).k;
            && SndOk(k.snd) && Releases(s.k.snd, k.snd, peer)
            && RcvOk(cfg.rcvWnd, k.rcv, source) && AcksHeld(k.acks, k.rcv) && Grows(s.k.rcv, k.rcv)
            && k.rcv.taken == s.k.rcv.taken
    decreases |d|
  {
    if d != [] {
      assert d[0] in d;
      SndInputOk(s.k.snd, d[0], peer);
      RcvInputOk(cfg, s.k, d[0], source);
      InputSegsOk(cfg, InputSeg(Exact, cfg, s, d[0]), d[1..], peer, source);
    }
  }

  lemma FastackOk(s: Snd, sn: int)
    requires SndOk(s)
    ensures var t := ParseFastack(Exact, s, sn);
            && SndOk(t) && t == s.(buf := t.buf) && forall n :: InOut(s.buf, n) <==> InOut(t.buf, n)
  {
    SkippedSame(Exact, s.buf, sn);
    SameNumbersOk(s, Skipped(Exact, s.buf, sn));
  }

  lemma InputOk(cfg: Config, k: Ctl, d: Datagram, peer: Rcv, source: seq<Piece>)
    requires SndOk(k.snd) && RcvOk(cfg.rcvWnd, k.rcv, source) && AcksHeld(k.acks, k.rcv)
    requires forall w :: w in d ==> BackOk(w, peer) && PushOk(w, source)
    ensures var k' := Input(Exact, cfg, k, d);
            && SndOk(k'.snd) && Releases(k.snd, k'.snd, peer)
            && RcvOk(cfg.rcvWnd, k'.rcv, source) && AcksHeld(k'.acks, k'.rcv) && Grows(k.rcv, k'.rcv)
            && k'.rcv.taken == k.rcv.taken
  {
    InputSegsOk(cfg, Scan(k, false, 0), d, peer, source);
    var s := InputSegs(Exact, cfg, Scan(k, false, 0), d);
    FastackOk(s.k.snd, s.maxack);
  }

  // ----- flush ---------------------------------------------------------------------------

  lemma FlushSndOk(cfg: Config, k: Ctl)
    requires SndOk(k.snd) && k.snd.nxt - k.snd.una <= cfg.sndWnd
    ensures var s := FlushState(Exact, cfg, k).snd;
            && SndOk(s) && s.una == k.snd.una && s.nxt - s.una <= cfg.sndWnd
            && s.accepted == k.snd.accepted
            && k.snd.numbered <= s.numbered && s.numbered + s.queue == k.snd.numbered + k.snd.queue
            && (forall n :: InOut(k.snd.buf, n) || k.snd.nxt <= n < s.nxt ==> InOut(s.buf, n))
            && (s.queue == [] || EffectiveWnd(cfg, k.cc) <= s.nxt - s.una)
  {
    var e, wnd := EnvOf(cfg, k), EffectiveWnd(cfg, k.cc);
    NumberOk(e, wnd, k.snd);
    NumberMembers(e, wnd, k.snd);
    var s := Refill(Exact, cfg, k);
    TransmitBuf(cfg, e, s.buf);
    SameNumbersOk(s, Transmit(cfg, e, s.buf).buf);
  }

  lemma AckWiresOk(e: Env, acks: seq<Ack>, r: Rcv)
    requires AcksHeld(acks, r) && e.una == r.nxt
    ensures forall w :: w in AckWires(e, acks) ==> BackOk(w, r) && w.cmd == ACK
  {
    forall w | w in AckWires(e, acks) ensures BackOk(w, r) && w.cmd == ACK {
      var i :| 0 <= i < |acks| && AckWires(e, acks)[i] == w;
      assert acks[i] in acks;
    }
  }

  lemma DataWiresOk(cfg: Config, e: Env, s: Snd)
    requires SndOk(s)
    ensures forall w :: w in Transmit(cfg, e, s.buf).wires ==>
              w.cmd == PUSH && w.una == e.una && PushOk(w, s.numbered)
  {
    TransmitWires(cfg, e, s.buf);
    forall w | w in Transmit(cfg, e, s.buf).wires
      ensures w.cmd == PUSH && w.una == e.una && PushOk(w, s.numbered)
    {
      var o :| o in s.buf && Carries(w, o);
      var i :| 0 <= i < |s.buf| && s.buf[i] == o;
      assert Numbered(s.buf[i], s.una, s.numbered);
    }
  }

  /** Every segment a flush sends is truthful in both directions. */
  lemma SentOk(cfg: Config, k: Ctl)
    requires SndOk(k.snd) && AcksHeld(k.acks, k.rcv)
    ensures forall w :: w in Sent(Exact, cfg, k) ==>
              BackOk(w, k.rcv) && PushOk(w, Refill(Exact, cfg, k).numbered)
  {
    var e := EnvOf(cfg, k);
    NumberOk(e, EffectiveWnd(cfg, k.cc), k.snd);
    AckWiresOk(e, k.acks, k.rcv);
    DataWiresOk(cfg, e, Refill(Exact, cfg, k));
  }

  // ----- one call keeps the invariant ----------------------------------------------------

  lemma {:induction false} FragmentFrg(data: seq<byte>, mss: int, stream: bool)
    requires mss > 0
    ensures forall i :: 0 <= i < |Fragment(data, mss, stream)| ==>
              0 <= Fragment(data, mss, stream)[i].frg < |Fragment(data, mss, stream)|
    decreases |data|
  {
    if |data| > mss { FragmentFrg(data[mss..], mss, stream); }
  }

  /** ikcp_send cuts exactly as many fragments as it counted. */
  lemma {:induction false} FragmentCount(data: seq<byte>, mss: int, stream: bool)
    requires mss > 0
    ensures |Fragment(data, mss, stream)| == FragCount(|data|, mss)
    decreases |data|
  {
    if |data| > mss {
      FragmentCount(data[mss..], mss, stream);
      var n := |data| - mss;
      assert (n + mss + mss - 1) / mss == (n + mss - 1) / mss + 1 by {
        DivStep(n + mss - 1, mss);
      }
      if n <= mss { DivOne(n, mss); }
    }
  }

  lemma SendSmallFrg(cfg: Config, s: Snd, data: seq<byte>)
    requires SmallFrg(s.queue)
    ensures SmallFrg(Send(cfg, s, data).0.queue)
  {
    var ext := Extension(cfg, s, |data|);
    assert SmallFrg(ExtendLast(cfg, s, data[..ext]).queue);
    FragmentFrg(data[ext..], cfg.Mss(), cfg.stream);
    FragmentCount(data[ext..], cfg.Mss(), cfg.stream);
  }

  lemma SendOk(cfg: Config, s: Snd, data: seq<byte>)
    requires SndOk(s)
    ensures SndOk(Send(cfg, s, data).0)
    ensures var t := Send(cfg, s, data).0; t == s.(queue := t.queue, accepted := t.accepted)
  {
    SendSmallFrg(cfg, s, data);
  }

  /** What a call of x does to its own halves, y being the peer. */
  ghost predicate Effect(c: Pair, s: Sys, k: Ctl, out: seq<Datagram>) {
    && SndOk(k.snd) && k.snd.nxt - k.snd.una <= c.x.sndWnd
    && s.x.snd.numbered <= k.snd.numbered
    && NoLoss(k.snd, s.y.rcv)
    && Pushes(out, k.snd.numbered)
    && Receiver(c.x, k, s.y.snd.numbered, out)
    && Grows(s.x.rcv, k.rcv)
  }

  lemma FlushEffect(c: Pair, s: Sys, k: Ctl)
    requires Inv(c, s) && k == s.x.(clock := k.clock)
    ensures Effect(c, s, Flush(Exact, c.x, k).0, Flush(Exact, c.x, k).1)
  {
    if k.clock.updated {
      FlushSndOk(c.x, k);
      SentOk(c.x, k);
      Packing.PackMembers(c.x.mtu, Sent(Exact, c.x, k));
      var k' := FlushState(Exact, c.x, k);
      assert NoLoss(k'.snd, s.y.rcv);
    }
  }

  lemma DeliverEffect(c: Pair, s: Sys, d: Datagram)
    requires Inv(c, s) && d in s.yx
    ensures Effect(c, s, Input(Exact, c.x, s.x, d), [])
  {
    InputOk(c.x, s.x, d, s.y.rcv, s.y.snd.numbered);
    assert NoLoss(Input(Exact, c.x, s.x, d).snd, s.y.rcv);
  }

  lemma SendEffect(c: Pair, s: Sys, data: seq<byte>)
    requires Inv(c, s)
    ensures Effect(c, s, s.x.(snd := Send(c.x, s.x.snd, data).0), [])
  {
    SendOk(c.x, s.x.snd, data);
  }

  lemma RecvEffect(c: Pair, s: Sys, len: int)
    requires Inv(c, s)
    ensures Effect(c, s, Recv(Exact, c.x, s.x, len), [])
  {
    RecvOk(c.x, s.x, len, s.y.snd.numbered);
  }

  lemma UpdateEffect(c: Pair, s: Sys, time: u32)
    requires Inv(c, s)
    ensures Effect(c, s, Update(Exact, c.x, s.x, time).0, Update(Exact, c.x, s.x, time).1)
  {
    var k := s.x.(clock := Tick(c.x.interval, s.x.clock, time).0);
    FlushEffect(c, s, k);
  }

  /** Every call of x has an effect that both directions tolerate. */
  lemma ActEffect(c: Pair, s: Sys, op: Op)
    requires Inv(c, s)
    ensures Effect(c, s, Act(Exact, c.x, s.x, s.yx, op).0, Act(Exact, c.x, s.x, s.yx, op).1)
  {
    match op
    case DoSend(data) => SendEffect(c, s, data);
    case DoRecv(len) => RecvEffect(c, s, len);
    case DoUpdate(time) => UpdateEffect(c, s, time);
    case DoFlush => FlushEffect(c, s, s.x);
    case DoDeliver(i) =>
      if i < |s.yx| {
        DeliverEffect(c, s, s.yx[i]);
      } else {
        assert Effect(c, s, s.x, []);
      }
  }

  lemma EffectInv(c: Pair, s: Sys, k: Ctl, out: seq<Datagram>)
    requires Inv(c, s) && Effect(c, s, k, out)
    ensures Inv(c, s.(x := k, xy := s.xy + out))
  {
    SourceGrows(c.y.rcvWnd, s.y.rcv, s.x.snd.numbered, k.snd.numbered);
    forall d, w | d in s.xy && w in d
      ensures PushOk(w, k.snd.numbered) && BackOk(w, k.rcv)
    {
      assert PushOk(w, s.x.snd.numbered) && BackOk(w, s.x.rcv);
    }
  }

  /** Every call on either endpoint keeps the invariant. */
  lemma StepInv(c: Pair, s: Sys, a: Action)
    requires Inv(c, s)
    ensures Inv(c, Step(Exact, c, s, a))
  {
    if a.side.A? {
      ActEffect(c, s, a.op);
      var (k, out) := Act(Exact, c.x, s.x, s.yx, a.op);
      EffectInv(c, s, k, out);
    } else {
      var (c', s') := (c.Flip(), s.Flip());
      ActEffect(c', s', a.op);
      var (k, out) := Act(Exact, c'.x, s'.x, s'.yx, a.op);
      EffectInv(c', s', k, out);
    }
  }

  lemma {:induction false} RunInv(c: Pair, acts: seq<Action>)
    ensures Inv(c, Run(Exact, c, acts))
  {
    if acts != [] {
      RunInv(c, acts[..|acts| - 1]);
      StepInv(c, Run(Exact, c, acts[..|acts| - 1]), acts[|acts| - 1]);
    }
  }

  // ----- consequences for every run ------------------------------------------------------

  /** In-order, exactly-once, unaltered delivery: what was ever moved to the receive queue of one
      side is a prefix of what the other side numbered. */
  lemma PrefixDelivery(c: Pair, acts: seq<Action>)
    ensures var s := Run(Exact, c, acts);
            && s.y.rcv.moved <= s.x.snd.numbered && |s.y.rcv.moved| == s.y.rcv.nxt
            && s.x.rcv.moved <= s.y.snd.numbered && |s.x.rcv.moved| == s.x.rcv.nxt
  {
    RunInv(c, acts);
  }

  lemma HeldBounds(wnd: int, r: Rcv, source: seq<Piece>)
    requires RcvOk(wnd, r, source) && wnd > 0
    ensures forall n :: Held(r, n) ==> n < r.nxt + wnd
    ensures |r.queue| < wnd ==> !Held(r, r.nxt)
  {
    forall i | 0 <= i < |r.buf|
      ensures r.buf[i].sn < r.nxt + wnd && (|r.queue| < wnd ==> r.buf[i].sn != r.nxt)
    {
      assert Awaited(r.buf[i], r.nxt, wnd, source);
      assert Awaited(r.buf[0], r.nxt, wnd, source);
    }
  }

  lemma BelowUna(s: Snd, n: int)
    requires SndOk(s) && InOut(s.buf, n)
    ensures s.una <= n
  {
    var i :| 0 <= i < |s.buf| && s.buf[i].sn == n;
    assert Numbered(s.buf[i], s.una, s.numbered);
  }

  /** The window relations that follow from NoLoss. */
  lemma AckBounds(s: Snd, wnd: int, r: Rcv)
    requires SndOk(s) && RcvOk(wnd, r, s.numbered) && NoLoss(s, r) && wnd > 0
    ensures r.nxt <= s.nxt && s.una <= r.nxt + wnd
    ensures |r.queue| < wnd ==> s.una <= r.nxt
  {
    HeldBounds(wnd, r, s.numbered);
    forall n | InOut(s.buf, n) ensures s.una <= n { BelowUna(s, n); }
    assert r.nxt + wnd < s.una ==> Held(r, r.nxt + wnd);
    assert r.nxt < s.una ==> Held(r, r.nxt);
  }

  /** Acknowledgement soundness in every reachable state, in both directions. */
  lemma AckSoundness(c: Pair, acts: seq<Action>)
    ensures var s := Run(Exact, c, acts);
            && NoLoss(s.x.snd, s.y.rcv) && NoLoss(s.y.snd, s.x.rcv)
            && s.y.rcv.nxt <= s.x.snd.nxt && s.x.snd.una <= s.y.rcv.nxt + c.y.rcvWnd
            && (|s.y.rcv.queue| < c.y.rcvWnd ==> s.x.snd.una <= s.y.rcv.nxt)
            && s.x.rcv.nxt <= s.y.snd.nxt && s.y.snd.una <= s.x.rcv.nxt + c.x.rcvWnd
            && (|s.x.rcv.queue| < c.x.rcvWnd ==> s.y.snd.una <= s.x.rcv.nxt)
  {
    RunInv(c, acts);
    var s := Run(Exact, c, acts);
    AckBounds(s.x.snd, c.y.rcvWnd, s.y.rcv);
    AckBounds(s.y.snd, c.x.rcvWnd, s.x.rcv);
  }

  /** Flow control in every reachable state, and what one more flush of x guarantees: it leaves no
      piece queued unless the in-flight span has reached the effective window. */
  lemma FlowControl(c: Pair, acts: seq<Action>)
    ensures var s := Run(Exact, c, acts);
            && 0 <= s.x.snd.nxt - s.x.snd.una <= c.x.sndWnd
            && 0 <= s.y.snd.nxt - s.y.snd.una <= c.y.sndWnd
            && (s.x.clock.updated ==>
                  var t := Step(Exact, c, s, Action(A, DoFlush)).x.snd;
                  t.queue == [] || EffectiveWnd(c.x, s.x.cc) <= t.nxt - t.una)
  {
    RunInv(c, acts);
    FlushSndOk(c.x, Run(Exact, c, acts).x);
  }

  // ----- longer runs ---------------------------------------------------------------------

  lemma RunSnoc(m: Arith, c: Pair, acts: seq<Action>, a: Action)
    ensures Run(m, c, acts + [a]) == Step(m, c, Run(m, c, acts), a)
  {
    assert (acts + [a])[..|acts|] == acts;
  }

  /** The first ikcp_update of an endpoint only starts its clock and opens its congestion window. */
  lemma FirstUpdate(m: Arith, cfg: Config)
    ensures var (k, out) := Update(m, cfg, Create(), 0);
            && k.clock == Clock(0, cfg.interval, true) && k.rtt == Create().rtt && k.snd == Create().snd
            && k.rcv == Create().rcv && k.acks == [] && k.cc.cwnd == 1 && k.cc.rmtWnd == WND_RCV && out == []
  {
    TimeAhead(0, cfg.interval);
    assert AckWires(EnvOf(cfg, Create()), []) == [];
  }

  // ----- symmetry ------------------------------------------------------------------------

  /** The same actions with the sides exchanged. */
  function Exchanged(acts: seq<Action>): (r: seq<Action>)
    ensures |r| == |acts|
  {
    Seqs.Map((a: Action) => Action(if a.side.A? then B else A, a.op), acts)
  }

  /** Exchanging the sides exchanges the states: what is proved of all runs from one endpoint to the other
      holds in the other direction too. */
  lemma {:induction false} RunExchanged(m: Arith, c: Pair, acts: seq<Action>)
    ensures Run(m, c.Flip(), Exchanged(acts)) == Run(m, c, acts).Flip()
  {
    if acts != [] {
      assert Exchanged(acts)[..|acts| - 1] == Exchanged(acts[..|acts| - 1]);
      RunExchanged(m, c, acts[..|acts| - 1]);
    }
  }
}
