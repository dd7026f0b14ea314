/** Window probes: a sender that was told of a full window learns when it opens again. */
module Probing {
  import opened Words
  import opened Protocol
  import opened System
  import opened Packing
  import opened Progress
  import Safety

  // ----- the timer -----------------------------------------------------------------------

  /** The wait between probes is off or between 7 and 120 seconds, and no question is left over. */
  ghost predicate ProbeOk(p: Probe) {
    (p.wait == 0 || PROBE_INIT <= p.wait <= PROBE_LIMIT) && !p.ask
  }

  lemma TimerOk(p: Probe, rmtWnd: int, current: int)
    requires ProbeOk(p)
    ensures ProbeOk(ProbeTimer(p, rmtWnd, current).(ask := false))
    ensures rmtWnd == 0 ==> ProbeTimer(p, rmtWnd, current).wait >= Max(p.wait, PROBE_INIT)
    ensures rmtWnd != 0 ==> ProbeTimer(p, rmtWnd, current).wait == 0
  {
  }

  lemma {:induction false} InputSegsProbe(cfg: Config, s: Scan, d: Datagram)
    ensures var p := InputSegs(Exact, cfg, s, d).k.probe;
            && p == s.k.probe.(tell := p.tell)
            && (p.tell <==> s.k.probe.tell || exists w :: w in d && w.cmd == WASK)
    decreases |d|
  {
    if d != [] {
      InputSegsProbe(cfg, InputSeg(Exact, cfg, s, d[0]), d[1..]);
      assert d[0] in d && forall w :: w in d <==> w == d[0] || w in d[1..];
    }
  }

  /** Of ikcp_input, only a question sets the flag to tell the window. */
  lemma InputProbe(cfg: Config, k: Ctl, d: Datagram)
    ensures var p := Input(Exact, cfg, k, d).probe;
            && p == k.probe.(tell := p.tell)
            && (p.tell <==> k.probe.tell || exists w :: w in d && w.cmd == WASK)
  {
    InputSegsProbe(cfg, Scan(k, false, 0), d);
  }

  lemma ActProbe(cfg: Config, k: Ctl, inbox: seq<Datagram>, op: Op)
    requires ProbeOk(k.probe)
    ensures ProbeOk(Act(Exact, cfg, k, inbox, op).0.probe)
  {
    TimerOk(k.probe, k.cc.rmtWnd, k.clock.current);
    match op
    case DoSend(_) =>
    case DoRecv(_) =>
    case DoUpdate(time) => TimerOk(k.probe, k.cc.rmtWnd, time);
    case DoFlush =>
    case DoDeliver(i) => if i < |inbox| { InputProbe(cfg, k, inbox[i]); }
  }

  lemma {:induction false} RunProbe(c: Pair, acts: seq<Action>)
    ensures ProbeOk(Run(Exact, c, acts).x.probe) && ProbeOk(Run(Exact, c, acts).y.probe)
  {
    if acts != [] {
      var s, a := Run(Exact, c, acts[..|acts| - 1]), acts[|acts| - 1];
      RunProbe(c, acts[..|acts| - 1]);
      if a.side.A? { ActProbe(c.x, s.x, s.yx, a.op); } else { ActProbe(c.y, s.y, s.xy, a.op); }
    }
  }

  // ----- question and answer -------------------------------------------------------------

  ghost predicate Asks(d: Datagram) {
    exists w :: w in d && w.cmd == WASK
  }

  /** The peer's window is closed and the probe timer has run out. */
  ghost predicate ProbeDue(k: Ctl) {
    k.clock.updated && k.cc.rmtWnd == 0 && k.probe.wait != 0 && TimeDiff(k.clock.current, k.probe.ts) >= 0
  }

  /** Every segment sent is in some datagram. */
  lemma {:induction false} FlatHas(ds: seq<Datagram>, w: Wire)
    requires w in Flat(ds)
    ensures exists j :: 0 <= j < |ds| && w in ds[j]
  {
    var k := |ds| - 1;
    if w !in ds[k] {
      FlatHas(ds[..k], w);
      var j :| 0 <= j < k && w in ds[..k][j];
      assert w in ds[j];
    }
  }

  lemma SentAsk(cfg: Config, k: Ctl)
    requires ProbeDue(k)
    ensures Control(EnvOf(cfg, k), WASK, LastAck(k.acks)) in Sent(Exact, cfg, k)
  {
    var ask := Control(EnvOf(cfg, k), WASK, LastAck(k.acks));
    var ps := ProbeWires(EnvOf(cfg, k), ProbeTimer(k.probe, k.cc.rmtWnd, k.clock.current), LastAck(k.acks));
    assert ps[0] == ask;
  }

  lemma SentTell(cfg: Config, k: Ctl)
    requires k.probe.tell
    ensures Control(EnvOf(cfg, k), WINS, LastAck(k.acks)) in Sent(Exact, cfg, k)
  {
    var tell := Control(EnvOf(cfg, k), WINS, LastAck(k.acks));
    var ps := ProbeWires(EnvOf(cfg, k), ProbeTimer(k.probe, k.cc.rmtWnd, k.clock.current), LastAck(k.acks));
    assert ps[|ps| - 1] == tell;
  }

  /** A flush with the timer run out outputs a datagram that asks. */
  lemma FlushAsks(cfg: Config, k: Ctl) returns (j: nat)
    requires ProbeDue(k)
    ensures j < |Flush(Exact, cfg, k).1| && Asks(Flush(Exact, cfg, k).1[j])
  {
    SentAsk(cfg, k);
    PackFlat(cfg.mtu, Sent(Exact, cfg, k));
    FlatHas(Pack(cfg.mtu, Sent(Exact, cfg, k)), Control(EnvOf(cfg, k), WASK, LastAck(k.acks)));
    j :| 0 <= j < |Pack(cfg.mtu, Sent(Exact, cfg, k))|
         && Control(EnvOf(cfg, k), WASK, LastAck(k.acks)) in Pack(cfg.mtu, Sent(Exact, cfg, k))[j];
  }

  /** Every data segment sent is stamped with the window of this flush. */
  lemma {:induction false} TransmitWnd(cfg: Config, e: Env, buf: seq<OutSeg>)
    ensures forall w :: w in Transmit(cfg, e, buf).wires ==> w.wnd == e.wnd % 65536
  {
    if buf != [] { TransmitWnd(cfg, e, buf[..|buf| - 1]); }
  }

  /** Every segment of a flush announces the free space of the receive queue, cut to 16 bits. */
  lemma SentWnd(cfg: Config, k: Ctl)
    ensures forall w :: w in Sent(Exact, cfg, k) ==> w.wnd == WndUnused(cfg, k.rcv) % 65536
  {
    TransmitWnd(cfg, EnvOf(cfg, k), Refill(Exact, cfg, k).buf);
    var e := EnvOf(cfg, k);
    forall w | w in AckWires(e, k.acks) ensures w.wnd == e.wnd % 65536 {
      var i :| 0 <= i < |k.acks| && AckWires(e, k.acks)[i] == w;
    }
  }

  /** A flush that owes an answer outputs at least one datagram, and all announce the window. */
  lemma FlushTells(cfg: Config, k: Ctl)
    requires k.clock.updated && k.probe.tell
    ensures Flush(Exact, cfg, k).1 != []
    ensures forall d, w :: d in Flush(Exact, cfg, k).1 && w in d ==> w.wnd == WndUnused(cfg, k.rcv) % 65536
    ensures forall d :: d in Flush(Exact, cfg, k).1 ==> d != []
  {
    SentTell(cfg, k);
    SentWnd(cfg, k);
    PackFlat(cfg.mtu, Sent(Exact, cfg, k));
    PackMembers(cfg.mtu, Sent(Exact, cfg, k));
    PackNonEmpty(cfg.mtu, Sent(Exact, cfg, k));
  }

  lemma {:induction false} InputSegsWnd(cfg: Config, s: Scan, d: Datagram, wnd: int)
    requires forall w :: w in d ==> w.wnd == wnd
    ensures InputSegs(Exact, cfg, s, d).k.cc.rmtWnd == if d == [] then s.k.cc.rmtWnd else wnd
    decreases |d|
  {
    if d != [] {
      assert d[0] in d;
      InputSegsWnd(cfg, InputSeg(Exact, cfg, s, d[0]), d[1..], wnd);
    }
  }

  /** A datagram that announces one window leaves that window known. */
  lemma InputWnd(cfg: Config, k: Ctl, d: Datagram, wnd: int)
    requires d != [] && forall w :: w in d ==> w.wnd == wnd
    ensures Input(Exact, cfg, k, d).cc.rmtWnd == wnd
  {
    InputSegsWnd(cfg, Scan(k, false, 0), d, wnd);
  }

  /** When datagram j of x's log arrives, y's next flush outputs something, and any datagram of that
      flush tells x the room in y's queue. */
  ghost predicate Reopens(c: Pair, s: Sys, j: nat) {
    var t := Answered(c, Received(c, Flushed(c, s), j));
    && |s.yx| < |t.yx|
    && forall i :: |s.yx| <= i < |t.yx| ==>
         Acknowledged(c, t, i).x.cc.rmtWnd == WndUnused(c.y, t.y.rcv) % 65536
  }

  /** y after a question has arrived: it owes an answer. */
  lemma AskArrives(c: Pair, s: Sys, j: nat)
    requires j < |s.xy| && Asks(s.xy[j])
    ensures var t := Received(c, s, j); t.y.probe.tell && t.y.clock == s.y.clock && t.yx == s.yx
  {
    InputProbe(c.y, s.y, s.xy[j]);
    ClockKept(c.y, Scan(s.y, false, 0), s.xy[j]);
  }

  lemma AnswerArrives(c: Pair, s: Sys)
    requires s.y.clock.updated && s.y.probe.tell
    ensures var t := Answered(c, s);
            && |s.yx| < |t.yx| && t.y.rcv == s.y.rcv
            && forall i :: |s.yx| <= i < |t.yx| ==>
                 Acknowledged(c, t, i).x.cc.rmtWnd == WndUnused(c.y, s.y.rcv) % 65536
  {
    var t := Answered(c, s);
    AnsweredLog(c, s);
    FlushTells(c.y, s.y);
    var out := Flush(Exact, c.y, s.y).1;
    forall i | |s.yx| <= i < |t.yx|
      ensures Acknowledged(c, t, i).x.cc.rmtWnd == WndUnused(c.y, s.y.rcv) % 65536
    {
      assert t.yx[i] == out[i - |s.yx|] && out[i - |s.yx|] in out;
      InputWnd(c.x, t.x, t.yx[i], WndUnused(c.y, s.y.rcv) % 65536);
    }
  }

  /** A closed window reopens, from any state: once the probe timer has run out, x's flush outputs a
      question; when it arrives, y's flush outputs something; and any datagram of that, when it arrives,
      tells x the room in y's queue. */
  lemma ZeroWindowRecovery(c: Pair, s: Sys)
    requires ProbeDue(s.x) && s.y.clock.updated
    ensures exists j :: |s.xy| <= j < |Flushed(c, s).xy| && Asks(Flushed(c, s).xy[j])
    ensures forall j :: |s.xy| <= j < |Flushed(c, s).xy| && Asks(Flushed(c, s).xy[j]) ==> Reopens(c, s, j)
  {
    var f := Flushed(c, s);
    FlushedLog(c, s);
    var k := FlushAsks(c.x, s.x);
    assert f.xy[|s.xy| + k] == Flush(Exact, c.x, s.x).1[k];
    hide Asks, Flushed, Received, Answered, Acknowledged;
    forall j | |s.xy| <= j < |f.xy| && Asks(f.xy[j]) ensures Reopens(c, s, j) {
      AskArrives(c, f, j);
      AnswerArrives(c, Received(c, f, j));
    }
  }

  // ----- questions and answers, exactly --------------------------------------------------

  /** The timer has run out with the window closed. */
  predicate Expired(k: Ctl) {
    k.cc.rmtWnd == 0 && k.probe.wait != 0 && Signed(k.clock.current - k.probe.ts) >= 0
  }

  /** What a flush makes of the probe timer: off with an open window; 7 seconds when the window closes; half as long again, up
      to 120 seconds, each time it runs out; and otherwise as it was. Nothing is left to ask or to tell. */
  lemma FlushProbe(cfg: Config, k: Ctl)
    ensures var p, p' := k.probe, FlushState(Exact, cfg, k).probe;
            && !p'.ask && !p'.tell
            && (k.cc.rmtWnd != 0 ==> p'.wait == 0 && p'.ts == 0)
            && (k.cc.rmtWnd == 0 && p.wait == 0 ==> p'.wait == 7000 && p'.ts == Wrap(k.clock.current + 7000))
            && (Expired(k) && 7000 <= p.wait <= 120000 ==>
                  && (p'.wait == 120000 || 2 * p'.wait <= 3 * p.wait < 2 * p'.wait + 2) && p'.wait <= 120000
                  && (p'.wait == 120000 ==> 240000 <= 3 * p.wait) && p'.ts == Wrap(k.clock.current + p'.wait))
            && (k.cc.rmtWnd == 0 && p.wait != 0 && !Expired(k) ==> p'.wait == p.wait && p'.ts == p.ts)
  {
    hide Refill, Transmit, Backed;
  }

  /** A flush asks for the peer's window exactly when the timer has run out, and tells its own exactly when it owes that. */
  lemma FlushAsksTells(cfg: Config, k: Ctl)
    requires !k.probe.ask
    ensures (exists w :: w in Sent(Exact, cfg, k) && w.cmd == WASK) <==> Expired(k)
    ensures (exists w :: w in Sent(Exact, cfg, k) && w.cmd == WINS) <==> k.probe.tell
  {
    var e := EnvOf(cfg, k);
    var p := ProbeTimer(k.probe, k.cc.rmtWnd, e.current);
    var acks, probes := AckWires(e, k.acks), ProbeWires(e, p, LastAck(k.acks));
    var data := Transmit(cfg, e, Refill(Exact, cfg, k).buf).wires;
    Safety.TransmitWires(cfg, e, Refill(Exact, cfg, k).buf);
    hide Refill, Transmit, ProbeTimer;
    AsksWhen(k);
    forall w: Wire | w in acks ensures w.cmd == ACK { var i :| 0 <= i < |k.acks| && acks[i] == w; }
    if Expired(k) { assert probes[0].cmd == WASK && probes[0] in Sent(Exact, cfg, k); }
    if k.probe.tell { assert probes[|probes| - 1].cmd == WINS && probes[|probes| - 1] in Sent(Exact, cfg, k); }
  }

  lemma AsksWhen(k: Ctl)
    requires !k.probe.ask
    ensures var p := ProbeTimer(k.probe, k.cc.rmtWnd, k.clock.current);
            (p.ask <==> Expired(k)) && (p.tell <==> k.probe.tell)
  {
  }

  /** The control segments of a flush: no data, the cumulative acknowledgement, the room, and for questions and answers the
      number and timestamp of the last acknowledgement sent, or 0. */
  lemma ControlSent(cfg: Config, k: Ctl)
    ensures forall w :: w in Sent(Exact, cfg, k) && w.cmd != PUSH ==>
              && w.frg == 0 && w.data == [] && w.una == k.rcv.nxt
              && w.wnd == Max(0, cfg.rcvWnd - |k.rcv.queue|) % 65536
              && (w.cmd == ACK ==> Ack(w.sn, w.ts) in k.acks)
              && (w.cmd != ACK ==> Ack(w.sn, w.ts) == if k.acks == [] then Ack(0, 0) else k.acks[|k.acks| - 1])
  {
    var e := EnvOf(cfg, k);
    var acks := AckWires(e, k.acks);
    Safety.TransmitWires(cfg, e, Refill(Exact, cfg, k).buf);
    hide Refill, Transmit, ProbeTimer;
    forall w | w in acks ensures exists i :: 0 <= i < |k.acks| && w == Control(e, ACK, k.acks[i]) {
      var i :| 0 <= i < |k.acks| && acks[i] == w;
    }
  }

  // ----- a window that reopens -----------------------------------------------------------

  /** Reading owes the peer word of the window exactly when it made room in a full queue. */
  lemma RecvOwes(m: Arith, cfg: Config, k: Ctl, len: int)
    ensures var k' := Recv(m, cfg, k, len);
            && k'.probe == k.probe.(tell := k'.probe.tell)
            && (k'.probe.tell <==> k.probe.tell || (|k'.rcv.queue| < cfg.rcvWnd <= |k.rcv.queue|))
  {
  }

  /** And then the next flush outputs something, and all of it announces the room. */
  lemma ReopenedTold(cfg: Config, k: Ctl, len: int)
    requires k.clock.updated
    ensures var k' := Recv(Exact, cfg, k, len);
            |k'.rcv.queue| < cfg.rcvWnd <= |k.rcv.queue| ==>
              && Flush(Exact, cfg, k').1 != []
              && forall d, w :: d in Flush(Exact, cfg, k').1 && w in d ==>
                   w.wnd == (cfg.rcvWnd - |k'.rcv.queue|) % 65536
  {
    hide Flush;
    var k' := Recv(Exact, cfg, k, len);
    RecvOwes(Exact, cfg, k, len);
    if |k'.rcv.queue| < cfg.rcvWnd <= |k.rcv.queue| { FlushTells(cfg, k'); }
  }
}
