/** From every reachable state the accepted data can still be delivered, acknowledged and read. */
module Completion {
  import opened Words
  import opened Protocol
  import opened Safety
  import opened System
  import opened Messages
  import opened Progress
  import Datagrams
  import Packing
  import Probing
  import Scheduler
  import Wraparound
  import ByteSystem
  import Seqs

  // ----- continuing a run ----------------------------------------------------------------

  /** What an endpoint that sends nothing new keeps. */
  ghost predicate EndKept(k: Ctl, k': Ctl) {
    && k'.snd.accepted == k.snd.accepted
    && k'.snd.numbered + k'.snd.queue == k.snd.numbered + k.snd.queue
    && k.snd.una <= k'.snd.una
    && k.rcv.nxt <= k'.rcv.nxt
    && (k.clock.updated ==> k'.clock.updated)
  }

  ghost predicate Kept(s: Sys, t: Sys) {
    EndKept(s.x, t.x) && EndKept(s.y, t.y)
  }

  /** more continues the run without new sends, and without deliveries that are stale for 32-bit numbers. */
  ghost predicate Extends(c: Pair, acts: seq<Action>, more: seq<Action>) {
    && acts <= more
    && (forall i :: |acts| <= i < |more| ==> !more[i].op.DoSend?)
    && Kept(Run(Exact, c, acts), Run(Exact, c, more))
    && (Wraparound.WindowsFit(c) && Wraparound.TimelyRun(c, acts) ==> Wraparound.TimelyRun(c, more))
  }

  lemma FlushKept(cfg: Config, k: Ctl)
    requires SndOk(k.snd) && k.snd.nxt - k.snd.una <= cfg.sndWnd
    ensures EndKept(k, Flush(Exact, cfg, k).0)
  {
    FlushSndOk(cfg, k);
  }

  lemma ActKept(c: Pair, s: Sys, op: Op)
    requires Inv(c, s) && !op.DoSend?
    ensures EndKept(s.x, Act(Exact, c.x, s.x, s.yx, op).0)
  {
    ActEffect(c, s, op);
    match op
    case DoRecv(len) =>
    case DoUpdate(time) => FlushKept(c.x, s.x.(clock := Tick(c.x.interval, s.x.clock, time).0));
    case DoFlush => FlushKept(c.x, s.x);
    case DoDeliver(i) => if i < |s.yx| { DeliverKept(c, s, s.yx[i]); }
  }

  lemma DeliverKept(c: Pair, s: Sys, d: Datagram)
    requires Inv(c, s) && d in s.yx
    ensures EndKept(s.x, Input(Exact, c.x, s.x, d))
  {
    InputOk(c.x, s.x, d, s.y.rcv, s.y.snd.numbered);
    ClockKept(c.x, Scan(s.x, false, 0), d);
  }

  lemma StepKept(c: Pair, s: Sys, a: Action)
    requires Inv(c, s) && !a.op.DoSend?
    ensures Kept(s, Step(Exact, c, s, a))
  {
    if a.side.A? { ActKept(c, s, a.op); } else { ActKept(c.Flip(), s.Flip(), a.op); }
  }

  /** One more action. */
  lemma Extend(c: Pair, acts: seq<Action>, mid: seq<Action>, a: Action) returns (more: seq<Action>)
    requires Extends(c, acts, mid) && !a.op.DoSend?
    requires Wraparound.WindowsFit(c) ==> Wraparound.TimelyStep(c, Run(Exact, c, mid), a)
    ensures Extends(c, acts, more) && Run(Exact, c, more) == Step(Exact, c, Run(Exact, c, mid), a)
  {
    more := mid + [a];
    RunSnoc(Exact, c, mid, a);
    TimelySnoc(c, mid, a);
    RunInv(c, mid);
    StepKept(c, Run(Exact, c, mid), a);
    hide Run, Step, Inv, Wraparound.TimelyRun, Wraparound.TimelyStep, Wraparound.WindowsFit;
  }

  lemma TimelySnoc(c: Pair, acts: seq<Action>, a: Action)
    ensures Wraparound.TimelyRun(c, acts + [a]) <==>
            Wraparound.TimelyRun(c, acts) && Wraparound.TimelyStep(c, Run(Exact, c, acts), a)
  {
    assert (acts + [a])[..|acts|] == acts;
  }

  lemma Same(c: Pair, acts: seq<Action>)
    ensures Extends(c, acts, acts)
  {
  }

  lemma Chain(c: Pair, acts: seq<Action>, mid: seq<Action>, more: seq<Action>)
    requires Extends(c, acts, mid) && Extends(c, mid, more)
    ensures Extends(c, acts, more)
  {
    hide Run;
    assert forall i :: |acts| <= i < |mid| ==> more[i] == mid[i];
  }

  // ----- fresh datagrams are timely ------------------------------------------------------

  /** No pending acknowledgement is stale for the peer that it speaks to. */
  ghost predicate AcksTimely(acks: seq<Ack>, s: Snd) {
    forall a :: a in acks ==> s.nxt - 0x8000_0000 <= a.sn
  }

  /** x's cumulative acknowledgement is within reach of what y has numbered. */
  lemma UnaTimely(c: Pair, s: Sys)
    requires Inv(c, s) && Wraparound.WindowsFit(c)
    ensures s.y.snd.nxt - 0x8000_0000 <= s.x.rcv.nxt
  {
    AckBounds(s.y.snd, c.x.rcvWnd, s.x.rcv);
  }

  lemma AcksSent(e: Env, acks: seq<Ack>, peer: Snd)
    requires AcksTimely(acks, peer)
    ensures forall w :: w in AckWires(e, acks) ==> w.cmd == ACK && peer.nxt - 0x8000_0000 <= w.sn
  {
    forall w | w in AckWires(e, acks) ensures w.cmd == ACK && peer.nxt - 0x8000_0000 <= w.sn {
      var i :| 0 <= i < |acks| && AckWires(e, acks)[i] == w;
      assert acks[i] in acks;
    }
  }

  lemma DataSent(cfg: Config, e: Env, s: Snd)
    requires SndOk(s)
    ensures forall w :: w in Transmit(cfg, e, s.buf).wires ==> w.cmd == PUSH && s.una <= w.sn
  {
    TransmitWires(cfg, e, s.buf);
    forall w | w in Transmit(cfg, e, s.buf).wires ensures w.cmd == PUSH && s.una <= w.sn {
      var o :| o in s.buf && Carries(w, o);
      var i :| 0 <= i < |s.buf| && s.buf[i] == o;
      assert Numbered(s.buf[i], s.una, s.numbered);
    }
  }

  /** Every segment that x flushes is timely for y at that moment. */
  lemma SentTimely(c: Pair, s: Sys)
    requires Inv(c, s) && Wraparound.WindowsFit(c) && AcksTimely(s.x.acks, s.y.snd)
    ensures forall w :: w in Sent(Exact, c.x, s.x) ==>
              Wraparound.Timely(c.y.rcvWnd, s.y.snd, Refill(Exact, c.x, s.x).numbered, w)
  {
    UnaEverywhere(c.x, s.x);
    UnaTimely(c, s);
    SpanFits(c.x, s.x);
    AcksSent(EnvOf(c.x, s.x), s.x.acks, s.y.snd);
    DataSent(c.x, EnvOf(c.x, s.x), Refill(Exact, c.x, s.x));
    hide Inv, Refill, Transmit, AckWires, AcksTimely;
  }

  lemma SpanFits(cfg: Config, k: Ctl)
    requires SndOk(k.snd) && k.snd.nxt - k.snd.una <= cfg.sndWnd
    ensures var t := Refill(Exact, cfg, k); SndOk(t) && |t.numbered| - t.una <= cfg.sndWnd && t.una == k.snd.una
  {
    NumberOk(EnvOf(cfg, k), EffectiveWnd(cfg, k.cc), k.snd);
  }

  /** Delivering a datagram of a flush to the peer is timely. */
  lemma FlushTimely(c: Pair, s: Sys, j: nat)
    requires Inv(c, s) && s.x.clock.updated && (Wraparound.WindowsFit(c) ==> AcksTimely(s.x.acks, s.y.snd))
    requires |s.xy| <= j < |Flushed(c, s).xy|
    ensures Wraparound.WindowsFit(c) ==> Wraparound.TimelyStep(c, Flushed(c, s), Action(B, DoDeliver(j)))
  {
    hide Inv, Sent, Refill, Pack, Flushed, AcksTimely, Wraparound.WindowsFit, Wraparound.Timely;
    if Wraparound.WindowsFit(c) {
      FreshEntry(c, s, j);
      SentTimely(c, s);
      Packing.PackMembers(c.x.mtu, Sent(Exact, c.x, s.x));
    }
  }

  lemma FreshEntry(c: Pair, s: Sys, j: nat)
    requires s.x.clock.updated && |s.xy| <= j < |Flushed(c, s).xy|
    ensures var t := Flushed(c, s);
            && t.xy[j] in Pack(c.x.mtu, Sent(Exact, c.x, s.x))
            && t.y == s.y && t.x.snd.numbered == Refill(Exact, c.x, s.x).numbered
  {
    hide Sent, Refill, Pack;
    FlushedLog(c, s);
    var out := Pack(c.x.mtu, Sent(Exact, c.x, s.x));
    assert Flushed(c, s).xy[j] == out[j - |s.xy|];
  }

  /** The same for y's flush. */
  lemma AnswerTimely(c: Pair, s: Sys, i: nat)
    requires Inv(c, s) && s.y.clock.updated && (Wraparound.WindowsFit(c) ==> AcksTimely(s.y.acks, s.x.snd))
    requires |s.yx| <= i < |Answered(c, s).yx|
    ensures Wraparound.WindowsFit(c) ==> Wraparound.TimelyStep(c, Answered(c, s), Action(A, DoDeliver(i)))
  {
    FlushTimely(c.Flip(), s.Flip(), i);
  }

  lemma {:induction false} InputAcks(cfg: Config, s: Scan, d: Datagram)
    ensures forall a :: a in InputSegs(Exact, cfg, s, d).k.acks ==>
              a in s.k.acks || exists w :: w in d && w.cmd == PUSH && w.sn == a.sn
    decreases |d|
  {
    if d != [] {
      var s' := InputSeg(Exact, cfg, s, d[0]);
      InputAcks(cfg, s', d[1..]);
      assert forall w :: w in d[1..] ==> w in d;
      assert d[0] in d;
    }
  }

  /** After a timely delivery to y, with nothing pending before, y's acknowledgements are timely for x. */
  lemma DeliveredAcks(c: Pair, s: Sys, j: nat)
    requires Inv(c, s) && s.y.acks == [] && j < |s.xy|
    requires Wraparound.WindowsFit(c) ==> Wraparound.TimelyStep(c, s, Action(B, DoDeliver(j)))
    ensures Wraparound.WindowsFit(c) ==> AcksTimely(Received(c, s, j).y.acks, s.x.snd)
    ensures Received(c, s, j).x == s.x
  {
    InputAcks(c.y, Scan(s.y, false, 0), s.xy[j]);
  }

  // ----- reading -------------------------------------------------------------------------

  /** y reads its next message. */
  lemma Read(c: Pair, acts: seq<Action>) returns (more: seq<Action>)
    requires PeekSize(Run(Exact, c, acts).y.rcv.queue) >= 0
    ensures Extends(c, acts, more)
    ensures var s, t := Run(Exact, c, acts), Run(Exact, c, more);
            && t == s.(y := t.y) && t.y == s.y.(rcv := t.y.rcv, probe := t.y.probe)
            && (s.y.probe.tell ==> t.y.probe.tell)
            && |t.y.rcv.queue| + |t.y.rcv.buf| < |s.y.rcv.queue| + |s.y.rcv.buf|
  {
    var s := Run(Exact, c, acts);
    var len := PeekSize(s.y.rcv.queue);
    RunMsg(c, acts);
    ReadTakes(c, s, len);
    Same(c, acts);
    more := Extend(c, acts, acts, Action(B, DoRecv(len)));
  }

  /** y reads until its queue has room. */
  lemma MakeRoom(c: Pair, acts: seq<Action>) returns (more: seq<Action>)
    ensures Extends(c, acts, more)
    ensures var s, t := Run(Exact, c, acts), Run(Exact, c, more);
            && t == s.(y := t.y) && t.y == s.y.(rcv := t.y.rcv, probe := t.y.probe)
            && (s.y.probe.tell ==> t.y.probe.tell)
            && |t.y.rcv.queue| < c.y.rcvWnd
    decreases |Run(Exact, c, acts).y.rcv.queue| + |Run(Exact, c, acts).y.rcv.buf|
  {
    hide Run;
    if |Run(Exact, c, acts).y.rcv.queue| < c.y.rcvWnd {
      more := acts;
      Same(c, acts);
    } else {
      RunInv(c, acts);
      RunMsg(c, acts);
      FullReadable(c, Run(Exact, c, acts));
      var mid := Read(c, acts);
      more := MakeRoom(c, mid);
      Chain(c, acts, mid, more);
    }
  }

  // ----- flushing at a chosen time -------------------------------------------------------

  /** s when x's clock shows t. */
  ghost predicate At(s: Sys, s1: Sys, time: u32) {
    s1 == s.(x := s.x.(clock := s1.x.clock)) && s1.x.clock.current == time && s1.x.clock.updated
  }

  /** x flushes at the given time, by ikcp_update alone or by ikcp_update and ikcp_flush. */
  lemma FlushAt(c: Pair, acts: seq<Action>, time: u32) returns (more: seq<Action>, s1: Sys)
    ensures Extends(c, acts, more) && At(Run(Exact, c, acts), s1, time) && Run(Exact, c, more) == Flushed(c, s1)
  {
    var s := Run(Exact, c, acts);
    var (clock, go) := Tick(c.x.interval, s.x.clock, time);
    s1 := s.(x := s.x.(clock := clock));
    Same(c, acts);
    more := Extend(c, acts, acts, Action(A, DoUpdate(time)));
    UpdateStep(c, s, time);
    if !go {
      more := Extend(c, acts, more, Action(A, DoFlush));
    }
  }

  lemma UpdateStep(c: Pair, s: Sys, time: u32)
    ensures var (clock, go) := Tick(c.x.interval, s.x.clock, time);
            var s1 := s.(x := s.x.(clock := clock));
            Step(Exact, c, s, Action(A, DoUpdate(time))) == if go then Flushed(c, s1) else s1
  {
  }

  /** y's clock is started, and nothing is left for it to acknowledge. */
  lemma Awake(c: Pair, acts: seq<Action>) returns (more: seq<Action>)
    ensures Extends(c, acts, more) && Run(Exact, c, more).y.clock.updated && Run(Exact, c, more).y.acks == []
    ensures Run(Exact, c, more).x == Run(Exact, c, acts).x
  {
    Same(c, acts);
    more := Extend(c, acts, acts, Action(B, DoUpdate(0)));
    more := Extend(c, acts, more, Action(B, DoFlush));
  }

  // ----- one step forward ----------------------------------------------------------------

  /** The oldest segment is due when the clock shows its resend time. */
  lemma DueAtResend(cfg: Config, k: Ctl)
    requires k.snd.buf != [] && k.clock.updated && k.clock.current == Wrap(k.snd.buf[0].resendts)
    ensures OldestDue(cfg, k)
  {
    var r := k.snd.buf[0].resendts;
    TimeDiffWrap(r, r);
    SignedOf(0, 0, 0);
  }

  /** The clock matters to no invariant. */
  lemma ClockFree(c: Pair, s: Sys, s1: Sys, time: u32)
    requires Inv(c, s) && At(s, s1, time)
    ensures Inv(c, s1)
  {
  }

  /** x flushes first, so that it has nothing left to acknowledge. */
  lemma Clear(c: Pair, acts: seq<Action>) returns (more: seq<Action>)
    requires Run(Exact, c, acts).x.snd.buf != []
    ensures Extends(c, acts, more)
    ensures var s, t := Run(Exact, c, acts), Run(Exact, c, more);
            t.x.acks == [] && t.x.snd.buf != [] && t.x.snd.una == s.x.snd.una && t.y == s.y
  {
    hide Run;
    var s1;
    RunInv(c, acts);
    more, s1 := FlushAt(c, acts, 0);
    FlushedLog(c, s1);
    FlushSndOk(c.x, s1.x);
    assert InOut(s1.x.snd.buf, s1.x.snd.buf[0].sn);
  }

  /** With something under way and room at y, a round trip moves snd_una. */
  lemma Trip(c: Pair, acts: seq<Action>) returns (more: seq<Action>)
    requires var s := Run(Exact, c, acts);
             s.x.snd.buf != [] && s.y.clock.updated && s.y.acks == [] && |s.y.rcv.queue| < c.y.rcvWnd
    ensures Extends(c, acts, more)
    ensures 0 < Run(Exact, c, more).x.snd.una - Run(Exact, c, acts).x.snd.una <= c.x.sndWnd
  {
    hide Run, TripMoves, Step;
    var s1;
    var first := Clear(c, acts);
    var s := Run(Exact, c, first);
    RunInv(c, first);
    more, s1 := FlushAt(c, first, Wrap(s.x.snd.buf[0].resendts));
    ClockFree(c, s, s1, Wrap(s.x.snd.buf[0].resendts));
    DueAtResend(c.x, s1.x);
    InvSnd(c, s1);
    hide Inv, OldestDue;
    var j := FirstDatagramExists(c, s1);
    RoundTrip(c, s1, j);
    var mid := more;
    more := Return(c, s1, mid, j);
    Chain(c, first, mid, more);
    Chain(c, acts, first, more);
  }

  /** The way back of a round trip. */
  lemma Return(c: Pair, s1: Sys, acts: seq<Action>, j: nat) returns (more: seq<Action>)
    requires Run(Exact, c, acts) == Flushed(c, s1) && TripMoves(c, s1, j)
    requires Inv(c, s1) && s1.x.clock.updated && s1.y.clock.updated && s1.x.acks == [] && s1.y.acks == []
    requires |s1.xy| <= j < |Flushed(c, s1).xy|
    ensures Extends(c, acts, more) && 0 < Run(Exact, c, more).x.snd.una - s1.x.snd.una <= c.x.sndWnd
  {
    hide Run, Step, TripMoves;
    var s2, t := Flushed(c, s1), Received(c, Flushed(c, s1), j);
    var u := Answered(c, t);
    OutwardKept(c, s1, j);
    RunInv(c, acts);
    MovesOf(c, s1, j);
    Same(c, acts);
    FlushTimely(c, s1, j);
    DeliveredAcks(c, s2, j);
    more := Extend(c, acts, acts, Action(B, DoDeliver(j)));
    RunInv(c, more);
    AnswerTimely(c, t, |s1.yx|);
    more := Extend(c, acts, more, Action(B, DoFlush));
    RunInv(c, more);
    UnaBelow(c, u, |s1.yx|);
    more := Extend(c, acts, more, Action(A, DoDeliver(|s1.yx|)));
  }

  /** What the outward half of the trip leaves alone. */
  lemma OutwardKept(c: Pair, s: Sys, j: nat)
    requires Inv(c, s) && s.x.clock.updated && s.y.clock.updated && j < |Flushed(c, s).xy|
    ensures var s2, t := Flushed(c, s), Received(c, Flushed(c, s), j);
            && s2.y == s.y && s2.yx == s.yx && s2.x.snd.una == s.x.snd.una
            && t.x == s2.x && t.yx == s2.yx && t.y.clock == s2.y.clock
            && Answered(c, t).x == t.x
  {
    FlushedLog(c, s);
    FlushSndOk(c.x, s.x);
    ClockKept(c.y, Scan(s.y, false, 0), Flushed(c, s).xy[j]);
  }

  lemma MovesOf(c: Pair, s: Sys, j: nat)
    requires TripMoves(c, s, j)
    ensures var u := Answered(c, Received(c, Flushed(c, s), j));
            |s.yx| < |u.yx| && s.x.snd.una < Acknowledged(c, u, |s.yx|).x.snd.una
  {
  }

  lemma UnaBelow(c: Pair, s: Sys, i: nat)
    requires Inv(c, s) && i < |s.yx|
    ensures Acknowledged(c, s, i).x.snd.una <= s.x.snd.nxt <= s.x.snd.una + c.x.sndWnd
  {
    assert s.yx[i] in s.yx;
    InputOk(c.x, s.x, s.yx[i], s.y.rcv, s.y.snd.numbered);
  }

  /** After a flush the congestion window admits something. */
  lemma FlushOpens(cfg: Config, k: Ctl)
    requires 0 < k.cc.rmtWnd
    ensures var k' := FlushState(Exact, cfg, k); 0 < EffectiveWnd(cfg, k'.cc) && k'.cc.rmtWnd == k.cc.rmtWnd
  {
  }

  /** A flush with an open window numbers something, if there is nothing under way but something queued. */
  lemma FlushNumbers(cfg: Config, k: Ctl)
    requires SndOk(k.snd) && k.snd.nxt - k.snd.una <= cfg.sndWnd
    requires 0 < EffectiveWnd(cfg, k.cc) && k.snd.buf == [] && k.snd.queue != []
    ensures FlushState(Exact, cfg, k).snd.buf != []
  {
    FlushSndOk(cfg, k);
    var s := FlushState(Exact, cfg, k).snd;
    assert |s.numbered| + |s.queue| == |k.snd.numbered| + |k.snd.queue| by {
      assert |s.numbered + s.queue| == |k.snd.numbered + k.snd.queue|;
    }
  }

  /** With an open window and something queued, something gets under way. */
  lemma Fill(c: Pair, acts: seq<Action>) returns (more: seq<Action>)
    requires var s := Run(Exact, c, acts).x; 0 < s.cc.rmtWnd && s.snd.queue != []
    ensures Extends(c, acts, more) && Run(Exact, c, more).x.snd.buf != []
    ensures Run(Exact, c, more).y == Run(Exact, c, acts).y
  {
    hide Run;
    var s := Run(Exact, c, acts);
    var s1, s2;
    RunInv(c, acts);
    if s.x.snd.buf != [] {
      more := acts;
      Same(c, acts);
    } else {
      var mid;
      mid, s1 := FlushAt(c, acts, 0);
      FlushedLog(c, s1);
      FlushOpens(c.x, s1.x);
      RunInv(c, mid);
      var t := Run(Exact, c, mid);
      if t.x.snd.buf != [] {
        more := mid;
      } else {
        FlushSndOk(c.x, s1.x);
        QueueStays(s1.x.snd, t.x.snd);
        more, s2 := FlushAt(c, mid, 0);
        FlushedLog(c, s2);
        FlushNumbers(c.x, s2.x);
        Chain(c, acts, mid, more);
      }
    }
  }

  lemma QueueStays(s: Snd, t: Snd)
    requires SndOk(s) && SndOk(t) && s.buf == [] && t.buf == [] && s.una == t.una
    requires t.numbered + t.queue == s.numbered + s.queue && s.queue != []
    ensures t.queue != []
  {
    assert |t.numbered + t.queue| == |s.numbered + s.queue|;
  }

  // ----- a closed window -----------------------------------------------------------------

  /** A flush with a closed window starts the probe timer or keeps it running. */
  lemma FlushTimes(c: Pair, s: Sys)
    requires s.x.clock.updated && s.x.cc.rmtWnd == 0
    ensures var t := Flushed(c, s);
            t.x.probe.wait != 0 && t.x.cc.rmtWnd == 0 && t.x.acks == [] && t.y == s.y
  {
    FlushedLog(c, s);
  }

  lemma DueAtProbe(k: Ctl)
    requires k.clock.updated && k.cc.rmtWnd == 0 && k.probe.wait != 0 && k.clock.current == Wrap(k.probe.ts)
    ensures Probing.ProbeDue(k)
  {
    TimeDiffWrap(k.probe.ts, k.probe.ts);
    SignedOf(0, 0, 0);
  }

  /** x asks for y's window, and the question arrives. */
  lemma AskPeer(c: Pair, acts: seq<Action>) returns (more: seq<Action>)
    requires var s := Run(Exact, c, acts); s.x.cc.rmtWnd == 0 && s.y.clock.updated && s.y.acks == []
    ensures Extends(c, acts, more)
    ensures var t := Run(Exact, c, more);
            t.y.probe.tell && t.y.clock.updated && (Wraparound.WindowsFit(c) ==> AcksTimely(t.y.acks, t.x.snd))
  {
    hide Run, Step;
    var s1, s2;
    var mid;
    mid, s1 := FlushAt(c, acts, 0);
    FlushTimes(c, s1);
    var ts := Wrap(Run(Exact, c, mid).x.probe.ts);
    RunInv(c, mid);
    more, s2 := FlushAt(c, mid, ts);
    Chain(c, acts, mid, more);
    ClockFree(c, Run(Exact, c, mid), s2, ts);
    DueAtProbe(s2.x);
    RunInv(c, more);
    hide Inv;
    var j := AskSent(c, s2);
    Probing.AskArrives(c, Flushed(c, s2), j);
    FlushedLog(c, s2);
    FlushTimely(c, s2, j);
    DeliveredAcks(c, Flushed(c, s2), j);
    more := Extend(c, acts, more, Action(B, DoDeliver(j)));
  }

  lemma AskSent(c: Pair, s: Sys) returns (j: nat)
    requires Probing.ProbeDue(s.x)
    ensures |s.xy| <= j < |Flushed(c, s).xy| && Probing.Asks(Flushed(c, s).xy[j])
  {
    FlushedLog(c, s);
    var k := Probing.FlushAsks(c.x, s.x);
    j := |s.xy| + k;
  }

  /** The receive windows that never announce 0 while y's user has nothing to read: the announcement is cut to
      16 bits, and what cannot be read is at most 126 segments of a message, or none in stream mode. */
  ghost predicate OpenWindow(c: Pair) {
    c.y.rcvWnd <= 65535 || (if c.x.stream then 0 else WND_RCV - 2) < c.y.rcvWnd % 65536
  }

  /** y's user reads until nothing can be read. */
  lemma ReadOn(c: Pair, acts: seq<Action>) returns (more: seq<Action>)
    ensures Extends(c, acts, more)
    ensures var s, t := Run(Exact, c, acts), Run(Exact, c, more);
            && t == s.(y := t.y) && t.y == s.y.(rcv := t.y.rcv, probe := t.y.probe)
            && (s.y.probe.tell ==> t.y.probe.tell)
            && PeekSize(t.y.rcv.queue) < 0
    decreases |Run(Exact, c, acts).y.rcv.queue| + |Run(Exact, c, acts).y.rcv.buf|
  {
    hide Run;
    if PeekSize(Run(Exact, c, acts).y.rcv.queue) < 0 {
      more := acts;
      Same(c, acts);
    } else {
      var mid := Read(c, acts);
      more := ReadOn(c, mid);
      Chain(c, acts, mid, more);
    }
  }

  lemma RoomAnnounced(c: Pair, s: Sys)
    requires Inv(c, s) && MsgInv(c, s) && OpenWindow(c) && PeekSize(s.y.rcv.queue) < 0
    ensures 0 < WndUnused(c.y, s.y.rcv) % 65536
  {
    var r := s.y.rcv;
    if r.queue != [] {
      if c.x.stream {
        StreamHead(c, s);
      } else {
        NextMessage(c.x, s.x.snd, r);
        FirstFrg(s.x.snd.accepted[|r.taken|], c.x.Mss());
      }
    }
    Cut(c.y.rcvWnd, |r.queue|);
  }

  lemma Cut(wnd: int, n: int)
    requires 0 <= n < WND_RCV - 1 && WND_RCV <= wnd
    ensures wnd <= 65535 || n < wnd % 65536 ==> 0 < (wnd - n) % 65536
  {
    if n < wnd % 65536 {
      assert wnd == 65536 * (wnd / 65536) + wnd % 65536;
      assert (wnd - n) % 65536 == wnd % 65536 - n;
    }
  }

  lemma AnsweredRest(c: Pair, s: Sys)
    requires s.y.clock.updated
    ensures var t := Answered(c, s); t.y.acks == [] && t.y.clock.updated
    ensures forall t, i :: Acknowledged(c, t, i).y == t.y
  {
    AnsweredLog(c, s);
  }

  /** A closed window opens again: x asks, y's user reads, y answers. */
  lemma Reopen(c: Pair, acts: seq<Action>) returns (more: seq<Action>)
    requires var s := Run(Exact, c, acts); s.x.cc.rmtWnd == 0 && s.y.clock.updated && s.y.acks == []
    requires OpenWindow(c)
    ensures Extends(c, acts, more)
    ensures var t := Run(Exact, c, more); 0 < t.x.cc.rmtWnd && t.y.clock.updated && t.y.acks == []
  {
    hide Run, Step;
    var mid := AskPeer(c, acts);
    more := ReadOn(c, mid);
    Chain(c, acts, mid, more);
    var t := Run(Exact, c, more);
    RunInv(c, more);
    RunMsg(c, more);
    Probing.AnswerArrives(c, t);
    RoomAnnounced(c, t);
    AnswerTimely(c, t, |t.yx|);
    AnsweredRest(c, t);
    hide Inv, MsgInv;
    more := Extend(c, acts, more, Action(B, DoFlush));
    more := Extend(c, acts, more, Action(A, DoDeliver(|t.yx|)));
    assert Run(Exact, c, more) == Acknowledged(c, Answered(c, t), |t.yx|);
  }

  // ----- the whole way -------------------------------------------------------------------

  /** Pieces not yet acknowledged or not yet numbered. */
  ghost function Left(s: Sys): (n: int) {
    |s.x.snd.numbered| + |s.x.snd.queue| - s.x.snd.una
  }

  /** While something is left and the window is open, or something is under way, snd_una can be moved. */
  lemma Forward(c: Pair, acts: seq<Action>) returns (more: seq<Action>)
    requires var s := Run(Exact, c, acts); Left(s) > 0 && (s.x.snd.buf != [] || 0 < s.x.cc.rmtWnd)
    ensures Extends(c, acts, more) && Run(Exact, c, acts).x.snd.una < Run(Exact, c, more).x.snd.una
  {
    hide Run;
    var mid := Awake(c, acts);
    if Run(Exact, c, mid).x.snd.buf == [] {
      RunInv(c, mid);
      LeftQueued(Run(Exact, c, mid).x.snd);
      var full := Fill(c, mid);
      Chain(c, acts, mid, full);
      mid := full;
    }
    var room := MakeRoom(c, mid);
    Chain(c, acts, mid, room);
    more := Trip(c, room);
    Chain(c, acts, room, more);
  }

  /** The window announced by the peer is never negative. */
  lemma RmtWndNat(c: Pair, acts: seq<Action>)
    ensures 0 <= Run(Exact, c, acts).x.cc.rmtWnd
  {
    Datagrams.RunShape(c, acts);
  }

  /** While something is left, snd_una can be moved. */
  lemma Advance(c: Pair, acts: seq<Action>) returns (more: seq<Action>)
    requires OpenWindow(c) && Left(Run(Exact, c, acts)) > 0
    ensures Extends(c, acts, more) && Run(Exact, c, acts).x.snd.una < Run(Exact, c, more).x.snd.una
  {
    hide Run;
    var s := Run(Exact, c, acts);
    RmtWndNat(c, acts);
    if s.x.snd.buf != [] || 0 < s.x.cc.rmtWnd {
      more := Forward(c, acts);
    } else {
      var mid := Awake(c, acts);
      var open := Reopen(c, mid);
      Chain(c, acts, mid, open);
      if s.x.snd.una < Run(Exact, c, open).x.snd.una {
        more := open;
      } else {
        LeftKept(c, acts, open);
        more := Forward(c, open);
        Chain(c, acts, open, more);
      }
    }
  }

  lemma LeftQueued(s: Snd)
    requires SndOk(s) && s.buf == []
    ensures |s.numbered| + |s.queue| - s.una == |s.queue|
  {
  }

  lemma LeftKept(c: Pair, acts: seq<Action>, more: seq<Action>)
    requires Extends(c, acts, more)
    ensures Left(Run(Exact, c, more)) - Left(Run(Exact, c, acts)) ==
            Run(Exact, c, acts).x.snd.una - Run(Exact, c, more).x.snd.una
  {
    hide Run;
    var s, t := Run(Exact, c, acts).x.snd, Run(Exact, c, more).x.snd;
    assert |s.numbered + s.queue| == |t.numbered + t.queue|;
  }

  /** Everything gets acknowledged. */
  lemma AcknowledgeAll(c: Pair, acts: seq<Action>) returns (more: seq<Action>)
    requires OpenWindow(c)
    ensures Extends(c, acts, more)
    ensures Run(Exact, c, more).x.snd.queue == [] && Run(Exact, c, more).x.snd.buf == []
    decreases Left(Run(Exact, c, acts))
  {
    hide Run, Extends;
    RunInv(c, acts);
    if Left(Run(Exact, c, acts)) > 0 {
      var mid := Advance(c, acts);
      LeftKept(c, acts, mid);
      RunInv(c, mid);
      LeftBounds(Run(Exact, c, mid).x.snd);
      more := AcknowledgeAll(c, mid);
      Chain(c, acts, mid, more);
    } else {
      more := acts;
      Same(c, acts);
      NothingLeft(Run(Exact, c, acts).x.snd);
    }
  }

  lemma LeftBounds(s: Snd)
    requires SndOk(s)
    ensures 0 <= |s.numbered| + |s.queue| - s.una
  {
  }

  lemma NothingLeft(s: Snd)
    requires SndOk(s) && |s.numbered| + |s.queue| - s.una <= 0
    ensures s.queue == [] && s.buf == []
  {
    assert s.buf != [] ==> Numbered(s.buf[0], s.una, s.numbered);
  }

  // ----- reading everything --------------------------------------------------------------

  /** When all is acknowledged and y's queue has room, y has moved all that was numbered. */
  lemma AllMoved(c: Pair, s: Sys)
    requires Inv(c, s) && s.x.snd.buf == [] && |s.y.rcv.queue| < c.y.rcvWnd
    ensures s.y.rcv.moved == s.x.snd.numbered
  {
    HeldBounds(c.y.rcvWnd, s.y.rcv, s.x.snd.numbered);
    AckBounds(s.x.snd, c.y.rcvWnd, s.y.rcv);
    assert s.y.rcv.nxt < s.x.snd.nxt ==> InOut(s.x.snd.buf, s.y.rcv.nxt) || Held(s.y.rcv, s.y.rcv.nxt);
  }

  /** The rest of y's queue then is the fragments of whole messages. */
  lemma WholeMessages(cfg: Config, s: Snd, r: Rcv)
    requires !cfg.stream && SenderMsgs(cfg, s) && ReceiverMsgs(cfg, s.accepted, r) && r.moved == s.numbered && s.queue == []
    ensures PiecesOf(r.queue) == Pieces(s.accepted[|r.taken|..], cfg.Mss())
  {
    var rest := s.accepted[|r.taken|..];
    assert s.accepted == r.taken + rest;
    PiecesAppend(r.taken, rest, cfg.Mss());
    assert r.moved == Consumed(r) + PiecesOf(r.queue);
    assert s.numbered + s.queue == s.numbered;
    CancelFront(Consumed(r), PiecesOf(r.queue), Pieces(rest, cfg.Mss()));
  }

  lemma CancelFront<T>(a: seq<T>, b: seq<T>, c: seq<T>)
    requires a + b == a + c
    ensures b == c
  {
    Seqs.PrefixCancel(a, b, c);
    Seqs.PrefixCancel(a, c, b);
  }

  /** Once all is acknowledged, a message at the head of y's queue is complete. */
  lemma HeadComplete(c: Pair, s: Sys)
    requires Inv(c, s) && MsgInv(c, s) && s.x.snd.buf == [] && s.x.snd.queue == [] && s.y.rcv.queue != []
    ensures PeekSize(s.y.rcv.queue) >= 0
  {
    if |s.y.rcv.queue| >= c.y.rcvWnd {
      FullReadable(c, s);
    } else if c.x.stream {
      StreamHead(c, s);
    } else {
      var msgs := s.x.snd.accepted[|s.y.rcv.taken|..];
      AllMoved(c, s);
      WholeMessages(c.x, s.x.snd, s.y.rcv);
      PiecesFirst(msgs, c.x.Mss());
      FirstFrg(msgs[0], c.x.Mss());
      assert PiecesOf(s.y.rcv.queue)[0] == s.y.rcv.queue[0].piece;
    }
  }

  /** y's user reads on until the queue is empty. */
  lemma ReadAll(c: Pair, acts: seq<Action>) returns (more: seq<Action>)
    requires var s := Run(Exact, c, acts); s.x.snd.buf == [] && s.x.snd.queue == []
    ensures Extends(c, acts, more)
    ensures Run(Exact, c, more).x == Run(Exact, c, acts).x && Run(Exact, c, more).y.rcv.queue == []
    decreases |Run(Exact, c, acts).y.rcv.queue| + |Run(Exact, c, acts).y.rcv.buf|
  {
    hide Run, Extends;
    if Run(Exact, c, acts).y.rcv.queue == [] {
      more := acts;
      Same(c, acts);
    } else {
      RunInv(c, acts);
      RunMsg(c, acts);
      HeadComplete(c, Run(Exact, c, acts));
      var mid := Read(c, acts);
      more := ReadAll(c, mid);
      Chain(c, acts, mid, more);
    }
  }

  /** Then y's user has everything. */
  lemma AllTaken(c: Pair, s: Sys)
    requires Inv(c, s) && MsgInv(c, s) && s.x.snd.buf == [] && s.x.snd.queue == [] && s.y.rcv.queue == []
    ensures if c.x.stream then Concat(s.y.rcv.taken) == Concat(s.x.snd.accepted)
            else s.y.rcv.taken == s.x.snd.accepted
  {
    AllMoved(c, s);
    var r := s.y.rcv;
    assert Consumed(r) == r.moved && s.x.snd.numbered + s.x.snd.queue == s.x.snd.numbered;
    if !c.x.stream {
      WholeMessages(c.x, s.x.snd, r);
      var rest := s.x.snd.accepted[|r.taken|..];
      if rest != [] { PiecesFirst(rest, c.x.Mss()); }
      assert s.x.snd.accepted == r.taken + rest;
    }
  }

  /** more continues the run without new sends, until nothing of x is queued or unacknowledged and y's user has read
      all that x's user sent. */
  ghost predicate Finished(c: Pair, acts: seq<Action>, more: seq<Action>) {
    && acts <= more && (forall i :: |acts| <= i < |more| ==> !more[i].op.DoSend?)
    && var s, t := Run(Exact, c, acts), Run(Exact, c, more);
       && t.x.snd.queue == [] && t.x.snd.buf == [] && t.x.snd.accepted == s.x.snd.accepted
       && (if c.x.stream then Concat(t.y.rcv.taken) == Concat(t.x.snd.accepted)
           else t.y.rcv.taken == t.x.snd.accepted)
  }

  ghost predicate CanComplete(c: Pair, acts: seq<Action>) {
    exists more :: Finished(c, acts, more)
  }

  /** Completion: with an open window, from every reachable state some continuation without new sends empties x's queue and buffer,
      and lets y's user read all that x's user sent. */
  lemma Completes(c: Pair, acts: seq<Action>) returns (more: seq<Action>)
    requires OpenWindow(c)
    ensures Finished(c, acts, more) && Extends(c, acts, more)
  {
    hide Run;
    var mid := AcknowledgeAll(c, acts);
    more := ReadAll(c, mid);
    Chain(c, acts, mid, more);
    RunInv(c, more);
    RunMsg(c, more);
    AllTaken(c, Run(Exact, c, more));
  }

  // ----- bytes and 32-bit numbers --------------------------------------------------------

  /** A continuation with timely deliveries is faithful. */
  lemma ExtendsFaithful(c: Pair, acts: seq<Action>, more: seq<Action>)
    requires Extends(c, acts, more) && ByteSystem.Faithful(c, acts)
    ensures ByteSystem.Faithful(c, more)
  {
  }

  /** Progress of the code itself, on bytes and 32-bit numbers: in every faithful run in which x has something
      under way, some faithful continuation without new sends (in which nothing that is delivered is stale)
      moves snd_una forward. */
  lemma ByteProgress(c: Pair, acts: seq<Action>) returns (more: seq<Action>)
    requires ByteSystem.Faithful(c, acts) && ByteSystem.ByteRun(c, acts).x.snd.buf != []
    ensures acts <= more && (forall i :: |acts| <= i < |more| ==> !more[i].op.DoSend?)
    ensures ByteSystem.Faithful(c, more)
    ensures Diff(Mod32, ByteSystem.ByteRun(c, more).x.snd.una, ByteSystem.ByteRun(c, acts).x.snd.una) > 0
  {
    hide Run, ByteSystem.ByteRun, ByteSystem.Faithful;
    ByteState(c, acts);
    var mid := Awake(c, acts);
    var room := MakeRoom(c, mid);
    Chain(c, acts, mid, room);
    more := Trip(c, room);
    Chain(c, acts, room, more);
    ExtendsFaithful(c, acts, more);
    ByteState(c, more);
    DiffNear(Run(Exact, c, more).x.snd.una, Run(Exact, c, acts).x.snd.una);
  }

  /** What the byte system's x holds is what the unbounded one holds, reduced. */
  lemma ByteState(c: Pair, acts: seq<Action>)
    requires ByteSystem.Faithful(c, acts)
    ensures var b, s := ByteSystem.ByteRun(c, acts), Run(Exact, c, acts);
            && b.x.snd.una == Wrap(s.x.snd.una) && |b.x.snd.buf| == |s.x.snd.buf| && b.x.snd.queue == s.x.snd.queue
            && b.x.snd.accepted == s.x.snd.accepted && b.y.rcv.taken == s.y.rcv.taken
  {
    ByteSystem.ByteRunW(c, acts);
  }

  /** Completion of the code itself: with an open window, after every faithful run some faithful continuation
      without new sends empties x's queue and buffer, and lets y's user read all that x's user sent. */
  lemma ByteCompletes(c: Pair, acts: seq<Action>) returns (more: seq<Action>)
    requires ByteSystem.Faithful(c, acts) && OpenWindow(c)
    ensures acts <= more && (forall i :: |acts| <= i < |more| ==> !more[i].op.DoSend?)
    ensures ByteSystem.Faithful(c, more)
    ensures var s, t := ByteSystem.ByteRun(c, acts), ByteSystem.ByteRun(c, more);
            && t.x.snd.queue == [] && t.x.snd.buf == [] && t.x.snd.accepted == s.x.snd.accepted
            && (if c.x.stream then Concat(t.y.rcv.taken) == Concat(t.x.snd.accepted)
                else t.y.rcv.taken == t.x.snd.accepted)
  {
    hide Run, ByteSystem.ByteRun, ByteSystem.Faithful;
    more := Completes(c, acts);
    ExtendsFaithful(c, acts, more);
    ByteState(c, acts);
    ByteState(c, more);
  }
}
