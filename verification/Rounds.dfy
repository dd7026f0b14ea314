/**
 Loss-free rounds: y's user reads, x flushes when something is due, everything new arrives, y's user reads, y flushes,
 everything new arrives. However the times are chosen, a bounded number of rounds delivers everything.
 */
module Rounds {
  import opened Words
  import opened Protocol
  import opened Safety
  import opened System
  import opened Messages
  import opened Progress
  import opened Completion
  import Datagrams
  import Packing
  import Probing
  import Scheduler

  // ----- reachable states ----------------------------------------------------------------

  ghost predicate Reached(c: Pair, s: Sys) {
    exists acts :: Run(Exact, c, acts) == s
  }

  /** t is reached from s without new sends. */
  ghost predicate Later(c: Pair, s: Sys, t: Sys) {
    Reached(c, t) && Kept(s, t)
  }

  lemma ReachedInv(c: Pair, s: Sys)
    requires Reached(c, s)
    ensures Inv(c, s) && MsgInv(c, s) && Datagrams.ShapeInv(c, s)
  {
    var acts :| Run(Exact, c, acts) == s;
    RunInv(c, acts);
    RunMsg(c, acts);
    Datagrams.RunShape(c, acts);
  }

  lemma LaterStep(c: Pair, s: Sys, t: Sys, a: Action)
    requires Later(c, s, t) && !a.op.DoSend?
    ensures Later(c, s, Step(Exact, c, t, a))
  {
    var acts :| Run(Exact, c, acts) == t;
    RunSnoc(Exact, c, acts, a);
    RunInv(c, acts);
    StepKept(c, t, a);
    hide Run, Step, Inv;
    assert Run(Exact, c, acts + [a]) == Step(Exact, c, t, a);
  }

  lemma LaterFlip(c: Pair, s: Sys, t: Sys)
    requires Later(c, s, t)
    ensures Later(c.Flip(), s.Flip(), t.Flip())
  {
    var acts :| Run(Exact, c, acts) == t;
    RunExchanged(Exact, c, acts);
    hide Run;
    assert Run(Exact, c.Flip(), Exchanged(acts)) == t.Flip();
  }

  // ----- the stages of a round -----------------------------------------------------------

  function Clocked(c: Pair, s: Sys, time: u32): (t: Sys) {
    s.(x := s.x.(clock := Tick(c.x.interval, s.x.clock, time).0))
  }

  /** x updates at the given time, and flushes if that did not. */
  function FlushX(c: Pair, s: Sys, time: u32): (t: Sys) {
    Flushed(c, Clocked(c, s, time))
  }

  function FlushY(c: Pair, s: Sys, time: u32): (t: Sys) {
    FlushX(c.Flip(), s.Flip(), time).Flip()
  }

  /** All of x's datagrams from number n on arrive, in order. */
  function ArriveY(c: Pair, s: Sys, n: nat): (t: Sys)
    requires n <= |s.xy|
    decreases |s.xy| - n
  {
    if n == |s.xy| then s else ArriveY(c, Received(c, s, n), n + 1)
  }

  function ArriveX(c: Pair, s: Sys, n: nat): (t: Sys)
    requires n <= |s.yx|
  {
    ArriveY(c.Flip(), s.Flip(), n).Flip()
  }

  lemma ReadShrinks(c: Pair, s: Sys, len: int)
    requires 0 <= PeekSize(s.y.rcv.queue) <= len
    ensures var r, r' := s.y.rcv, Recv(Exact, c.y, s.y, len).rcv;
            |r'.queue| + |r'.buf| < |r.queue| + |r.buf|
  {
    DrainNet(c.y.rcvWnd, TakeHead(s.y.rcv, false));
  }

  /** y's user reads until nothing can be read. */
  function ReadY(c: Pair, s: Sys): (t: Sys)
    decreases |s.y.rcv.queue| + |s.y.rcv.buf|
  {
    var len := PeekSize(s.y.rcv.queue);
    if len < 0 then s
    else
      ReadShrinks(c, s, len);
      ReadY(c, s.(y := Recv(Exact, c.y, s.y, len)))
  }

  function Round(c: Pair, s: Sys, tx: u32, ty: u32): (t: Sys) {
    FlowLengths(c, s, tx, ty);
    var s1 := ReadY(c, s);
    var s2 := FlushX(c, s1, tx);
    var s3 := ReadY(c, ArriveY(c, s2, |s1.xy|));
    ArriveX(c, FlushY(c, s3, ty), |s3.yx|)
  }

  lemma FlowLengths(c: Pair, s: Sys, tx: u32, ty: u32)
    ensures |ReadY(c, s).xy| <= |FlushX(c, ReadY(c, s), tx).xy|
    ensures forall t: Sys :: |t.yx| <= |FlushY(c, t, ty).yx|
  {
  }

  // ----- what each stage keeps -----------------------------------------------------------

  lemma FlushXLater(c: Pair, s: Sys, t: Sys, time: u32)
    requires Later(c, s, t)
    ensures Later(c, s, FlushX(c, t, time))
  {
    hide Later, Step;
    UpdateStep(c, t, time);
    LaterStep(c, s, t, Action(A, DoUpdate(time)));
    if !Tick(c.x.interval, t.x.clock, time).1 { LaterStep(c, s, Clocked(c, t, time), Action(A, DoFlush)); }
  }

  lemma FlushYLater(c: Pair, s: Sys, t: Sys, time: u32)
    requires Later(c, s, t)
    ensures Later(c, s, FlushY(c, t, time))
  {
    hide Later, FlushX;
    LaterFlip(c, s, t);
    FlushXLater(c.Flip(), s.Flip(), t.Flip(), time);
    LaterFlip(c.Flip(), s.Flip(), FlushX(c.Flip(), t.Flip(), time));
  }

  lemma {:induction false} ArriveYLater(c: Pair, s: Sys, t: Sys, n: nat)
    requires Later(c, s, t) && n <= |t.xy|
    ensures Later(c, s, ArriveY(c, t, n))
    ensures var u := ArriveY(c, t, n); u == t.(y := u.y) && u.y.clock == t.y.clock
    decreases |t.xy| - n
  {
    hide Later;
    if n < |t.xy| {
      LaterStep(c, s, t, Action(B, DoDeliver(n)));
      ReceivedRest(c, t, n);
      ArriveYLater(c, s, Received(c, t, n), n + 1);
    }
  }

  lemma ReceivedRest(c: Pair, s: Sys, n: nat)
    requires n < |s.xy|
    ensures var t := Received(c, s, n); t == s.(y := Input(Exact, c.y, s.y, s.xy[n])) && t.y.clock == s.y.clock
  {
    ClockKept(c.y, Scan(s.y, false, 0), s.xy[n]);
  }

  lemma ArriveXLater(c: Pair, s: Sys, t: Sys, n: nat)
    requires Later(c, s, t) && n <= |t.yx|
    ensures Later(c, s, ArriveX(c, t, n))
    ensures var u := ArriveX(c, t, n); u == t.(x := u.x)
  {
    hide Later, ArriveY;
    LaterFlip(c, s, t);
    ArriveYLater(c.Flip(), s.Flip(), t.Flip(), n);
    LaterFlip(c.Flip(), s.Flip(), ArriveY(c.Flip(), t.Flip(), n));
  }

  lemma RecvStep(c: Pair, s: Sys, len: int)
    ensures Step(Exact, c, s, Action(B, DoRecv(len))) == s.(y := Recv(Exact, c.y, s.y, len))
  {
  }

  lemma {:induction false} ReadYLater(c: Pair, s: Sys, t: Sys)
    requires Later(c, s, t)
    ensures Later(c, s, ReadY(c, t))
    ensures var u := ReadY(c, t);
            && u == t.(y := u.y) && u.y == t.y.(rcv := u.y.rcv, probe := u.y.probe)
            && (t.y.probe.tell ==> u.y.probe.tell) && PeekSize(u.y.rcv.queue) < 0
    decreases |t.y.rcv.queue| + |t.y.rcv.buf|
  {
    hide Later, Step;
    var len := PeekSize(t.y.rcv.queue);
    if len >= 0 {
      ReadShrinks(c, t, len);
      RecvStep(c, t, len);
      LaterStep(c, s, t, Action(B, DoRecv(len)));
      ReadYLater(c, s, t.(y := Recv(Exact, c.y, t.y, len)));
    }
  }

  lemma Here(c: Pair, s: Sys)
    requires Reached(c, s)
    ensures Later(c, s, s)
  {
  }

  /** What the stages of a round are, each reached from s. */
  lemma RoundLater(c: Pair, s: Sys, tx: u32, ty: u32)
    requires Reached(c, s)
    ensures var s1 := ReadY(c, s);
            var s2 := FlushX(c, s1, tx);
            && Later(c, s, s1) && Later(c, s, s2) && |s1.xy| <= |s2.xy|
            && var s3 := ArriveY(c, s2, |s1.xy|);
               var s4 := ReadY(c, s3);
               var s5 := FlushY(c, s4, ty);
               && Later(c, s, s3) && Later(c, s, s4) && Later(c, s, s5) && |s4.yx| <= |s5.yx|
               && Later(c, s, Round(c, s, tx, ty)) && Round(c, s, tx, ty) == ArriveX(c, s5, |s4.yx|)
  {
    hide Later, ReadY, FlushX, FlushY, ArriveX, ArriveY;
    Here(c, s);
    FlowLengths(c, s, tx, ty);
    ReadYLater(c, s, s);
    var s1 := ReadY(c, s);
    FlushXLater(c, s, s1, tx);
    var s2 := FlushX(c, s1, tx);
    ArriveYLater(c, s, s2, |s1.xy|);
    var s3 := ArriveY(c, s2, |s1.xy|);
    ReadYLater(c, s, s3);
    var s4 := ReadY(c, s3);
    FlushYLater(c, s, s4, ty);
    ArriveXLater(c, s, FlushY(c, s4, ty), |s4.yx|);
  }

  // ----- what x flushes ------------------------------------------------------------------

  /** x has something under way, or can number something. */
  ghost predicate Sending(cfg: Config, k: Ctl) {
    k.snd.buf != [] || (k.snd.queue != [] && 0 < EffectiveWnd(cfg, k.cc))
  }

  /** The time is right for x: the oldest segment under way is due, or, with nothing under way, the probe timer. */
  predicate DueX(cfg: Config, k: Ctl, time: int) {
    if k.snd.buf != [] then FateOf(cfg, time, k.snd.buf[0]) != Keep
    else k.cc.rmtWnd == 0 && k.probe.wait != 0 ==> TimeDiff(time, k.probe.ts) >= 0
  }

  /** There is always such a time. */
  lemma DueTime(cfg: Config, k: Ctl) returns (time: u32)
    ensures DueX(cfg, k, time)
  {
    if k.snd.buf != [] {
      time := Wrap(k.snd.buf[0].resendts);
      TimeDiffWrap(k.snd.buf[0].resendts, k.snd.buf[0].resendts);
    } else {
      time := Wrap(k.probe.ts);
      TimeDiffWrap(k.probe.ts, k.probe.ts);
    }
    SignedOf(0, 0, 0);
  }

  lemma FreshFirst(cfg: Config, k: Ctl)
    requires SndOk(k.snd) && k.snd.nxt - k.snd.una <= cfg.sndWnd
    requires k.snd.buf == [] && k.snd.queue != [] && 0 < EffectiveWnd(cfg, k.cc)
    ensures FirstData(Sent(Exact, cfg, k)) == FirstSn(k.snd.una)
  {
    var e, wnd, t := EnvOf(cfg, k), EffectiveWnd(cfg, k.cc), Refill(Exact, cfg, k);
    FlushNumbers(cfg, k);
    TransmitBuf(cfg, e, t.buf);
    NumberOk(e, wnd, k.snd);
    Scheduler.NumberAppends(Exact, e, wnd, k.snd);
    hide Number, Transmit;
    FirstTransmitted(cfg, e, t.buf);
    SentFirst(cfg, k);
  }

  lemma SentFirst(cfg: Config, k: Ctl)
    ensures FirstData(Sent(Exact, cfg, k)) == FirstData(Transmit(cfg, EnvOf(cfg, k), Refill(Exact, cfg, k).buf).wires)
  {
    hide Transmit, Refill;
    var e := EnvOf(cfg, k);
    var acks := AckWires(e, k.acks);
    var probes := ProbeWires(e, ProbeTimer(k.probe, k.cc.rmtWnd, e.current), LastAck(k.acks));
    forall w: Wire | w in acks + probes ensures w.cmd != PUSH {
      if w in acks { var i :| 0 <= i < |k.acks| && acks[i] == w; }
    }
    NoDataIn(acks + probes);
    FirstDataAppend(acks + probes, Transmit(cfg, e, Refill(Exact, cfg, k).buf).wires);
  }

  /** A flush at the right time sends the oldest number before any other data. */
  lemma FlushFirst(cfg: Config, k: Ctl)
    requires SndOk(k.snd) && k.snd.nxt - k.snd.una <= cfg.sndWnd && k.clock.updated
    requires Sending(cfg, k) && DueX(cfg, k, k.clock.current)
    ensures FirstData(Sent(Exact, cfg, k)) == FirstSn(k.snd.una)
  {
    if k.snd.buf != [] { FlushStartsWithOldest(cfg, k); } else { FreshFirst(cfg, k); }
  }

  /** Where in the log the oldest number is. */
  lemma FlushXFirst(c: Pair, s: Sys, time: u32) returns (j: nat)
    requires Inv(c, s) && Sending(c.x, s.x) && DueX(c.x, s.x, time)
    ensures var t := FlushX(c, s, time);
            FirstDataAt(t.xy, |s.xy|, j) && FirstData(t.xy[j]) == FirstSn(s.x.snd.una)
  {
    hide Sent, FirstData, Inv, SndOk;
    var s1 := Clocked(c, s, time);
    SpanOf(c, s);
    FlushFirst(c.x, s1.x);
    FlushedLog(c, s1);
    var out := Pack(c.x.mtu, Sent(Exact, c.x, s1.x));
    Packing.PackFlat(c.x.mtu, Sent(Exact, c.x, s1.x));
    var k := FirstDataIn(out);
    FirstDataFlat(out, k);
    FirstDataUnshift(s.xy, out, k);
    j := |s.xy| + k;
  }

  lemma SpanOf(c: Pair, s: Sys)
    requires Inv(c, s)
    ensures SndOk(s.x.snd) && s.x.snd.nxt - s.x.snd.una <= c.x.sndWnd
  {
  }

  // ----- what y makes of it --------------------------------------------------------------

  lemma {:induction false} NoDataKeeps(cfg: Config, s: Scan, d: Datagram)
    requires FirstData(d).NoData?
    ensures InputSegs(Exact, cfg, s, d).k.rcv == s.k.rcv
    decreases |d|
  {
    if d != [] { NoDataKeeps(cfg, InputSeg(Exact, cfg, s, d[0]), d[1..]); }
  }

  lemma {:induction false} ArriveAcks(c: Pair, s: Sys, n: nat)
    requires n <= |s.xy| && s.y.acks != []
    ensures ArriveY(c, s, n).y.acks != []
    decreases |s.xy| - n
  {
    if n < |s.xy| {
      ReceivedRest(c, s, n);
      AcksGrow(c.y, Scan(s.y, false, 0), s.xy[n]);
      ArriveAcks(c, Received(c, s, n), n + 1);
    }
  }

  lemma ReachedReceived(c: Pair, s: Sys, n: nat)
    requires Reached(c, s)
    ensures Later(c, s, Received(c, s, n))
  {
    Here(c, s);
    LaterStep(c, s, s, Action(B, DoDeliver(n)));
  }

  /** Once the oldest number has arrived, y is beyond it, and owes an acknowledgement. */
  lemma {:induction false} ArriveMoves(c: Pair, s: Sys, n: nat, j: nat, una: int)
    requires Reached(c, s) && FirstDataAt(s.xy, n, j) && FirstData(s.xy[j]) == FirstSn(una)
    requires una <= s.y.rcv.nxt && |s.y.rcv.queue| < c.y.rcvWnd
    ensures var t := ArriveY(c, s, n); una < t.y.rcv.nxt && t.y.acks != []
    decreases |s.xy| - n
  {
    hide FirstData;
    ReachedInv(c, s);
    ReachedReceived(c, s, n);
    ReceivedRest(c, s, n);
    var t := Received(c, s, n);
    if n < j {
      NoDataKeeps(c.y, Scan(s.y, false, 0), s.xy[n]);
      ArriveMoves(c, t, n + 1, j, una);
    } else {
      ReceivedMoves(c, s, n, una);
      Here(c, t);
      ArriveYLater(c, t, t, n + 1);
      ArriveAcks(c, t, n + 1);
    }
  }

  // ----- what y answers ------------------------------------------------------------------

  /** Datagrams from n on acknowledge everything below una and announce wnd. */
  ghost predicate Answers(log: seq<Datagram>, n: nat, una: int, wnd: int) {
    forall i :: n <= i < |log| ==> log[i] != [] && forall w :: w in log[i] ==> w.una == una && w.wnd == wnd
  }

  lemma FlushAnswers(c: Pair, s: Sys, time: u32)
    ensures var t := FlushX(c, s, time);
            && t.y == s.y && t.yx == s.yx && |s.xy| <= |t.xy|
            && Answers(t.xy, |s.xy|, s.x.rcv.nxt, WndUnused(c.x, s.x.rcv) % 65536)
            && (s.x.acks != [] || s.x.probe.tell ==> |s.xy| < |t.xy|)
  {
    var s1 := Clocked(c, s, time);
    FlushedLog(c, s1);
    var ws := Sent(Exact, c.x, s1.x);
    var out := Pack(c.x.mtu, ws);
    FlushAcknowledges(c.x, s1.x);
    Probing.SentWnd(c.x, s1.x);
    Packing.PackMembers(c.x.mtu, ws);
    PackNonEmpty(c.x.mtu, ws);
    if s.x.probe.tell { Probing.FlushTells(c.x, s1.x); }
    hide Sent, Pack;
    var t := FlushX(c, s, time);
    forall i | |s.xy| <= i < |t.xy|
      ensures t.xy[i] != []
              && forall w :: w in t.xy[i] ==> w.una == s.x.rcv.nxt && w.wnd == WndUnused(c.x, s.x.rcv) % 65536
    {
      assert t.xy[i] == out[i - |s.xy|] && out[i - |s.xy|] in out;
    }
  }

  lemma FlushYAnswers(c: Pair, s: Sys, time: u32)
    ensures var t := FlushY(c, s, time);
            && t.x == s.x && t.xy == s.xy && |s.yx| <= |t.yx|
            && Answers(t.yx, |s.yx|, s.y.rcv.nxt, WndUnused(c.y, s.y.rcv) % 65536)
            && (s.y.acks != [] || s.y.probe.tell ==> |s.yx| < |t.yx|)
  {
    hide FlushX, Answers;
    FlushAnswers(c.Flip(), s.Flip(), time);
  }

  /** The first answer already moves x's window. */
  lemma AnswerMovesY(c: Pair, s: Sys, n: nat, una: int, wnd: int)
    requires Reached(c, s) && n < |s.xy| && Answers(s.xy, n, una, wnd)
    ensures Min(una, s.y.snd.nxt) <= ArriveY(c, s, n).y.snd.una
  {
    ReachedInv(c, s);
    ReachedReceived(c, s, n);
    ReceivedRest(c, s, n);
    var d, t := s.xy[n], Received(c, s, n);
    assert d in s.xy && d[0] in d;
    AckMoves(c.y, s.y, d, s.x.rcv, s.x.snd.numbered);
    Here(c, t);
    ArriveYLater(c, t, t, n + 1);
  }

  lemma {:induction false} AnswerOpensY(c: Pair, s: Sys, n: nat, una: int, wnd: int)
    requires n <= |s.xy| && Answers(s.xy, n, una, wnd)
    ensures ArriveY(c, s, n).y.cc.rmtWnd == if n < |s.xy| then wnd else s.y.cc.rmtWnd
    decreases |s.xy| - n
  {
    if n < |s.xy| {
      ReceivedRest(c, s, n);
      Probing.InputWnd(c.y, s.y, s.xy[n], wnd);
      AnswerOpensY(c, Received(c, s, n), n + 1, una, wnd);
    }
  }

  lemma AnswerMovesX(c: Pair, s: Sys, n: nat, una: int, wnd: int)
    requires Reached(c, s) && n < |s.yx| && Answers(s.yx, n, una, wnd)
    ensures Min(una, s.x.snd.nxt) <= ArriveX(c, s, n).x.snd.una
  {
    hide ArriveY, Answers;
    ReachedFlip(c, s);
    AnswerMovesY(c.Flip(), s.Flip(), n, una, wnd);
  }

  lemma AnswerOpensX(c: Pair, s: Sys, n: nat, una: int, wnd: int)
    requires n <= |s.yx| && Answers(s.yx, n, una, wnd)
    ensures ArriveX(c, s, n).x.cc.rmtWnd == if n < |s.yx| then wnd else s.x.cc.rmtWnd
  {
    hide ArriveY, Answers;
    AnswerOpensY(c.Flip(), s.Flip(), n, una, wnd);
  }

  lemma ReachedFlip(c: Pair, s: Sys)
    requires Reached(c, s)
    ensures Reached(c.Flip(), s.Flip())
  {
    Here(c, s);
    LaterFlip(c, s, s);
  }

  // ----- a round that moves snd_una ------------------------------------------------------

  lemma UnreadRoom(c: Pair, s: Sys)
    requires Inv(c, s) && MsgInv(c, s) && PeekSize(s.y.rcv.queue) < 0
    ensures |s.y.rcv.queue| < c.y.rcvWnd && s.x.snd.una <= s.y.rcv.nxt
  {
    if |s.y.rcv.queue| >= c.y.rcvWnd {
      FullReadable(c, s);
    } else {
      AckBounds(s.x.snd, c.y.rcvWnd, s.y.rcv);
    }
  }

  /** x's flush leaves y alone and keeps something under way beyond una. */
  lemma FlushXRest(c: Pair, s: Sys, time: u32)
    requires Inv(c, s) && Sending(c.x, s.x)
    ensures var t := FlushX(c, s, time);
            t.y == s.y && t.yx == s.yx && t.x.snd.una == s.x.snd.una && s.x.snd.una < t.x.snd.nxt
  {
    var s1 := Clocked(c, s, time);
    FlushedLog(c, s1);
    FlushSndOk(c.x, s1.x);
    if s.x.snd.buf != [] {
      assert Numbered(s.x.snd.buf[0], s.x.snd.una, s.x.snd.numbered);
      assert |s.x.snd.numbered| <= |FlushState(Exact, c.x, s1.x).snd.numbered|;
    } else {
      FlushNumbers(c.x, s1.x);
      var t := FlushState(Exact, c.x, s1.x).snd;
      assert Numbered(t.buf[0], t.una, t.numbered);
    }
  }

  lemma RoundMoves(c: Pair, s: Sys, tx: u32, ty: u32)
    requires Reached(c, s) && Sending(c.x, s.x) && DueX(c.x, s.x, tx)
    ensures s.x.snd.una < Round(c, s, tx, ty).x.snd.una
  {
    hide Later, Reached, ReadY, FlushX, FlushY, ArriveX, ArriveY, Sending, DueX, Answers, Inv, MsgInv, FirstDataAt, FirstData;
    RoundLater(c, s, tx, ty);
    Here(c, s);
    ReadYLater(c, s, s);
    var s1 := ReadY(c, s);
    LaterReached(c, s, s1);
    ReachedInv(c, s1);
    UnreadRoom(c, s1);
    var j := FlushXFirst(c, s1, tx);
    FlushXRest(c, s1, tx);
    var s2 := FlushX(c, s1, tx);
    LaterReached(c, s, s2);
    ArriveMoves(c, s2, |s1.xy|, j, s.x.snd.una);
    ArriveYLater(c, s, s2, |s1.xy|);
    var s3 := ArriveY(c, s2, |s1.xy|);
    ReadYLater(c, s, s3);
    LaterReached(c, s, s3);
    ReadNxt(c, s3);
    var s4 := ReadY(c, s3);
    FlushYAnswers(c, s4, ty);
    var s5 := FlushY(c, s4, ty);
    LaterReached(c, s, s5);
    AnswerMovesX(c, s5, |s4.yx|, s4.y.rcv.nxt, WndUnused(c.y, s4.y.rcv) % 65536);
  }

  lemma LaterReached(c: Pair, s: Sys, t: Sys)
    requires Later(c, s, t)
    ensures Reached(c, t) && Kept(s, t)
  {
  }

  lemma ReadNxt(c: Pair, s: Sys)
    requires Reached(c, s)
    ensures s.y.rcv.nxt <= ReadY(c, s).y.rcv.nxt
  {
    Here(c, s);
    ReadYLater(c, s, s);
  }

  // ----- a round that prepares the next one ----------------------------------------------

  /** With nothing under way and nothing to number, a flush opens the congestion window, and starts or uses the probe
      timer. */
  lemma IdleFlush(c: Pair, s: Sys, time: u32)
    requires Inv(c, s) && s.x.snd.buf == [] && s.x.snd.queue != [] && !Sending(c.x, s.x)
    ensures var t := FlushX(c, s, time);
            && t.x.snd == s.x.snd && t.y == s.y && t.yx == s.yx && t.x.cc.rmtWnd == s.x.cc.rmtWnd && 1 <= t.x.cc.cwnd
            && (s.x.cc.rmtWnd == 0 ==> t.x.probe.wait != 0)
  {
    hide Inv, FlushState;
    var s1 := Clocked(c, s, time);
    FlushedLog(c, s1);
    SpanOf(c, s);
    IdleFlushState(c.x, s1.x);
  }

  lemma IdleFlushState(cfg: Config, k: Ctl)
    requires SndOk(k.snd) && k.snd.buf == [] && EffectiveWnd(cfg, k.cc) <= 0
    ensures var k' := FlushState(Exact, cfg, k);
            && k'.snd == k.snd && k'.cc.rmtWnd == k.cc.rmtWnd && 1 <= k'.cc.cwnd
            && (k.cc.rmtWnd == 0 ==> k'.probe.wait != 0)
  {
    hide EffectiveWnd;
    assert Refill(Exact, cfg, k) == k.snd;
  }

  /** With the probe timer run out it asks. */
  lemma IdleAsks(c: Pair, s: Sys, time: u32) returns (j: nat)
    requires s.x.cc.rmtWnd == 0 && s.x.probe.wait != 0 && TimeDiff(time, s.x.probe.ts) >= 0
    ensures var t := FlushX(c, s, time); |s.xy| <= j < |t.xy| && Probing.Asks(t.xy[j])
  {
    j := AskSent(c, Clocked(c, s, time));
  }

  lemma {:induction false} ArriveTells(c: Pair, s: Sys, n: nat, j: nat)
    requires n <= |s.xy|
    requires s.y.probe.tell || (n <= j < |s.xy| && Probing.Asks(s.xy[j]))
    ensures ArriveY(c, s, n).y.probe.tell
    decreases |s.xy| - n
  {
    if n < |s.xy| {
      ReceivedRest(c, s, n);
      Probing.InputProbe(c.y, s.y, s.xy[n]);
      ArriveTells(c, Received(c, s, n), n + 1, j);
    }
  }

  lemma {:induction false} SegsCc(cfg: Config, s: Scan, d: Datagram)
    ensures var k := InputSegs(Exact, cfg, s, d).k; k.cc == s.k.cc.(rmtWnd := k.cc.rmtWnd)
    decreases |d|
  {
    if d != [] { SegsCc(cfg, InputSeg(Exact, cfg, s, d[0]), d[1..]); }
  }

  /** What arrives at a side with nothing under way changes neither its congestion window nor its probe timer. */
  lemma IdleInput(c: Pair, s: Sys, d: Datagram)
    requires Inv(c, s) && s.x.snd.buf == [] && d in s.yx
    ensures var k := Input(Exact, c.x, s.x, d);
            k.snd == s.x.snd && k.cc == s.x.cc.(rmtWnd := k.cc.rmtWnd) && k.probe.wait == s.x.probe.wait
  {
    InputOk(c.x, s.x, d, s.y.rcv, s.y.snd.numbered);
    InputSegsOk(c.x, Scan(s.x, false, 0), d, s.y.rcv, s.y.snd.numbered);
    SegsCc(c.x, Scan(s.x, false, 0), d);
    Probing.InputProbe(c.x, s.x, d);
    EmptyStays(s.x.snd, Input(Exact, c.x, s.x, d).snd);
    EmptyStays(s.x.snd, InputSegs(Exact, c.x, Scan(s.x, false, 0), d).k.snd);
    var t := InputSegs(Exact, c.x, Scan(s.x, false, 0), d);
    FastackOk(t.k.snd, t.maxack);
  }

  lemma EmptyStays(s: Snd, t: Snd)
    requires SndOk(s) && SndOk(t) && s.buf == [] && t == s.(una := t.una, buf := t.buf) && s.una <= t.una
    ensures t == s
  {
    assert t.buf != [] ==> Numbered(t.buf[0], t.una, t.numbered);
  }

  lemma IdleReceived(c: Pair, s: Sys, n: nat)
    requires Inv(c, s) && n < |s.xy| && s.y.snd.buf == []
    ensures var k := Received(c, s, n).y;
            k.snd == s.y.snd && k.cc == s.y.cc.(rmtWnd := k.cc.rmtWnd) && k.probe.wait == s.y.probe.wait
  {
    hide Inv, Input, Received;
    ReceivedRest(c, s, n);
    assert s.xy[n] in s.xy;
    InvFlip(c, s);
    IdleInput(c.Flip(), s.Flip(), s.xy[n]);
  }

  lemma InvFlip(c: Pair, s: Sys)
    requires Inv(c, s)
    ensures Inv(c.Flip(), s.Flip())
  {
  }

  lemma {:induction false} IdleArriveY(c: Pair, s: Sys, n: nat)
    requires Reached(c, s) && n <= |s.xy| && s.y.snd.buf == []
    ensures var k := ArriveY(c, s, n).y;
            k.snd == s.y.snd && k.cc == s.y.cc.(rmtWnd := k.cc.rmtWnd) && k.probe.wait == s.y.probe.wait
    decreases |s.xy| - n
  {
    hide Reached, Received, Inv, MsgInv, Later;
    if n < |s.xy| {
      ReachedInv(c, s);
      ReachedReceived(c, s, n);
      LaterReached(c, s, Received(c, s, n));
      ReceivedRest(c, s, n);
      IdleReceived(c, s, n);
      IdleArriveY(c, Received(c, s, n), n + 1);
    }
  }

  lemma IdleArriveX(c: Pair, s: Sys, n: nat)
    requires Reached(c, s) && n <= |s.yx| && s.x.snd.buf == []
    ensures var k := ArriveX(c, s, n).x;
            k.snd == s.x.snd && k.cc == s.x.cc.(rmtWnd := k.cc.rmtWnd) && k.probe.wait == s.x.probe.wait
  {
    hide ArriveY, Reached;
    ReachedFlip(c, s);
    IdleArriveY(c.Flip(), s.Flip(), n);
  }

  /** How many rounds it takes until x can send. */
  ghost function Phase(cfg: Config, k: Ctl): (n: nat)
    ensures n <= 2
  {
    if Sending(cfg, k) then 0 else if k.cc.rmtWnd != 0 || k.probe.wait != 0 then 1 else 2
  }

  /** What x is left with after an idle round. */
  lemma IdleRound(c: Pair, s: Sys, tx: u32, ty: u32)
    requires Reached(c, s) && OpenWindow(c) && DueX(c.x, s.x, tx)
    requires s.x.snd.buf == [] && s.x.snd.queue != [] && !Sending(c.x, s.x)
    ensures var k := Round(c, s, tx, ty).x;
            && k.snd == s.x.snd && 1 <= k.cc.cwnd
            && (0 < k.cc.rmtWnd || (s.x.cc.rmtWnd == 0 && s.x.probe.wait == 0 && k.cc.rmtWnd == 0 && k.probe.wait != 0))
  {
    hide Later, Reached, ReadY, FlushX, FlushY, ArriveX, ArriveY, Sending, Answers, Inv, MsgInv, OpenWindow, WndUnused;
    RoundLater(c, s, tx, ty);
    ReachedInv(c, s);
    RmtWndOf(c, s);
    Here(c, s);
    ReadYLater(c, s, s);
    var s1 := ReadY(c, s);
    LaterReached(c, s, s1);
    ReachedInv(c, s1);
    IdleFlush(c, s1, tx);
    var s2 := FlushX(c, s1, tx);
    LaterReached(c, s, s2);
    ArriveYLater(c, s, s2, |s1.xy|);
    var s3 := ArriveY(c, s2, |s1.xy|);
    if s.x.cc.rmtWnd == 0 && s.x.probe.wait != 0 {
      var j := IdleAsks(c, s1, tx);
      ArriveTells(c, s2, |s1.xy|, j);
    }
    ReadYLater(c, s, s3);
    var s4 := ReadY(c, s3);
    LaterReached(c, s, s4);
    ReachedInv(c, s4);
    RoomAnnounced(c, s4);
    FlushYAnswers(c, s4, ty);
    var s5 := FlushY(c, s4, ty);
    LaterReached(c, s, s5);
    AnswerOpensX(c, s5, |s4.yx|, s4.y.rcv.nxt, WndUnused(c.y, s4.y.rcv) % 65536);
    IdleArriveX(c, s5, |s4.yx|);
  }

  lemma RmtWndOf(c: Pair, s: Sys)
    requires Datagrams.ShapeInv(c, s)
    ensures 0 <= s.x.cc.rmtWnd
  {
  }

  lemma CanSend(cfg: Config, k: Ctl)
    requires k.snd.queue != [] && 1 <= k.cc.cwnd && 0 < k.cc.rmtWnd
    ensures Sending(cfg, k)
  {
  }

  lemma RoundPrepares(c: Pair, s: Sys, tx: u32, ty: u32)
    requires Reached(c, s) && OpenWindow(c) && DueX(c.x, s.x, tx)
    requires s.x.snd.buf == [] && s.x.snd.queue != [] && !Sending(c.x, s.x)
    ensures Phase(c.x, Round(c, s, tx, ty).x) < Phase(c.x, s.x)
  {
    hide Round, Reached, OpenWindow, DueX;
    IdleRound(c, s, tx, ty);
    var k := Round(c, s, tx, ty).x;
    if 0 < k.cc.rmtWnd { CanSend(c.x, k); }
  }

  // ----- any number of rounds ------------------------------------------------------------

  function Rounds(c: Pair, s: Sys, ts: seq<(u32, u32)>): (t: Sys)
    decreases |ts|
  {
    if ts == [] then s else Rounds(c, Round(c, s, ts[0].0, ts[0].1), ts[1..])
  }

  /** Each round comes when something is due for x. */
  predicate Timed(c: Pair, s: Sys, ts: seq<(u32, u32)>)
    decreases |ts|
  {
    ts == [] || (DueX(c.x, s.x, ts[0].0) && Timed(c, Round(c, s, ts[0].0, ts[0].1), ts[1..]))
  }

  /** How many rounds are needed at most until nothing is left. */
  ghost function Needed(c: Pair, s: Sys): (n: int) {
    3 * Left(s) + Phase(c.x, s.x)
  }

  lemma LeftCases(c: Pair, s: Sys)
    requires Inv(c, s)
    ensures 0 <= Left(s) && (Left(s) == 0 ==> s.x.snd.queue == [] && s.x.snd.buf == [])
    ensures Left(s) > 0 && s.x.snd.buf == [] ==> s.x.snd.queue != []
  {
    if Left(s) == 0 { NothingLeft(s.x.snd); }
  }

  lemma LeftBetween(s: Sys, t: Sys)
    requires Kept(s, t)
    ensures Left(s) - Left(t) == t.x.snd.una - s.x.snd.una >= 0
  {
    assert |t.x.snd.numbered + t.x.snd.queue| == |s.x.snd.numbered + s.x.snd.queue|;
  }

  /** Every round with something left brings the end nearer. */
  lemma RoundNearer(c: Pair, s: Sys, tx: u32, ty: u32)
    requires Reached(c, s) && OpenWindow(c) && DueX(c.x, s.x, tx)
    ensures var t := Round(c, s, tx, ty);
            Later(c, s, t) && 0 <= Left(t) <= Left(s) && (Left(s) > 0 ==> Needed(c, t) < Needed(c, s))
  {
    hide Reached, OpenWindow, DueX, Inv, MsgInv, Sending, Round, Left, Later;
    var t := Round(c, s, tx, ty);
    RoundLater(c, s, tx, ty);
    LaterReached(c, s, t);
    LeftBetween(s, t);
    ReachedInv(c, s);
    ReachedInv(c, t);
    LeftCases(c, s);
    LeftCases(c, t);
    if Left(s) > 0 {
      if Sending(c.x, s.x) {
        RoundMoves(c, s, tx, ty);
      } else {
        SendingBuf(c.x, s.x);
        RoundPrepares(c, s, tx, ty);
      }
    }
  }

  lemma SendingBuf(cfg: Config, k: Ctl)
    ensures k.snd.buf != [] ==> Sending(cfg, k)
  {
  }

  lemma {:induction false} RoundsNearer(c: Pair, s: Sys, ts: seq<(u32, u32)>)
    requires Reached(c, s) && OpenWindow(c) && Timed(c, s, ts)
    ensures Later(c, s, Rounds(c, s, ts))
    ensures |ts| >= Needed(c, s) ==> Left(Rounds(c, s, ts)) == 0
    decreases |ts|
  {
    hide Reached, OpenWindow, DueX, Round, Left, Inv, MsgInv;
    ReachedInv(c, s);
    LeftCases(c, s);
    Here(c, s);
    if ts != [] {
      var t := Round(c, s, ts[0].0, ts[0].1);
      RoundNearer(c, s, ts[0].0, ts[0].1);
      LaterReached(c, s, t);
      RoundsNearer(c, t, ts[1..]);
      if Left(s) == 0 { RoundsStay(c, t, ts[1..]); }
      LaterReached(c, t, Rounds(c, t, ts[1..]));
    }
  }

  lemma RoundsStay(c: Pair, s: Sys, ts: seq<(u32, u32)>)
    requires Reached(c, s) && Left(s) == 0 && Later(c, s, Rounds(c, s, ts))
    ensures Left(Rounds(c, s, ts)) == 0
  {
    hide Reached, Left, Rounds, Inv, MsgInv;
    var t := Rounds(c, s, ts);
    LaterReached(c, s, t);
    LeftBetween(s, t);
    ReachedInv(c, t);
    LeftCases(c, t);
  }

  /** At the end of a round y's user has read what could be read. */
  lemma RoundRead(c: Pair, s: Sys, tx: u32, ty: u32)
    requires Reached(c, s)
    ensures PeekSize(Round(c, s, tx, ty).y.rcv.queue) < 0
  {
    hide Later, Reached, ReadY, FlushX, FlushY, ArriveX, ArriveY, Answers;
    RoundLater(c, s, tx, ty);
    var s1 := ReadY(c, s);
    var s3 := ArriveY(c, FlushX(c, s1, tx), |s1.xy|);
    ReadYLater(c, s, s3);
    var s4 := ReadY(c, s3);
    FlushYRcv(c, s4, ty);
    ArriveXLater(c, s, FlushY(c, s4, ty), |s4.yx|);
  }

  lemma FlushYRcv(c: Pair, s: Sys, ty: u32)
    ensures FlushY(c, s, ty).y.rcv == s.y.rcv
  {
    FlushedLog(c.Flip(), Clocked(c.Flip(), s.Flip(), ty));
  }

  lemma {:induction false} RoundsRead(c: Pair, s: Sys, ts: seq<(u32, u32)>)
    requires Reached(c, s) && ts != []
    ensures PeekSize(Rounds(c, s, ts).y.rcv.queue) < 0
    decreases |ts|
  {
    hide Reached, Round;
    var t := Round(c, s, ts[0].0, ts[0].1);
    RoundRead(c, s, ts[0].0, ts[0].1);
    RoundLater(c, s, ts[0].0, ts[0].1);
    LaterReached(c, s, t);
    if |ts| > 1 { RoundsRead(c, t, ts[1..]); } else { assert ts[1..] == []; }
  }

  /** Completion by loss-free rounds: from every reachable state, three rounds for each piece that is left and three more
      empty x's queue and buffer and let y's user read all that x's user sent, however the times are chosen. */
  lemma RoundsComplete(c: Pair, s: Sys, ts: seq<(u32, u32)>)
    requires Reached(c, s) && OpenWindow(c) && Timed(c, s, ts) && |ts| >= 3 * Left(s) + 3
    ensures var t := Rounds(c, s, ts);
            && t.x.snd.queue == [] && t.x.snd.buf == [] && t.x.snd.accepted == s.x.snd.accepted
            && (if c.x.stream then Concat(t.y.rcv.taken) == Concat(t.x.snd.accepted)
                else t.y.rcv.taken == t.x.snd.accepted)
  {
    hide Reached, OpenWindow, Timed, Rounds, Left, Inv, MsgInv, Later, Concat;
    var t := Rounds(c, s, ts);
    RoundsNearer(c, s, ts);
    LaterReached(c, s, t);
    ReachedInv(c, s);
    LeftCases(c, s);
    RoundsRead(c, s, ts);
    ReachedInv(c, t);
    LeftCases(c, t);
    if t.y.rcv.queue != [] { HeadComplete(c, t); }
    AllTaken(c, t);
  }
}
