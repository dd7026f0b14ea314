/** Which segments that arrive are acknowledged, and what the acknowledgements do at the peer. */
module PendingAcks {
  import opened Words
  import opened Protocol
  import opened Safety
  import opened System
  import opened Progress
  import Conservation
  import Messages
  import Packing
  import Probing
  import RttEstimator
  import Seqs

  // ----- what a datagram leaves pending --------------------------------------------------

  /** rcv_nxt when segment i of the datagram is looked at. */
  function NxtBefore(cfg: Config, k: Ctl, d: Datagram, i: nat): (n: int)
    requires i <= |d|
  {
    InputSegs(Exact, cfg, Scan(k, false, 0), d[..i]).k.rcv.nxt
  }

  /** Segment i is data below the end of the receive window: old, repeated and out-of-order data included. */
  predicate Owing(cfg: Config, k: Ctl, d: Datagram, i: nat)
    requires i < |d|
  {
    d[i].cmd == PUSH && d[i].sn < NxtBefore(cfg, k, d, i) + cfg.rcvWnd
  }

  /** The acknowledgements owed for the first n segments, in order. */
  function Owed(cfg: Config, k: Ctl, d: Datagram, n: nat): (acks: seq<Ack>)
    requires n <= |d|
  {
    if n == 0 then []
    else Owed(cfg, k, d, n - 1) + (if Owing(cfg, k, d, n - 1) then [Ack(d[n - 1].sn, d[n - 1].ts)] else [])
  }

  lemma {:induction false} SegsSnoc(m: Arith, cfg: Config, s: Scan, d: Datagram, w: Wire)
    ensures InputSegs(m, cfg, s, d + [w]) == InputSeg(m, cfg, InputSegs(m, cfg, s, d), w)
    decreases |d|
  {
    if d == [] {
      assert ([] + [w])[1..] == [];
    } else {
      assert (d + [w])[0] == d[0] && (d + [w])[1..] == d[1..] + [w];
      SegsSnoc(m, cfg, InputSeg(m, cfg, s, d[0]), d[1..], w);
    }
  }

  lemma {:induction false} SegsOwe(cfg: Config, k: Ctl, d: Datagram, n: nat)
    requires n <= |d|
    ensures InputSegs(Exact, cfg, Scan(k, false, 0), d[..n]).k.acks == k.acks + Owed(cfg, k, d, n)
  {
    if n > 0 {
      SegsOwe(cfg, k, d, n - 1);
      assert d[..n] == d[..n - 1] + [d[n - 1]];
      SegsSnoc(Exact, cfg, Scan(k, false, 0), d[..n - 1], d[n - 1]);
      hide InputSegs;
      Seqs.Assoc(k.acks, Owed(cfg, k, d, n - 1), [Ack(d[n - 1].sn, d[n - 1].ts)]);
    }
  }

  /** ikcp_input leaves pending what was pending and, after it, an acknowledgement with number and timestamp for each data
      segment below the end of the window, in the order of the datagram, and nothing else. */
  lemma InputOwes(cfg: Config, k: Ctl, d: Datagram)
    ensures Input(Exact, cfg, k, d).acks == k.acks + Owed(cfg, k, d, |d|)
  {
    SegsOwe(cfg, k, d, |d|);
    assert d[..|d|] == d;
  }

  lemma SegNxt(cfg: Config, s: Scan, w: Wire)
    ensures s.k.rcv.nxt <= InputSeg(Exact, cfg, s, w).k.rcv.nxt
  {
    var r := s.k.rcv;
    Messages.DrainNet(cfg.rcvWnd, r.(buf := InsertBack(Exact, r.buf, InSeg(w.sn, Piece(w.frg, w.data)))));
  }

  lemma {:induction false} NxtGrows(cfg: Config, k: Ctl, d: Datagram, i: nat)
    requires i <= |d|
    ensures k.rcv.nxt <= NxtBefore(cfg, k, d, i)
  {
    if i > 0 {
      NxtGrows(cfg, k, d, i - 1);
      assert d[..i] == d[..i - 1] + [d[i - 1]];
      SegsSnoc(Exact, cfg, Scan(k, false, 0), d[..i - 1], d[i - 1]);
      SegNxt(cfg, InputSegs(Exact, cfg, Scan(k, false, 0), d[..i - 1]), d[i - 1]);
    } else {
      assert d[..0] == [];
    }
  }

  lemma {:induction false} OwedHas(cfg: Config, k: Ctl, d: Datagram, n: nat, i: nat)
    requires i < n <= |d| && Owing(cfg, k, d, i)
    ensures Ack(d[i].sn, d[i].ts) in Owed(cfg, k, d, n)
  {
    if i < n - 1 { OwedHas(cfg, k, d, n - 1, i); }
  }

  /** In particular every data segment below the window that was there when the datagram arrived is acknowledged. */
  lemma InputAcknowledges(cfg: Config, k: Ctl, d: Datagram, i: nat)
    requires i < |d| && d[i].cmd == PUSH && d[i].sn < k.rcv.nxt + cfg.rcvWnd
    ensures Ack(d[i].sn, d[i].ts) in Input(Exact, cfg, k, d).acks
  {
    hide NxtBefore, Input;
    NxtGrows(cfg, k, d, i);
    OwedHas(cfg, k, d, |d|, i);
    InputOwes(cfg, k, d);
  }

  // ----- what the acknowledgements do ----------------------------------------------------

  lemma SentAcks(cfg: Config, k: Ctl, a: Ack)
    requires a in k.acks
    ensures exists w :: w in Sent(Exact, cfg, k) && w.cmd == ACK && w.sn == a.sn && w.ts == a.ts
  {
    var i :| 0 <= i < |k.acks| && k.acks[i] == a;
    var e := EnvOf(cfg, k);
    var w := AckWires(e, k.acks)[i];
    assert w == Control(e, ACK, a) && w in AckWires(e, k.acks);
    assert w in Sent(Exact, cfg, k);
  }

  /** A flush carries every pending acknowledgement in some datagram. */
  lemma FlushCarries(cfg: Config, k: Ctl, a: Ack) returns (n: nat, w: Wire)
    requires a in k.acks && k.clock.updated
    ensures n < |Flush(Exact, cfg, k).1| && w in Flush(Exact, cfg, k).1[n] && w.cmd == ACK && w.sn == a.sn && w.ts == a.ts
  {
    hide Sent, Pack;
    SentAcks(cfg, k, a);
    w :| w in Sent(Exact, cfg, k) && w.cmd == ACK && w.sn == a.sn && w.ts == a.ts;
    Packing.PackFlat(cfg.mtu, Sent(Exact, cfg, k));
    Probing.FlatHas(Pack(cfg.mtu, Sent(Exact, cfg, k)), w);
    n :| 0 <= n < |Pack(cfg.mtu, Sent(Exact, cfg, k))| && w in Pack(cfg.mtu, Sent(Exact, cfg, k))[n];
  }

  lemma InNums(buf: seq<OutSeg>, n: int)
    ensures InOut(buf, n) <==> n in multiset(Conservation.Nums(buf))
  {
    var ns := Conservation.Nums(buf);
    if InOut(buf, n) { var i :| 0 <= i < |buf| && buf[i].sn == n; assert ns[i] == n; }
    if n in multiset(ns) { var i :| 0 <= i < |ns| && ns[i] == n; assert buf[i].sn == n; }
  }

  /** What is not in snd_buf does not come in by input. */
  lemma {:induction false} StaysOut(cfg: Config, s: Scan, d: Datagram, peer: Rcv, n: int)
    requires (forall w :: w in d ==> BackOk(w, peer)) && !InOut(s.k.snd.buf, n)
    ensures !InOut(InputSegs(Exact, cfg, s, d).k.snd.buf, n)
  {
    Conservation.InputSplits(cfg, s, d, peer);
    InNums(s.k.snd.buf, n);
    InNums(InputSegs(Exact, cfg, s, d).k.snd.buf, n);
  }

  lemma SegRemoves(s: Snd, w: Wire, peer: Rcv)
    requires SndOk(s) && BackOk(w, peer) && w.cmd == ACK
    ensures !InOut(SndInput(Exact, s, w).buf, w.sn)
  {
    var s1 := Shrink(s.(buf := DropBelow(Exact, s.buf, w.una)));
    UnaOk(s, w.una);
    AckOk(s1, w.sn);
    if InFlight(Exact, s1, w.sn) {
      RemoveSnMembers(s1.buf, w.sn);
    } else {
      forall i | 0 <= i < |s1.buf| ensures s1.buf[i].sn != w.sn { assert Numbered(s1.buf[i], s1.una, s1.numbered); }
    }
  }

  /** A datagram with an acknowledgement of n takes n out of snd_buf. */
  lemma {:induction false} InputRemoves(cfg: Config, s: Scan, d: Datagram, peer: Rcv, source: seq<Piece>, w: Wire)
    requires SndOk(s.k.snd) && RcvOk(cfg.rcvWnd, s.k.rcv, source) && AcksHeld(s.k.acks, s.k.rcv)
    requires forall v :: v in d ==> BackOk(v, peer) && PushOk(v, source)
    requires w in d && w.cmd == ACK
    ensures !InOut(InputSegs(Exact, cfg, s, d).k.snd.buf, w.sn)
    decreases |d|
  {
    var s' := InputSeg(Exact, cfg, s, d[0]);
    assert d[0] in d;
    SndInputOk(s.k.snd, d[0], peer);
    RcvInputOk(cfg, s.k, d[0], source);
    if d[0] == w {
      SegRemoves(s.k.snd, w, peer);
      StaysOut(cfg, s', d[1..], peer, w.sn);
    } else {
      InputRemoves(cfg, s', d[1..], peer, source, w);
    }
  }

  lemma DeliverRemoves(c: Pair, s: Sys, i: nat, w: Wire)
    requires Inv(c, s) && i < |s.yx| && w in s.yx[i] && w.cmd == ACK
    ensures !InOut(Progress.Acknowledged(c, s, i).x.snd.buf, w.sn)
  {
    var d, s0 := s.yx[i], Scan(s.x, false, 0);
    assert d in s.yx;
    InputRemoves(c.x, s0, d, s.y.rcv, s.y.snd.numbered, w);
    InputSegsOk(c.x, s0, d, s.y.rcv, s.y.snd.numbered);
    var t := InputSegs(Exact, c.x, s0, d);
    FastackOk(t.k.snd, t.maxack);
  }

  /** When y gets datagram j of x and flushes, segment i is acknowledged in some datagram, with its timestamp, and x's
      snd_buf does not hold it when that arrives. */
  ghost predicate Confirmed(c: Pair, s: Sys, j: nat, i: nat)
    requires j < |s.xy| && i < |s.xy[j]|
  {
    var t, w := Answered(c, Received(c, s, j)), s.xy[j][i];
    exists n, a :: |s.yx| <= n < |t.yx| && a in t.yx[n] && a.cmd == ACK && a.sn == w.sn && a.ts == w.ts
                   && !InOut(Progress.Acknowledged(c, t, n).x.snd.buf, w.sn)
  }

  lemma ReceivedIs(c: Pair, s: Sys, j: nat)
    requires j < |s.xy|
    ensures var t := Received(c, s, j);
            t == s.(y := Input(Exact, c.y, s.y, s.xy[j])) && t.y.clock == s.y.clock
  {
    ClockKept(c.y, Scan(s.y, false, 0), s.xy[j]);
  }

  /** Data below the end of y's window. */
  ghost predicate Acceptable(c: Pair, s: Sys, w: Wire) {
    w.cmd == PUSH && w.sn < s.y.rcv.nxt + c.y.rcvWnd
  }

  /** The acknowledgement round trip, in every reachable state: whatever data arrives below the end of y's window, in order
      or not, new or not, is confirmed by y's next flush, and the confirmation takes it out of x's snd_buf. */
  lemma AckRoundTrip(c: Pair, acts: seq<Action>)
    ensures var s := Run(Exact, c, acts);
            s.y.clock.updated ==>
              forall j, i :: 0 <= j < |s.xy| && 0 <= i < |s.xy[j]| && Acceptable(c, s, s.xy[j][i]) ==> Confirmed(c, s, j, i)
  {
    var s := Run(Exact, c, acts);
    RunInv(c, acts);
    if s.y.clock.updated {
      forall j, i | 0 <= j < |s.xy| && 0 <= i < |s.xy[j]| && Acceptable(c, s, s.xy[j][i])
        ensures Confirmed(c, s, j, i)
      {
        AckTrip(c, s, j, i);
      }
    }
  }

  lemma AckTrip(c: Pair, s: Sys, j: nat, i: nat)
    requires Inv(c, s) && s.y.clock.updated && j < |s.xy| && i < |s.xy[j]|
    requires s.xy[j][i].cmd == PUSH && s.xy[j][i].sn < s.y.rcv.nxt + c.y.rcvWnd
    ensures Confirmed(c, s, j, i)
  {
    hide Inv, Input, Flush, Received, Answered, Progress.Acknowledged, Confirmed, Step;
    var d, t := s.xy[j], Received(c, s, j);
    var u := Answered(c, t);
    TripInv(c, s, j);
    ReceivedIs(c, s, j);
    InputAcknowledges(c.y, s.y, d, i);
    var n, a := FlushCarries(c.y, t.y, Ack(d[i].sn, d[i].ts));
    AnsweredLog(c, t);
    assert u.yx[|s.yx| + n] == Flush(Exact, c.y, t.y).1[n];
    DeliverRemoves(c, u, |s.yx| + n, a);
    ConfirmedBy(c, s, j, i, |s.yx| + n, a);
  }

  lemma TripInv(c: Pair, s: Sys, j: nat)
    requires Inv(c, s)
    ensures Inv(c, Received(c, s, j)) && Inv(c, Answered(c, Received(c, s, j)))
  {
    StepInv(c, s, Action(B, DoDeliver(j)));
    StepInv(c, Received(c, s, j), Action(B, DoFlush));
  }

  lemma ConfirmedBy(c: Pair, s: Sys, j: nat, i: nat, n: nat, a: Wire)
    requires j < |s.xy| && i < |s.xy[j]|
    requires var t, w := Answered(c, Received(c, s, j)), s.xy[j][i];
             |s.yx| <= n < |t.yx| && a in t.yx[n] && a.cmd == ACK && a.sn == w.sn && a.ts == w.ts
             && !InOut(Progress.Acknowledged(c, t, n).x.snd.buf, w.sn)
    ensures Confirmed(c, s, j, i)
  {
  }

  // ----- round-trip samples --------------------------------------------------------------

  /** The round-trip samples of a datagram: for each acknowledgement, how long ago its timestamp is, unless that lies in the
      future. */
  function SamplesOf(now: int, d: Datagram): (rs: seq<int>) {
    if d == [] then []
    else
      var w := d[|d| - 1];
      SamplesOf(now, d[..|d| - 1])
      + (if w.cmd == ACK && Signed(now - w.ts) >= 0 then [Signed(now - w.ts)] else [])
  }

  lemma {:induction false} SegsRtt(m: Arith, cfg: Config, k: Ctl, d: Datagram)
    ensures InputSegs(m, cfg, Scan(k, false, 0), d).k.rtt ==
            RttEstimator.Samples(cfg, k.rtt, SamplesOf(k.clock.current, d))
  {
    if d != [] {
      SegsRtt(m, cfg, k, d[..|d| - 1]);
      SegsRttNext(m, cfg, k, d[..|d| - 1], d[|d| - 1], d);
    }
  }

  lemma SegsRttNext(m: Arith, cfg: Config, k: Ctl, front: Datagram, w: Wire, d: Datagram)
    requires d != [] && front == d[..|d| - 1] && w == d[|d| - 1]
    requires InputSegs(m, cfg, Scan(k, false, 0), front).k.rtt ==
             RttEstimator.Samples(cfg, k.rtt, SamplesOf(k.clock.current, front))
    ensures InputSegs(m, cfg, Scan(k, false, 0), d).k.rtt ==
            RttEstimator.Samples(cfg, k.rtt, SamplesOf(k.clock.current, d))
  {
    hide InputSegs, InputSeg, UpdateRtt, RttEstimator.Samples, Signed, SamplesOf;
    SegsSnoc(m, cfg, Scan(k, false, 0), front, w);
    assert front + [w] == d;
    SegsClock(m, cfg, Scan(k, false, 0), front);
    SegRtt(m, cfg, InputSegs(m, cfg, Scan(k, false, 0), front), w);
    RttEstimator.SamplesLast(cfg, k.rtt, SamplesOf(k.clock.current, front), Signed(k.clock.current - w.ts));
    SamplesSnoc(k.clock.current, d);
  }

  lemma SamplesSnoc(now: int, d: Datagram)
    requires d != []
    ensures var w, front := d[|d| - 1], SamplesOf(now, d[..|d| - 1]);
            SamplesOf(now, d) == if w.cmd == ACK && Signed(now - w.ts) >= 0 then front + [Signed(now - w.ts)] else front
  {
  }

  lemma SegRtt(m: Arith, cfg: Config, s: Scan, w: Wire)
    ensures InputSeg(m, cfg, s, w).k.rtt ==
            if w.cmd == ACK && Signed(s.k.clock.current - w.ts) >= 0
            then UpdateRtt(cfg, s.k.rtt, Signed(s.k.clock.current - w.ts)) else s.k.rtt
  {
  }

  lemma {:induction false} SegsClock(m: Arith, cfg: Config, s: Scan, d: Datagram)
    ensures InputSegs(m, cfg, s, d).k.clock == s.k.clock
    decreases |d|
  {
    if d != [] { SegsClock(m, cfg, InputSeg(m, cfg, s, d[0]), d[1..]); }
  }

  /** ikcp_input gives the estimator one sample for each acknowledgement, in order. */
  lemma InputSamples(m: Arith, cfg: Config, k: Ctl, d: Datagram)
    ensures Input(m, cfg, k, d).rtt == RttEstimator.Samples(cfg, k.rtt, SamplesOf(k.clock.current, d))
  {
    SegsRtt(m, cfg, k, d);
  }
}
