/** One round trip moves the send window, if the receiver has room. */
module Progress {
  import opened Words
  import opened Protocol
  import opened Safety
  import opened System
  import opened Packing

  datatype FirstSn = NoData | FirstSn(sn: int)

  /** The number of the first data segment in ws. */
  function FirstData(ws: seq<Wire>): (r: FirstSn) {
    if ws == [] then NoData else if ws[0].cmd == PUSH then FirstSn(ws[0].sn) else FirstData(ws[1..])
  }

  lemma {:induction false} FirstDataAppend(a: seq<Wire>, b: seq<Wire>)
    ensures FirstData(a + b) == if FirstData(a).NoData? then FirstData(b) else FirstData(a)
  {
    if a == [] {
      assert a + b == b;
    } else {
      assert (a + b)[1..] == a[1..] + b;
      FirstDataAppend(a[1..], b);
    }
  }

  lemma {:induction false} NoDataIn(ws: seq<Wire>)
    requires forall w :: w in ws ==> w.cmd != PUSH
    ensures FirstData(ws) == NoData
  {
    if ws != [] {
      assert ws[0] in ws;
      NoDataIn(ws[1..]);
    }
  }

  /** The first data segment of a run of datagrams is that of its first datagram with data. */
  lemma {:induction false} FirstDataFlat(ds: seq<Datagram>, j: nat)
    requires j < |ds| && !FirstData(ds[j]).NoData?
    requires forall i :: 0 <= i < j ==> FirstData(ds[i]).NoData?
    ensures FirstData(Flat(ds)) == FirstData(ds[j])
    decreases |ds|
  {
    var k := |ds| - 1;
    FirstDataAppend(Flat(ds[..k]), ds[k]);
    if j < k {
      FirstDataFlat(ds[..k], j);
    } else {
      NoDataFlat(ds[..k]);
    }
  }

  lemma {:induction false} NoDataFlat(ds: seq<Datagram>)
    requires forall i :: 0 <= i < |ds| ==> FirstData(ds[i]).NoData?
    ensures FirstData(Flat(ds)).NoData?
  {
    if ds != [] {
      var k := |ds| - 1;
      NoDataFlat(ds[..k]);
      FirstDataAppend(Flat(ds[..k]), ds[k]);
    }
  }

  // ----- the sender's flush --------------------------------------------------------------

  ghost predicate OldestDue(cfg: Config, k: Ctl) {
    k.clock.updated && k.snd.buf != [] && !FateOf(cfg, k.clock.current, k.snd.buf[0]).Keep?
  }

  lemma {:induction false} FirstTransmitted(cfg: Config, e: Env, buf: seq<OutSeg>)
    requires buf != [] && !FateOf(cfg, e.current, buf[0]).Keep?
    ensures FirstData(Transmit(cfg, e, buf).wires) == FirstSn(buf[0].sn)
  {
    var k := |buf| - 1;
    var w := PushWire(Touch(cfg, e, buf[k]));
    if k == 0 {
      assert Transmit(cfg, e, buf[..k]).wires == [];
      assert Transmit(cfg, e, buf).wires == [w];
    } else {
      FirstTransmitted(cfg, e, buf[..k]);
      FirstDataAppend(Transmit(cfg, e, buf[..k]).wires, [w]);
    }
  }

  /** A flush whose oldest segment is due sends that segment before any other data. */
  lemma FlushStartsWithOldest(cfg: Config, k: Ctl)
    requires SndOk(k.snd) && OldestDue(cfg, k)
    ensures FirstData(Sent(Exact, cfg, k)) == FirstSn(k.snd.una)
  {
    var e := EnvOf(cfg, k);
    var s := Refill(Exact, cfg, k);
    NumberOk(e, EffectiveWnd(cfg, k.cc), k.snd);
    assert s.buf[0] == k.snd.buf[0];
    FirstTransmitted(cfg, e, s.buf);
    var acks := AckWires(e, k.acks);
    var probes := ProbeWires(e, ProbeTimer(k.probe, k.cc.rmtWnd, e.current), LastAck(k.acks));
    NoDataIn(acks);
    NoDataIn(probes);
    FirstDataAppend(acks, probes);
    FirstDataAppend(acks + probes, Transmit(cfg, e, s.buf).wires);
  }

  // ----- the receiver --------------------------------------------------------------------

  lemma {:induction false} AcksGrow(cfg: Config, s: Scan, d: Datagram)
    ensures |s.k.acks| <= |InputSegs(Exact, cfg, s, d).k.acks|
    decreases |d|
  {
    if d != [] {
      AcksGrow(cfg, InputSeg(Exact, cfg, s, d[0]), d[1..]);
    }
  }

  /** A datagram whose first data number is not beyond the next expected one pushes the receiver
      past it, and leaves an acknowledgement to send: also when the number was received before. */
  lemma {:induction false} DataMoves(cfg: Config, s: Scan, d: Datagram, peer: Rcv, source: seq<Piece>, n: int)
    requires SndOk(s.k.snd) && RcvOk(cfg.rcvWnd, s.k.rcv, source) && AcksHeld(s.k.acks, s.k.rcv)
    requires forall w :: w in d ==> BackOk(w, peer) && PushOk(w, source)
    requires FirstData(d) == FirstSn(n) && n <= s.k.rcv.nxt && |s.k.rcv.queue| < cfg.rcvWnd
    ensures n < InputSegs(Exact, cfg, s, d).k.rcv.nxt
    ensures InputSegs(Exact, cfg, s, d).k.acks != []
    decreases |d|
  {
    var w, s1 := d[0], InputSeg(Exact, cfg, s, d[0]);
    assert w in d;
    SndInputOk(s.k.snd, w, peer);
    RcvInputOk(cfg, s.k, w, source);
    if w.cmd == PUSH {
      ParseDataOk(cfg.rcvWnd, s.k.rcv, InSeg(w.sn, Piece(w.frg, w.data)), source);
      assert n < s1.k.rcv.nxt && s1.k.acks != [];
      InputSegsOk(cfg, s1, d[1..], peer, source);
      AcksGrow(cfg, s1, d[1..]);
    } else {
      DataMoves(cfg, s1, d[1..], peer, source, n);
    }
  }

  lemma {:induction false} UnaEverywhere(cfg: Config, k: Ctl)
    ensures forall w :: w in Sent(Exact, cfg, k) ==> w.una == k.rcv.nxt
  {
    var e := EnvOf(cfg, k);
    TransmitWires(cfg, e, Refill(Exact, cfg, k).buf);
    assert forall w :: w in AckWires(e, k.acks) ==> w.una == e.una;
  }

  /** Every datagram of a flush carries the cumulative acknowledgement; with acknowledgements
      pending there is at least one. */
  lemma FlushAcknowledges(cfg: Config, k: Ctl)
    requires k.clock.updated
    ensures forall d, w :: d in Flush(Exact, cfg, k).1 && w in d ==> w.una == k.rcv.nxt
    ensures k.acks != [] ==> Flush(Exact, cfg, k).1 != []
  {
    UnaEverywhere(cfg, k);
    PackMembers(cfg.mtu, Sent(Exact, cfg, k));
    PackFlat(cfg.mtu, Sent(Exact, cfg, k));
    if k.acks != [] {
      assert AckWires(EnvOf(cfg, k), k.acks)[0] in Sent(Exact, cfg, k);
    }
  }

  /** A datagram that acknowledges everything below una moves the window there. */
  lemma AckMoves(cfg: Config, k: Ctl, d: Datagram, peer: Rcv, source: seq<Piece>)
    requires SndOk(k.snd) && RcvOk(cfg.rcvWnd, k.rcv, source) && AcksHeld(k.acks, k.rcv)
    requires d != [] && forall w :: w in d ==> BackOk(w, peer) && PushOk(w, source)
    ensures Min(d[0].una, k.snd.nxt) <= Input(Exact, cfg, k, d).snd.una
  {
    var s0 := Scan(k, false, 0);
    var s1 := InputSeg(Exact, cfg, s0, d[0]);
    assert d[0] in d;
    SndInputOk(k.snd, d[0], peer);
    RcvInputOk(cfg, k, d[0], source);
    InputSegsOk(cfg, s1, d[1..], peer, source);
    var s2 := InputSegs(Exact, cfg, s1, d[1..]);
    FastackOk(s2.k.snd, s2.maxack);
  }

  // ----- the round trip ------------------------------------------------------------------

  /** x flushes. */
  function Flushed(c: Pair, s: Sys): (t: Sys) {
    Step(Exact, c, s, Action(A, DoFlush))
  }

  /** y gets datagram j of x's log. */
  function Received(c: Pair, s: Sys, j: nat): (t: Sys) {
    Step(Exact, c, s, Action(B, DoDeliver(j)))
  }

  /** y flushes. */
  function Answered(c: Pair, s: Sys): (t: Sys) {
    Step(Exact, c, s, Action(B, DoFlush))
  }

  /** x gets datagram i of y's log. */
  function Acknowledged(c: Pair, s: Sys, i: nat): (t: Sys) {
    Step(Exact, c, s, Action(A, DoDeliver(i)))
  }

  /** Datagram j of the log is the first one output since `from` that carries data. */
  ghost predicate FirstDataAt(log: seq<Datagram>, from: nat, j: nat) {
    && from <= j < |log| && !FirstData(log[j]).NoData?
    && forall i :: from <= i < j ==> FirstData(log[i]).NoData?
  }

  lemma FlushedLog(c: Pair, s: Sys)
    requires s.x.clock.updated
    ensures Flushed(c, s) == s.(x := FlushState(Exact, c.x, s.x), xy := s.xy + Pack(c.x.mtu, Sent(Exact, c.x, s.x)))
  {
  }

  lemma FirstDataShift(log: seq<Datagram>, out: seq<Datagram>, j: nat)
    requires FirstDataAt(log + out, |log|, j)
    ensures FirstDataAt(out, 0, j - |log|) && (log + out)[j] == out[j - |log|]
  {
    assert forall i :: 0 <= i < |out| ==> (log + out)[|log| + i] == out[i];
  }

  lemma FirstDataUnshift(log: seq<Datagram>, out: seq<Datagram>, j: nat)
    requires FirstDataAt(out, 0, j)
    ensures FirstDataAt(log + out, |log|, |log| + j)
  {
    forall i | |log| <= i < |log| + j ensures FirstData((log + out)[i]).NoData? {
      assert (log + out)[i] == out[i - |log|];
    }
  }

  /** A due flush adds datagrams whose first data number is the oldest one. */
  lemma FlushedOldest(c: Pair, s: Sys) returns (out: seq<Datagram>)
    requires SndOk(s.x.snd) && OldestDue(c.x, s.x)
    ensures Flushed(c, s).xy == s.xy + out && FirstData(Flat(out)) == FirstSn(s.x.snd.una)
  {
    hide SndOk, Sent, FirstData;
    FlushedLog(c, s);
    out := Pack(c.x.mtu, Sent(Exact, c.x, s.x));
    PackFlat(c.x.mtu, Sent(Exact, c.x, s.x));
    FlushStartsWithOldest(c.x, s.x);
  }

  lemma FirstDatagramNumber(c: Pair, s: Sys, j: nat)
    requires SndOk(s.x.snd) && OldestDue(c.x, s.x) && FirstDataAt(Flushed(c, s).xy, |s.xy|, j)
    ensures FirstData(Flushed(c, s).xy[j]) == FirstSn(s.x.snd.una)
  {
    hide SndOk, OldestDue, Flushed, FirstData;
    var out := FlushedOldest(c, s);
    FirstDataShift(s.xy, out, j);
    FirstDataFlat(out, j - |s.xy|);
  }

  /** Delivering to y a datagram whose first data number is n, not beyond what y expects next. */
  lemma ReceivedMoves(c: Pair, s: Sys, j: nat, n: int)
    requires Inv(c, s) && j < |s.xy| && FirstData(s.xy[j]) == FirstSn(n)
    requires n <= s.y.rcv.nxt && |s.y.rcv.queue| < c.y.rcvWnd
    ensures var t := Received(c, s, j);
            && Inv(c, t) && n < t.y.rcv.nxt && t.y.acks != []
            && t.x == s.x && t.yx == s.yx && t.y.clock == s.y.clock
  {
    StepInv(c, s, Action(B, DoDeliver(j)));
    assert s.xy[j] in s.xy;
    DataMoves(c.y, Scan(s.y, false, 0), s.xy[j], s.x.rcv, s.x.snd.numbered, n);
    ClockKept(c.y, Scan(s.y, false, 0), s.xy[j]);
  }

  lemma {:induction false} ClockKept(cfg: Config, s: Scan, d: Datagram)
    ensures InputSegs(Exact, cfg, s, d).k.clock == s.k.clock
    decreases |d|
  {
    if d != [] { ClockKept(cfg, InputSeg(Exact, cfg, s, d[0]), d[1..]); }
  }

  lemma AnsweredLog(c: Pair, s: Sys)
    requires s.y.clock.updated
    ensures Answered(c, s) == s.(y := FlushState(Exact, c.y, s.y), yx := s.yx + Flush(Exact, c.y, s.y).1)
  {
  }

  /** Any datagram of y's flush moves x's window past n, if y is past n. */
  lemma AnswerMoves(c: Pair, s: Sys, n: int, i: nat)
    requires Inv(c, s) && s.y.clock.updated && n < s.y.rcv.nxt && n < s.x.snd.nxt
    requires |s.yx| <= i < |Answered(c, s).yx|
    ensures n < Acknowledged(c, Answered(c, s), i).x.snd.una
  {
    var t := Answered(c, s);
    StepInv(c, s, Action(B, DoFlush));
    AnsweredLog(c, s);
    FlushAcknowledges(c.y, s.y);
    PackNonEmpty(c.y.mtu, Sent(Exact, c.y, s.y));
    var d := t.yx[i];
    assert d == Flush(Exact, c.y, s.y).1[i - |s.yx|];
    assert d in Flush(Exact, c.y, s.y).1 && d in t.yx && d[0] in d;
    AckMoves(c.x, t.x, d, t.y.rcv, t.y.snd.numbered);
  }

  lemma {:induction false} PutAllNonEmpty(mtu: int, ws: seq<Wire>)
    ensures forall d :: d in PutAll(mtu, Packer([], []), ws).done ==> d != []
  {
    if ws != [] { PutAllNonEmpty(mtu, ws[..|ws| - 1]); }
  }

  lemma PackNonEmpty(mtu: int, ws: seq<Wire>)
    ensures forall d :: d in Pack(mtu, ws) ==> d != []
  {
    PutAllNonEmpty(mtu, ws);
  }

  lemma FirstDataIn(ds: seq<Datagram>) returns (j: nat)
    requires !FirstData(Flat(ds)).NoData?
    ensures FirstDataAt(ds, 0, j)
  {
    hide FirstData;
    j := 0;
    while j < |ds| && FirstData(ds[j]).NoData?
      invariant j <= |ds|
      invariant forall i :: 0 <= i < j ==> FirstData(ds[i]).NoData?
    {
      j := j + 1;
    }
    if forall i :: 0 <= i < |ds| ==> FirstData(ds[i]).NoData? { NoDataFlat(ds); }
  }

  /** A due flush does output a datagram with data. */
  lemma FirstDatagramExists(c: Pair, s: Sys) returns (j: nat)
    requires SndOk(s.x.snd) && OldestDue(c.x, s.x)
    ensures FirstDataAt(Flushed(c, s).xy, |s.xy|, j)
  {
    hide SndOk, OldestDue, Flushed, FirstData;
    var out := FlushedOldest(c, s);
    var k := FirstDataIn(out);
    FirstDataUnshift(s.xy, out, k);
    j := |s.xy| + k;
  }

  /** y, after x's flush and the arrival of its first datagram with data. */
  lemma FirstHalf(c: Pair, s: Sys, j: nat)
    requires Inv(c, s) && OldestDue(c.x, s.x) && |s.y.rcv.queue| < c.y.rcvWnd
    requires FirstDataAt(Flushed(c, s).xy, |s.xy|, j)
    ensures var t := Received(c, Flushed(c, s), j);
            && Inv(c, t) && s.x.snd.una < t.y.rcv.nxt && s.x.snd.una < t.x.snd.nxt && t.y.acks != []
            && t.yx == s.yx && t.y.clock == s.y.clock
  {
    StepInv(c, s, Action(A, DoFlush));
    FirstDatagramNumber(c, s, j);
    AckBounds(s.x.snd, c.y.rcvWnd, s.y.rcv);
    FlushedLog(c, s);
    FlushSndOk(c.x, s.x);
    assert Numbered(s.x.snd.buf[0], s.x.snd.una, s.x.snd.numbered);
    ReceivedMoves(c, Flushed(c, s), j, s.x.snd.una);
  }

  /** When datagram j of x's log arrives, y's next flush outputs something, and any datagram of that
      flush moves x's window when it arrives. */
  ghost predicate TripMoves(c: Pair, s: Sys, j: nat) {
    var t := Answered(c, Received(c, Flushed(c, s), j));
    && |s.yx| < |t.yx|
    && forall i :: |s.yx| <= i < |t.yx| ==> s.x.snd.una < Acknowledged(c, t, i).x.snd.una
  }

  lemma RoundTrip(c: Pair, s: Sys, j: nat)
    requires Inv(c, s) && OldestDue(c.x, s.x) && s.y.clock.updated && |s.y.rcv.queue| < c.y.rcvWnd
    requires FirstDataAt(Flushed(c, s).xy, |s.xy|, j)
    ensures TripMoves(c, s, j)
  {
    FirstHalf(c, s, j);
    var r := Received(c, Flushed(c, s), j);
    FlushAcknowledges(c.y, r.y);
    AnsweredLog(c, r);
    forall i | |s.yx| <= i < |Answered(c, r).yx|
      ensures s.x.snd.una < Acknowledged(c, Answered(c, r), i).x.snd.una
    {
      AnswerMoves(c, r, s.x.snd.una, i);
    }
  }

  /** Conditional progress in every reachable state: x's oldest unacknowledged segment is due and
      y's queue has room. Then x's flush outputs a datagram with data; when the first such arrives,
      y's flush outputs something; and when any datagram of that arrives, snd_una has strictly increased. */
  lemma RoundTripProgress(c: Pair, acts: seq<Action>)
    ensures var s := Run(Exact, c, acts);
            OldestDue(c.x, s.x) && s.y.clock.updated && |s.y.rcv.queue| < c.y.rcvWnd ==>
              && (exists j :: FirstDataAt(Flushed(c, s).xy, |s.xy|, j))
              && (forall j :: FirstDataAt(Flushed(c, s).xy, |s.xy|, j) ==> TripMoves(c, s, j))
  {
    RunInv(c, acts);
    var s := Run(Exact, c, acts);
    hide Run, Inv, OldestDue, FirstDataAt, Flushed, TripMoves;
    if OldestDue(c.x, s.x) && s.y.clock.updated && |s.y.rcv.queue| < c.y.rcvWnd {
      InvSnd(c, s);
      var _ := FirstDatagramExists(c, s);
      forall j | FirstDataAt(Flushed(c, s).xy, |s.xy|, j) ensures TripMoves(c, s, j) {
        RoundTrip(c, s, j);
      }
    }
  }

  lemma InvSnd(c: Pair, s: Sys)
    requires Inv(c, s)
    ensures SndOk(s.x.snd)
  {
  }
}
