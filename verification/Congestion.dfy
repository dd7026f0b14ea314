/** The congestion window: incr tracks cwnd to within one segment on every run. */
module Congestion {
  import opened Words
  import opened Protocol
  import opened Safety
  import opened System
  import Datagrams

  /** incr, in bytes, is within one segment of cwnd. */
  ghost predicate CcOk(mss: int, cc: Cc) {
    && 0 <= cc.cwnd && 2 <= cc.ssthresh && 0 <= cc.incr < 0x1_0000_0000 && 0 <= cc.rmtWnd < 65536
    && (cc.cwnd - 1) * mss < cc.incr < (cc.cwnd + 1) * mss
  }

  /** Products of windows and segment sizes stay below 2^32. */
  ghost predicate NoOverflow(cfg: Config) {
    cfg.Mss() <= 65535 && (Max(cfg.sndWnd / 2, 2) + Max(cfg.fastResend, 0)) * cfg.Mss() < 0x1_0000_0000
  }

  // ----- growth --------------------------------------------------------------------------

  lemma MulMono(a: int, b: int, m: int)
    requires a <= b && m >= 0
    ensures a * m <= b * m
  {
    assert (b - a) * m >= 0;
  }

  lemma SlowStartOk(mss: int, cc: Cc)
    requires 0 < mss <= 65535 && CcOk(mss, cc) && cc.cwnd < cc.rmtWnd
    ensures CcOk(mss, SlowStart(mss, cc)) && SlowStart(mss, cc).cwnd == cc.cwnd + 1
  {
    MulMono(cc.cwnd + 1, 65535, mss);
    assert (cc.cwnd + 1) * mss == cc.cwnd * mss + mss;
    assert (cc.cwnd + 2) * mss == cc.cwnd * mss + 2 * mss;
    assert (cc.cwnd - 1) * mss == cc.cwnd * mss - mss;
  }

  lemma DivBound(a: int, b: int, q: int)
    requires a >= 0 && b > 0 && a <= q * b
    ensures 0 <= a / b <= q
  {
    DivNonNegative(a, b);
    assert (q + 1) * b == q * b + b;
    if a / b >= q + 1 {
      MulMono(q + 1, a / b, b);
    }
  }

  lemma FullBound(mss: int, i0: int)
    requires 0 < mss <= i0
    ensures 0 <= mss * mss / i0 <= mss
  {
    MulMono(mss, i0, mss);
    DivBound(mss * mss, i0, mss);
  }

  lemma StepBound(mss: int, c: int, i0: int)
    requires 0 < mss <= i0 && 2 <= c && i0 < (c + 1) * mss
    ensures 0 <= mss * mss / i0 && i0 + mss * mss / i0 + mss / 16 < (c + 2) * mss
  {
    var p := c * mss;
    assert (c + 1) * mss == p + mss && (c + 2) * mss == p + 2 * mss;
    if i0 <= p {
      FullBound(mss, i0);
    } else {
      MulMono(2, c, mss);
      HalfBound(mss, i0);
    }
  }

  /** One step of congestion avoidance lifts incr by less than it takes to gain more than two
      segments. The division by incr is safe: its divisor is at least mss. */
  lemma IncreaseBound(mss: int, cc: Cc)
    requires 0 < mss <= 65535 && CcOk(mss, cc) && 2 <= cc.cwnd < cc.rmtWnd
    ensures Max(cc.incr, mss) >= mss > 0
    ensures cc.incr <= Increase(mss, cc.incr) < (cc.cwnd + 2) * mss <= 65536 * mss
  {
    var c := cc.cwnd;
    MulMono(1, c - 1, mss);
    hide CcOk, Wrap;
    IncreaseFrom(mss, c, cc.incr);
    MulMono(c + 2, 65536, mss);
  }

  lemma IncreaseFrom(mss: int, c: int, i0: int)
    requires 0 < mss <= 65535 && 2 <= c < 65535 && mss <= i0 < (c + 1) * mss
    ensures i0 <= Increase(mss, i0) < (c + 2) * mss
  {
    hide Wrap;
    StepBound(mss, c, i0);
    MulMono(c + 2, 65536, mss);
    MulMono(mss, 65535, mss);
    MulMono(0, mss, mss);
    WrapSmall(mss * mss);
    WrapSmall(i0 + mss * mss / i0 + mss / 16);
  }

  lemma HalfBound(mss: int, i0: int)
    requires 0 < mss && 2 * mss < i0
    ensures 0 <= mss * mss / i0 <= (mss + 1) / 2
  {
    var h := (mss + 1) / 2;
    MulMono(mss, 2 * h, mss);
    MulMono(2 * mss, i0, h);
    assert (2 * h) * mss == (2 * mss) * h && i0 * h == h * i0;
    DivBound(mss * mss, i0, h);
  }

  /** Rounding up: the least number of segments that covers the bytes. */
  lemma SegmentsOk(mss: int, bytes: int)
    requires 0 < mss && 0 < bytes && bytes + mss - 1 < 0x1_0000_0000
    ensures (Segments(mss, bytes) - 1) * mss < bytes <= Segments(mss, bytes) * mss
  {
    var a := bytes + mss - 1;
    var q := a / mss;
    assert a == mss * q + a % mss;
    assert (q - 1) * mss == mss * q - mss;
    assert q * mss == mss * q;
  }

  lemma RoundedUp(mss: int, c: int, i1: int)
    requires 0 < mss <= 65535 && 0 <= c && (c + 1) * mss <= i1 < (c + 2) * mss <= 65536 * mss
    ensures Segments(mss, i1) == c + 1 || Segments(mss, i1) == c + 2
    ensures (Segments(mss, i1) - 1) * mss < i1 < (Segments(mss, i1) + 1) * mss
  {
    MulMono(1, c + 1, mss);
    SegmentsOk(mss, i1);
    var n := Segments(mss, i1);
    assert (n + 1) * mss == n * mss + mss;
    assert (c + 1) * mss == c * mss + mss;
    if n <= c { MulMono(n, c, mss); }
    if n > c + 2 { MulMono(c + 2, n - 1, mss); }
  }

  lemma AvoidToOk(mss: int, cc: Cc, i1: int)
    requires 0 < mss <= 65535 && CcOk(mss, cc) && cc.cwnd < 65535
    requires cc.incr <= i1 < (cc.cwnd + 2) * mss <= 65536 * mss
    ensures CcOk(mss, AvoidTo(mss, cc, i1)) && cc.cwnd <= AvoidTo(mss, cc, i1).cwnd <= cc.cwnd + 2
  {
    var c := cc.cwnd;
    MulMono(c + 1, 65535, mss);
    MulMono(0, c + 1, mss);
    WrapSmall(c + 1);
    WrapSmall((c + 1) * mss);
    if (c + 1) * mss <= i1 {
      RoundedUp(mss, c, i1);
    }
  }

  lemma AvoidOk(mss: int, cc: Cc)
    requires 0 < mss <= 65535 && CcOk(mss, cc) && 2 <= cc.cwnd < cc.rmtWnd
    ensures CcOk(mss, Avoid(mss, cc)) && cc.cwnd <= Avoid(mss, cc).cwnd <= cc.cwnd + 2
  {
    IncreaseBound(mss, cc);
    AvoidToOk(mss, cc, Increase(mss, cc.incr));
  }

  lemma ClipOk(mss: int, cc: Cc)
    requires 0 < mss <= 65535 && CcOk(mss, cc)
    ensures CcOk(mss, Clip(mss, cc)) && Clip(mss, cc).cwnd == Min(cc.cwnd, cc.rmtWnd)
  {
    var r := cc.rmtWnd;
    MulMono(r, 65535, mss);
    MulMono(0, r, mss);
    assert (r - 1) * mss == r * mss - mss && (r + 1) * mss == r * mss + mss;
  }

  /** One acknowledgement never lowers cwnd, raises it by at most 2, and never past rmt_wnd. */
  lemma GrowOk(cfg: Config, cc: Cc)
    requires cfg.Mss() <= 65535 && CcOk(cfg.Mss(), cc)
    ensures var r := Grow(cfg, cc);
            && CcOk(cfg.Mss(), r)
            && cc.cwnd <= r.cwnd <= cc.cwnd + 2 && r.cwnd <= Max(cc.cwnd, cc.rmtWnd)
  {
    if cc.cwnd < cc.rmtWnd {
      if cc.cwnd < cc.ssthresh {
        SlowStartOk(cfg.Mss(), cc);
        ClipOk(cfg.Mss(), SlowStart(cfg.Mss(), cc));
      } else {
        AvoidOk(cfg.Mss(), cc);
        ClipOk(cfg.Mss(), Avoid(cfg.Mss(), cc));
      }
    }
  }

  // ----- reduction -----------------------------------------------------------------------

  /** A window of whole segments. */
  lemma ExactOk(mss: int, cc: Cc, cw: int)
    requires mss > 0 && 0 <= cw && 2 <= cc.ssthresh && 0 <= cc.rmtWnd < 65536 && cw * mss < 0x1_0000_0000
    ensures CcOk(mss, cc.(cwnd := cw, incr := cw * mss))
  {
    MulMono(0, cw, mss);
    assert (cw - 1) * mss == cw * mss - mss && (cw + 1) * mss == cw * mss + mss;
  }

  lemma FastWindow(cfg: Config, inflight: int)
    requires NoOverflow(cfg) && 0 <= inflight <= cfg.sndWnd
    ensures var cw := Wrap(Max(inflight / 2, THRESH_MIN) + Resent(cfg));
            1 <= cw && cw * cfg.Mss() < 0x1_0000_0000
  {
    var th := Max(inflight / 2, THRESH_MIN);
    var top := Max(cfg.sndWnd / 2, 2) + Max(cfg.fastResend, 0);
    MulMono(1, cfg.Mss(), top);
    assert top * cfg.Mss() == cfg.Mss() * top;
    if cfg.fastResend > 0 {
      MulMono(th + cfg.fastResend, top, cfg.Mss());
    } else {
      MulMono(th - 1, top, cfg.Mss());
    }
  }

  /** Every flush keeps the relation and leaves cwnd at least 1. */
  lemma BackedOk(cfg: Config, cc: Cc, inflight: int, wnd: int, fast: bool, lost: bool)
    requires NoOverflow(cfg) && CcOk(cfg.Mss(), cc) && 0 <= inflight <= cfg.sndWnd
    ensures var r := Backed(cfg, cc, inflight, wnd, fast, lost); CcOk(cfg.Mss(), r) && 1 <= r.cwnd
  {
    var mss := cfg.Mss();
    var th := Max(inflight / 2, THRESH_MIN);
    var cw := Wrap(th + Resent(cfg));
    FastWindow(cfg, inflight);
    MulMono(0, cw, mss);
    WrapSmall(cw * mss);
    ExactOk(mss, cc.(ssthresh := th), cw);
    ExactOk(mss, cc.(ssthresh := Max(wnd / 2, THRESH_MIN)), 1);
    ExactOk(mss, cc, 1);
    hide CcOk, NoOverflow, Wrap;
  }

  // ----- runs ----------------------------------------------------------------------------

  lemma {:induction false} InputSegsCc(cfg: Config, s: Scan, d: Datagram, mtu: int)
    requires CcOk(cfg.Mss(), s.k.cc) && forall w :: w in d ==> Datagrams.Shaped(w, mtu)
    ensures var cc := InputSegs(Exact, cfg, s, d).k.cc;
            CcOk(cfg.Mss(), cc) && cc == s.k.cc.(rmtWnd := cc.rmtWnd)
    decreases |d|
  {
    if d != [] {
      assert Datagrams.Shaped(d[0], mtu);
      InputSegsCc(cfg, InputSeg(Exact, cfg, s, d[0]), d[1..], mtu);
    }
  }

  /** One ikcp_input. */
  lemma InputCc(cfg: Config, k: Ctl, d: Datagram, mtu: int)
    requires NoOverflow(cfg) && CcOk(cfg.Mss(), k.cc) && forall w :: w in d ==> Datagrams.Shaped(w, mtu)
    ensures var cc := Input(Exact, cfg, k, d).cc;
            && CcOk(cfg.Mss(), cc)
            && k.cc.cwnd <= cc.cwnd <= k.cc.cwnd + 2 && cc.cwnd <= Max(k.cc.cwnd, cc.rmtWnd)
  {
    InputSegsCc(cfg, Scan(k, false, 0), d, mtu);
    GrowOk(cfg, InputSegs(Exact, cfg, Scan(k, false, 0), d).k.cc);
  }

  /** One ikcp_flush. */
  lemma FlushCc(cfg: Config, k: Ctl)
    requires NoOverflow(cfg) && CcOk(cfg.Mss(), k.cc) && SndOk(k.snd) && k.snd.nxt - k.snd.una <= cfg.sndWnd
    ensures CcOk(cfg.Mss(), FlushState(Exact, cfg, k).cc) && 1 <= FlushState(Exact, cfg, k).cc.cwnd
  {
    var s := Refill(Exact, cfg, k);
    NumberOk(EnvOf(cfg, k), EffectiveWnd(cfg, k.cc), k.snd);
    var t := Transmit(cfg, EnvOf(cfg, k), s.buf);
    BackedOk(cfg, k.cc, s.nxt - s.una, EffectiveWnd(cfg, k.cc), t.fasts > 0, t.timeouts > 0);
  }

  lemma ActCc(c: Pair, s: Sys, op: Op)
    requires Inv(c, s) && Datagrams.ShapeInv(c, s) && NoOverflow(c.x) && CcOk(c.x.Mss(), s.x.cc)
    ensures CcOk(c.x.Mss(), Act(Exact, c.x, s.x, s.yx, op).0.cc)
  {
    match op
    case DoSend(data) =>
    case DoRecv(len) =>
    case DoUpdate(time) => FlushCc(c.x, s.x.(clock := Tick(c.x.interval, s.x.clock, time).0));
    case DoFlush => FlushCc(c.x, s.x);
    case DoDeliver(i) => if i < |s.yx| { InputCc(c.x, s.x, s.yx[i], c.y.mtu); }
  }

  /** On every run of both endpoints, (cwnd - 1) * mss < incr < (cwnd + 1) * mss and ssthresh >= 2. */
  lemma {:induction false} RunCc(c: Pair, acts: seq<Action>)
    requires NoOverflow(c.x) && NoOverflow(c.y)
    ensures CcOk(c.x.Mss(), Run(Exact, c, acts).x.cc) && CcOk(c.y.Mss(), Run(Exact, c, acts).y.cc)
  {
    if acts != [] {
      var before, a := acts[..|acts| - 1], acts[|acts| - 1];
      RunCc(c, before);
      RunInv(c, before);
      Datagrams.RunShape(c, before);
      var s := Run(Exact, c, before);
      if a.side.A? { ActCc(c, s, a.op); } else { ActCc(c.Flip(), s.Flip(), a.op); }
    }
  }

  // ----- what an acknowledgement does, exactly -------------------------------------------

  /** The window that the last segment of a datagram announces. */
  function LastWnd(k: Ctl, d: Datagram): (wnd: int) {
    if d == [] then k.cc.rmtWnd else d[|d| - 1].wnd
  }

  lemma {:induction false} SegsWnd(cfg: Config, s: Scan, d: Datagram)
    ensures InputSegs(Exact, cfg, s, d).k.cc == s.k.cc.(rmtWnd := LastWnd(s.k, d))
    decreases |d|
  {
    if d != [] { SegsWnd(cfg, InputSeg(Exact, cfg, s, d[0]), d[1..]); }
  }

  /** The least number of segments of mss bytes that cover the given bytes. */
  ghost predicate Covers(mss: int, n: int, bytes: int) {
    (n - 1) * mss < bytes <= n * mss
  }

  lemma CoversOnce(mss: int, n: int, n': int, bytes: int)
    requires 0 < mss && Covers(mss, n, bytes) && Covers(mss, n', bytes)
    ensures n == n'
  {
    if n < n' { MulMono(n, n' - 1, mss); }
    if n' < n { MulMono(n', n - 1, mss); }
  }

  /** incr after one step of congestion avoidance: grown by mss squared over itself and a sixteenth of mss. */
  ghost function Step1(mss: int, incr: int): (i1: int)
    requires mss > 0
  {
    var i0 := Max(incr, mss);
    i0 + mss * mss / i0 + mss / 16
  }

  /** What cc becomes when new data is acknowledged and the peer's window is rmt. */
  ghost predicate Grew(mss: int, cc: Cc, cc': Cc, rmt: int)
    requires mss > 0
  {
    var i1 := Step1(mss, cc.incr);
    && (cc.cwnd >= rmt ==> cc'.cwnd == cc.cwnd && cc'.incr == cc.incr)
    && (cc.cwnd < rmt && cc.cwnd < cc.ssthresh ==> cc'.cwnd == cc.cwnd + 1 && cc'.incr == cc.incr + mss)
    && (cc.ssthresh <= cc.cwnd < rmt && i1 < (cc.cwnd + 1) * mss ==> cc'.cwnd == cc.cwnd && cc'.incr == i1)
    && (cc.ssthresh <= cc.cwnd < rmt && (cc.cwnd + 1) * mss <= i1 ==>
          (Covers(mss, cc'.cwnd, i1) && cc'.cwnd <= rmt && cc'.incr == i1)
          || (rmt * mss < i1 && cc'.cwnd == rmt && cc'.incr == rmt * mss))
  }

  lemma SlowStartGrew(mss: int, cc: Cc)
    requires 0 < mss <= 65535 && CcOk(mss, cc) && cc.cwnd < cc.rmtWnd && cc.cwnd < cc.ssthresh
    ensures Clip(mss, SlowStart(mss, cc)) == cc.(cwnd := cc.cwnd + 1, incr := cc.incr + mss)
  {
    MulMono(cc.cwnd + 1, 65535, mss);
    assert (cc.cwnd + 2) * mss == (cc.cwnd + 1) * mss + mss;
    MulMono(cc.cwnd + 2, 65536, mss);
  }

  lemma IncreaseIs(mss: int, cc: Cc)
    requires 0 < mss <= 65535 && CcOk(mss, cc) && 2 <= cc.cwnd < cc.rmtWnd
    ensures Increase(mss, cc.incr) == Step1(mss, cc.incr)
  {
    var c := cc.cwnd;
    MulMono(1, c - 1, mss);
    assert mss <= cc.incr < (c + 1) * mss;
    hide CcOk, Wrap;
    StepBound(mss, c, cc.incr);
    MulMono(c + 2, 65536, mss);
    MulMono(mss, 65535, mss);
    MulMono(0, mss, mss);
    WrapSmall(mss * mss);
    WrapSmall(cc.incr + mss * mss / cc.incr + mss / 16);
  }

  lemma AvoidGrew(mss: int, cc: Cc)
    requires 0 < mss <= 65535 && CcOk(mss, cc) && 2 <= cc.cwnd < cc.rmtWnd && cc.ssthresh <= cc.cwnd
    ensures var r := Clip(mss, Avoid(mss, cc)); Grew(mss, cc, r, cc.rmtWnd) && r.rmtWnd == cc.rmtWnd && r.ssthresh == cc.ssthresh
  {
    IncreaseBound(mss, cc);
    IncreaseIs(mss, cc);
    AvoidFrom(mss, cc, Step1(mss, cc.incr));
  }

  lemma AvoidFrom(mss: int, cc: Cc, i1: int)
    requires 0 < mss <= 65535 && CcOk(mss, cc) && cc.cwnd < cc.rmtWnd && cc.ssthresh <= cc.cwnd
    requires cc.incr <= i1 < (cc.cwnd + 2) * mss <= 65536 * mss && i1 == Step1(mss, cc.incr)
    ensures var r := Clip(mss, AvoidTo(mss, cc, i1));
            Grew(mss, cc, r, cc.rmtWnd) && r.rmtWnd == cc.rmtWnd && r.ssthresh == cc.ssthresh
  {
    var c, rmt := cc.cwnd, cc.rmtWnd;
    hide Step1, Wrap, Segments;
    MulMono(c + 1, 65535, mss);
    MulMono(0, c + 1, mss);
    WrapSmall(c + 1);
    WrapSmall((c + 1) * mss);
    MulMono(rmt, 65535, mss);
    MulMono(0, rmt, mss);
    WrapSmall(rmt * mss);
    if (c + 1) * mss <= i1 {
      RoundedUp(mss, c, i1);
      MulMono(1, c + 1, mss);
      SegmentsOk(mss, i1);
      var n := Segments(mss, i1);
      assert Covers(mss, n, i1);
      if n > rmt { MulMono(rmt, n - 1, mss); }
    }
  }

  lemma GrowGrew(cfg: Config, cc: Cc)
    requires cfg.Mss() <= 65535 && CcOk(cfg.Mss(), cc)
    ensures var r := Grow(cfg, cc);
            Grew(cfg.Mss(), cc, r, cc.rmtWnd) && r.rmtWnd == cc.rmtWnd && r.ssthresh == cc.ssthresh
  {
    if cc.cwnd < cc.rmtWnd {
      if cc.cwnd < cc.ssthresh { SlowStartGrew(cfg.Mss(), cc); } else { AvoidGrew(cfg.Mss(), cc); }
    }
  }

  /** ikcp_input and the congestion window, exactly: the window grows when snd_una has moved, and only then; in slow start
      by one segment, after that by incr's share of a segment, up to the window the peer announced last. */
  lemma InputGrows(cfg: Config, k: Ctl, d: Datagram, mtu: int)
    requires NoOverflow(cfg) && CcOk(cfg.Mss(), k.cc) && forall w :: w in d ==> Datagrams.Shaped(w, mtu)
    ensures var k' := Input(Exact, cfg, k, d);
            && k'.cc.rmtWnd == LastWnd(k, d) && k'.cc.ssthresh == k.cc.ssthresh
            && (k'.snd.una <= k.snd.una ==> k'.cc.cwnd == k.cc.cwnd && k'.cc.incr == k.cc.incr)
            && (k'.snd.una > k.snd.una ==> Grew(cfg.Mss(), k.cc, k'.cc, LastWnd(k, d)))
  {
    var s := InputSegs(Exact, cfg, Scan(k, false, 0), d);
    SegsWnd(cfg, Scan(k, false, 0), d);
    InputSegsCc(cfg, Scan(k, false, 0), d, mtu);
    hide CcOk, Grew, InputSegs, Grow;
    GrowGrew(cfg, s.k.cc);
    GrewSame(cfg.Mss(), k.cc, s.k.cc, Grow(cfg, s.k.cc).(rmtWnd := s.k.cc.rmtWnd), LastWnd(k, d));
  }

  lemma GrewSame(mss: int, cc: Cc, cc1: Cc, cc': Cc, rmt: int)
    requires mss > 0 && cc1 == cc.(rmtWnd := cc1.rmtWnd) && Grew(mss, cc1, cc', rmt)
    ensures Grew(mss, cc, cc', rmt)
  {
  }

  // ----- enough acknowledgements ---------------------------------------------------------

  /** Every datagram acknowledges something new and ends with the announcement of rmt. */
  ghost predicate Advancing(cfg: Config, k: Ctl, ds: seq<Datagram>, rmt: int, mtu: int)
    decreases |ds|
  {
    ds == [] ||
    (var k' := Input(Exact, cfg, k, ds[0]);
     && (forall w :: w in ds[0] ==> Datagrams.Shaped(w, mtu))
     && k.snd.una < k'.snd.una && LastWnd(k, ds[0]) == rmt
     && Advancing(cfg, k', ds[1..], rmt, mtu))
  }

  function Inputs(cfg: Config, k: Ctl, ds: seq<Datagram>): (k': Ctl)
    decreases |ds|
  {
    if ds == [] then k else Inputs(cfg, Input(Exact, cfg, k, ds[0]), ds[1..])
  }

  /** While cwnd is below the announced window, each step of growth raises incr. */
  lemma GrewMore(mss: int, cc: Cc, cc': Cc, rmt: int)
    requires 26 <= mss <= 65535 && CcOk(mss, cc) && CcOk(mss, cc') && Grew(mss, cc, cc', rmt) && cc.cwnd < rmt
    ensures cc'.cwnd <= rmt && (cc'.cwnd == rmt || cc.incr < cc'.incr)
  {
    var i0 := Max(cc.incr, mss);
    if cc.cwnd >= cc.ssthresh {
      MulMono(0, mss, mss);
      DivNonNegative(mss * mss, i0);
      assert mss / 16 >= 1;
      assert cc.incr < Step1(mss, cc.incr);
    }
  }

  /** Enough acknowledgements in a row open the window as far as the peer announces. */
  lemma {:induction false} RampUp(cfg: Config, k: Ctl, ds: seq<Datagram>, rmt: int, mtu: int)
    requires NoOverflow(cfg) && CcOk(cfg.Mss(), k.cc) && k.cc.cwnd <= rmt && Advancing(cfg, k, ds, rmt, mtu)
    ensures Inputs(cfg, k, ds).cc.cwnd <= rmt
    ensures |ds| > 0 && |ds| >= rmt * cfg.Mss() - k.cc.incr ==> Inputs(cfg, k, ds).cc.cwnd == rmt
    ensures k.cc.cwnd == rmt ==> Inputs(cfg, k, ds).cc.cwnd == rmt
    decreases |ds|
  {
    if ds != [] {
      var k' := Input(Exact, cfg, k, ds[0]);
      InputGrows(cfg, k, ds[0], mtu);
      InputCc(cfg, k, ds[0], mtu);
      if k.cc.cwnd < rmt { GrewMore(cfg.Mss(), k.cc, k'.cc, rmt); }
      RampUp(cfg, k', ds[1..], rmt, mtu);
      Reached(cfg.Mss(), k'.cc, rmt);
    }
  }

  /** An incr of rmt whole segments is only possible with a window of rmt. */
  lemma Reached(mss: int, cc: Cc, rmt: int)
    requires mss > 0 && CcOk(mss, cc) && cc.cwnd <= rmt
    ensures rmt * mss <= cc.incr ==> cc.cwnd == rmt
  {
    if cc.cwnd < rmt { MulMono(cc.cwnd + 1, rmt, mss); }
  }
}
