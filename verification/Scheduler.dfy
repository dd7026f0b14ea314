/** ikcp_update and ikcp_check agree, and flushes are no more frequent than the interval. */
module Scheduler {
  import opened Words
  import opened Protocol
  import opened Safety

  // ----- when to call next ---------------------------------------------------------------

  /** How long after `current` ikcp_check says to call again. */
  function Delay(cfg: Config, k: Ctl, current: u32): (d: int) {
    var lag := TimeDiff(current, k.clock.tsFlush);
    if !k.clock.updated || lag >= 0 || lag < -10000 then 0
    else
      match Soonest(k.snd.buf, current)
      case Due => 0
      case In(ms) => Min(Min(ms, -lag), cfg.interval)
  }

  lemma {:induction false} SoonestPositive(buf: seq<OutSeg>, current: int)
    ensures Soonest(buf, current).In? ==> 0 < Soonest(buf, current).ms <= 0x7fff_ffff
    ensures Soonest(buf, current).Due? <==> exists i :: 0 <= i < |buf| && TimeDiff(buf[i].resendts, current) <= 0
  {
    if buf != [] {
      var k := |buf| - 1;
      SoonestPositive(buf[..k], current);
      assert forall i :: 0 <= i < k ==> buf[..k][i] == buf[i];
      if Soonest(buf, current).Due? {
        if TimeDiff(buf[k].resendts, current) > 0 {
          var i :| 0 <= i < k && TimeDiff(buf[..k][i].resendts, current) <= 0;
          assert TimeDiff(buf[i].resendts, current) <= 0;
        }
      }
    }
  }

  /** The answer of ikcp_check lies in [current, current + interval]. */
  lemma CheckRange(cfg: Config, k: Ctl, current: u32)
    requires k.clock.updated
    ensures 0 <= Delay(cfg, k, current) <= cfg.interval
    ensures Check(cfg, k, current) == Wrap(current + Delay(cfg, k, current))
    ensures Check(cfg, k, current) == current <==> Delay(cfg, k, current) == 0
  {
    SoonestPositive(k.snd.buf, current);
    var lag := TimeDiff(current, k.clock.tsFlush);
    if -10000 <= lag < 0 {
      TimeFlip(current, k.clock.tsFlush);
    }
  }

  /** Some entry is due at c, or the next flush is, or is too far from c to be believed. */
  predicate CallNow(k: Ctl, c: int) {
    || !k.clock.updated
    || !(-10000 <= TimeDiff(c, k.clock.tsFlush) < 0)
    || exists i :: 0 <= i < |k.snd.buf| && TimeDiff(k.snd.buf[i].resendts, c) <= 0
  }

  /** The wait is no longer than the interval, the time to the next flush, or the time to any resend. */
  ghost predicate NoLaterThan(cfg: Config, k: Ctl, c: int, wait: int) {
    && wait <= cfg.interval && wait <= TimeDiff(k.clock.tsFlush, c)
    && forall i :: 0 <= i < |k.snd.buf| ==> wait <= TimeDiff(k.snd.buf[i].resendts, c)
  }

  /** The wait is one of them. */
  ghost predicate OneOf(cfg: Config, k: Ctl, c: int, wait: int) {
    || wait == cfg.interval || wait == TimeDiff(k.clock.tsFlush, c)
    || exists i :: 0 <= i < |k.snd.buf| && wait == TimeDiff(k.snd.buf[i].resendts, c)
  }

  lemma {:induction false} SoonestLeast(buf: seq<OutSeg>, current: int)
    requires forall i :: 0 <= i < |buf| ==> TimeDiff(buf[i].resendts, current) > 0
    ensures Soonest(buf, current).In?
    ensures forall i :: 0 <= i < |buf| ==> Soonest(buf, current).ms <= TimeDiff(buf[i].resendts, current)
    ensures Soonest(buf, current).ms == 0x7fff_ffff ||
            exists i :: 0 <= i < |buf| && Soonest(buf, current).ms == TimeDiff(buf[i].resendts, current)
  {
    if buf != [] {
      var k := |buf| - 1;
      SoonestLeast(buf[..k], current);
      assert forall i :: 0 <= i < k ==> buf[..k][i] == buf[i];
      var w := Soonest(buf[..k], current).ms;
      if w <= TimeDiff(buf[k].resendts, current) && w != 0x7fff_ffff {
        var i :| 0 <= i < k && w == TimeDiff(buf[..k][i].resendts, current);
        assert w == TimeDiff(buf[i].resendts, current);
      }
    }
  }

  /** The answer of ikcp_check, exactly: now if something is due, and otherwise the least of the interval, the time to
      the next flush and the times to the resends of all segments under way. */
  lemma CheckLeast(cfg: Config, k: Ctl, c: u32)
    ensures Check(cfg, k, c) == c <==> CallNow(k, c)
    ensures !CallNow(k, c) ==>
              exists wait :: 0 < wait && Check(cfg, k, c) == Wrap(c + wait)
                && NoLaterThan(cfg, k, c, wait) && OneOf(cfg, k, c, wait)
  {
    SoonestPositive(k.snd.buf, c);
    if !CallNow(k, c) {
      SoonestLeast(k.snd.buf, c);
      TimeFlip(c, k.clock.tsFlush);
      hide TimeDiff, Soonest;
      var ms := Soonest(k.snd.buf, c).ms;
      var wait := Min(Min(ms, TimeDiff(k.clock.tsFlush, c)), cfg.interval);
      assert 0 < wait <= 5000 && Check(cfg, k, c) == Wrap(c + wait);
      assert NoLaterThan(cfg, k, c, wait);
      assert OneOf(cfg, k, c, wait);
      WrapAway(c, wait);
    }
  }

  lemma WrapAway(c: u32, wait: int)
    requires 0 < wait <= 5000
    ensures Wrap(c + wait) != c
  {
  }

  /** Calling ikcp_update before the answer of ikcp_check changes nothing but `current`. */
  lemma CheckQuiet(m: Arith, cfg: Config, k: Ctl, current: u32, wait: int)
    requires k.clock.updated && 0 <= wait < Delay(cfg, k, current)
    ensures var now := Wrap(current + wait);
            Update(m, cfg, k, now) == (k.(clock := k.clock.(current := now)), [])
  {
    SoonestPositive(k.snd.buf, current);
    var lag := TimeDiff(current, k.clock.tsFlush);
    TimeShift(current, k.clock.tsFlush, wait);
  }

  // ----- after a flush -------------------------------------------------------------------

  /** A flushing tick sets the next flush strictly later, by at most the interval. */
  lemma TickArms(interval: int, c: Clock, current: u32)
    requires 10 <= interval <= 5000 && Tick(interval, c, current).1
    ensures var c' := Tick(interval, c, current).0;
            c'.updated && c'.current == current && 0 < TimeDiff(c'.tsFlush, current) <= interval
  {
    var start := if c.updated then c.tsFlush else current;
    var slap := TimeDiff(current, start);
    TimeAhead(current, interval);
    if 0 <= slap < 10000 {
      TimeShift(current, start, -interval);
      if slap < interval {
        TimeFlip(current, Wrap(start + interval));
      }
    }
  }

  /** The timeout that an entry of snd_buf has after flush, rto being the estimate of the round trip. */
  function NextRto(cfg: Config, rto: int, current: int, s: OutSeg): (r: int) {
    match FateOf(cfg, current, s)
    case Keep => s.rto
    case First => rto
    case Timeout => BackOff(cfg, Env(current, rto, 0, 0), s.rto)
    case Fast => s.rto
  }

  /** What the answer after a flush at `current` depends on, entry by entry of snd_buf before the call. An entry that
      was never sent is always armed in the future; one that is sent again needs a timeout that is positive as a
      signed word; one that is left alone must not be armed exactly half the clock range ahead. */
  predicate Armable(cfg: Config, rto: int, current: int, s: OutSeg) {
    match FateOf(cfg, current, s)
    case First => true
    case Keep => s.resendts % 0x1_0000_0000 != (current + 0x8000_0000) % 0x1_0000_0000
    case _ => 0 < NextRto(cfg, rto, current, s) % 0x1_0000_0000 < 0x8000_0000
  }

  lemma TouchAhead(cfg: Config, e: Env, s: OutSeg)
    requires !FateOf(cfg, e.current, s).Keep?
    ensures var d := if s.xmit == 0 then e.rto + (if cfg.nodelay == 0 then e.rto / 8 else 0)
                     else NextRto(cfg, e.rto, e.current, s);
            Touch(cfg, e, s).resendts == Wrap(e.current + d)
    ensures s.xmit == 0 ==> Touch(cfg, e, s).xmit == 1
  {
  }

  lemma HalfRange(a: int, b: int)
    ensures a % 0x1_0000_0000 == (b + 0x8000_0000) % 0x1_0000_0000 <==> TimeDiff(a, b) == -0x8000_0000
  {
    var n, h := 0x1_0000_0000, 0x8000_0000;
    if a % n == (b + h) % n {
      var q := a / n - (b + h) / n + 1;
      assert a - b == n * q + -h;
      SignedOf(a - b, q, -h);
    }
    if TimeDiff(a, b) == -h {
      var q := (a - b) / n;
      assert (a - b) % n == h;
      SameResidue(a, b + h, q);
    }
  }

  lemma SameResidue(x: int, y: int, q: int)
    requires x == y + 0x1_0000_0000 * q
    ensures x % 0x1_0000_0000 == y % 0x1_0000_0000
  {
  }

  /** An entry that is left alone is armed in the future unless it is armed half the clock range away. */
  lemma KeptArms(now: int, at: int)
    requires TimeDiff(now, at) < 0
    ensures TimeDiff(at, now) > 0 <==> at % 0x1_0000_0000 != (now + 0x8000_0000) % 0x1_0000_0000
  {
    HalfRange(at, now);
    if TimeDiff(now, at) == -0x8000_0000 { TimeOpposite(now, at); } else { TimeFlip(now, at); }
  }

  /** After the data loop an entry is armed strictly later exactly when it was armable. */
  lemma TouchArms(cfg: Config, e: Env, s: OutSeg)
    requires 0 < e.rto <= RTO_MAX
    ensures TimeDiff(Touch(cfg, e, s).resendts, e.current) > 0 <==> Armable(cfg, e.rto, e.current, s)
    ensures s.xmit == 0 ==> Touch(cfg, e, s).xmit == 1
  {
    if FateOf(cfg, e.current, s).Keep? {
      KeptArms(e.current, s.resendts);
    } else {
      TouchAhead(cfg, e, s);
      var d := if s.xmit == 0 then e.rto + (if cfg.nodelay == 0 then e.rto / 8 else 0)
               else NextRto(cfg, e.rto, e.current, s);
      TimeDiffWrap(e.current + d, e.current);
    }
  }

  /** Numbering appends entries that were never sent. */
  lemma {:induction false} NumberAppends(m: Arith, e: Env, wnd: int, s: Snd)
    ensures var t := Number(m, e, wnd, s);
            s.buf <= t.buf && forall i :: |s.buf| <= i < |t.buf| ==> t.buf[i].xmit == 0
    decreases |s.queue|
  {
    if Diff(m, s.nxt, Norm(m, s.una + wnd)) < 0 && s.queue != [] {
      NumberAppends(m, e, wnd, s.(queue := s.queue[1..], buf := s.buf + [Fresh(e, s.nxt, s.queue[0])],
                                  nxt := Norm(m, s.nxt + 1), numbered := s.numbered + [s.queue[0]]));
    }
  }

  /** Right after an ikcp_update that flushes, every buffered segment has been sent, and ikcp_check
      answers a later time if and only if every entry of snd_buf before the call was armable. */
  lemma CheckAfterFlush(m: Arith, cfg: Config, k: Ctl, current: u32)
    requires Tick(cfg.interval, k.clock, current).1 && 0 < k.rtt.rto <= RTO_MAX
    ensures var s, t := Refill(m, cfg, Ticked(cfg, k, current)).buf, Update(m, cfg, k, current).0.snd.buf;
            |t| == |s| && forall i :: 0 <= i < |t| && s[i].xmit == 0 ==> t[i].xmit == 1
    ensures Check(cfg, Update(m, cfg, k, current).0, current) != current <==>
            forall i :: 0 <= i < |k.snd.buf| ==> Armable(cfg, k.rtt.rto, current, k.snd.buf[i])
  {
    var k1, k' := Ticked(cfg, k, current), Update(m, cfg, k, current).0;
    TickArms(cfg.interval, k.clock, current);
    FlushArms(m, cfg, k1);
    assert k' == FlushState(m, cfg, k1);
    LaterCheck(cfg, k', current);
    var s := Refill(m, cfg, k1).buf;
    NumberAppends(m, EnvOf(cfg, k1), EffectiveWnd(cfg, k1.cc), k1.snd);
    assert forall i :: 0 <= i < |k.snd.buf| ==> s[i] == k.snd.buf[i];
    hide FlushState, Update, Check, Refill;
    assert forall i :: |k.snd.buf| <= i < |s| ==> Armable(cfg, k.rtt.rto, current, s[i]);
  }

  /** With timeouts below 2^30 ms, and nothing armed exactly half the clock range ahead, the answer after a flush is
      always later: the next call is worth waiting for. */
  lemma CheckLater(m: Arith, cfg: Config, k: Ctl, current: u32)
    requires Tick(cfg.interval, k.clock, current).1 && 0 < k.rtt.rto <= RTO_MAX
    requires forall i :: 0 <= i < |k.snd.buf| ==>
               && 0 < k.snd.buf[i].rto < 0x4000_0000
               && TimeDiff(k.snd.buf[i].resendts, current) != -0x8000_0000
    ensures Check(cfg, Update(m, cfg, k, current).0, current) != current
  {
    CheckAfterFlush(m, cfg, k, current);
    forall i | 0 <= i < |k.snd.buf| ensures Armable(cfg, k.rtt.rto, current, k.snd.buf[i]) {
      YoungArmable(cfg, k.rtt.rto, current, k.snd.buf[i]);
    }
  }

  lemma YoungArmable(cfg: Config, rto: int, current: int, s: OutSeg)
    requires 0 < rto <= RTO_MAX && 0 < s.rto < 0x4000_0000 && TimeDiff(s.resendts, current) != -0x8000_0000
    ensures Armable(cfg, rto, current, s)
  {
    HalfRange(s.resendts, current);
    BackOffSmall(cfg, Env(current, rto, 0, 0), s.rto);
    hide TimeDiff, BackOff;
  }

  lemma BackOffSmall(cfg: Config, e: Env, rto: int)
    requires 0 < e.rto <= RTO_MAX && 0 < rto < 0x4000_0000
    ensures 0 < BackOff(cfg, e, rto) < 0x8000_0000
  {
  }

  function Ticked(cfg: Config, k: Ctl, current: u32): (k1: Ctl) {
    k.(clock := Tick(cfg.interval, k.clock, current).0)
  }

  lemma FlushArms(m: Arith, cfg: Config, k: Ctl)
    requires 0 < k.rtt.rto <= RTO_MAX
    ensures var s, t := Refill(m, cfg, k).buf, FlushState(m, cfg, k).snd.buf;
            && |t| == |s|
            && forall i :: 0 <= i < |t| ==>
                  && (TimeDiff(t[i].resendts, k.clock.current) > 0 <==> Armable(cfg, k.rtt.rto, k.clock.current, s[i]))
                  && (s[i].xmit == 0 ==> t[i].xmit == 1)
  {
    var e, s := EnvOf(cfg, k), Refill(m, cfg, k).buf;
    TransmitBuf(cfg, e, s);
    forall i | 0 <= i < |s|
      ensures TimeDiff(Touch(cfg, e, s[i]).resendts, e.current) > 0 <==> Armable(cfg, e.rto, e.current, s[i])
      ensures s[i].xmit == 0 ==> Touch(cfg, e, s[i]).xmit == 1
    {
      TouchArms(cfg, e, s[i]);
    }
  }

  lemma LaterCheck(cfg: Config, k: Ctl, current: u32)
    requires k.clock.updated && 0 < TimeDiff(k.clock.tsFlush, current) <= cfg.interval
    ensures Check(cfg, k, current) != current <==>
            forall i :: 0 <= i < |k.snd.buf| ==> TimeDiff(k.snd.buf[i].resendts, current) > 0
  {
    SoonestPositive(k.snd.buf, current);
    TimeFlip(k.clock.tsFlush, current);
    CheckRange(cfg, k, current);
  }

  // ----- flush rate ----------------------------------------------------------------------

  /** The clock and the times of the flushes after calls of ikcp_update at the given times. */
  function Calls(interval: int, times: seq<int>): (r: (Clock, seq<int>)) {
    if times == [] then (Create().clock, [])
    else
      var (c, flushes) := Calls(interval, times[..|times| - 1]);
      var now := times[|times| - 1];
      var (c', go) := Tick(interval, c, Wrap(now));
      (c', if go then flushes + [now] else flushes)
  }

  ghost predicate NonDecreasing(times: seq<int>) {
    forall i, j :: 0 <= i < j < |times| ==> times[i] <= times[j]
  }

  /** When the next flush is due, as an unbounded time. */
  ghost predicate DueAt(c: Clock, due: int, last: int, interval: int) {
    c.updated && c.tsFlush == Wrap(due) && due <= last + interval
  }

  /** A call at time now when a flush is due, on time or at most ten seconds late modulo 2^32. */
  lemma OnTime(interval: int, due: int, now: int, slap: int) returns (due': int)
    requires 10 <= interval <= 5000 && due <= now
    requires slap == TimeDiff(Wrap(now), Wrap(due)) && 0 <= slap < 10000
    ensures due + interval <= due' <= now + interval
    ensures var next := Wrap(Wrap(due) + interval);
            Wrap(due') == if TimeDiff(Wrap(now), next) >= 0 then Wrap(Wrap(now) + interval) else next
  {
    WrapWrap(now, interval);
    WrapWrap(due, interval);
    TimeShift(Wrap(now), Wrap(due), -interval);
    TimeDiffWrap(now, due);
    if slap >= interval {
      due' := now + interval;
    } else {
      due' := now - slap + interval;
      SlapResidue(now, due, slap, interval);
    }
  }

  /** slap is the least non-negative residue of now - due. */
  lemma SlapResidue(now: int, due: int, slap: int, interval: int)
    requires slap == Signed(now - due) && 0 <= slap < 10000 && due <= now
    ensures slap <= now - due
    ensures Wrap(now - slap + interval) == Wrap(due + interval)
  {
    var n := 0x1_0000_0000;
    var q := (now - due) / n;
    assert now - due == n * q + slap;
    assert now - slap + interval == due + interval + n * q;
  }

  /** One call, at whatever later time: no flush before it is due, and the next one at least an
      interval after that. Jumps of any length are covered. */
  lemma TickRate(interval: int, c: Clock, due: int, last: int, now: int) returns (due': int)
    requires 10 <= interval <= 5000 && last <= now && DueAt(c, due, last, interval)
    ensures var (c', go) := Tick(interval, c, Wrap(now));
            && DueAt(c', due', now, interval)
            && (go ==> due <= now && due + interval <= due')
            && (!go ==> due' == due)
  {
    var slap := TimeDiff(Wrap(now), c.tsFlush);
    TimeDiffWrap(now, due);
    if now < due { SignedOf(now - due, 0, now - due); }
    if slap >= 10000 || slap < -10000 {
      due' := now + interval;
      WrapWrap(now, interval);
      TimeAhead(Wrap(now), interval);
    } else if slap >= 0 {
      due' := OnTime(interval, due, now, slap);
    } else {
      due' := due;
    }
  }

  /** When ikcp_update flushes, for any clock and any time: at the first call, when the flush is due, and when the clock seems to
      have jumped by more than ten seconds. Otherwise only `current` changes. */
  lemma TickFlushes(interval: int, c: Clock, current: u32)
    ensures var (c', go) := Tick(interval, c, current);
            && (go <==> !c.updated || !(-10000 <= TimeDiff(current, c.tsFlush) < 0))
            && c'.updated && c'.current == current && (!go ==> c'.tsFlush == c.tsFlush)
  {
    SignedOf(current - current, 0, 0);
  }

  /** Within half the clock range, a call flushes exactly when the flush is due; the next one is due an interval after this
      one was, or an interval after the call if that is past already. */
  lemma TickExact(interval: int, c: Clock, due: int, last: int, now: int)
    requires 10 <= interval <= 5000 && last <= now < due + 0x8000_0000 && DueAt(c, due, last, interval)
    ensures var (c', go) := Tick(interval, c, Wrap(now));
            && (go <==> due <= now)
            && DueAt(c', if !go then due else if now < due + interval then due + interval else now + interval, now, interval)
  {
    var slap := TimeDiff(Wrap(now), c.tsFlush);
    TimeDiffWrap(now, due);
    SignedOf(now - due, 0, now - due);
    assert slap == now - due;
    if slap >= 10000 {
      WrapWrap(now, interval);
      TimeAhead(Wrap(now), interval);
    } else if slap >= 0 {
      WrapWrap(due, interval);
      WrapWrap(now, interval);
      TimeDiffWrap(now, due + interval);
      SignedOf(now - due - interval, 0, now - due - interval);
    }
  }

  /** The first call flushes and starts the clock. */
  lemma FirstTick(interval: int, now: int)
    requires 10 <= interval <= 5000
    ensures Tick(interval, Create().clock, Wrap(now)) == (Clock(Wrap(now), Wrap(now + interval), true), true)
  {
    WrapWrap(now, interval);
    TimeAhead(Wrap(now), interval);
  }

  lemma {:induction false} CallsRate(interval: int, times: seq<int>) returns (due: int)
    requires 10 <= interval <= 5000 && times != [] && NonDecreasing(times)
    ensures var (c, flushes) := Calls(interval, times);
            && DueAt(c, due, times[|times| - 1], interval)
            && times[0] + |flushes| * interval <= due
            && forall k :: 0 <= k < |flushes| ==> times[0] + k * interval <= flushes[k]
  {
    var n := |times| - 1;
    var now := times[n];
    if n == 0 {
      assert Calls(interval, times[..n]) == (Create().clock, []);
      FirstTick(interval, now);
      due := now + interval;
    } else {
      hide Tick, DueAt;
      var d := CallsRate(interval, times[..n]);
      var (c, flushes) := Calls(interval, times[..n]);
      assert times[..n][0] == times[0] && times[..n][n - 1] == times[n - 1];
      due := TickRate(interval, c, d, times[n - 1], now);
      assert (|flushes| + 1) * interval == |flushes| * interval + interval;
    }
  }

  /** With a non-decreasing clock the k-th flush caused by ikcp_update (from 0) never happens before
      t0 + k * interval, for every pattern of calls. */
  lemma FlushRate(interval: int, times: seq<int>, k: nat)
    requires 10 <= interval <= 5000 && NonDecreasing(times) && k < |Calls(interval, times).1|
    ensures times != [] && times[0] + k * interval <= Calls(interval, times).1[k]
  {
    var due := CallsRate(interval, times);
  }

  /** No two calls are more than g apart. */
  ghost predicate Gaps(times: seq<int>, g: int) {
    forall i :: 0 < i < |times| ==> times[i] <= times[i - 1] + g
  }

  /** What calls at least every g ms make of the schedule: between flushes at most interval + g pass, and none is overdue. */
  lemma {:induction false} CallsPace(interval: int, times: seq<int>, g: int) returns (due: int)
    requires 10 <= interval <= 5000 && times != [] && NonDecreasing(times) && Gaps(times, g) && 0 <= g <= 0x4000_0000
    ensures var (c, flushes) := Calls(interval, times);
            && DueAt(c, due, times[|times| - 1], interval) && times[|times| - 1] < due
            && flushes != [] && due <= flushes[|flushes| - 1] + interval
            && forall k :: 0 < k < |flushes| ==> flushes[k] <= flushes[k - 1] + interval + g
  {
    var n := |times| - 1;
    var now := times[n];
    if n == 0 {
      assert Calls(interval, times[..n]) == (Create().clock, []);
      FirstTick(interval, now);
      due := now + interval;
    } else {
      var before := CallsPace(interval, times[..n], g);
      var (c, flushes) := Calls(interval, times[..n]);
      assert times[..n][n - 1] == times[n - 1] <= now;
      TickExact(interval, c, before, times[n - 1], now);
      due := if now < before then before else if now < before + interval then before + interval else now + interval;
    }
  }

  /** With calls at least every g ms, consecutive flushes are at most interval + g apart. */
  lemma FlushPace(interval: int, times: seq<int>, g: int, k: nat)
    requires 10 <= interval <= 5000 && NonDecreasing(times) && Gaps(times, g) && 0 <= g <= 0x4000_0000
    requires 0 < k < |Calls(interval, times).1|
    ensures Calls(interval, times).1[k] <= Calls(interval, times).1[k - 1] + interval + g
  {
    assert times != [];
    var _ := CallsPace(interval, times, g);
  }
}
