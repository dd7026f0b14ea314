/** A run in which a timeout backs off until ikcp_check answers "now" right after a flush. */
module Backoff {
  import opened Words
  import opened Protocol
  import opened System
  import opened Scheduler
  import Safety

  const JUMP := 20000

  /** The one segment under way was last sent at t and its timeout is rto. */
  ghost predicate Alone(cfg: Config, k: Ctl, t: u32, rto: int) {
    && k.clock == Clock(t, Wrap(t + cfg.interval), true) && k.rtt.rto == 200
    && k.snd.queue == [] && |k.snd.buf| == 1 && Resting(k.snd.buf[0], t, rto)
  }

  ghost predicate Resting(o: OutSeg, t: u32, rto: int) {
    && 1 <= o.xmit <= rto == o.rto && 200 <= rto < 0x8000_0000
    && (o.resendts == Wrap(t + rto) || (rto == 200 && o.resendts == Wrap(t + 225)))
  }

  /** A time at which the segment has timed out and a flush is due. */
  function Later(t: u32, rto: int): (t': u32) {
    Wrap(t + Max(JUMP, rto))
  }

  lemma LaterFlushes(interval: int, t: u32, rto: int)
    requires 10 <= interval <= 5000 && 200 <= rto < 0x8000_0000
    ensures var t' := Later(t, rto);
            && Tick(interval, Clock(t, Wrap(t + interval), true), t') == (Clock(t', Wrap(t' + interval), true), true)
            && TimeDiff(t', Wrap(t + rto)) >= 0 && (rto == 200 ==> TimeDiff(t', Wrap(t + 225)) >= 0)
  {
    hide TimeDiff, Wrap;
    var jump := Max(JUMP, rto);
    Apart(t, jump, interval);
    Apart(t, jump, rto);
    if rto == 200 { Apart(t, jump, 225); }
    TimeAhead(Later(t, rto), interval);
  }

  lemma Apart(t: int, a: int, b: int)
    requires -0x8000_0000 <= a - b < 0x8000_0000
    ensures TimeDiff(Wrap(t + a), Wrap(t + b)) == a - b
  {
    TimeDiffWrap(t + a, t + b);
    SignedOf(a - b, 0, a - b);
  }

  /** At that time the segment times out. */
  lemma TimesOut(cfg: Config, o: OutSeg, t: u32, rto: int)
    requires cfg.nodelay == 0 && Resting(o, t, rto)
    ensures FateOf(cfg, Later(t, rto), o) == Timeout
    ensures NextRto(cfg, 200, Later(t, rto), o) == 2 * rto
  {
    LaterFlushes(cfg.interval, t, rto);
  }

  lemma TouchDoubles(cfg: Config, e: Env, o: OutSeg, t: u32, rto: int)
    requires cfg.nodelay == 0 && Resting(o, t, rto) && rto < 0x4000_0000 && e.rto == 200 && e.current == Later(t, rto)
    ensures Resting(Touch(cfg, e, o), e.current, 2 * rto)
  {
    TimesOut(cfg, o, t, rto);
  }

  /** With nothing queued a flush only looks at what is under way. */
  lemma FlushOnly(cfg: Config, k: Ctl)
    requires k.snd.queue == [] && |k.snd.buf| == 1
    ensures var k' := FlushState(Mod32, cfg, k);
            k'.snd.queue == [] && k'.snd.buf == [Touch(cfg, EnvOf(cfg, k), k.snd.buf[0])]
            && k'.clock == k.clock && k'.rtt == k.rtt
  {
    assert Refill(Mod32, cfg, k) == k.snd;
    Safety.TransmitBuf(cfg, EnvOf(cfg, k), k.snd.buf);
  }

  lemma UpdateFlushes(cfg: Config, k: Ctl, t: u32, c: Clock)
    requires Tick(cfg.interval, k.clock, t) == (c, true) && c.updated
    ensures Update(Mod32, cfg, k, t).0 == FlushState(Mod32, cfg, k.(clock := c))
  {
  }

  /** The next timeout doubles rto. */
  lemma Doubles(cfg: Config, k: Ctl, t: u32, rto: int)
    requires cfg.nodelay == 0 && Alone(cfg, k, t, rto) && rto < 0x4000_0000
    ensures Alone(cfg, Update(Mod32, cfg, k, Later(t, rto)).0, Later(t, rto), 2 * rto)
  {
    assert 200 <= rto;
    hide FlushState, Touch, Tick, Later, Resting, Update, Wrap, EnvOf;
    var t' := Later(t, rto);
    LaterFlushes(cfg.interval, t, rto);
    var k1 := k.(clock := Clock(t', Wrap(t' + cfg.interval), true));
    EnvNow(cfg, k1);
    UpdateFlushes(cfg, k, t', k1.clock);
    FlushOnly(cfg, k1);
    TouchDoubles(cfg, EnvOf(cfg, k1), k.snd.buf[0], t, rto);
  }

  /** From rto = 2^30 on, the next flush leaves the segment armed in the past. */
  lemma AnswersNow(cfg: Config, k: Ctl, t: u32, rto: int)
    requires cfg.nodelay == 0 && Alone(cfg, k, t, rto) && 0x4000_0000 <= rto
    ensures var t' := Later(t, rto);
            Tick(cfg.interval, k.clock, t').1 && Check(cfg, Update(Mod32, cfg, k, t').0, t') == t'
  {
    var t' := Later(t, rto);
    LaterFlushes(cfg.interval, t, rto);
    TimesOut(cfg, k.snd.buf[0], t, rto);
    assert !Armable(cfg, k.rtt.rto, t', k.snd.buf[0]);
    CheckAfterFlush(Mod32, cfg, k, t');
  }

  // ----- the run -------------------------------------------------------------------------

  lemma FirstSend(cfg: Config, s: Snd)
    requires s.queue == []
    ensures Send(cfg, s, [7]).0 == s.(queue := [Piece(0, [7])], accepted := s.accepted + [[7]])
  {
  }

  lemma NumberFirst(e: Env, wnd: int, s: Snd)
    requires s.una == 0 && s.nxt == 0 && s.buf == [] && |s.queue| == 1 && 0 < wnd <= WND_RCV
    ensures var r := Number(Mod32, e, wnd, s); r.queue == [] && r.buf == [Fresh(e, 0, s.queue[0])]
  {
    SignedOf(-wnd, 0, -wnd);
    WrapSmall(wnd);
  }

  lemma SentFirst(cfg: Config, e: Env, p: Piece)
    requires cfg.nodelay == 0 && e.rto == 200 && 0 <= e.current < 0x1_0000_0000
    ensures Resting(Touch(cfg, e, Fresh(e, 0, p)), e.current, 200)
  {
  }

  lemma FlushFirst(cfg: Config, k: Ctl)
    requires k.snd.una == 0 && k.snd.nxt == 0 && k.snd.buf == [] && |k.snd.queue| == 1
    requires k.cc.cwnd == 1 && k.cc.rmtWnd == WND_RCV
    ensures var e, k' := EnvOf(cfg, k), FlushState(Mod32, cfg, k);
            && k'.snd.queue == [] && k'.snd.buf == [Touch(cfg, e, Fresh(e, 0, k.snd.queue[0]))]
            && k'.clock == k.clock && k'.rtt == k.rtt
  {
    var e := EnvOf(cfg, k);
    NumberFirst(e, EffectiveWnd(cfg, k.cc), k.snd);
    hide Number, Touch, EffectiveWnd, Backed, ProbeTimer;
    Safety.TransmitBuf(cfg, e, Refill(Mod32, cfg, k).buf);
  }

  /** The second update numbers and sends the segment. */
  lemma SecondUpdate(cfg: Config, k: Ctl)
    requires cfg.nodelay == 0 && k.clock == Clock(0, cfg.interval, true) && k.rtt.rto == 200
    requires k.snd.una == 0 && k.snd.nxt == 0 && k.snd.buf == [] && |k.snd.queue| == 1
    requires k.cc.cwnd == 1 && k.cc.rmtWnd == WND_RCV
    ensures Alone(cfg, Update(Mod32, cfg, k, JUMP).0, JUMP, 200)
  {
    hide FlushState, Touch, Tick, Resting, Update, Wrap, EnvOf;
    var c := Clock(JUMP, Wrap(JUMP + cfg.interval), true);
    SecondTick(cfg.interval);
    UpdateFlushes(cfg, k, JUMP, c);
    FlushFirst(cfg, k.(clock := c));
    EnvNow(cfg, k.(clock := c));
    SentFirst(cfg, EnvOf(cfg, k.(clock := c)), k.snd.queue[0]);
  }

  lemma EnvNow(cfg: Config, k: Ctl)
    ensures EnvOf(cfg, k).current == k.clock.current && EnvOf(cfg, k).rto == k.rtt.rto
  {
  }

  lemma SecondTick(interval: int)
    requires 10 <= interval <= 5000
    ensures Tick(interval, Clock(0, interval, true), JUMP) == (Clock(JUMP, Wrap(JUMP + interval), true), true)
  {
    LaterFlushes(interval, 0, 200);
    WrapSmall(interval);
    WrapSmall(JUMP);
    hide Tick, Wrap;
  }

  /** The start of the run. */
  lemma Started(c: Pair) returns (acts: seq<Action>)
    requires c.x.nodelay == 0
    ensures Alone(c.x, Run(Mod32, c, acts).x, JUMP, 200)
  {
    hide Update, Alone, Send;
    RunSnoc(Mod32, c, [], Action(A, DoUpdate(0)));
    FirstUpdate(Mod32, c.x);
    acts := [] + [Action(A, DoUpdate(0))];
    RunSnoc(Mod32, c, acts, Action(A, DoSend([7])));
    FirstSend(c.x, Run(Mod32, c, acts).x.snd);
    acts := acts + [Action(A, DoSend([7]))];
    RunSnoc(Mod32, c, acts, Action(A, DoUpdate(JUMP)));
    SecondUpdate(c.x, Run(Mod32, c, acts).x);
    acts := acts + [Action(A, DoUpdate(JUMP))];
  }

  /** For every configuration without nodelay there is a run after which ikcp_check, called at the very
      time of a flush, answers that time: the promise of a later answer fails. */
  lemma BackOffRun(c: Pair) returns (acts: seq<Action>, t: u32)
    requires c.x.nodelay == 0
    ensures var k := Run(Mod32, c, acts).x;
            Tick(c.x.interval, k.clock, t).1 && Check(c.x, Update(Mod32, c.x, k, t).0, t) == t
  {
    hide Update, Alone, Check, Tick;
    acts := Started(c);
    var rto := 200;
    t := JUMP;
    while rto < 0x4000_0000
      invariant 200 <= rto < 0x8000_0000 && Alone(c.x, Run(Mod32, c, acts).x, t, rto)
    {
      Doubles(c.x, Run(Mod32, c, acts).x, t, rto);
      t := Later(t, rto);
      RunSnoc(Mod32, c, acts, Action(A, DoUpdate(t)));
      acts := acts + [Action(A, DoUpdate(t))];
      rto := 2 * rto;
    }
    AnswersNow(c.x, Run(Mod32, c, acts).x, t, rto);
    t := Later(t, rto);
  }

  // ----- every run -----------------------------------------------------------------------

  ghost predicate RtoOk(r: Rtt) {
    0 < r.rto <= RTO_MAX
  }

  lemma {:induction false} InputSegsRto(m: Arith, cfg: Config, s: Scan, d: Datagram)
    requires RtoOk(s.k.rtt)
    ensures RtoOk(InputSegs(m, cfg, s, d).k.rtt)
    decreases |d|
  {
    if d != [] { InputSegsRto(m, cfg, InputSeg(m, cfg, s, d[0]), d[1..]); }
  }

  lemma ActRto(m: Arith, cfg: Config, k: Ctl, inbox: seq<Datagram>, op: Op)
    requires RtoOk(k.rtt)
    ensures RtoOk(Act(m, cfg, k, inbox, op).0.rtt)
  {
    if op.DoDeliver? && op.i < |inbox| { InputSegsRto(m, cfg, Scan(k, false, 0), inbox[op.i]); }
  }

  /** The estimate that CheckAfterFlush and CheckLater ask for is there in every reachable state. */
  lemma {:induction false} RunRto(m: Arith, c: Pair, acts: seq<Action>)
    ensures RtoOk(Run(m, c, acts).x.rtt) && RtoOk(Run(m, c, acts).y.rtt)
  {
    if acts != [] {
      var s, a := Run(m, c, acts[..|acts| - 1]), acts[|acts| - 1];
      RunRto(m, c, acts[..|acts| - 1]);
      if a.side.A? { ActRto(m, c.x, s.x, s.yx, a.op); } else { ActRto(m, c.y, s.y, s.xy, a.op); }
    }
  }

  /** In every run: after a flush the answer is later if every timeout under way is below 2^30 ms and none is armed
      exactly half the clock range ahead. */
  lemma RunCheckLater(m: Arith, c: Pair, acts: seq<Action>, t: u32)
    ensures var k := Run(m, c, acts).x;
            && Tick(c.x.interval, k.clock, t).1
            && (forall i :: 0 <= i < |k.snd.buf| ==>
                  0 < k.snd.buf[i].rto < 0x4000_0000 && TimeDiff(k.snd.buf[i].resendts, t) != -0x8000_0000)
            ==> Check(c.x, Update(m, c.x, k, t).0, t) != t
  {
    RunRto(m, c, acts);
    var k := Run(m, c, acts).x;
    if Tick(c.x.interval, k.clock, t).1
       && forall i :: 0 <= i < |k.snd.buf| ==>
            0 < k.snd.buf[i].rto < 0x4000_0000 && TimeDiff(k.snd.buf[i].resendts, t) != -0x8000_0000
    {
      CheckLater(m, c.x, k, t);
    }
  }
}
