/**
 Which receive windows can shut the peer out for good. A receive window is a 32-bit number but is announced in 16
 bits, so a window above 65535 may be announced as 0 while there is room.
 */
module Windows {
  import opened Words
  import opened Protocol
  import opened Safety
  import opened System
  import opened Messages
  import opened Progress
  import opened Completion
  import Datagrams
  import Packing
  import Probing
  import Scheduler
  import Seqs

  /** What the 16 bits of an announcement show of y's whole receive window. */
  ghost function Residue(c: Pair): (r: int)
    ensures 0 <= r < 65536
  {
    c.y.rcvWnd % 65536
  }

  /** The most that x can number before it hears from y. */
  ghost function Cap(cfg: Config): (n: int)
    ensures n > 0
  {
    if cfg.noCwnd then cfg.sndWnd else 1
  }

  /** The most that y can hold without its user being able to read it. */
  ghost function MostUnread(cfg: Config): (n: int) {
    if cfg.stream then 0 else WND_RCV - 2
  }

  lemma Announced(wnd: int, n: int)
    requires 0 <= n <= wnd
    ensures n <= wnd % 65536 ==> (wnd - n) % 65536 == wnd % 65536 - n
  {
    if n <= wnd % 65536 {
      var q := wnd / 65536;
      assert wnd == 65536 * q + wnd % 65536;
      assert wnd - n == 65536 * q + (wnd % 65536 - n);
    }
  }

  // ----- windows that open again ---------------------------------------------------------

  /** A datagram that leaves an open window known, whenever it arrives. */
  ghost predicate Opens(d: Datagram) {
    d != [] && 0 < d[0].wnd && forall w :: w in d ==> w.wnd == d[0].wnd
  }

  /** x has heard nothing from y and is still in its first window. */
  ghost predicate Unheard(c: Pair, s: Sys) {
    && s.yx == [] && s.x.snd.una == 0 && s.x.snd.nxt <= Cap(c.x)
    && s.x.cc.rmtWnd == WND_RCV && s.x.cc.cwnd <= 1 && NoSkips(s.x.snd.buf)
  }

  ghost predicate NoSkips(buf: seq<OutSeg>) {
    forall i :: 0 <= i < |buf| ==> buf[i].fastack == 0
  }

  ghost predicate Heard(s: Sys) {
    exists i :: 0 <= i < |s.yx| && Opens(s.yx[i])
  }

  lemma {:induction false} NumberSkips(e: Env, wnd: int, s: Snd)
    requires NoSkips(s.buf)
    ensures NoSkips(Number(Exact, e, wnd, s).buf)
    decreases |s.queue|
  {
    if s.nxt < s.una + wnd && s.queue != [] { NumberSkips(e, wnd, NumberOne(e, s)); }
  }

  /** Without skips nothing is retransmitted early. */
  lemma {:induction false} TransmitSkips(cfg: Config, e: Env, buf: seq<OutSeg>)
    requires NoSkips(buf)
    ensures var t := Transmit(cfg, e, buf); t.fasts == 0 && NoSkips(t.buf)
  {
    if buf != [] {
      var k := |buf| - 1;
      assert NoSkips(buf[..k]);
      TransmitSkips(cfg, e, buf[..k]);
      assert !FateOf(cfg, e.current, buf[k]).Fast? && Touch(cfg, e, buf[k]).fastack == 0;
    }
  }

  lemma UnheardFlush(c: Pair, s: Sys, k: Ctl)
    requires Unheard(c, s) && k == s.x.(clock := k.clock) && SndOk(k.snd)
    ensures Unheard(c, s.(x := Flush(Exact, c.x, k).0, xy := s.xy + Flush(Exact, c.x, k).1))
  {
    if k.clock.updated {
      var e, wnd := EnvOf(c.x, k), EffectiveWnd(c.x, k.cc);
      NumberOk(e, wnd, k.snd);
      NumberSkips(e, wnd, k.snd);
      TransmitSkips(c.x, e, Refill(Exact, c.x, k).buf);
    }
  }

  lemma UnheardA(c: Pair, s: Sys, op: Op)
    requires Inv(c, s) && Unheard(c, s)
    ensures Unheard(c, StepX(Exact, c, s, op))
  {
    match op
    case DoSend(data) =>
    case DoRecv(len) =>
    case DoUpdate(time) => UnheardFlush(c, s, s.x.(clock := Tick(c.x.interval, s.x.clock, time).0));
    case DoFlush => UnheardFlush(c, s, s.x);
    case DoDeliver(i) =>
  }

  /** y holds less than its residue, so what it announces is not 0. */
  lemma FewAnnounced(c: Pair, s: Sys)
    requires Inv(c, s) && MsgInv(c, s) && Unheard(c, s) && Cap(c.x) < Residue(c)
    ensures 0 < WndUnused(c.y, s.y.rcv) % 65536
  {
    Announced(c.y.rcvWnd, |s.y.rcv.queue|);
    assert c.y.rcvWnd >= c.y.rcvWnd % 65536;
  }

  /** What y flushes then opens x's window. */
  lemma FlushHeard(c: Pair, k: Ctl)
    requires 0 < WndUnused(c.y, k.rcv) % 65536
    ensures forall d :: d in Flush(Exact, c.y, k).1 ==> Opens(d)
  {
    Probing.SentWnd(c.y, k);
    Packing.PackMembers(c.y.mtu, Sent(Exact, c.y, k));
    PackNonEmpty(c.y.mtu, Sent(Exact, c.y, k));
    forall d | d in Flush(Exact, c.y, k).1 ensures Opens(d) {
      assert d[0] in d;
    }
  }

  lemma OutHeard(c: Pair, s: Sys, op: Op)
    requires 0 < WndUnused(c.y, s.y.rcv) % 65536
    ensures forall d :: d in Act(Exact, c.y, s.y, s.xy, op).1 ==> Opens(d)
  {
    match op
    case DoUpdate(time) => FlushHeard(c, s.y.(clock := Tick(c.y.interval, s.y.clock, time).0));
    case DoFlush => FlushHeard(c, s.y);
    case _ =>
  }

  lemma HeardStep(c: Pair, s: Sys, a: Action)
    requires Heard(s)
    ensures Heard(Step(Exact, c, s, a))
  {
    var i :| 0 <= i < |s.yx| && Opens(s.yx[i]);
    assert Step(Exact, c, s, a).yx[i] == s.yx[i];
  }

  lemma HeardOut(c: Pair, s: Sys, k: Ctl, out: seq<Datagram>)
    requires Unheard(c, s) && forall d :: d in out ==> Opens(d)
    ensures var t := s.(y := k, yx := s.yx + out); Unheard(c, t) || Heard(t)
  {
    var t := s.(y := k, yx := s.yx + out);
    if out != [] { assert out[0] in out && t.yx[0] == out[0]; }
  }

  lemma StepB(c: Pair, s: Sys, op: Op)
    ensures var (k, out) := Act(Exact, c.y, s.y, s.xy, op);
            Step(Exact, c, s, Action(B, op)) == s.(y := k, yx := s.yx + out)
  {
  }

  lemma UnheardStep(c: Pair, s: Sys, a: Action)
    requires Inv(c, s) && MsgInv(c, s) && Unheard(c, s) && Cap(c.x) < Residue(c)
    ensures var t := Step(Exact, c, s, a); Unheard(c, t) || Heard(t)
  {
    if a.side.A? {
      UnheardA(c, s, a.op);
    } else {
      hide Act, Step, Unheard, Heard, Opens, Inv, MsgInv, WndUnused;
      FewAnnounced(c, s);
      OutHeard(c, s, a.op);
      StepB(c, s, a.op);
      HeardOut(c, s, Act(Exact, c.y, s.y, s.xy, a.op).0, Act(Exact, c.y, s.y, s.xy, a.op).1);
    }
  }

  /** In every run x has heard nothing, or some datagram can open its window. */
  lemma {:induction false} RunHeard(c: Pair, acts: seq<Action>)
    requires Cap(c.x) < Residue(c)
    ensures var s := Run(Exact, c, acts); Unheard(c, s) || Heard(s)
  {
    if acts != [] {
      var s, a := Run(Exact, c, acts[..|acts| - 1]), acts[|acts| - 1];
      RunHeard(c, acts[..|acts| - 1]);
      RunInv(c, acts[..|acts| - 1]);
      RunMsg(c, acts[..|acts| - 1]);
      hide Inv, MsgInv, Unheard, Heard;
      if Heard(s) { HeardStep(c, s, a); } else { UnheardStep(c, s, a); }
    }
  }

  /** more continues the run without new sends; deliveries may be of any age. */
  ghost predicate Continues(c: Pair, acts: seq<Action>, more: seq<Action>) {
    && acts <= more
    && (forall i :: |acts| <= i < |more| ==> !more[i].op.DoSend?)
    && Kept(Run(Exact, c, acts), Run(Exact, c, more))
  }

  lemma Join(c: Pair, acts: seq<Action>, mid: seq<Action>, more: seq<Action>)
    requires Continues(c, acts, mid) && Continues(c, mid, more)
    ensures Continues(c, acts, more)
  {
    hide Run;
    assert forall i :: |acts| <= i < |mid| ==> more[i] == mid[i];
  }

  lemma Loosen(c: Pair, acts: seq<Action>, more: seq<Action>)
    requires Extends(c, acts, more)
    ensures Continues(c, acts, more)
  {
  }

  /** An old datagram of y opens x's window once more. */
  lemma Replay(c: Pair, acts: seq<Action>) returns (more: seq<Action>)
    requires Heard(Run(Exact, c, acts))
    ensures Continues(c, acts, more) && 0 < Run(Exact, c, more).x.cc.rmtWnd
  {
    var s := Run(Exact, c, acts);
    var i :| 0 <= i < |s.yx| && Opens(s.yx[i]);
    var a := Action(A, DoDeliver(i));
    more := acts + [a];
    RunSnoc(Exact, c, acts, a);
    RunInv(c, acts);
    StepKept(c, s, a);
    hide Run;
    Probing.InputWnd(c.x, s.x, s.yx[i], s.yx[i][0].wnd);
  }

  lemma AdvanceReplaying(c: Pair, acts: seq<Action>) returns (more: seq<Action>)
    requires Cap(c.x) < Residue(c) && Left(Run(Exact, c, acts)) > 0
    ensures Continues(c, acts, more) && Run(Exact, c, acts).x.snd.una < Run(Exact, c, more).x.snd.una
  {
    var s := Run(Exact, c, acts);
    RmtWndNat(c, acts);
    RunHeard(c, acts);
    hide Run;
    if s.x.snd.buf != [] || 0 < s.x.cc.rmtWnd {
      more := Forward(c, acts);
    } else {
      var open := Replay(c, acts);
      if s.x.snd.una < Run(Exact, c, open).x.snd.una {
        more := open;
      } else {
        LeftSame(c, acts, open);
        more := Forward(c, open);
        Loosen(c, open, more);
        Join(c, acts, open, more);
      }
    }
  }

  lemma LeftSame(c: Pair, acts: seq<Action>, more: seq<Action>)
    requires Continues(c, acts, more)
    ensures Left(Run(Exact, c, more)) - Left(Run(Exact, c, acts)) ==
            Run(Exact, c, acts).x.snd.una - Run(Exact, c, more).x.snd.una
  {
    hide Run;
    var s, t := Run(Exact, c, acts).x.snd, Run(Exact, c, more).x.snd;
    assert |s.numbered + s.queue| == |t.numbered + t.queue|;
  }

  lemma AcknowledgeReplaying(c: Pair, acts: seq<Action>) returns (more: seq<Action>)
    requires Cap(c.x) < Residue(c)
    ensures Continues(c, acts, more)
    ensures Run(Exact, c, more).x.snd.queue == [] && Run(Exact, c, more).x.snd.buf == []
    decreases Left(Run(Exact, c, acts))
  {
    hide Run, Continues;
    RunInv(c, acts);
    if Left(Run(Exact, c, acts)) > 0 {
      var mid := AdvanceReplaying(c, acts);
      LeftSame(c, acts, mid);
      RunInv(c, mid);
      LeftBounds(Run(Exact, c, mid).x.snd);
      more := AcknowledgeReplaying(c, mid);
      Join(c, acts, mid, more);
    } else {
      more := acts;
      Same(c, acts);
      Loosen(c, acts, acts);
      NothingLeft(Run(Exact, c, acts).x.snd);
    }
  }

  /** Completion for windows that x cannot fill before it hears from y. */
  lemma CompletesReplaying(c: Pair, acts: seq<Action>) returns (more: seq<Action>)
    requires Cap(c.x) < Residue(c)
    ensures Finished(c, acts, more)
  {
    hide Run;
    var mid := AcknowledgeReplaying(c, acts);
    more := ReadAll(c, mid);
    Loosen(c, mid, more);
    Join(c, acts, mid, more);
    RunInv(c, more);
    RunMsg(c, more);
    AllTaken(c, Run(Exact, c, more));
  }

  // ----- windows that never open ---------------------------------------------------------

  /** x has data and nothing under way, y has all that was numbered but its user cannot read it, and all that y ever
      announced is 0, as is what it would announce now. */
  ghost predicate Stuck(c: Pair, s: Sys) {
    && s.x.snd.buf == [] && s.x.snd.queue != [] && s.x.cc.rmtWnd == 0
    && s.y.rcv.moved == s.x.snd.numbered && Unreadable(s.y.rcv.queue)
    && WndUnused(c.y, s.y.rcv) % 65536 == 0 && |s.y.rcv.queue| < c.y.rcvWnd
    && Silent(s.yx)
  }

  ghost predicate Unreadable(q: seq<InSeg>) {
    q == [] || |q| < q[0].piece.frg + 1
  }

  /** No announcement but 0. */
  ghost predicate Silent(log: seq<Datagram>) {
    forall d, w :: d in log && w in d ==> w.wnd == 0
  }

  lemma FlushSilent(cfg: Config, k: Ctl)
    requires WndUnused(cfg, k.rcv) % 65536 == 0
    ensures Silent(Flush(Exact, cfg, k).1)
  {
    Probing.SentWnd(cfg, k);
    Packing.PackMembers(cfg.mtu, Sent(Exact, cfg, k));
  }

  lemma OutSilent(cfg: Config, k: Ctl, inbox: seq<Datagram>, op: Op)
    requires WndUnused(cfg, k.rcv) % 65536 == 0
    ensures Silent(Act(Exact, cfg, k, inbox, op).1)
  {
    match op
    case DoUpdate(time) => FlushSilent(cfg, k.(clock := Tick(cfg.interval, k.clock, time).0));
    case DoFlush => FlushSilent(cfg, k);
    case _ =>
  }

  /** x's half of being stuck. */
  ghost predicate StaysIdle(k: Ctl, k': Ctl) {
    k'.snd.buf == [] && k'.snd.queue != [] && k'.cc.rmtWnd == 0 && k'.snd.numbered == k.snd.numbered
  }

  /** A flush numbers nothing with a closed window. */
  lemma ClosedFlush(cfg: Config, k: Ctl)
    requires SndOk(k.snd) && k.snd.buf == [] && k.snd.queue != [] && k.cc.rmtWnd == 0
    ensures StaysIdle(k, Flush(Exact, cfg, k).0)
  {
  }

  lemma NoneUnderWay(s: Snd)
    requires SndOk(s)
    ensures s.una == s.nxt ==> s.buf == []
  {
    if s.buf != [] { assert Numbered(s.buf[0], s.una, s.numbered); }
  }

  lemma ClosedInput(c: Pair, s: Sys, d: Datagram)
    requires Inv(c, s) && Datagrams.ShapeInv(c, s) && Stuck(c, s) && d in s.yx
    ensures StaysIdle(s.x, Input(Exact, c.x, s.x, d))
  {
    assert d != [];
    InputOk(c.x, s.x, d, s.y.rcv, s.y.snd.numbered);
    Probing.InputWnd(c.x, s.x, d, 0);
    var t := Input(Exact, c.x, s.x, d).snd;
    NoneUnderWay(t);
  }

  lemma StuckA(c: Pair, s: Sys, op: Op)
    requires Inv(c, s) && Datagrams.ShapeInv(c, s) && Stuck(c, s)
    ensures StaysIdle(s.x, Act(Exact, c.x, s.x, s.yx, op).0)
  {
    match op
    case DoSend(data) =>
    case DoRecv(len) =>
    case DoUpdate(time) => ClosedFlush(c.x, s.x.(clock := Tick(c.x.interval, s.x.clock, time).0));
    case DoFlush => ClosedFlush(c.x, s.x);
    case DoDeliver(i) => if i < |s.yx| { ClosedInput(c, s, s.yx[i]); }
  }

  /** Two receiving halves that look alike to the user. */
  ghost predicate Alike(r: Rcv, r': Rcv) {
    r'.moved == r.moved && PiecesOf(r'.queue) == PiecesOf(r.queue)
  }

  /** With everything moved, no datagram brings y anything. */
  lemma NothingNew(c: Pair, s: Sys, d: Datagram)
    requires Inv(c, s) && MsgInv(c, s) && s.y.rcv.moved == s.x.snd.numbered && d in s.xy
    ensures Alike(s.y.rcv, Input(Exact, c.y, s.y, d).rcv)
  {
    var r, r' := s.y.rcv, Input(Exact, c.y, s.y, d).rcv;
    DeliverEffect(c.Flip(), s.Flip(), d);
    InputHist(Exact, c.y, Scan(s.y, false, 0), d);
    assert |r'.moved| >= |r.moved|;
  }

  lemma StuckB(c: Pair, s: Sys, op: Op)
    requires Inv(c, s) && MsgInv(c, s) && Stuck(c, s)
    ensures Alike(s.y.rcv, Act(Exact, c.y, s.y, s.xy, op).0.rcv)
  {
    if op.DoDeliver? && op.i < |s.xy| { NothingNew(c, s, s.xy[op.i]); }
  }

  lemma StuckIdle(c: Pair, s: Sys, k: Ctl, out: seq<Datagram>)
    requires Stuck(c, s) && StaysIdle(s.x, k)
    ensures Stuck(c, s.(x := k, xy := s.xy + out))
  {
    hide WndUnused, Silent, Unreadable;
  }

  lemma UnreadableAlike(r: Rcv, r': Rcv)
    requires Alike(r, r') && Unreadable(r.queue)
    ensures Unreadable(r'.queue) && |r'.queue| == |r.queue|
  {
    assert forall i :: 0 <= i < |r.queue| ==> PiecesOf(r.queue)[i] == r.queue[i].piece;
    assert forall i :: 0 <= i < |r'.queue| ==> PiecesOf(r'.queue)[i] == r'.queue[i].piece;
  }

  lemma SilentAppend(a: seq<Datagram>, b: seq<Datagram>)
    requires Silent(a) && Silent(b)
    ensures Silent(a + b)
  {
  }

  lemma StuckAlike(c: Pair, s: Sys, k: Ctl, out: seq<Datagram>)
    requires Stuck(c, s) && Alike(s.y.rcv, k.rcv) && Silent(out)
    ensures Stuck(c, s.(y := k, yx := s.yx + out))
  {
    UnreadableAlike(s.y.rcv, k.rcv);
    SilentAppend(s.yx, out);
    hide Silent, Unreadable;
  }

  lemma StuckStep(c: Pair, s: Sys, a: Action)
    requires Inv(c, s) && MsgInv(c, s) && Datagrams.ShapeInv(c, s) && Stuck(c, s)
    ensures Stuck(c, Step(Exact, c, s, a))
  {
    assert WndUnused(c.y, s.y.rcv) % 65536 == 0;
    hide Act, Step, Stuck, StaysIdle, Alike, Silent, Inv, MsgInv, WndUnused;
    if a.side.A? {
      StuckA(c, s, a.op);
      StepA(c, s, a.op);
      StuckIdle(c, s, Act(Exact, c.x, s.x, s.yx, a.op).0, Act(Exact, c.x, s.x, s.yx, a.op).1);
    } else {
      StuckB(c, s, a.op);
      OutSilent(c.y, s.y, s.xy, a.op);
      StepB(c, s, a.op);
      StuckAlike(c, s, Act(Exact, c.y, s.y, s.xy, a.op).0, Act(Exact, c.y, s.y, s.xy, a.op).1);
    }
  }

  lemma {:induction false} StuckForever(c: Pair, acts: seq<Action>, more: seq<Action>)
    requires Stuck(c, Run(Exact, c, acts)) && acts <= more
    ensures Stuck(c, Run(Exact, c, more))
    decreases |more|
  {
    if more != acts {
      var before := more[..|more| - 1];
      StuckForever(c, acts, before);
      RunInv(c, before);
      RunMsg(c, before);
      Datagrams.RunShape(c, before);
      StuckStep(c, Run(Exact, c, before), more[|more| - 1]);
    }
  }

  /** A stuck run cannot be completed. */
  lemma StuckFails(c: Pair, acts: seq<Action>)
    requires Stuck(c, Run(Exact, c, acts))
    ensures !CanComplete(c, acts)
  {
    hide Run;
    forall more ensures !Finished(c, acts, more) {
      if acts <= more { StuckForever(c, acts, more); }
    }
  }

  // ----- a run that gets stuck, for a residue of 0 ---------------------------------------

  lemma StepA(c: Pair, s: Sys, op: Op)
    ensures var (k, out) := Act(Exact, c.x, s.x, s.yx, op);
            Step(Exact, c, s, Action(A, op)) == s.(x := k, xy := s.xy + out)
  {
  }

  /** x, then y, does something more. */
  lemma DoA(c: Pair, acts: seq<Action>, op: Op) returns (more: seq<Action>)
    ensures var s := Run(Exact, c, acts);
            var (k, out) := Act(Exact, c.x, s.x, s.yx, op);
            Run(Exact, c, more) == s.(x := k, xy := s.xy + out)
  {
    hide Run, Step, Act;
    more := acts + [Action(A, op)];
    RunSnoc(Exact, c, acts, Action(A, op));
    StepA(c, Run(Exact, c, acts), op);
  }

  lemma DoB(c: Pair, acts: seq<Action>, op: Op) returns (more: seq<Action>)
    ensures var s := Run(Exact, c, acts);
            var (k, out) := Act(Exact, c.y, s.y, s.xy, op);
            Run(Exact, c, more) == s.(y := k, yx := s.yx + out)
  {
    hide Run, Step, Act;
    more := acts + [Action(B, op)];
    RunSnoc(Exact, c, acts, Action(B, op));
    StepB(c, Run(Exact, c, acts), op);
  }

  lemma SendA(c: Pair, acts: seq<Action>, data: seq<byte>) returns (more: seq<Action>)
    ensures var s := Run(Exact, c, acts);
            Run(Exact, c, more) == s.(x := s.x.(snd := Send(c.x, s.x.snd, data).0))
  {
    hide Run, Send;
    more := DoA(c, acts, DoSend(data));
  }

  lemma SendB(c: Pair, acts: seq<Action>, data: seq<byte>) returns (more: seq<Action>)
    ensures var s := Run(Exact, c, acts);
            Run(Exact, c, more) == s.(y := s.y.(snd := Send(c.y, s.y.snd, data).0))
  {
    hide Run, Send;
    more := DoB(c, acts, DoSend(data));
  }

  lemma FlushA(c: Pair, acts: seq<Action>) returns (more: seq<Action>)
    ensures var s := Run(Exact, c, acts);
            var (k, out) := Flush(Exact, c.x, s.x);
            Run(Exact, c, more) == s.(x := k, xy := s.xy + out)
  {
    hide Run, Flush;
    more := DoA(c, acts, DoFlush);
  }

  lemma FlushB(c: Pair, acts: seq<Action>) returns (more: seq<Action>)
    ensures var s := Run(Exact, c, acts);
            var (k, out) := Flush(Exact, c.y, s.y);
            Run(Exact, c, more) == s.(y := k, yx := s.yx + out)
  {
    hide Run, Flush;
    more := DoB(c, acts, DoFlush);
  }

  lemma DeliverA(c: Pair, acts: seq<Action>, i: nat) returns (more: seq<Action>)
    requires i < |Run(Exact, c, acts).yx|
    ensures var s := Run(Exact, c, acts); Run(Exact, c, more) == s.(x := Input(Exact, c.x, s.x, s.yx[i]))
  {
    hide Run, Input;
    more := DoA(c, acts, DoDeliver(i));
  }

  lemma DeliverB(c: Pair, acts: seq<Action>, i: nat) returns (more: seq<Action>)
    requires i < |Run(Exact, c, acts).xy|
    ensures var s := Run(Exact, c, acts); Run(Exact, c, more) == s.(y := Input(Exact, c.y, s.y, s.xy[i]))
  {
    hide Run, Input;
    more := DoB(c, acts, DoDeliver(i));
  }

  /** Both clocks run, nothing else has happened. */
  ghost predicate BothFresh(c: Pair, s: Sys) {
    && s.xy == [] && s.yx == [] && FreshEnd(c.x, s.x) && FreshEnd(c.y, s.y)
  }

  ghost predicate FreshEnd(cfg: Config, k: Ctl) {
    && k.clock.updated && k.snd == Create().snd && k.rcv == Create().rcv && k.acks == []
    && k.cc.cwnd == 1 && k.cc.rmtWnd == WND_RCV
  }

  lemma BothStarted(c: Pair) returns (acts: seq<Action>)
    ensures BothFresh(c, Run(Exact, c, acts))
  {
    assert Run(Exact, c, []) == Start();
    hide Run, Update;
    FirstUpdate(Exact, c.x);
    FirstUpdate(Exact, c.y);
    acts := DoA(c, [], DoUpdate(0));
    acts := DoB(c, acts, DoUpdate(0));
  }

  lemma SendByte(cfg: Config, s: Snd)
    requires s.queue == []
    ensures var t := Send(cfg, s, [7]).0; t == s.(queue := t.queue, accepted := t.accepted) && t.queue != []
  {
  }

  /** A flush that numbers something sends it. */
  lemma FlushSends(cfg: Config, k: Ctl)
    requires SndOk(k.snd) && k.snd.nxt - k.snd.una <= cfg.sndWnd && k.clock.updated
    requires 0 < EffectiveWnd(cfg, k.cc) && k.snd.buf == [] && k.snd.queue != []
    ensures Flush(Exact, cfg, k).1 != []
  {
    var e, buf := EnvOf(cfg, k), Refill(Exact, cfg, k).buf;
    FlushNumbers(cfg, k);
    TransmitBuf(cfg, e, buf);
    Scheduler.NumberAppends(Exact, e, EffectiveWnd(cfg, k.cc), k.snd);
    FirstTransmitted(cfg, e, buf);
    Packing.PackFlat(cfg.mtu, Sent(Exact, cfg, k));
  }

  /** y is about to speak. */
  lemma AboutToSpeak(c: Pair) returns (acts: seq<Action>)
    ensures var s := Run(Exact, c, acts);
            && FreshEnd(c.x, s.x) && s.y.rcv == Create().rcv && s.yx == [] && s.y.clock.updated
            && s.y.snd.queue != [] && s.y.snd.buf == [] && 0 < EffectiveWnd(c.y, s.y.cc)
  {
    hide Run, Send;
    acts := BothStarted(c);
    SendByte(c.y, Run(Exact, c, acts).y.snd);
    acts := SendB(c, acts, [7]);
  }

  /** y speaks first, and announces 0. */
  lemma Greeting(c: Pair) returns (acts: seq<Action>)
    requires Residue(c) == 0
    ensures var s := Run(Exact, c, acts);
            FreshEnd(c.x, s.x) && s.y.rcv == Create().rcv && s.yx != [] && Silent(s.yx)
  {
    acts := AboutToSpeak(c);
    hide Run, Flush, FreshEnd, Inv, EffectiveWnd, WndUnused, Residue, Silent;
    var s := Run(Exact, c, acts);
    RunInv(c, acts);
    SenderOf(c, s);
    EmptyClosed(c, s.y.rcv);
    FlushSends(c.y, s.y);
    FlushSilent(c.y, s.y);
    FlushRcv(c.y, s.y);
    acts := FlushB(c, acts);
    assert [] + Flush(Exact, c.y, s.y).1 == Flush(Exact, c.y, s.y).1;
  }

  lemma EmptyClosed(c: Pair, r: Rcv)
    requires Residue(c) == 0 && r.queue == []
    ensures WndUnused(c.y, r) % 65536 == 0
  {
  }

  lemma SenderOf(c: Pair, s: Sys)
    requires Inv(c, s)
    ensures SndOk(s.y.snd) && s.y.snd.nxt - s.y.snd.una <= c.y.sndWnd
  {
  }

  lemma FlushRcv(cfg: Config, k: Ctl)
    ensures Flush(Exact, cfg, k).0.rcv == k.rcv
  {
  }

  lemma {:induction false} IdleSegs(cfg: Config, s: Scan, d: Datagram)
    requires s.k.snd == Create().snd
    ensures InputSegs(Exact, cfg, s, d).k.snd == Create().snd
    decreases |d|
  {
    if d != [] { IdleSegs(cfg, InputSeg(Exact, cfg, s, d[0]), d[1..]); }
  }

  /** x learns of the 0 before it has sent anything. */
  lemma Greeted(cfg: Config, k: Ctl, d: Datagram)
    requires k.snd == Create().snd && d != [] && forall w :: w in d ==> w.wnd == 0
    ensures var k' := Input(Exact, cfg, k, d); k'.snd == Create().snd && k'.cc.rmtWnd == 0
  {
    Probing.InputWnd(cfg, k, d, 0);
    IdleSegs(cfg, Scan(k, false, 0), d);
  }

  lemma FirstInLog(c: Pair, s: Sys)
    requires Datagrams.ShapeInv(c, s) && s.yx != []
    ensures s.yx[0] != []
  {
    assert s.yx[0] in s.yx;
  }

  lemma ClosedFirst(c: Pair) returns (acts: seq<Action>)
    requires Residue(c) == 0
    ensures var s := Run(Exact, c, acts);
            && s.x.snd == Create().snd && s.x.cc.rmtWnd == 0 && s.y.rcv == Create().rcv && Silent(s.yx)
  {
    acts := Greeting(c);
    hide Run, Input;
    var s := Run(Exact, c, acts);
    Datagrams.RunShape(c, acts);
    FirstInLog(c, s);
    hide Datagrams.ShapeInv;
    assert s.yx[0] in s.yx;
    Greeted(c.x, s.x, s.yx[0]);
    hide Silent;
    acts := DeliverA(c, acts, 0);
  }

  /** For a window that is a multiple of 65536 there is a run after which, whatever anyone does and however long,
      what x's user sent is not even numbered. */
  lemma NeverStarts(c: Pair) returns (acts: seq<Action>)
    requires Residue(c) == 0
    ensures Stuck(c, Run(Exact, c, acts)) && Run(Exact, c, acts).x.snd.numbered == []
  {
    acts := ClosedFirst(c);
    hide Run, Send, Silent, Stuck, Residue;
    SendByte(c.x, Run(Exact, c, acts).x.snd);
    acts := SendA(c, acts, [7]);
    StuckStart(c, Run(Exact, c, acts));
  }

  lemma StuckStart(c: Pair, s: Sys)
    requires Residue(c) == 0 && s.y.rcv == Create().rcv && Silent(s.yx)
    requires s.x.snd.numbered == [] && s.x.snd.buf == [] && s.x.snd.queue != [] && s.x.cc.rmtWnd == 0
    ensures Stuck(c, s)
  {
    EmptyClosed(c, s.y.rcv);
  }

  // ----- a run that gets stuck, for a residue that x can fill ----------------------------

  /** What x can number in its first window. */
  ghost function First(cfg: Config): (n: int)
    ensures 0 < n <= WND_RCV
  {
    if cfg.noCwnd then Min(cfg.sndWnd, WND_RCV) else 1
  }

  ghost function Empties(n: nat): (msgs: seq<seq<byte>>)
    ensures |msgs| == n && forall i :: 0 <= i < n ==> msgs[i] == []
  {
    seq(n, i => [])
  }

  /** A message of r + 1 fragments. */
  ghost function Long(cfg: Config, r: nat): (msg: seq<byte>)
    ensures |msg| == r * cfg.Mss() + 1
  {
    assert r * cfg.Mss() >= 0;
    seq(r * cfg.Mss() + 1, i => 7)
  }

  /** Empty messages and then a long one, one fragment more than the first window admits, r + 1 of them the long one's. */
  ghost function Load(cfg: Config, r: nat): (msgs: seq<seq<byte>>)
    requires r <= First(cfg)
  {
    Empties(First(cfg) - r) + [Long(cfg, r)]
  }

  lemma LongFragments(cfg: Config, r: nat)
    ensures |Fragment(Long(cfg, r), cfg.Mss(), false)| == r + 1
    ensures FragCount(|Long(cfg, r)|, cfg.Mss()) == r + 1
  {
    var mss := cfg.Mss();
    FragmentCount(Long(cfg, r), mss, false);
    hide Fragment, Long;
    if r > 0 {
      assert r * mss >= mss;
      assert r * mss + 1 + mss - 1 == mss * (r + 1) + 0;
      DivUnique(r * mss + 1 + mss - 1, mss, r + 1, 0);
    }
  }

  lemma {:induction false} EmptiesCount(n: nat, mss: int)
    requires mss > 0
    ensures |Pieces(Empties(n), mss)| == n
  {
    if n > 0 {
      EmptiesCount(n - 1, mss);
      assert Empties(n)[..n - 1] == Empties(n - 1);
    }
  }

  lemma LoadCount(cfg: Config, r: nat)
    requires r <= First(cfg)
    ensures |Pieces(Load(cfg, r), cfg.Mss())| == First(cfg) + 1
  {
    EmptiesCount(First(cfg) - r, cfg.Mss());
    LongFragments(cfg, r);
    PiecesLast(Empties(First(cfg) - r), Long(cfg, r), cfg.Mss());
  }

  lemma SendPlain(cfg: Config, s: Snd, data: seq<byte>)
    requires !cfg.stream && FragCount(|data|, cfg.Mss()) < WND_RCV
    ensures var t := Send(cfg, s, data).0;
            t == s.(queue := t.queue, accepted := s.accepted + [data])
  {
    assert data[0..] == data;
  }

  /** Nothing of x is numbered yet, and it has accepted msgs. */
  ghost predicate Loaded(c: Pair, s: Sys, msgs: seq<seq<byte>>) {
    && s.xy == [] && s.yx == [] && FreshEnd(c.y, s.y)
    && s.x.clock.updated && s.x.cc.cwnd == 1 && s.x.cc.rmtWnd == WND_RCV
    && s.x.snd.una == 0 && s.x.snd.nxt == 0 && s.x.snd.buf == [] && s.x.snd.numbered == []
    && s.x.snd.accepted == msgs
  }

  lemma LoadOne(c: Pair, acts: seq<Action>, msgs: seq<seq<byte>>, data: seq<byte>) returns (more: seq<Action>)
    requires Loaded(c, Run(Exact, c, acts), msgs) && !c.x.stream && FragCount(|data|, c.x.Mss()) < WND_RCV
    ensures Loaded(c, Run(Exact, c, more), msgs + [data])
  {
    hide Run, Send, FreshEnd;
    SendPlain(c.x, Run(Exact, c, acts).x.snd, data);
    more := SendA(c, acts, data);
  }

  lemma {:induction false} LoadEmpties(c: Pair, n: nat) returns (acts: seq<Action>)
    requires !c.x.stream
    ensures Loaded(c, Run(Exact, c, acts), Empties(n))
  {
    hide Run;
    if n == 0 {
      acts := BothStarted(c);
    } else {
      acts := LoadEmpties(c, n - 1);
      acts := LoadOne(c, acts, Empties(n - 1), []);
      assert Empties(n - 1) + [[]] == Empties(n);
    }
  }

  lemma LoadAll(c: Pair, r: nat) returns (acts: seq<Action>)
    requires !c.x.stream && r <= First(c.x) && r < WND_RCV - 1
    ensures Loaded(c, Run(Exact, c, acts), Load(c.x, r))
  {
    hide Run, Loaded;
    LongFragments(c.x, r);
    acts := LoadEmpties(c, First(c.x) - r);
    acts := LoadOne(c, acts, Empties(First(c.x) - r), Long(c.x, r));
  }

  // ----- the first window arrives --------------------------------------------------------

  lemma {:induction false} AllTransmitted(cfg: Config, e: Env, buf: seq<OutSeg>, i: nat)
    requires i < |buf| && buf[i].xmit == 0
    ensures exists w :: w in Transmit(cfg, e, buf).wires && w.cmd == PUSH && w.sn == buf[i].sn
  {
    var k := |buf| - 1;
    if i < k {
      AllTransmitted(cfg, e, buf[..k], i);
      var w :| w in Transmit(cfg, e, buf[..k]).wires && w.cmd == PUSH && w.sn == buf[i].sn;
      assert w in Transmit(cfg, e, buf).wires;
    } else {
      var w := PushWire(Touch(cfg, e, buf[k]));
      assert w in Transmit(cfg, e, buf).wires;
    }
  }

  /** Number n travels in some datagram of the log. */
  ghost predicate Travels(log: seq<Datagram>, n: int) {
    exists j, w :: 0 <= j < |log| && w in log[j] && w.cmd == PUSH && w.sn == n
  }

  /** A first flush sends all that it numbers. */
  lemma FlushCovers(cfg: Config, k: Ctl, n: int)
    requires SndOk(k.snd) && k.snd.buf == [] && k.snd.nxt == 0 && k.clock.updated
    requires 0 <= n < FlushState(Exact, cfg, k).snd.nxt
    ensures Travels(Flush(Exact, cfg, k).1, n)
  {
    var e, wnd, s := EnvOf(cfg, k), EffectiveWnd(cfg, k.cc), Refill(Exact, cfg, k);
    NumberMembers(e, wnd, k.snd);
    Scheduler.NumberAppends(Exact, e, wnd, k.snd);
    hide Number, Transmit, Pack;
    assert k.snd.nxt <= n < s.nxt && InOut(s.buf, n);
    var i :| 0 <= i < |s.buf| && s.buf[i].sn == n;
    AllTransmitted(cfg, e, s.buf, i);
    var w :| w in Transmit(cfg, e, s.buf).wires && w.cmd == PUSH && w.sn == n;
    assert w in Sent(Exact, cfg, k);
    Packing.PackFlat(cfg.mtu, Sent(Exact, cfg, k));
    Probing.FlatHas(Pack(cfg.mtu, Sent(Exact, cfg, k)), w);
  }

  /** The first flush numbers one window full. */
  lemma FirstFlush(cfg: Config, k: Ctl)
    requires SndOk(k.snd) && k.snd.buf == [] && k.snd.una == 0 && k.snd.nxt == 0 && k.clock.updated
    requires k.cc.cwnd == 1 && k.cc.rmtWnd == WND_RCV && |k.snd.queue| == First(cfg) + 1
    ensures var t := Flush(Exact, cfg, k).0.snd;
            && t.nxt == First(cfg) && t.una == 0 && t.accepted == k.snd.accepted
            && t.numbered + t.queue == k.snd.numbered + k.snd.queue
  {
    var e, wnd := EnvOf(cfg, k), EffectiveWnd(cfg, k.cc);
    NumberOk(e, wnd, k.snd);
    hide Number, Transmit;
    var s := Refill(Exact, cfg, k);
    assert |s.numbered + s.queue| == |k.snd.numbered + k.snd.queue|;
  }

  /** y gets a datagram: it holds every number of it that is below its first window, and owes an acknowledgement. */
  lemma {:induction false} DeliverHolds(cfg: Config, s: Scan, d: Datagram, peer: Rcv, source: seq<Piece>)
    requires SndOk(s.k.snd) && RcvOk(cfg.rcvWnd, s.k.rcv, source) && AcksHeld(s.k.acks, s.k.rcv)
    requires forall w :: w in d ==> BackOk(w, peer) && PushOk(w, source)
    ensures var k := InputSegs(Exact, cfg, s, d).k;
            forall w :: w in d && w.cmd == PUSH && w.sn < cfg.rcvWnd ==> Held(k.rcv, w.sn) && k.acks != []
    decreases |d|
  {
    if d != [] {
      var s' := InputSeg(Exact, cfg, s, d[0]);
      assert d[0] in d;
      SndInputOk(s.k.snd, d[0], peer);
      RcvInputOk(cfg, s.k, d[0], source);
      InputSegsOk(cfg, s', d[1..], peer, source);
      AcksGrow(cfg, s', d[1..]);
      DeliverHolds(cfg, s', d[1..], peer, source);
      if d[0].cmd == PUSH && d[0].sn < cfg.rcvWnd {
        assert Ack(d[0].sn, d[0].ts) in s'.k.acks;
      }
    }
  }

  /** y has every number of the first n datagrams. */
  ghost predicate HasFirst(c: Pair, s: Sys, n: nat)
    requires n <= |s.xy|
  {
    forall j, w :: 0 <= j < n && w in s.xy[j] && w.cmd == PUSH && w.sn < c.y.rcvWnd ==>
      Held(s.y.rcv, w.sn) && s.y.acks != []
  }

  lemma HoldsOne(c: Pair, s: Sys, n: nat)
    requires Inv(c, s) && n < |s.xy| && HasFirst(c, s, n)
    ensures var t := s.(y := Input(Exact, c.y, s.y, s.xy[n])); HasFirst(c, t, n + 1) && t.y.clock == s.y.clock
  {
    var d, s0 := s.xy[n], Scan(s.y, false, 0);
    assert d in s.xy;
    DeliverHolds(c.y, s0, d, s.x.rcv, s.x.snd.numbered);
    InputSegsOk(c.y, s0, d, s.x.rcv, s.x.snd.numbered);
    AcksGrow(c.y, s0, d);
    ClockKept(c.y, s0, d);
  }

  /** All that x has sent arrives at y. */
  lemma ArriveAll(c: Pair, acts: seq<Action>) returns (more: seq<Action>)
    ensures var s, t := Run(Exact, c, acts), Run(Exact, c, more);
            t == s.(y := t.y) && t.y.clock == s.y.clock && HasFirst(c, t, |s.xy|)
  {
    hide Run, Inv, HasFirst, Input;
    var s := Run(Exact, c, acts);
    more := acts;
    HasNone(c, s);
    for n := 0 to |s.xy|
      invariant var t := Run(Exact, c, more);
                t == s.(y := t.y) && t.y.clock == s.y.clock && HasFirst(c, t, n)
    {
      RunInv(c, more);
      HoldsOne(c, Run(Exact, c, more), n);
      more := DeliverB(c, more, n);
    }
  }

  lemma HasNone(c: Pair, s: Sys)
    ensures HasFirst(c, s, 0)
  {
  }

  /** Holding every number, with room, y has moved them all. */
  lemma HeldMoved(c: Pair, s: Sys)
    requires Inv(c, s) && MsgInv(c, s) && s.x.snd.nxt < c.y.rcvWnd
    requires forall n :: 0 <= n < s.x.snd.nxt ==> Held(s.y.rcv, n)
    ensures s.y.rcv.moved == s.x.snd.numbered
  {
    HeldBounds(c.y.rcvWnd, s.y.rcv, s.x.snd.numbered);
  }

  // ----- what y's user cannot read -------------------------------------------------------

  /** After reading what can be read, exactly r fragments are left, and they are incomplete. */
  lemma LeftUnread(c: Pair, s: Sys, r: nat)
    requires Inv(c, s) && MsgInv(c, s) && !c.x.stream && 0 < r <= First(c.x)
    requires s.x.snd.accepted == Load(c.x, r) && s.x.snd.nxt == First(c.x) && s.y.rcv.moved == s.x.snd.numbered
    requires PeekSize(s.y.rcv.queue) < 0
    ensures |s.y.rcv.queue| == r && Unreadable(s.y.rcv.queue)
  {
    var q, t, m := s.y.rcv.queue, |s.y.rcv.taken|, First(c.x) - r;
    TakenCount(c, s);
    if t <= m {
      EmptiesCount(t, c.x.Mss());
      assert s.y.rcv.taken == Empties(t);
      if t < m {
        assert |q| == First(c.x) - t && s.x.snd.accepted[t] == [];
        FirstFrg([], c.x.Mss());
        NextMessage(c.x, s.x.snd, s.y.rcv);
      }
    } else {
      assert s.y.rcv.taken == Load(c.x, r);
      LoadCount(c.x, r);
    }
  }

  lemma TakenCount(c: Pair, s: Sys)
    requires Inv(c, s) && MsgInv(c, s) && !c.x.stream && s.y.rcv.moved == s.x.snd.numbered
    ensures s.y.rcv.taken <= s.x.snd.accepted
    ensures |Pieces(s.y.rcv.taken, c.x.Mss())| + |s.y.rcv.queue| == s.x.snd.nxt
  {
  }

  // ----- the run -------------------------------------------------------------------------

  /** x has sent its first window of the load, of which some is still queued; nothing else has happened. */
  ghost predicate WindowSent(c: Pair, s: Sys, r: nat)
    requires r <= First(c.x)
  {
    && s.yx == [] && FreshEnd(c.y, s.y)
    && s.x.snd.accepted == Load(c.x, r) && s.x.snd.nxt == First(c.x) && s.x.snd.queue != []
    && forall n :: 0 <= n < First(c.x) ==> Travels(s.xy, n)
  }

  lemma LoadedQueue(c: Pair, s: Sys, r: nat)
    requires r <= First(c.x) && !c.x.stream && Loaded(c, s, Load(c.x, r)) && MsgInv(c, s)
    ensures |s.x.snd.queue| == First(c.x) + 1
  {
    LoadCount(c.x, r);
    assert s.x.snd.numbered + s.x.snd.queue == s.x.snd.queue;
  }

  lemma SendWindow(c: Pair, r: nat) returns (acts: seq<Action>)
    requires !c.x.stream && r <= First(c.x) && r < WND_RCV - 1
    ensures WindowSent(c, Run(Exact, c, acts), r)
  {
    hide Run, Flush, Travels, Inv, MsgInv, FreshEnd;
    acts := LoadAll(c, r);
    var s := Run(Exact, c, acts);
    RunInv(c, acts);
    RunMsg(c, acts);
    LoadedQueue(c, s, r);
    InvSnd(c, s);
    FirstFlush(c.x, s.x);
    FlushRest(c, s);
    acts := FlushA(c, acts);
    var t := Run(Exact, c, acts);
    assert |t.x.snd.numbered + t.x.snd.queue| == |s.x.snd.numbered + s.x.snd.queue|;
    RunInv(c, acts);
    InvNxt(c, t);
    assert [] + Flush(Exact, c.x, s.x).1 == Flush(Exact, c.x, s.x).1;
  }

  lemma InvNxt(c: Pair, s: Sys)
    requires Inv(c, s)
    ensures s.x.snd.nxt == |s.x.snd.numbered|
  {
  }

  lemma FlushRest(c: Pair, s: Sys)
    requires SndOk(s.x.snd) && s.x.snd.buf == [] && s.x.snd.nxt == 0 && s.x.clock.updated
    ensures forall n :: 0 <= n < Flush(Exact, c.x, s.x).0.snd.nxt ==> Travels(Flush(Exact, c.x, s.x).1, n)
  {
    forall n | 0 <= n < Flush(Exact, c.x, s.x).0.snd.nxt ensures Travels(Flush(Exact, c.x, s.x).1, n) {
      FlushCovers(c.x, s.x, n);
    }
  }

  /** y has moved the whole window, its user has read what can be read, and it owes acknowledgements. */
  ghost predicate WindowRead(c: Pair, s: Sys, r: nat)
    requires r <= First(c.x)
  {
    && s.yx == [] && s.y.clock.updated && s.y.acks != []
    && s.x.snd.accepted == Load(c.x, r) && s.x.snd.nxt == First(c.x) && s.x.snd.queue != []
    && s.y.rcv.moved == s.x.snd.numbered && PeekSize(s.y.rcv.queue) < 0
  }

  /** Everything that travelled is held. */
  lemma TravelHeld(c: Pair, s: Sys, n: int)
    requires HasFirst(c, s, |s.xy|) && Travels(s.xy, n) && n < c.y.rcvWnd
    ensures Held(s.y.rcv, n) && s.y.acks != []
  {
    var j, w :| 0 <= j < |s.xy| && w in s.xy[j] && w.cmd == PUSH && w.sn == n;
    assert Held(s.y.rcv, w.sn);
  }

  lemma WindowHeld(c: Pair, s: Sys)
    requires Inv(c, s) && MsgInv(c, s) && HasFirst(c, s, |s.xy|) && First(c.x) < c.y.rcvWnd
    requires s.x.snd.nxt == First(c.x) && forall n :: 0 <= n < First(c.x) ==> Travels(s.xy, n)
    ensures s.y.rcv.moved == s.x.snd.numbered && s.y.acks != []
  {
    hide Inv, MsgInv, HasFirst, Travels, Held;
    forall n | 0 <= n < First(c.x) ensures Held(s.y.rcv, n) && s.y.acks != [] { TravelHeld(c, s, n); }
    TravelHeld(c, s, 0);
    HeldMoved(c, s);
  }

  /** Having moved everything, y keeps having done so. */
  lemma StillMoved(c: Pair, s: Sys, t: Sys)
    requires Inv(c, s) && Inv(c, t) && t.x == s.x && s.y.rcv.nxt <= t.y.rcv.nxt && s.y.rcv.moved == s.x.snd.numbered
    ensures t.y.rcv.moved == t.x.snd.numbered
  {
  }

  lemma ReadWindow(c: Pair, r: nat) returns (acts: seq<Action>)
    requires !c.x.stream && r <= First(c.x) && r < WND_RCV - 1 && First(c.x) < c.y.rcvWnd
    ensures WindowRead(c, Run(Exact, c, acts), r)
  {
    hide Run, Inv, MsgInv, HasFirst, Travels;
    acts := SendWindow(c, r);
    acts := ArriveAll(c, acts);
    var s := Run(Exact, c, acts);
    RunInv(c, acts);
    RunMsg(c, acts);
    WindowHeld(c, s);
    var more := ReadOn(c, acts);
    RunInv(c, more);
    StillMoved(c, s, Run(Exact, c, more));
    acts := more;
  }

  /** What y then announces is 0. */
  lemma UnreadClosed(c: Pair, s: Sys, r: nat)
    requires Inv(c, s) && MsgInv(c, s) && !c.x.stream && 0 < r <= First(c.x) && r == Residue(c) && WindowRead(c, s, r)
    ensures |s.y.rcv.queue| == r <= c.y.rcvWnd && Unreadable(s.y.rcv.queue) && WndUnused(c.y, s.y.rcv) % 65536 == 0
  {
    LeftUnread(c, s, r);
    assert c.y.rcvWnd >= c.y.rcvWnd % 65536;
    Announced(c.y.rcvWnd, r);
  }

  /** y has answered, with 0. */
  ghost predicate Answering(c: Pair, s: Sys) {
    && s.yx != [] && Silent(s.yx) && (forall d, w :: d in s.yx && w in d ==> w.una == s.x.snd.nxt)
    && s.x.snd.queue != [] && s.y.rcv.moved == s.x.snd.numbered && Unreadable(s.y.rcv.queue)
    && WndUnused(c.y, s.y.rcv) % 65536 == 0 && |s.y.rcv.queue| < c.y.rcvWnd
  }

  lemma RcvNxt(c: Pair, s: Sys)
    requires Inv(c, s) && s.y.rcv.moved == s.x.snd.numbered
    ensures s.y.rcv.nxt == s.x.snd.nxt
  {
  }

  lemma AnswerClosed(c: Pair, r: nat) returns (acts: seq<Action>)
    requires !c.x.stream && 0 < r <= First(c.x) && r < WND_RCV - 1 && r == Residue(c) && 65535 < c.y.rcvWnd
    ensures Answering(c, Run(Exact, c, acts))
  {
    hide Run, Inv, MsgInv, Flush, WndUnused, Residue, First, Silent;
    assert First(c.x) <= WND_RCV;
    acts := ReadWindow(c, r);
    var s := Run(Exact, c, acts);
    RunInv(c, acts);
    RunMsg(c, acts);
    UnreadClosed(c, s, r);
    RcvNxt(c, s);
    FlushAcknowledges(c.y, s.y);
    FlushSilent(c.y, s.y);
    FlushRcv(c.y, s.y);
    acts := FlushB(c, acts);
    assert [] + Flush(Exact, c.y, s.y).1 == Flush(Exact, c.y, s.y).1;
  }

  /** The answer tells x that everything is acknowledged and that there is no room. */
  lemma AnswerSticks(c: Pair, s: Sys)
    requires Inv(c, s) && Datagrams.ShapeInv(c, s) && Answering(c, s)
    ensures Stuck(c, s.(x := Input(Exact, c.x, s.x, s.yx[0])))
  {
    var d := s.yx[0];
    assert d in s.yx && d != [] && d[0] in d;
    InputOk(c.x, s.x, d, s.y.rcv, s.y.snd.numbered);
    AckMoves(c.x, s.x, d, s.y.rcv, s.y.snd.numbered);
    Probing.InputWnd(c.x, s.x, d, 0);
    var t := Input(Exact, c.x, s.x, d).snd;
    NoneUnderWay(t);
  }

  /** For a residue that x can fill, but with too few segments to be a whole message, there is a run that gets stuck. */
  lemma NeverRead(c: Pair, r: nat) returns (acts: seq<Action>)
    requires !c.x.stream && 0 < r <= First(c.x) && r < WND_RCV - 1 && r == Residue(c) && 65535 < c.y.rcvWnd
    ensures Stuck(c, Run(Exact, c, acts))
  {
    hide Run, Inv, Stuck, Input;
    acts := AnswerClosed(c, r);
    RunInv(c, acts);
    Datagrams.RunShape(c, acts);
    AnswerSticks(c, Run(Exact, c, acts));
    acts := DeliverA(c, acts, 0);
  }

  // ----- the exact condition -------------------------------------------------------------

  /** Completion, exactly: from every reachable state some continuation delivers, acknowledges and reads everything, if
      and only if y's window is at most 65535, or its lower 16 bits exceed what x can number before it hears from y, or
      what y can hold unreadable. */
  lemma CompletionExact(c: Pair)
    ensures (forall acts :: CanComplete(c, acts)) <==>
            c.y.rcvWnd <= 65535 || Min(Cap(c.x), MostUnread(c.x)) < Residue(c)
  {
    if OpenWindow(c) {
      forall acts ensures CanComplete(c, acts) { var more := Completes(c, acts); assert Finished(c, acts, more); }
    } else if Cap(c.x) < Residue(c) {
      forall acts ensures CanComplete(c, acts) {
        var more := CompletesReplaying(c, acts);
        assert Finished(c, acts, more);
      }
    } else {
      var acts;
      if Residue(c) == 0 { acts := NeverStarts(c); } else { acts := NeverRead(c, Residue(c)); }
      StuckFails(c, acts);
    }
  }
}
