/** Two control blocks driven against each other, as kcp_learn/test.cpp drives them. */
module Pairing {
  import opened Words
  import opened Protocol
  import opened WireFormat
  import opened System
  import opened Engine
  import opened ByteSystem
  import opened Acknowledgements
  import Messages

  /** What a control block may change, its acknowledgement array aside, is its own. */
  ghost predicate Apart(x: Kcp, y: Kcp)
    reads x, y, x.acklist, y.acklist
  {
    && x != y && x.acklist != y.acklist && x.outbox != y.outbox
    && x.outbox.buffer != y.outbox.buffer && x.acklist.flat != y.acklist.flat
    && x.outbox.buffer as object != y.acklist.flat as object
    && y.outbox.buffer as object != x.acklist.flat as object
  }

  /** What the user of one endpoint notes: the data of the sends that returned 0, whether some send was refused,
      all bytes that went in (of a refused send, as many as the last segment had room for), and what the receives
      returned, peeks aside. */
  datatype UserLog = UserLog(sent: seq<seq<byte>>, refused: bool, went: seq<byte>, read: seq<seq<byte>>)

  function Noted(log: UserLog, cfg: Config, k: Ctl, op: Op): (r: UserLog) {
    match op
    case DoSend(data) =>
      if Send(cfg, k.snd, data).1 == 0 then log.(sent := log.sent + [data], went := log.went + data)
      else log.(refused := true, went := log.went + data[..Extension(cfg, k.snd, |data|)])
    case DoRecv(len) =>
      if len >= 0 && RecvCode(k.rcv, len) >= 0
      then log.(read := log.read + [Joined(k.rcv.queue[..HeadLen(k.rcv.queue)])]) else log
    case _ => log
  }

  /** The histories of a control block are what its user noted. */
  ghost predicate Logged(cfg: Config, k: Ctl, log: UserLog) {
    && k.rcv.taken == log.read
    && Messages.Concat(k.snd.accepted) == log.went
    && (!cfg.stream || !log.refused ==> k.snd.accepted == log.sent)
  }

  lemma {:induction false} DrainTaken(m: Arith, wnd: int, r: Rcv)
    ensures Drain(m, wnd, r).taken == r.taken
    decreases |r.buf|
  {
    if r.buf != [] && r.buf[0].sn == r.nxt && |r.queue| < wnd {
      DrainTaken(m, wnd, r.(buf := r.buf[1..], queue := r.queue + [r.buf[0]], nxt := Norm(m, r.nxt + 1),
                            moved := r.moved + [r.buf[0].piece]));
    }
  }

  lemma {:induction false} NumberAccepted(m: Arith, e: Env, wnd: int, s: Snd)
    ensures Number(m, e, wnd, s).accepted == s.accepted
    decreases |s.queue|
  {
    if Diff(m, s.nxt, Norm(m, s.una + wnd)) < 0 && s.queue != [] {
      NumberAccepted(m, e, wnd, s.(queue := s.queue[1..], buf := s.buf + [Fresh(e, s.nxt, s.queue[0])],
                                   nxt := Norm(m, s.nxt + 1), numbered := s.numbered + [s.queue[0]]));
    }
  }

  lemma {:induction false} InputSegsUser(m: Arith, cfg: Config, s: Scan, d: Datagram)
    ensures var k := InputSegs(m, cfg, s, d).k;
            k.rcv.taken == s.k.rcv.taken && k.snd.accepted == s.k.snd.accepted
    decreases |d|
  {
    if d != [] {
      var r, w := s.k.rcv, d[0];
      DrainTaken(m, cfg.rcvWnd, r.(buf := InsertBack(m, r.buf, InSeg(w.sn, Piece(w.frg, w.data)))));
      InputSegsUser(m, cfg, InputSeg(m, cfg, s, w), d[1..]);
    }
  }

  lemma InputUser(cfg: Config, k: Ctl, data: Packet)
    ensures var k' := InputBytes(cfg, k, data).0;
            k'.rcv.taken == k.rcv.taken && k'.snd.accepted == k.snd.accepted
  {
    InputSegsUser(Mod32, cfg, Scan(k, false, 0), Decode(cfg.conv, data).segs);
  }

  lemma FlushUser(cfg: Config, k: Ctl)
    ensures var k' := Flush(Mod32, cfg, k).0;
            k'.rcv.taken == k.rcv.taken && k'.snd.accepted == k.snd.accepted
  {
    NumberAccepted(Mod32, EnvOf(cfg, k), EffectiveWnd(cfg, k.cc), k.snd);
  }

  lemma SendLogged(cfg: Config, k: Ctl, data: seq<byte>, log: UserLog)
    requires Logged(cfg, k, log)
    ensures Logged(cfg, k.(snd := Send(cfg, k.snd, data).0), Noted(log, cfg, k, DoSend(data)))
  {
    hide Messages.Concat, Fragment, FragCount;
    var went := data[..Extension(cfg, k.snd, |data|)];
    Messages.ConcatLast(k.snd.accepted, data);
    Messages.ConcatLast(k.snd.accepted, went);
    assert log.went + [] == log.went;
  }

  /** Every call keeps histories and user logs together. */
  lemma ActLogged(cfg: Config, k: Ctl, inbox: seq<Packet>, op: Op, log: UserLog)
    requires Logged(cfg, k, log)
    ensures Logged(cfg, ByteAct(cfg, k, inbox, op).0, Noted(log, cfg, k, op))
  {
    match op
    case DoSend(data) => SendLogged(cfg, k, data, log);
    case DoRecv(len) => DrainTaken(Mod32, cfg.rcvWnd, TakeHead(k.rcv, len < 0));
    case DoUpdate(time) => FlushUser(cfg, k.(clock := Tick(cfg.interval, k.clock, time).0));
    case DoFlush => FlushUser(cfg, k);
    case DoDeliver(i) => if i < |inbox| { InputUser(cfg, k, inbox[i]); }
  }

  /** One call on one endpoint, and what its user notes. */
  method Perform(k: Kcp, inbox: seq<Packet>, op: Op, log: UserLog) returns (out: seq<Packet>, log': UserLog)
    requires k.Ready()
    modifies k, k.acklist, k.acklist.flat, k.outbox, k.outbox.buffer
    ensures k.Ready() && (k.acklist.flat == old(k.acklist.flat) || fresh(k.acklist.flat))
    ensures (k.CtlOf(), out) == ByteAct(k.cfg, old(k.CtlOf()), inbox, op)
    ensures log' == Noted(log, k.cfg, old(k.CtlOf()), op)
  {
    out, log' := [], log;
    match op
    case DoSend(data) =>
      var room := Extension(k.cfg, k.snd, |data|);
      var ret := k.Send(data, |data|);
      assert data[..|data|] == data;
      if ret == 0 {
        log' := log.(sent := log.sent + [data], went := log.went + data);
      } else {
        log' := log.(refused := true, went := log.went + data[..room]);
      }
    case DoRecv(len) =>
      var ret, bytes := k.Recv(len);
      if len >= 0 && ret >= 0 { log' := log.(read := log.read + [bytes]); }
    case DoUpdate(time) => out := k.Update(time);
    case DoFlush => out := k.Flush();
    case DoDeliver(i) => if i < |inbox| { var _ := k.Input(inbox[i]); }
  }

  lemma StartLogged(c: Pair)
    ensures Logged(c.x, Create(), UserLog([], false, [], [])) && Logged(c.y, Create(), UserLog([], false, [], []))
    ensures ByteRun(c, []) == ByteSys(Create(), Create(), [], [])
  {
  }

  lemma ByteSnoc(c: Pair, acts: seq<Action>, n: nat)
    requires n < |acts|
    ensures ByteRun(c, acts[..n + 1]) == ByteStep(c, ByteRun(c, acts[..n]), acts[n])
  {
    assert acts[..n + 1][..n] == acts[..n];
  }

  /** A whole run of two control blocks; xy and yx are all packets output, p and q what the users noted. */
  method Drive(c: Pair, acts: seq<Action>)
    returns (x: Kcp, y: Kcp, xy: seq<Packet>, yx: seq<Packet>, p: UserLog, q: UserLog)
    ensures x.Ready() && y.Ready()
    ensures ByteSys(x.CtlOf(), y.CtlOf(), xy, yx) == ByteRun(c, acts)
    ensures Logged(c.x, x.CtlOf(), p) && Logged(c.y, y.CtlOf(), q)
  {
    hide ByteAct, ByteRun, Kcp.Valid, Noted, Logged, AckList.Valid;
    StartLogged(c);
    x := new Kcp(c.x);
    y := new Kcp(c.y);
    xy, yx := [], [];
    p, q := UserLog([], false, [], []), UserLog([], false, [], []);
    for n := 0 to |acts|
      invariant x.Ready() && y.Ready() && x.cfg == c.x && y.cfg == c.y && Apart(x, y)
      invariant fresh(x) && fresh(x.acklist) && fresh(x.acklist.flat) && fresh(x.outbox) && fresh(x.outbox.buffer)
      invariant fresh(y) && fresh(y.acklist) && fresh(y.acklist.flat) && fresh(y.outbox) && fresh(y.outbox.buffer)
      invariant ByteSys(x.CtlOf(), y.CtlOf(), xy, yx) == ByteRun(c, acts[..n])
      invariant Logged(c.x, x.CtlOf(), p) && Logged(c.y, y.CtlOf(), q)
    {
      var a := acts[n];
      var out;
      ByteSnoc(c, acts, n);
      if a.side.A? {
        ActLogged(c.x, x.CtlOf(), yx, a.op, p);
        out, p := Perform(x, yx, a.op, p);
        xy := xy + out;
      } else {
        ActLogged(c.y, y.CtlOf(), xy, a.op, q);
        out, q := Perform(y, xy, a.op, q);
        yx := yx + out;
      }
    }
    assert acts[..|acts|] == acts;
  }

  /** The promise of the engine to two users: what one read is a prefix of what the other sent with success, message by
      message; in stream mode the bytes read are a prefix of the bytes that went in, refused sends included, and without
      refused sends those are the bytes sent with success. */
  predicate Promised(c: Pair, p: UserLog, q: UserLog) {
    if !c.x.stream then q.read <= p.sent
    else Messages.Concat(q.read) <= p.went && (!p.refused ==> p.went == Messages.Concat(p.sent))
  }

  /** On a faithful run the objects keep the promise in both directions. */
  method Deliver(c: Pair, acts: seq<Action>) returns (p: UserLog, q: UserLog)
    requires Faithful(c, acts)
    ensures Promised(c, p, q) && Promised(c.Flip(), q, p)
  {
    hide Faithful, ByteRun, Kcp.Valid;
    var x, y, xy, yx;
    x, y, xy, yx, p, q := Drive(c, acts);
    ReliableDelivery(c, acts);
  }
}
