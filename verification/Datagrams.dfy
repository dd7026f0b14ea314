/** Every datagram of a run is well-formed and no larger than its sender's mtu. */
module Datagrams {
  import opened Words
  import opened Protocol
  import opened Safety
  import opened System
  import opened WireFormat
  import opened Packing
  import Seqs

  ghost predicate Word(x: int) {
    0 <= x < 0x1_0000_0000
  }

  ghost predicate Sized(ps: seq<Piece>, mss: int) {
    forall i :: 0 <= i < |ps| ==> |ps[i].data| <= mss
  }

  /** A segment whose fields fit the header, sequence numbers apart. */
  ghost predicate Shaped(w: Wire, mtu: int) {
    KnownCmd(w.cmd) && 0 <= w.frg < 256 && 0 <= w.wnd < 65536 && Word(w.ts) && Fits(mtu, w)
  }

  ghost predicate LogShaped(log: seq<Datagram>, mtu: int) {
    && (forall d :: d in log ==> Filled(mtu, d))
    && (forall d, w :: d in log && w in d ==> Shaped(w, mtu))
  }

  ghost predicate EndShaped(cfg: Config, k: Ctl) {
    && Sized(k.snd.numbered, cfg.Mss()) && Sized(k.snd.queue, cfg.Mss())
    && Word(k.clock.current) && (forall a :: a in k.acks ==> Word(a.ts))
    && 0 <= k.cc.cwnd && 0 <= k.cc.rmtWnd < 65536
  }

  ghost predicate ShapeInv(c: Pair, s: Sys) {
    && EndShaped(c.x, s.x) && LogShaped(s.xy, c.x.mtu)
    && EndShaped(c.y, s.y) && LogShaped(s.yx, c.y.mtu)
  }

  // ----- calls ---------------------------------------------------------------------------

  lemma {:induction false} FragmentSized(data: seq<byte>, mss: int, stream: bool)
    requires mss > 0
    ensures Sized(Fragment(data, mss, stream), mss)
    decreases |data|
  {
    if |data| > mss {
      FragmentSized(data[mss..], mss, stream);
    }
  }

  lemma SendShape(cfg: Config, k: Ctl, data: seq<byte>)
    requires EndShaped(cfg, k)
    ensures EndShaped(cfg, k.(snd := Send(cfg, k.snd, data).0))
  {
    var ext := Extension(cfg, k.snd, |data|);
    assert Sized(ExtendLast(cfg, k.snd, data[..ext]).queue, cfg.Mss());
    FragmentSized(data[ext..], cfg.Mss(), cfg.stream);
  }

  lemma {:induction false} InputSegsShape(m: Arith, cfg: Config, s: Scan, d: Datagram, mtu: int)
    requires EndShaped(cfg, s.k) && forall w :: w in d ==> Shaped(w, mtu)
    ensures EndShaped(cfg, InputSegs(m, cfg, s, d).k)
    decreases |d|
  {
    if d != [] {
      assert Shaped(d[0], mtu);
      var s1 := InputSeg(m, cfg, s, d[0]);
      assert s1.k.snd.numbered == s.k.snd.numbered && s1.k.snd.queue == s.k.snd.queue;
      InputSegsShape(m, cfg, s1, d[1..], mtu);
    }
  }

  lemma GrowShape(cfg: Config, cc: Cc)
    requires 0 <= cc.cwnd && 0 <= cc.rmtWnd < 65536
    ensures 0 <= Grow(cfg, cc).cwnd && Grow(cfg, cc).rmtWnd == cc.rmtWnd
  {
  }

  lemma InputShape(m: Arith, cfg: Config, k: Ctl, d: Datagram, mtu: int)
    requires EndShaped(cfg, k) && forall w :: w in d ==> Shaped(w, mtu)
    ensures EndShaped(cfg, Input(m, cfg, k, d))
  {
    InputSegsShape(m, cfg, Scan(k, false, 0), d, mtu);
    GrowShape(cfg, InputSegs(m, cfg, Scan(k, false, 0), d).k.cc);
  }

  lemma {:induction false} NumberShape(m: Arith, e: Env, wnd: int, s: Snd, mss: int)
    requires Sized(s.numbered, mss) && Sized(s.queue, mss)
    ensures Sized(Number(m, e, wnd, s).numbered, mss) && Sized(Number(m, e, wnd, s).queue, mss)
    decreases |s.queue|
  {
    if Diff(m, s.nxt, Norm(m, s.una + wnd)) < 0 && s.queue != [] {
      NumberShape(m, e, wnd, s.(queue := s.queue[1..], buf := s.buf + [Fresh(e, s.nxt, s.queue[0])],
                                nxt := Norm(m, s.nxt + 1), numbered := s.numbered + [s.queue[0]]), mss);
    }
  }

  lemma {:induction false} TransmitShape(cfg: Config, e: Env, buf: seq<OutSeg>)
    requires Word(e.current) && 0 <= e.wnd && forall s :: s in buf ==> |s.piece.data| <= cfg.Mss()
    ensures forall w :: w in Transmit(cfg, e, buf).wires ==> Shaped(w, cfg.mtu)
  {
    if buf != [] {
      TransmitShape(cfg, e, buf[..|buf| - 1]);
      assert buf[|buf| - 1] in buf;
    }
  }

  lemma AckShape(e: Env, acks: seq<Ack>, mtu: int)
    requires forall a :: a in acks ==> Word(a.ts)
    requires mtu >= OVERHEAD && 0 <= e.wnd
    ensures forall w :: w in AckWires(e, acks) ==> Shaped(w, mtu)
  {
    forall w | w in AckWires(e, acks) ensures Shaped(w, mtu) {
      var i :| 0 <= i < |acks| && AckWires(e, acks)[i] == w;
      assert acks[i] in acks;
    }
  }

  lemma SentShape(cfg: Config, k: Ctl)
    requires EndShaped(cfg, k) && SndOk(k.snd)
    ensures forall w :: w in Sent(Exact, cfg, k) ==> Shaped(w, cfg.mtu)
  {
    var e, wnd := EnvOf(cfg, k), EffectiveWnd(cfg, k.cc);
    NumberShape(Exact, e, wnd, k.snd, cfg.Mss());
    NumberOk(e, wnd, k.snd);
    var s := Refill(Exact, cfg, k);
    forall o | o in s.buf ensures |o.piece.data| <= cfg.Mss() {
      var i :| 0 <= i < |s.buf| && s.buf[i] == o;
      assert Numbered(s.buf[i], s.una, s.numbered);
    }
    TransmitShape(cfg, e, s.buf);
    AckShape(e, k.acks, cfg.mtu);
    if k.acks != [] { assert LastAck(k.acks) in k.acks; }
  }

  ghost predicate ShapeEffect(cfg: Config, k: Ctl, out: seq<Datagram>) {
    EndShaped(cfg, k) && LogShaped(out, cfg.mtu)
  }

  lemma FlushShape(cfg: Config, k: Ctl)
    requires EndShaped(cfg, k) && SndOk(k.snd)
    ensures ShapeEffect(cfg, Flush(Exact, cfg, k).0, Flush(Exact, cfg, k).1)
  {
    if k.clock.updated {
      NumberShape(Exact, EnvOf(cfg, k), EffectiveWnd(cfg, k.cc), k.snd, cfg.Mss());
      SentShape(cfg, k);
      PackMembers(cfg.mtu, Sent(Exact, cfg, k));
      PackFits(cfg.mtu, Sent(Exact, cfg, k));
    }
  }

  lemma ActShape(c: Pair, s: Sys, op: Op)
    requires Inv(c, s) && ShapeInv(c, s)
    ensures ShapeEffect(c.x, Act(Exact, c.x, s.x, s.yx, op).0, Act(Exact, c.x, s.x, s.yx, op).1)
  {
    match op
    case DoSend(data) => SendShape(c.x, s.x, data);
    case DoRecv(len) => assert EndShaped(c.x, Recv(Exact, c.x, s.x, len));
    case DoUpdate(time) => FlushShape(c.x, s.x.(clock := Tick(c.x.interval, s.x.clock, time).0));
    case DoFlush => FlushShape(c.x, s.x);
    case DoDeliver(i) => if i < |s.yx| { InputShape(Exact, c.x, s.x, s.yx[i], c.y.mtu); }
  }

  /** In every run all datagrams are non-empty, fit the sender's mtu and have well-formed segments. */
  lemma {:induction false} RunShape(c: Pair, acts: seq<Action>)
    ensures ShapeInv(c, Run(Exact, c, acts))
  {
    if acts != [] {
      var s, a := Run(Exact, c, acts[..|acts| - 1]), acts[|acts| - 1];
      RunShape(c, acts[..|acts| - 1]);
      RunInv(c, acts[..|acts| - 1]);
      if a.side.A? { ActShape(c, s, a.op); } else { ActShape(c.Flip(), s.Flip(), a.op); }
    }
  }
}
