/** Nothing accepted disappears: what is numbered is under way or was acknowledged, each number once. */
module Conservation {
  import opened Words
  import opened Protocol
  import opened Safety
  import opened System
  import Messages
  import Seqs

  // ----- the numbers that acknowledgements release ---------------------------------------

  function Nums(buf: seq<OutSeg>): (r: seq<int>)
    ensures |r| == |buf| && forall i :: 0 <= i < |r| ==> r[i] == buf[i].sn
  {
    Seqs.Map((s: OutSeg) => s.sn, buf)
  }

  /** What ikcp_parse_una takes off the front of snd_buf. */
  function UnaReleases(buf: seq<OutSeg>, una: int): (r: seq<int>) {
    if buf != [] && una > buf[0].sn then [buf[0].sn] + UnaReleases(buf[1..], una) else []
  }

  /** What ikcp_parse_ack takes out of snd_buf. */
  function AckReleases(buf: seq<OutSeg>, sn: int): (r: seq<int>) {
    if buf == [] || sn < buf[0].sn then [] else if sn == buf[0].sn then [sn] else AckReleases(buf[1..], sn)
  }

  /** What one incoming segment releases. */
  function SegReleases(s: Snd, w: Wire): (r: seq<int>) {
    var s1 := Shrink(s.(buf := DropBelow(Exact, s.buf, w.una)));
    UnaReleases(s.buf, w.una)
    + (if w.cmd == ACK && InFlight(Exact, s1, w.sn) then AckReleases(s1.buf, w.sn) else [])
  }

  function InputReleases(cfg: Config, s: Scan, d: Datagram): (r: seq<int>)
    decreases |d|
  {
    if d == [] then [] else SegReleases(s.k.snd, d[0]) + InputReleases(cfg, InputSeg(Exact, cfg, s, d[0]), d[1..])
  }

  function OpReleases(cfg: Config, k: Ctl, inbox: seq<Datagram>, op: Op): (r: seq<int>) {
    if op.DoDeliver? && op.i < |inbox| then InputReleases(cfg, Scan(k, false, 0), inbox[op.i]) else []
  }

  /** The numbers of x that acknowledgements have released during a run, in order. */
  function Released(c: Pair, acts: seq<Action>): (r: seq<int>) {
    if acts == [] then []
    else
      var s, a := Run(Exact, c, acts[..|acts| - 1]), acts[|acts| - 1];
      Released(c, acts[..|acts| - 1]) + (if a.side.A? then OpReleases(c.x, s.x, s.yx, a.op) else [])
  }

  // ----- each release takes its number out of snd_buf ------------------------------------

  lemma NumsTail(buf: seq<OutSeg>)
    requires buf != []
    ensures Nums(buf) == [buf[0].sn] + Nums(buf[1..])
  {
  }

  lemma NumsCons(x: OutSeg, buf: seq<OutSeg>)
    ensures Nums([x] + buf) == [x.sn] + Nums(buf)
  {
  }

  lemma {:induction false} DropSplits(buf: seq<OutSeg>, una: int)
    ensures Nums(buf) == UnaReleases(buf, una) + Nums(DropBelow(Exact, buf, una))
    ensures forall n :: n in UnaReleases(buf, una) ==> n < una
  {
    if buf != [] && una > buf[0].sn {
      NumsTail(buf);
      DropSplits(buf[1..], una);
      Seqs.Assoc([buf[0].sn], UnaReleases(buf[1..], una), Nums(DropBelow(Exact, buf[1..], una)));
    }
  }

  lemma {:induction false} RemoveSplits(buf: seq<OutSeg>, sn: int)
    ensures multiset(Nums(buf)) == multiset(AckReleases(buf, sn)) + multiset(Nums(RemoveSn(Exact, buf, sn)))
    ensures forall n :: n in AckReleases(buf, sn) ==> n == sn
  {
    if buf != [] {
      NumsTail(buf);
      Seqs.MultisetAppend([buf[0].sn], Nums(buf[1..]));
      if sn > buf[0].sn {
        var r := RemoveSn(Exact, buf[1..], sn);
        RemoveSplits(buf[1..], sn);
        NumsCons(buf[0], r);
        hide Nums;
        Seqs.MultisetUnder(buf[0].sn, Nums(buf[1..]), AckReleases(buf[1..], sn), Nums(r));
      }
    }
  }

  lemma SegSplits(s: Snd, w: Wire, peer: Rcv)
    requires BackOk(w, peer)
    ensures multiset(Nums(s.buf)) == multiset(SegReleases(s, w)) + multiset(Nums(SndInput(Exact, s, w).buf))
    ensures forall n :: n in SegReleases(s, w) ==> Held(peer, n)
  {
    var s1 := Shrink(s.(buf := DropBelow(Exact, s.buf, w.una)));
    DropSplits(s.buf, w.una);
    RemoveSplits(s1.buf, w.sn);
    Seqs.MultisetAppend(UnaReleases(s.buf, w.una), Nums(s1.buf));
    Seqs.MultisetAppend(UnaReleases(s.buf, w.una), AckReleases(s1.buf, w.sn));
  }

  lemma {:induction false} InputSplits(cfg: Config, s: Scan, d: Datagram, peer: Rcv)
    requires forall w :: w in d ==> BackOk(w, peer)
    ensures multiset(Nums(s.k.snd.buf)) ==
            multiset(InputReleases(cfg, s, d)) + multiset(Nums(InputSegs(Exact, cfg, s, d).k.snd.buf))
    ensures forall n :: n in InputReleases(cfg, s, d) ==> Held(peer, n)
    decreases |d|
  {
    if d != [] {
      var s' := InputSeg(Exact, cfg, s, d[0]);
      assert d[0] in d;
      SegSplits(s.k.snd, d[0], peer);
      InputSplits(cfg, s', d[1..], peer);
      Seqs.MultisetAppend(SegReleases(s.k.snd, d[0]), InputReleases(cfg, s', d[1..]));
    }
  }

  lemma SameNums(a: seq<OutSeg>, b: seq<OutSeg>)
    requires SameNumbers(a, b)
    ensures Nums(a) == Nums(b)
  {
  }

  lemma DeliverSplits(cfg: Config, k: Ctl, d: Datagram, peer: Rcv)
    requires forall w :: w in d ==> BackOk(w, peer)
    ensures var k', r := Input(Exact, cfg, k, d), InputReleases(cfg, Scan(k, false, 0), d);
            && multiset(Nums(k.snd.buf)) == multiset(r) + multiset(Nums(k'.snd.buf))
            && (forall n :: n in r ==> Held(peer, n))
  {
    var s := InputSegs(Exact, cfg, Scan(k, false, 0), d);
    InputSplits(cfg, Scan(k, false, 0), d, peer);
    SkippedSame(Exact, s.k.snd.buf, s.maxack);
    SameNums(s.k.snd.buf, Skipped(Exact, s.k.snd.buf, s.maxack));
  }

  // ----- numbering -----------------------------------------------------------------------

  /** The numbers below n. */
  function Upto(n: nat): (r: seq<int>)
    ensures |r| == n && forall i :: 0 <= i < n ==> r[i] == i
  {
    seq(n, i => i)
  }

  /** Every number given out is in exactly one place, once: released, or in snd_buf. */
  ghost predicate Accounted(s: Snd, released: seq<int>) {
    multiset(released + Nums(s.buf)) == multiset(Upto(|s.numbered|))
  }

  lemma {:induction false} NumberAccounted(e: Env, wnd: int, s: Snd, released: seq<int>)
    requires SndOk(s) && Accounted(s, released)
    ensures Accounted(Number(Exact, e, wnd, s), released)
    decreases |s.queue|
  {
    if s.nxt < s.una + wnd && s.queue != [] {
      var t := NumberOne(e, s);
      assert released + Nums(t.buf) == released + Nums(s.buf) + [s.nxt];
      assert Upto(|t.numbered|) == Upto(|s.numbered|) + [s.nxt];
      Seqs.MultisetAppend(released + Nums(s.buf), [s.nxt]);
      Seqs.MultisetAppend(Upto(|s.numbered|), [s.nxt]);
      NumberOneOk(e, s);
      NumberAccounted(e, wnd, t, released);
    }
  }

  lemma FlushAccounted(cfg: Config, k: Ctl, released: seq<int>)
    requires SndOk(k.snd) && Accounted(k.snd, released)
    ensures Accounted(FlushState(Exact, cfg, k).snd, released)
  {
    var e, s := EnvOf(cfg, k), Refill(Exact, cfg, k);
    NumberAccounted(e, EffectiveWnd(cfg, k.cc), k.snd, released);
    TransmitBuf(cfg, e, s.buf);
    SameNums(s.buf, Transmit(cfg, e, s.buf).buf);
  }

  // ----- runs ----------------------------------------------------------------------------

  ghost predicate AllHeld(released: seq<int>, r: Rcv) {
    forall n :: n in released ==> Held(r, n)
  }

  lemma ActAccounted(c: Pair, s: Sys, op: Op, released: seq<int>)
    requires Inv(c, s) && Accounted(s.x.snd, released) && AllHeld(released, s.y.rcv)
    ensures var k, r := Act(Exact, c.x, s.x, s.yx, op).0, OpReleases(c.x, s.x, s.yx, op);
            Accounted(k.snd, released + r) && AllHeld(released + r, s.y.rcv)
  {
    hide Accounted, Act, Send, Recv, Update, Flush, FlushState, Input, Tick, Inv, InputReleases;
    assert released + [] == released;
    InvSndX(c, s);
    Messages.ActIs(Exact, c.x, s.x, s.yx, op);
    match op
    case DoSend(data) => SendAccounted(c.x, s.x.snd, data, released);
    case DoRecv(len) => RecvKeepsSnd(c.x, s.x, len);
    case DoUpdate(time) => UpdateAccounted(c.x, s.x, time, released);
    case DoFlush => FlushedAccounted(c.x, s.x, released);
    case DoDeliver(i) => if i < |s.yx| { DeliverAccounted(c, s, s.yx[i], released); }
  }

  lemma RecvKeepsSnd(cfg: Config, k: Ctl, len: int)
    ensures Recv(Exact, cfg, k, len).snd == k.snd
  {
  }

  lemma FlushedAccounted(cfg: Config, k: Ctl, released: seq<int>)
    requires SndOk(k.snd) && Accounted(k.snd, released)
    ensures Accounted(Flush(Exact, cfg, k).0.snd, released)
  {
    hide Accounted, FlushState;
    FlushAccounted(cfg, k, released);
  }

  lemma UpdateAccounted(cfg: Config, k: Ctl, time: u32, released: seq<int>)
    requires SndOk(k.snd) && Accounted(k.snd, released)
    ensures Accounted(Update(Exact, cfg, k, time).0.snd, released)
  {
    hide Accounted, Flush, Tick;
    FlushedAccounted(cfg, k.(clock := Tick(cfg.interval, k.clock, time).0), released);
  }

  lemma InvSndX(c: Pair, s: Sys)
    requires Inv(c, s)
    ensures SndOk(s.x.snd)
  {
  }

  lemma SendAccounted(cfg: Config, s: Snd, data: seq<byte>, released: seq<int>)
    requires Accounted(s, released)
    ensures Accounted(Send(cfg, s, data).0, released)
  {
  }

  lemma DeliverAccounted(c: Pair, s: Sys, d: Datagram, released: seq<int>)
    requires Inv(c, s) && Accounted(s.x.snd, released) && AllHeld(released, s.y.rcv) && d in s.yx
    ensures var k, r := Input(Exact, c.x, s.x, d), InputReleases(c.x, Scan(s.x, false, 0), d);
            Accounted(k.snd, released + r) && AllHeld(released + r, s.y.rcv)
  {
    var k, r := Input(Exact, c.x, s.x, d), InputReleases(c.x, Scan(s.x, false, 0), d);
    DeliverSplits(c.x, s.x, d, s.y.rcv);
    InputOk(c.x, s.x, d, s.y.rcv, s.y.snd.numbered);
    Seqs.MultisetAppend(released, Nums(s.x.snd.buf));
    Seqs.MultisetAppend(released, r);
    Seqs.MultisetAppend(released + r, Nums(k.snd.buf));
  }

  lemma {:induction false} RunAccounted(c: Pair, acts: seq<Action>)
    ensures var s := Run(Exact, c, acts);
            Accounted(s.x.snd, Released(c, acts)) && AllHeld(Released(c, acts), s.y.rcv)
  {
    if acts != [] {
      var before, a := acts[..|acts| - 1], acts[|acts| - 1];
      var s := Run(Exact, c, before);
      RunAccounted(c, before);
      RunInv(c, before);
      if a.side.A? {
        ActAccounted(c, s, a.op, Released(c, before));
      } else {
        ActEffect(c.Flip(), s.Flip(), a.op);
        assert Released(c, before) + [] == Released(c, before);
      }
    }
  }

  /** Conservation over every run: each number given out is once in snd_buf or once among those that
      acknowledgements released, and the peer holds all released ones. The pieces numbered or queued are counted by
      snd_queue, snd_buf and the releases, and are the fragments of what was accepted, or in stream mode its bytes. */
  lemma Conserved(c: Pair, acts: seq<Action>)
    ensures var s, released := Run(Exact, c, acts), Released(c, acts);
            && multiset(released + Nums(s.x.snd.buf)) == multiset(Upto(|s.x.snd.numbered|))
            && (forall n :: n in released ==> Held(s.y.rcv, n))
            && |s.x.snd.numbered + s.x.snd.queue| == |s.x.snd.queue| + |s.x.snd.buf| + |released|
            && (if c.x.stream
                then Messages.Bytes(s.x.snd.numbered + s.x.snd.queue) == Messages.Concat(s.x.snd.accepted)
                else s.x.snd.numbered + s.x.snd.queue == Messages.Pieces(s.x.snd.accepted, c.x.Mss()))
  {
    RunAccounted(c, acts);
    Messages.RunMsg(c, acts);
    var s, released := Run(Exact, c, acts), Released(c, acts);
    Seqs.MultisetSize(released + Nums(s.x.snd.buf));
    Seqs.MultisetSize(Upto(|s.x.snd.numbered|));
  }
}
