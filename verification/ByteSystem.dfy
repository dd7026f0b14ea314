/**
 The two endpoints as the code runs them: 32-bit numbers, and datagrams that are byte strings
 written by ikcp_flush and parsed by ikcp_input.
 */
module ByteSystem {
  import opened Words
  import opened Protocol
  import opened System
  import opened WireFormat
  import opened Wraparound
  import Datagrams
  import Messages
  import Packing
  import Safety
  import Seqs

  type Packet = seq<byte>

  datatype ByteSys = ByteSys(x: Ctl, y: Ctl, xy: seq<Packet>, yx: seq<Packet>)
  {
    function Flip(): (s: ByteSys) {
      ByteSys(y, x, yx, xy)
    }
  }

  function Packets(conv: int, ds: seq<Datagram>): (r: seq<Packet>)
    ensures |r| == |ds| && forall i :: 0 <= i < |ds| ==> r[i] == Encode(conv, ds[i])
  {
    Seqs.Map(d => Encode(conv, d), ds)
  }

  function ByteAct(cfg: Config, k: Ctl, inbox: seq<Packet>, op: Op): (r: (Ctl, seq<Packet>)) {
    match op
    case DoSend(data) => (k.(snd := Send(cfg, k.snd, data).0), [])
    case DoRecv(len) => (Recv(Mod32, cfg, k, len), [])
    case DoUpdate(time) => var (k', out) := Update(Mod32, cfg, k, time); (k', Packets(cfg.conv, out))
    case DoFlush => var (k', out) := Flush(Mod32, cfg, k); (k', Packets(cfg.conv, out))
    case DoDeliver(i) => (if i < |inbox| then InputBytes(cfg, k, inbox[i]).0 else k, [])
  }

  function ByteStepX(c: Pair, s: ByteSys, op: Op): (s': ByteSys) {
    var (k, out) := ByteAct(c.x, s.x, s.yx, op);
    s.(x := k, xy := s.xy + out)
  }

  function ByteStep(c: Pair, s: ByteSys, a: Action): (s': ByteSys) {
    if a.side.A? then ByteStepX(c, s, a.op) else ByteStepX(c.Flip(), s.Flip(), a.op).Flip()
  }

  function ByteRun(c: Pair, acts: seq<Action>): (s: ByteSys) {
    if acts == [] then ByteSys(Create(), Create(), [], [])
    else ByteStep(c, ByteRun(c, acts[..|acts| - 1]), acts[|acts| - 1])
  }

  // ----- the byte system is the 32-bit system --------------------------------------------

  function SysB(c: Pair, s: Sys): (r: ByteSys) {
    ByteSys(s.x, s.y, Packets(c.x.conv, s.xy), Packets(c.y.conv, s.yx))
  }

  ghost predicate LogOk(log: seq<Datagram>) {
    (forall d :: d in log ==> d != []) && (forall d, w :: d in log && w in d ==> WireOk(w))
  }

  /** Reduced modulo 2^32, every datagram of a run fits its header fields. */
  lemma ShapedLogOk(log: seq<Datagram>, mtu: int)
    requires Datagrams.LogShaped(log, mtu) && mtu < 0x8000_0000
    ensures LogOk(LogW(log))
  {
    forall d, w | d in LogW(log) && w in d
      ensures WireOk(w)
    {
      var i :| 0 <= i < |log| && LogW(log)[i] == d;
      var j :| 0 <= j < |d| && d[j] == w;
      assert log[i] in log && log[i][j] in log[i];
      assert Datagrams.Shaped(log[i][j], mtu);
    }
    forall d | d in LogW(log) ensures d != [] {
      var i :| 0 <= i < |log| && LogW(log)[i] == d;
      assert log[i] in log;
      assert Packing.Filled(mtu, log[i]);
    }
  }

  lemma PacketsNone(conv: int)
    ensures Packets(conv, []) == []
  {
  }

  lemma PacketsAppend(conv: int, a: seq<Datagram>, b: seq<Datagram>)
    ensures Packets(conv, a) + Packets(conv, b) == Packets(conv, a + b)
  {
  }

  lemma ActB(c: Pair, s: Sys, op: Op)
    requires c.x.conv == c.y.conv && LogOk(s.yx)
    ensures var (k, out) := Act(Mod32, c.x, s.x, s.yx, op);
            ByteAct(c.x, s.x, Packets(c.y.conv, s.yx), op) == (k, Packets(c.x.conv, out))
  {
    hide Send, Recv, Update, Flush, Input, InputBytes, Encode;
    PacketsNone(c.x.conv);
    if op.DoDeliver? && op.i < |s.yx| { DeliverB(c, s, op.i); }
  }

  lemma DeliverB(c: Pair, s: Sys, i: nat)
    requires c.x.conv == c.y.conv && LogOk(s.yx) && i < |s.yx|
    ensures InputBytes(c.x, s.x, Packets(c.y.conv, s.yx)[i]) == (Input(Mod32, c.x, s.x, s.yx[i]), 0)
  {
    hide Input, InputBytes, Encode;
    assert s.yx[i] in s.yx;
    InputEncoded(c.x, s.x, s.yx[i]);
  }

  lemma StepXB(c: Pair, s: Sys, op: Op)
    requires c.x.conv == c.y.conv && LogOk(s.yx)
    ensures ByteStepX(c, SysB(c, s), op) == SysB(c, StepX(Mod32, c, s, op))
  {
    ActB(c, s, op);
    PacketsAppend(c.x.conv, s.xy, Act(Mod32, c.x, s.x, s.yx, op).1);
  }

  /** Same conversation, windows within half of the number space, and no stale delivery. */
  ghost predicate Faithful(c: Pair, acts: seq<Action>) {
    c.x.conv == c.y.conv && WindowsFit(c) && TimelyRun(c, acts)
  }

  /** The code's system, on bytes and 32-bit numbers, is the unbounded protocol reduced modulo 2^32
      and encoded, on every timely run. */
  lemma {:induction false} ByteRunW(c: Pair, acts: seq<Action>)
    requires Faithful(c, acts)
    ensures ByteRun(c, acts) == SysB(c, SysW(Run(Exact, c, acts)))
  {
    RunW(c, acts);
    if acts == [] {
      assert CtlW(Create()) == Create();
    } else {
      var before, a := acts[..|acts| - 1], acts[|acts| - 1];
      ByteRunW(c, before);
      RunW(c, before);
      Datagrams.RunShape(c, before);
      var s := Run(Exact, c, before);
      ShapedLogOk(s.xy, c.x.mtu);
      ShapedLogOk(s.yx, c.y.mtu);
      if a.side.A? {
        StepXB(c, SysW(s), a.op);
      } else {
        StepXB(c.Flip(), SysW(s).Flip(), a.op);
        assert SysB(c, SysW(s)).Flip() == SysB(c.Flip(), SysW(s).Flip());
      }
    }
  }

  // ----- end to end ----------------------------------------------------------------------

  /** What y has read is a prefix of what x was given, what y has moved is a prefix of what x has numbered, and
      no packet of x is empty or larger than its mtu. */
  ghost predicate Reliable(c: Pair, s: ByteSys) {
    && (if c.x.stream
        then Messages.Concat(s.y.rcv.taken) <= Messages.Concat(s.x.snd.accepted)
        else s.y.rcv.taken <= s.x.snd.accepted)
    && s.y.rcv.moved <= s.x.snd.numbered
    && forall p :: p in s.xy ==> 0 < |p| <= c.x.mtu
  }

  lemma ReliableState(c: Pair, e: Sys)
    requires Inv(c, e) && Messages.Delivered(c, e) && Datagrams.LogShaped(e.xy, c.x.mtu)
    ensures Reliable(c, SysB(c, SysW(e)))
  {
    var s := SysB(c, SysW(e));
    forall p | p in s.xy
      ensures 0 < |p| <= c.x.mtu
    {
      var i :| 0 <= i < |s.xy| && s.xy[i] == p;
      assert e.xy[i] in e.xy && Packing.Filled(c.x.mtu, e.xy[i]);
      SizeW(e.xy[i]);
      NonEmptySize(e.xy[i]);
    }
  }

  /** Reliable delivery by the code, in both directions: on every timely run, over a network that loses,
      duplicates and reorders. */
  lemma ReliableDelivery(c: Pair, acts: seq<Action>)
    requires Faithful(c, acts)
    ensures Reliable(c, ByteRun(c, acts)) && Reliable(c.Flip(), ByteRun(c, acts).Flip())
  {
    var e := Run(Exact, c, acts);
    ByteRunW(c, acts);
    Messages.MessageRoundTrip(c, acts);
    RunInv(c, acts);
    Datagrams.RunShape(c, acts);
    ReliableState(c, e);
    ReliableState(c.Flip(), e.Flip());
    assert SysB(c, SysW(e)).Flip() == SysB(c.Flip(), SysW(e.Flip()));
  }

  lemma NonEmptySize(d: Datagram)
    requires d != []
    ensures Size(d) > 0
  {
  }

  /** What ikcp_input parses from each packet. */
  function Parsed(conv: int, ps: seq<Packet>): (r: seq<Decoded>)
    ensures |r| == |ps| && forall i :: 0 <= i < |ps| ==> r[i] == Decode(conv, ps[i])
  {
    Seqs.Map(p => Decode(conv, p), ps)
  }

  function Complete(ds: seq<Datagram>): (r: seq<Decoded>)
    ensures |r| == |ds| && forall i :: 0 <= i < |ds| ==> r[i] == Decoded(ds[i], 0)
  {
    Seqs.Map(d => Decoded(d, 0), ds)
  }

  lemma ParsePackets(conv: u32, ds: seq<Datagram>)
    requires LogOk(ds)
    ensures Parsed(conv, Packets(conv, ds)) == Complete(ds)
  {
    forall i | 0 <= i < |ds|
      ensures Decode(conv, Packets(conv, ds)[i]) == Decoded(ds[i], 0)
    {
      assert ds[i] in ds;
      DecodeEncode(conv, ds[i]);
    }
  }

  lemma FlushLogOk(c: Pair, acts: seq<Action>)
    requires Faithful(c, acts)
    ensures LogOk(Flush(Mod32, c.x, ByteRun(c, acts).x).1)
  {
    ByteRunW(c, acts);
    RunInv(c, acts);
    Datagrams.RunShape(c, acts);
    var e := Run(Exact, c, acts).x;
    Datagrams.FlushShape(c.x, e);
    FlushBothW(c.x, e);
    ShapedLogOk(Flush(Exact, c.x, e).1, c.x.mtu);
  }

  lemma FlushParse(cfg: Config, k: Ctl)
    requires k.clock.updated && LogOk(Flush(Mod32, cfg, k).1)
    ensures exists ds :: Parsed(cfg.conv, Packets(cfg.conv, Flush(Mod32, cfg, k).1)) == Complete(ds)
                      && Packing.Flat(ds) == Sent(Mod32, cfg, k)
  {
    var ds := Flush(Mod32, cfg, k).1;
    ParsePackets(cfg.conv, ds);
    Packing.PackFlat(cfg.mtu, Sent(Mod32, cfg, k));
  }

  /** Wire round trip of one flush: its packets parse without error, and their segments are the
      acknowledgements in push order, the probes, then the due data, and nothing else. */
  lemma FlushParses(c: Pair, acts: seq<Action>)
    requires Faithful(c, acts) && ByteRun(c, acts).x.clock.updated
    ensures var k := ByteRun(c, acts).x;
            exists ds :: Parsed(c.x.conv, ByteAct(c.x, k, [], DoFlush).1) == Complete(ds)
                      && Packing.Flat(ds) == Sent(Mod32, c.x, k)
  {
    FlushLogOk(c, acts);
    FlushParse(c.x, ByteRun(c, acts).x);
  }
}
