/** When a segment is sent again, what that changes, and what the window makes of it. */
module Retransmission {
  import opened Words
  import opened Protocol
  import opened Safety
  import opened System
  import PendingAcks
  import Seqs

  // ----- which entries of snd_buf go out -------------------------------------------------

  /** Sent before, and its time has come, as a signed word. */
  predicate TimedOut(current: int, s: OutSeg) {
    s.xmit != 0 && Signed(current - s.resendts) >= 0
  }

  /** Sent before, not timed out, and skipped often enough by acknowledgements of later segments, unless it was sent too often
      for that. Without fastresend it takes 2^32 - 1 skips. */
  predicate Overtaken(cfg: Config, current: int, s: OutSeg) {
    && s.xmit != 0 && Signed(current - s.resendts) < 0
    && (if cfg.fastResend > 0 then cfg.fastResend else 0xffff_ffff) <= s.fastack
    && (cfg.fastLimit <= 0 || Signed(s.xmit) <= cfg.fastLimit)
  }

  predicate Goes(cfg: Config, current: int, s: OutSeg) {
    s.xmit == 0 || TimedOut(current, s) || Overtaken(cfg, current, s)
  }

  /** The timeout of an entry that timed out: doubled, or grown by half of itself, or by half of the estimate. */
  function Grown(cfg: Config, rto: int, estimate: int): (r: int) {
    if cfg.nodelay == 0 then Wrap(rto + Max(rto, estimate))
    else if cfg.nodelay == 1 then Wrap(rto + HalfTrunc(Signed(rto)))
    else Wrap(rto + HalfTrunc(estimate))
  }

  /** What a flush makes of entry s: s' as it is afterwards. */
  ghost predicate Treated(cfg: Config, e: Env, s: OutSeg, s': OutSeg) {
    && (!Goes(cfg, e.current, s) ==> s' == s)
    && (Goes(cfg, e.current, s) ==>
          && s'.sn == s.sn && s'.piece == s.piece
          && s'.xmit == Wrap(s.xmit + 1) && s'.ts == e.current && s'.wnd == e.wnd && s'.una == e.una)
    && (s.xmit == 0 ==>
          && s'.rto == e.rto && s'.fastack == s.fastack
          && s'.resendts == Wrap(e.current + e.rto + (if cfg.nodelay == 0 then e.rto / 8 else 0)))
    && (TimedOut(e.current, s) ==>
          && s'.rto == Grown(cfg, s.rto, e.rto) && s'.resendts == Wrap(e.current + s'.rto) && s'.fastack == s.fastack)
    && (Overtaken(cfg, e.current, s) ==>
          s'.rto == s.rto && s'.resendts == Wrap(e.current + s.rto) && s'.fastack == 0)
  }

  /** What goes out: the entries that go, in order, as they are after this flush. */
  function Copies(cfg: Config, current: int, buf: seq<OutSeg>, after: seq<OutSeg>): (ws: seq<Wire>)
    requires |after| == |buf|
  {
    if buf == [] then []
    else
      var k := |buf| - 1;
      var a := after[k];
      Copies(cfg, current, buf[..k], after[..k])
      + (if Goes(cfg, current, buf[k])
         then [Wire(PUSH, a.piece.frg % 256, a.wnd % 65536, a.ts, a.sn, a.una, a.piece.data)] else [])
  }

  lemma TouchTreats(cfg: Config, e: Env, s: OutSeg)
    requires 0 <= cfg.nodelay
    ensures Treated(cfg, e, s, Touch(cfg, e, s))
    ensures FateOf(cfg, e.current, s).Keep? <==> !Goes(cfg, e.current, s)
    ensures FateOf(cfg, e.current, s).Timeout? <==> TimedOut(e.current, s)
    ensures FateOf(cfg, e.current, s).Fast? <==> Overtaken(cfg, e.current, s)
  {
  }

  /** The data loop of a flush: every entry is treated as stated, and exactly the copies of those that go are sent. */
  lemma {:induction false} TransmitExact(cfg: Config, e: Env, buf: seq<OutSeg>)
    ensures var t := Transmit(cfg, e, buf);
            && |t.buf| == |buf| && (forall i :: 0 <= i < |buf| ==> Treated(cfg, e, buf[i], t.buf[i]))
            && t.wires == Copies(cfg, e.current, buf, t.buf)
  {
    hide Treated, FateOf, Touch, Goes, PushWire;
    if buf != [] {
      var k := |buf| - 1;
      TransmitExact(cfg, e, buf[..k]);
      TouchTreats(cfg, e, buf[k]);
      TransmitSnoc(cfg, e, buf);
      var t0, a := Transmit(cfg, e, buf[..k]), Touch(cfg, e, buf[k]);
      CopiesSnoc(cfg, e.current, buf, t0.buf, a);
      CopyIs(cfg, e, buf[k]);
      hide Transmit, Copies;
    }
  }

  lemma TransmitSnoc(cfg: Config, e: Env, buf: seq<OutSeg>)
    requires buf != []
    ensures var t0, t, s := Transmit(cfg, e, buf[..|buf| - 1]), Transmit(cfg, e, buf), buf[|buf| - 1];
            && t.buf == t0.buf + [Touch(cfg, e, s)]
            && t.wires == if FateOf(cfg, e.current, s).Keep? then t0.wires else t0.wires + [PushWire(Touch(cfg, e, s))]
  {
    hide FateOf, Touch, PushWire;
  }

  lemma CopiesSnoc(cfg: Config, current: int, buf: seq<OutSeg>, after: seq<OutSeg>, a: OutSeg)
    requires buf != [] && |after| == |buf| - 1
    ensures Copies(cfg, current, buf, after + [a]) ==
            Copies(cfg, current, buf[..|buf| - 1], after)
            + (if Goes(cfg, current, buf[|buf| - 1])
               then [Wire(PUSH, a.piece.frg % 256, a.wnd % 65536, a.ts, a.sn, a.una, a.piece.data)] else [])
  {
    hide Goes;
    assert (after + [a])[..|after|] == after;
  }

  lemma CopyIs(cfg: Config, e: Env, s: OutSeg)
    ensures var a := Touch(cfg, e, s);
            PushWire(a) == Wire(PUSH, a.piece.frg % 256, a.wnd % 65536, a.ts, a.sn, a.una, a.piece.data)
  {
    hide Touch;
  }

  // ----- counters ------------------------------------------------------------------------

  function Timeouts(current: int, buf: seq<OutSeg>): (n: nat) {
    if buf == [] then 0 else Timeouts(current, buf[..|buf| - 1]) + (if TimedOut(current, buf[|buf| - 1]) then 1 else 0)
  }

  ghost predicate SomeOvertaken(cfg: Config, current: int, buf: seq<OutSeg>) {
    exists i :: 0 <= i < |buf| && Overtaken(cfg, current, buf[i])
  }

  /** Some entry goes out for the deadLink-th time or later. */
  ghost predicate SomeDead(cfg: Config, current: int, buf: seq<OutSeg>) {
    exists i :: 0 <= i < |buf| && Goes(cfg, current, buf[i]) && Wrap(buf[i].xmit + 1) >= cfg.deadLink
  }

  lemma {:induction false} TransmitCounts(cfg: Config, e: Env, buf: seq<OutSeg>)
    ensures var t := Transmit(cfg, e, buf);
            && t.timeouts == Timeouts(e.current, buf)
            && (t.fasts > 0 <==> SomeOvertaken(cfg, e.current, buf))
            && (t.dead <==> SomeDead(cfg, e.current, buf))
  {
    if buf != [] {
      var k := |buf| - 1;
      TransmitCounts(cfg, e, buf[..k]);
      TouchTreats(cfg, e, buf[k]);
      hide FateOf, Goes, Overtaken, TimedOut, Touch;
      SomeSnoc(cfg, e.current, buf);
    }
  }

  lemma SomeSnoc(cfg: Config, current: int, buf: seq<OutSeg>)
    requires buf != []
    ensures var k := |buf| - 1;
            && (SomeOvertaken(cfg, current, buf) <==>
                  SomeOvertaken(cfg, current, buf[..k]) || Overtaken(cfg, current, buf[k]))
            && (SomeDead(cfg, current, buf) <==>
                  SomeDead(cfg, current, buf[..k])
                  || (Goes(cfg, current, buf[k]) && Wrap(buf[k].xmit + 1) >= cfg.deadLink))
  {
    hide Goes, Overtaken, Wrap;
    var k := |buf| - 1;
    if SomeOvertaken(cfg, current, buf[..k]) {
      var i :| 0 <= i < k && Overtaken(cfg, current, buf[..k][i]);
      assert Overtaken(cfg, current, buf[i]);
    }
    if SomeOvertaken(cfg, current, buf) {
      var i :| 0 <= i <= k && Overtaken(cfg, current, buf[i]);
      assert i < k ==> buf[..k][i] == buf[i];
    }
    if SomeDead(cfg, current, buf[..k]) {
      var i :| 0 <= i < k && Goes(cfg, current, buf[..k][i]) && Wrap(buf[..k][i].xmit + 1) >= cfg.deadLink;
      assert Goes(cfg, current, buf[i]);
    }
    if SomeDead(cfg, current, buf) {
      var i :| 0 <= i <= k && Goes(cfg, current, buf[i]) && Wrap(buf[i].xmit + 1) >= cfg.deadLink;
      assert i < k ==> buf[..k][i] == buf[i];
    }
  }

  // ----- a whole flush -------------------------------------------------------------------

  /** The window that a flush may fill: the least of the send window, the announced window and, unless that is switched off,
      the congestion window. */
  function OpenTo(cfg: Config, cc: Cc): (w: int)
    ensures w <= cfg.sndWnd && w <= cc.rmtWnd && (!cfg.noCwnd ==> w <= cc.cwnd)
    ensures w == cfg.sndWnd || w == cc.rmtWnd || (!cfg.noCwnd && w == cc.cwnd)
  {
    var w := if cfg.sndWnd <= cc.rmtWnd then cfg.sndWnd else cc.rmtWnd;
    if cfg.noCwnd || w <= cc.cwnd then w else cc.cwnd
  }

  /** A flush numbers as much as the window and the queue allow: no more and no less. */
  lemma NumbersExact(cfg: Config, k: Ctl)
    requires SndOk(k.snd)
    ensures var t := FlushState(Exact, cfg, k).snd;
            && t.nxt == Max(k.snd.nxt, Min(k.snd.nxt + |k.snd.queue|, k.snd.una + OpenTo(cfg, k.cc)))
            && t.numbered + t.queue == k.snd.numbered + k.snd.queue
  {
    NumberOk(EnvOf(cfg, k), EffectiveWnd(cfg, k.cc), k.snd);
    hide Number, Transmit;
    var s := Refill(Exact, cfg, k);
    assert |s.numbered + s.queue| == |k.snd.numbered + k.snd.queue|;
  }

  /** What a flush makes of the congestion window, the count of timeouts and the dead-link mark; buf is snd_buf when the
      data loop starts, and inflight the span from snd_una to snd_nxt then. */
  ghost predicate Reacts(cfg: Config, k: Ctl, k': Ctl, buf: seq<OutSeg>, inflight: int) {
    var lost := Timeouts(k.clock.current, buf) > 0;
    var fast := SomeOvertaken(cfg, k.clock.current, buf);
    && k'.cc.rmtWnd == k.cc.rmtWnd
    && (lost ==> k'.cc.cwnd == 1 && k'.cc.incr == cfg.Mss() && k'.cc.ssthresh == Max(2, OpenTo(cfg, k.cc) / 2))
    && (!lost && fast ==>
          && k'.cc.ssthresh == Max(2, inflight / 2)
          && (k'.cc.cwnd == Wrap(k'.cc.ssthresh + (if cfg.fastResend > 0 then cfg.fastResend else 0xffff_ffff))
              || (k'.cc.cwnd == 1 && Wrap(k'.cc.ssthresh + (if cfg.fastResend > 0 then cfg.fastResend else 0xffff_ffff)) == 0))
          && k'.cc.incr == Wrap(k'.cc.cwnd * cfg.Mss()))
    && (!lost && !fast ==>
          && k'.cc.ssthresh == k.cc.ssthresh
          && (k.cc.cwnd >= 1 ==> k'.cc == k.cc) && (k.cc.cwnd < 1 ==> k'.cc.cwnd == 1 && k'.cc.incr == cfg.Mss()))
    && k'.xmit == Wrap(k.xmit + Timeouts(k.clock.current, buf))
    && (k'.dead <==> k.dead || SomeDead(cfg, k.clock.current, buf))
  }

  lemma FlushReacts(cfg: Config, k: Ctl)
    ensures var s := Refill(Exact, cfg, k);
            Reacts(cfg, k, FlushState(Exact, cfg, k), s.buf, s.nxt - s.una)
  {
    var s := Refill(Exact, cfg, k);
    TransmitCounts(cfg, EnvOf(cfg, k), s.buf);
    hide Refill, Transmit, Timeouts, SomeOvertaken, SomeDead;
    assert Wrap(1 * cfg.Mss()) == cfg.Mss();
  }

  /** The data segments among ws. */
  function DataOf(ws: seq<Wire>): (r: seq<Wire>) {
    if ws == [] then []
    else DataOf(ws[..|ws| - 1]) + (if ws[|ws| - 1].cmd == PUSH then [ws[|ws| - 1]] else [])
  }

  lemma {:induction false} DataOfAppend(a: seq<Wire>, b: seq<Wire>)
    ensures DataOf(a + b) == DataOf(a) + DataOf(b)
  {
    if b == [] {
      assert a + b == a;
    } else {
      assert (a + b)[..|a + b| - 1] == a + b[..|b| - 1];
      DataOfAppend(a, b[..|b| - 1]);
    }
  }

  lemma {:induction false} DataOfNone(ws: seq<Wire>)
    requires forall w :: w in ws ==> w.cmd != PUSH
    ensures DataOf(ws) == []
  {
    if ws != [] {
      assert ws[|ws| - 1] in ws;
      DataOfNone(ws[..|ws| - 1]);
    }
  }

  lemma {:induction false} DataOfAll(ws: seq<Wire>)
    requires forall w :: w in ws ==> w.cmd == PUSH
    ensures DataOf(ws) == ws
  {
    if ws != [] {
      assert ws[|ws| - 1] in ws;
      DataOfAll(ws[..|ws| - 1]);
      Seqs.SplitLast(ws);
    }
  }

  lemma {:induction false} CopiesPush(cfg: Config, current: int, buf: seq<OutSeg>, after: seq<OutSeg>)
    requires |after| == |buf|
    ensures forall w :: w in Copies(cfg, current, buf, after) ==> w.cmd == PUSH
  {
    if buf != [] { CopiesPush(cfg, current, buf[..|buf| - 1], after[..|buf| - 1]); }
  }

  /** The values that a flush works with. */
  function Stamp(cfg: Config, k: Ctl): (e: Env) {
    Env(k.clock.current, k.rtt.rto, Max(0, cfg.rcvWnd - |k.rcv.queue|), k.rcv.nxt)
  }

  lemma StampIs(cfg: Config, k: Ctl)
    ensures EnvOf(cfg, k) == Stamp(cfg, k)
  {
  }

  /** A flush and the data under way: every entry is treated as stated, and the data segments sent are exactly the copies of
      the entries that go, in order. */
  lemma FlushTreats(cfg: Config, k: Ctl)
    ensures var b, t := Refill(Exact, cfg, k).buf, FlushState(Exact, cfg, k).snd.buf;
            && |t| == |b| && (forall i :: 0 <= i < |b| ==> Treated(cfg, Stamp(cfg, k), b[i], t[i]))
            && DataOf(Sent(Exact, cfg, k)) == Copies(cfg, k.clock.current, b, t)
  {
    var e, b := EnvOf(cfg, k), Refill(Exact, cfg, k).buf;
    StampIs(cfg, k);
    TransmitExact(cfg, e, b);
    hide Refill, Transmit, Treated, Copies, EnvOf, DataOf;
    var ws := Transmit(cfg, e, b).wires;
    CopiesPush(cfg, e.current, b, Transmit(cfg, e, b).buf);
    var control := AckWires(e, k.acks) + ProbeWires(e, ProbeTimer(k.probe, k.cc.rmtWnd, e.current), LastAck(k.acks));
    forall w: Wire | w in control ensures w.cmd != PUSH {
      if w in AckWires(e, k.acks) { var i :| 0 <= i < |k.acks| && AckWires(e, k.acks)[i] == w; }
    }
    DataOfNone(control);
    DataOfAll(ws);
    DataOfAppend(control, ws);
    assert [] + ws == ws;
  }

  /** o is the entry for piece i of s's queue, not yet sent. */
  ghost predicate Newly(s: Snd, i: int, o: OutSeg) {
    0 <= i < |s.queue| && o.sn == s.nxt + i && o.piece == s.queue[i] && o.xmit == 0 && o.fastack == 0
  }

  /** snd_buf when the data loop starts: what was there, and behind it the pieces newly numbered, none of them sent. */
  lemma {:induction false} RefillExact(e: Env, wnd: int, s: Snd)
    ensures var t := Number(Exact, e, wnd, s);
            && |t.queue| <= |s.queue| && |t.buf| == |s.buf| + |s.queue| - |t.queue| && s.buf == t.buf[..|s.buf|]
            && forall j :: |s.buf| <= j < |t.buf| ==> Newly(s, j - |s.buf|, t.buf[j])
    decreases |s.queue|
  {
    if s.nxt < s.una + wnd && s.queue != [] {
      var s1 := NumberOne(e, s);
      RefillExact(e, wnd, s1);
      var t := Number(Exact, e, wnd, s1);
      assert t == Number(Exact, e, wnd, s);
      hide Number;
      assert t.buf[|s.buf|] == s1.buf[|s.buf|] by { assert t.buf[..|s1.buf|][|s.buf|] == s1.buf[|s.buf|]; }
      assert s1.buf[..|s.buf|] == s.buf;
      assert t.buf[..|s.buf|] == t.buf[..|s1.buf|][..|s.buf|];
      forall j | |s.buf| <= j < |t.buf| ensures Newly(s, j - |s.buf|, t.buf[j]) {
        if j > |s.buf| { assert Newly(s1, j - |s1.buf|, t.buf[j]); }
      }
    }
  }

  /** Before the first ikcp_update a flush does nothing; after it, it leaves no acknowledgement pending. */
  lemma FlushStarted(m: Arith, cfg: Config, k: Ctl)
    ensures var (k', out) := Flush(m, cfg, k);
            && (!k.clock.updated ==> k' == k && out == [])
            && (k.clock.updated ==> k'.acks == []) && k'.rcv == k.rcv && k'.rtt == k.rtt && k'.clock == k.clock
  {
  }

  // ----- skips ---------------------------------------------------------------------------

  /** The largest number that a datagram acknowledges selectively. */
  datatype MaxAck = None | Some(sn: int)

  function Largest(d: Datagram): (m: MaxAck) {
    if d == [] then None
    else
      var m, w := Largest(d[..|d| - 1]), d[|d| - 1];
      if w.cmd == ACK && (m.None? || w.sn > m.sn) then Some(w.sn) else m
  }

  /** It is the largest. */
  lemma {:induction false} LargestIs(d: Datagram)
    ensures Largest(d).None? <==> forall w :: w in d ==> w.cmd != ACK
    ensures Largest(d).Some? ==> (exists w :: w in d && w.cmd == ACK && w.sn == Largest(d).sn)
                                 && forall w :: w in d && w.cmd == ACK ==> w.sn <= Largest(d).sn
  {
    if d != [] {
      LargestIs(d[..|d| - 1]);
      Seqs.SplitLast(d);
      assert forall w :: w in d <==> w in d[..|d| - 1] || w == d[|d| - 1];
    }
  }

  lemma {:induction false} ScanLargest(cfg: Config, k: Ctl, d: Datagram)
    ensures var s, m := InputSegs(Exact, cfg, Scan(k, false, 0), d), Largest(d);
            (s.flag <==> m.Some?) && (m.Some? ==> s.maxack == m.sn)
  {
    if d != [] {
      ScanLargest(cfg, k, d[..|d| - 1]);
      Seqs.SplitLast(d);
      PendingAcks.SegsSnoc(Exact, cfg, Scan(k, false, 0), d[..|d| - 1], d[|d| - 1]);
    }
  }

  /** Entry s' is s, with one more skip if m is beyond it. */
  ghost predicate Skips(m: MaxAck, s: OutSeg, s': OutSeg) {
    s' == if m.Some? && s.sn < m.sn then s.(fastack := Wrap(s.fastack + 1)) else s
  }

  lemma {:induction false} SkippedExact(buf: seq<OutSeg>, sn: int)
    requires SortedOut(buf)
    ensures |Skipped(Exact, buf, sn)| == |buf|
    ensures forall i :: 0 <= i < |buf| ==> Skips(Some(sn), buf[i], Skipped(Exact, buf, sn)[i])
  {
    if buf != [] {
      assert forall i :: 0 < i < |buf| ==> buf[0].sn < buf[i].sn;
      if sn >= buf[0].sn {
        SkippedExact(buf[1..], sn);
        assert forall i :: 0 < i < |buf| ==> buf[1..][i - 1] == buf[i];
      }
    }
  }

  lemma SegKeeps(s: Snd, w: Wire)
    requires SndOk(s)
    ensures forall o :: o in SndInput(Exact, s, w).buf ==> o in s.buf
  {
    var s1 := Shrink(s.(buf := DropBelow(Exact, s.buf, w.una)));
    DropBelowOk(s.buf, w.una);
    UnaOk(s, w.una);
    if w.cmd == ACK && InFlight(Exact, s1, w.sn) { RemoveSnMembers(s1.buf, w.sn); }
  }

  lemma {:induction false} SegsKeep(cfg: Config, s: Scan, d: Datagram, peer: Rcv)
    requires SndOk(s.k.snd) && forall w :: w in d ==> BackOk(w, peer)
    ensures SndOk(InputSegs(Exact, cfg, s, d).k.snd)
    ensures forall o :: o in InputSegs(Exact, cfg, s, d).k.snd.buf ==> o in s.k.snd.buf
    decreases |d|
  {
    if d != [] {
      assert d[0] in d;
      SndInputOk(s.k.snd, d[0], peer);
      SegKeeps(s.k.snd, d[0]);
      SegsKeep(cfg, InputSeg(Exact, cfg, s, d[0]), d[1..], peer);
    }
  }

  /** Which number counts: the largest acknowledged one, if it was given out and is not below snd_una afterwards. */
  function Counting(d: Datagram, una: int, nxt: int): (m: MaxAck) {
    var m := Largest(d);
    if m.Some? && una <= m.sn < nxt then m else None
  }

  /** ikcp_input and the entries that stay under way: each is as it was, but for one skip if the datagram acknowledges a
      later one. */
  lemma InputSkips(cfg: Config, k: Ctl, d: Datagram, peer: Rcv)
    requires SndOk(k.snd) && forall w :: w in d ==> BackOk(w, peer)
    ensures var t := Input(Exact, cfg, k, d).snd;
            forall i :: 0 <= i < |t.buf| ==>
              exists o :: o in k.snd.buf && Skips(Counting(d, t.una, t.nxt), o, t.buf[i])
  {
    var s := InputSegs(Exact, cfg, Scan(k, false, 0), d);
    ScanLargest(cfg, k, d);
    SegsKeep(cfg, Scan(k, false, 0), d, peer);
    hide InputSegs, Largest;
    var t := Input(Exact, cfg, k, d).snd;
    if s.flag && InFlight(Exact, s.k.snd, s.maxack) { SkippedExact(s.k.snd.buf, s.maxack); }
    forall i | 0 <= i < |t.buf|
      ensures exists o :: o in k.snd.buf && Skips(Counting(d, t.una, t.nxt), o, t.buf[i])
    {
      assert s.k.snd.buf[i] in s.k.snd.buf;
      assert Skips(Counting(d, t.una, t.nxt), s.k.snd.buf[i], t.buf[i]);
    }
  }
}
