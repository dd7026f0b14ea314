/**
 The control block and the calls of kcp_learn/ikcp.c as they work: fields updated in place, loops
 over the queues, an acknowledgement array that doubles, an output buffer. The fields of the
 control block are grouped as module Protocol groups them. Every method is proved to compute the
 corresponding function of that module on 32-bit numbers.
 */
module Engine {
  import opened Words
  import opened Protocol
  import opened WireFormat
  import opened Acknowledgements
  import opened Output
  import Datagrams
  import ByteSystem
  import Messages
  import Safety
  import System
  import Seqs

  class Kcp {
    const cfg: Config

    var snd: Snd
    var rcv: Rcv
    var nsndQue: int
    var nsndBuf: int
    var nrcvBuf: int
    var nrcvQue: int

    var rtt: Rtt
    var cc: Cc
    var probe: Probe
    var clock: Clock
    var xmit: int
    var dead: bool

    const acklist: AckList
    const outbox: Outbox

    // ----- abstraction -------------------------------------------------------------------

    /** The control block as a value. */
    ghost function CtlOf(): (k: Ctl)
      reads this, acklist
      requires Valid()
    {
      Ctl(snd, rcv, acklist.acks, rtt, cc, probe, clock, xmit, dead)
    }

    /** No segment waiting to be sent exceeds the mss, so that the output buffer never overflows. */
    ghost predicate Fit(s: Snd) {
      Datagrams.Sized(s.queue, cfg.Mss()) && forall i :: 0 <= i < |s.buf| ==> |s.buf[i].piece.data| <= cfg.Mss()
    }

    /** The four counters are the lengths of the queues. */
    ghost predicate Valid()
      reads this
    {
      && nsndQue == |snd.queue| && nsndBuf == |snd.buf| && nrcvBuf == |rcv.buf| && nrcvQue == |rcv.queue|
      && outbox.conv == cfg.conv && outbox.mtu == cfg.mtu && outbox.buffer.Length == (cfg.mtu + OVERHEAD) * 3
      && 0 <= xmit < 0x1_0000_0000 && Fit(snd)
    }

    /** What every call of the interface needs and keeps: also the acknowledgement list is well formed,
        and does not share its array with the output buffer. */
    ghost predicate Ready()
      reads this, acklist, acklist.flat
    {
      Valid() && acklist.Valid() && outbox.buffer as object != acklist.flat as object
    }

    constructor (config: Config)
      ensures Ready() && CtlOf() == Create() && cfg == config
      ensures fresh(acklist) && fresh(acklist.flat) && fresh(outbox) && fresh(outbox.buffer)
    {
      cfg := config;
      snd := Snd(0, 0, [], [], [], []);
      rcv := Rcv(0, [], [], [], []);
      nsndQue, nsndBuf, nrcvBuf, nrcvQue := 0, 0, 0, 0;
      rtt := Rtt(0, 0, 200);
      cc := Cc(0, 0, THRESH_MIN, WND_RCV);
      probe := Probe(false, false, 0, 0);
      clock := Clock(0, 100, false);
      xmit, dead := 0, false;
      acklist := new AckList();
      outbox := new Outbox(config.conv, config.mtu);
    }

    // ----- user calls --------------------------------------------------------------------

    method PeekSize() returns (length: int)
      requires Valid()
      ensures length == Protocol.PeekSize(rcv.queue)
    {
      var q := rcv.queue;
      if |q| == 0 { return -1; }
      if q[0].piece.frg == 0 {
        JoinedLast(q, 0);
        return |q[0].piece.data|;
      }
      if nrcvQue < q[0].piece.frg + 1 { return -1; }
      length := 0;
      var i := 0;
      while i < |q|
        invariant 0 <= i <= |q|
        invariant length == |Joined(q[..i])|
        invariant HeadLen(q) == i + HeadLen(q[i..])
      {
        length := length + |q[i].piece.data|;
        JoinedLast(q, i);
        assert q[i..][1..] == q[i + 1..];
        i := i + 1;
        if q[i - 1].piece.frg == 0 { break; }
      }
    }

    /** ikcp_recv with buffer length len; `out` is what it copies to the buffer. */
    method Recv(len: int) returns (ret: int, out: seq<byte>)
      requires Ready()
      modifies this`rcv, this`nrcvQue, this`nrcvBuf, this`probe
      ensures Ready() && CtlOf() == Protocol.Recv(Mod32, cfg, old(CtlOf()), len)
      ensures ret == RecvCode(old(rcv), len)
      ensures ret >= 0 ==> out == Joined(old(rcv.queue)[..HeadLen(old(rcv.queue))]) && |out| == ret
    {
      ret := CanRecv(len);
      if ret < 0 { return ret, []; }
      var recover := nrcvQue >= cfg.rcvWnd;
      out := MergeHead(len < 0);
      MoveReady();
      if nrcvQue < cfg.rcvWnd && recover { probe := probe.(tell := true); }
    }

    /** The tests at the start of ikcp_recv. */
    method CanRecv(len: int) returns (ret: int)
      requires Valid()
      ensures ret == RecvCode(rcv, len)
    {
      if |rcv.queue| == 0 { return -1; }
      var size := PeekSize();
      if size < 0 { return -2; }
      if size > (if len < 0 then -len else len) { return -3; }
      return size;
    }

    /** The merge loop of ikcp_recv. */
    method MergeHead(peek: bool) returns (out: seq<byte>)
      requires Valid()
      modifies this`rcv, this`nrcvQue
      ensures Valid() && rcv == TakeHead(old(rcv), peek)
      ensures out == Joined(old(rcv.queue)[..HeadLen(old(rcv.queue))])
    {
      var q := rcv.queue;
      var i := 0;
      out := [];
      while i < |q|
        invariant 0 <= i <= |q|
        invariant out == Joined(q[..i])
        invariant HeadLen(q) == i + HeadLen(q[i..])
        invariant rcv == if peek then old(rcv) else old(rcv).(queue := q[i..])
        invariant nrcvQue == |rcv.queue|
      {
        var seg := q[i];
        JoinedLast(q, i);
        assert q[i..][1..] == q[i + 1..];
        i := i + 1;
        out := out + seg.piece.data;
        if !peek {
          rcv := rcv.(queue := rcv.queue[1..]);
          nrcvQue := nrcvQue - 1;
        }
        if seg.piece.frg == 0 { break; }
      }
      if !peek { rcv := rcv.(taken := rcv.taken + [out]); }
    }

    /** rcv_buf -> rcv_queue, at the end of ikcp_recv and of ikcp_parse_data. */
    method MoveReady()
      requires Valid()
      modifies this`rcv, this`nrcvQue, this`nrcvBuf
      ensures Valid() && rcv == Drain(Mod32, cfg.rcvWnd, old(rcv))
    {
      while |rcv.buf| > 0
        invariant Valid()
        invariant Drain(Mod32, cfg.rcvWnd, rcv) == Drain(Mod32, cfg.rcvWnd, old(rcv))
        decreases |rcv.buf|
      {
        var seg := rcv.buf[0];
        if seg.sn == rcv.nxt && nrcvQue < cfg.rcvWnd {
          rcv := rcv.(buf := rcv.buf[1..], queue := rcv.queue + [seg], nxt := Wrap(rcv.nxt + 1),
                      moved := rcv.moved + [seg.piece]);
          nrcvBuf := nrcvBuf - 1;
          nrcvQue := nrcvQue + 1;
        } else {
          break;
        }
      }
    }

    /** ikcp_send of the first len bytes of a buffer. */
    method Send(bytes: seq<byte>, len: int) returns (ret: int)
      requires Ready() && len <= |bytes|
      modifies this`snd, this`nsndQue
      ensures Ready()
      ensures len < 0 ==> ret == -1 && snd == old(snd)
      ensures len >= 0 ==> (snd, ret) == Protocol.Send(cfg, old(snd), bytes[..len])
    {
      if len < 0 { return -1; }
      var data := bytes[..len];
      var extend := ExtendTail(data);
      var rest := data[extend..];
      if cfg.stream && |rest| <= 0 {
        snd := snd.(accepted := snd.accepted + [data]);
        return 0;
      }
      var count := if |rest| <= cfg.Mss() then 1 else (|rest| + cfg.Mss() - 1) / cfg.Mss();
      if count >= WND_RCV {
        if extend > 0 { snd := snd.(accepted := snd.accepted + [data[..extend]]); }
        return -2;
      }
      QueueFragments(rest, count);
      snd := snd.(accepted := snd.accepted + [data]);
      return 0;
    }

    /** Stream mode: fills up the last queued segment; `extend` bytes of data went there. */
    method ExtendTail(data: seq<byte>) returns (extend: int)
      requires Valid()
      modifies this`snd
      ensures Valid() && extend == Extension(cfg, old(snd), |data|)
      ensures snd == ExtendLast(cfg, old(snd), data[..extend])
    {
      extend := 0;
      if cfg.stream && |snd.queue| > 0 {
        var n := |snd.queue| - 1;
        var last := snd.queue[n];
        if |last.data| < cfg.Mss() {
          var capacity := cfg.Mss() - |last.data|;
          extend := if |data| < capacity then |data| else capacity;
          snd := snd.(queue := snd.queue[..n] + [Piece(0, last.data + data[..extend])]);
        }
      }
    }

    /** The fragment loop of ikcp_send. */
    method QueueFragments(data: seq<byte>, count: int)
      requires Valid() && count == FragCount(|data|, cfg.Mss())
      modifies this`snd, this`nsndQue
      ensures Valid() && snd == old(snd).(queue := old(snd.queue) + Fragment(data, cfg.Mss(), cfg.stream))
    {
      ghost var all := Fragment(data, cfg.Mss(), cfg.stream);
      System.FragmentCount(data, cfg.Mss(), cfg.stream);
      Datagrams.FragmentSized(data, cfg.Mss(), cfg.stream);
      var rest := data;
      for i := 0 to count
        invariant nsndQue == |snd.queue|
        invariant snd == old(snd).(queue := old(snd.queue) + all[..i])
        invariant i < count ==> all[i..] == Fragment(rest, cfg.Mss(), cfg.stream)
      {
        var size := if |rest| > cfg.Mss() then cfg.Mss() else |rest|;
        FragmentStep(all, rest, i, cfg.Mss(), cfg.stream);
        snd := snd.(queue := snd.queue + [Piece(if cfg.stream then 0 else count - i - 1, rest[..size])]);
        nsndQue := nsndQue + 1;
        rest := rest[size..];
      }
      assert all[..count] == all;
    }

    /** ikcp_waitsnd. */
    method WaitSnd() returns (r: int)
      requires Valid()
      ensures r == |snd.buf| + |snd.queue|
    {
      r := nsndBuf + nsndQue;
    }

    // ----- acknowledgements --------------------------------------------------------------

    method UpdateAck(sample: int)
      modifies this`rtt
      ensures rtt == UpdateRtt(cfg, old(rtt), sample)
    {
      if rtt.srtt == 0 {
        rtt := rtt.(srtt := sample, rttval := sample / 2);
      } else {
        var delta := sample - rtt.srtt;
        if delta < 0 { delta := -delta; }
        rtt := rtt.(rttval := (3 * rtt.rttval + delta) / 4, srtt := (7 * rtt.srtt + sample) / 8);
        if rtt.srtt < 1 { rtt := rtt.(srtt := 1); }
      }
      var rto := rtt.srtt + Max(cfg.interval, 4 * rtt.rttval);
      rtt := rtt.(rto := Min(Max(cfg.minRto, rto), RTO_MAX));
    }

    method ShrinkBuf()
      modifies this`snd
      ensures snd == Shrink(old(snd))
    {
      if |snd.buf| > 0 { snd := snd.(una := snd.buf[0].sn); } else { snd := snd.(una := snd.nxt); }
    }

    method ParseAck(sn: int)
      requires Valid()
      modifies this`snd, this`nsndBuf
      ensures Valid() && snd == Protocol.ParseAck(Mod32, old(snd), sn)
    {
      if Diff(Mod32, sn, snd.una) < 0 || Diff(Mod32, sn, snd.nxt) >= 0 { return; }
      var i, found := FindAcked(snd.buf, sn);
      if found {
        snd := snd.(buf := snd.buf[..i] + snd.buf[i + 1..]);
        nsndBuf := nsndBuf - 1;
      }
    }

    method ParseUna(una: int)
      requires Valid()
      modifies this`snd, this`nsndBuf
      ensures Valid() && snd == old(snd).(buf := DropBelow(Mod32, old(snd.buf), una))
    {
      while |snd.buf| > 0
        invariant Valid() && snd == old(snd).(buf := snd.buf)
        invariant DropBelow(Mod32, snd.buf, una) == DropBelow(Mod32, old(snd.buf), una)
        decreases |snd.buf|
      {
        if Diff(Mod32, una, snd.buf[0].sn) > 0 {
          snd := snd.(buf := snd.buf[1..]);
          nsndBuf := nsndBuf - 1;
        } else {
          break;
        }
      }
    }

    method ParseFastack(sn: int)
      requires Valid()
      modifies this`snd
      ensures Valid() && snd == Protocol.ParseFastack(Mod32, old(snd), sn)
    {
      if Diff(Mod32, sn, snd.una) < 0 || Diff(Mod32, sn, snd.nxt) >= 0 { return; }
      Safety.SkippedSame(Mod32, snd.buf, sn);
      var buf := CountSkips(snd.buf, sn);
      snd := snd.(buf := buf);
    }

    // ----- incoming data -----------------------------------------------------------------

    method ParseData(seg: InSeg)
      requires Valid()
      modifies this`rcv, this`nrcvQue, this`nrcvBuf
      ensures Valid() && rcv == Protocol.ParseData(Mod32, cfg.rcvWnd, old(rcv), seg)
    {
      if Diff(Mod32, seg.sn, Wrap(rcv.nxt + cfg.rcvWnd)) >= 0 || Diff(Mod32, seg.sn, rcv.nxt) < 0 { return; }
      var p, repeat := ScanBack(rcv.buf, seg);
      if !repeat {
        rcv := rcv.(buf := rcv.buf[..p] + [seg] + rcv.buf[p..]);
        nrcvBuf := nrcvBuf + 1;
      }
      MoveReady();
    }

    /** What ikcp_input does to the sending half with segment w. */
    method ReleaseAcked(w: Wire)
      requires Valid()
      modifies this`snd, this`nsndBuf
      ensures Valid() && snd == SndInput(Mod32, old(snd), w)
    {
      ParseUna(w.una);
      ShrinkBuf();
      if w.cmd == ACK {
        ParseAck(w.sn);
        ShrinkBuf();
      }
    }

    /** What ikcp_input does to the receiving half with segment w. */
    method AcceptPush(w: Wire)
      requires Valid() && acklist.Valid()
      modifies this`rcv, this`nrcvQue, this`nrcvBuf, acklist, acklist.flat
      ensures Valid() && acklist.Valid() && (acklist.flat == old(acklist.flat) || fresh(acklist.flat))
      ensures rcv == RcvInput(Mod32, cfg.rcvWnd, old(rcv), w)
      ensures acklist.acks == AckInput(Mod32, cfg.rcvWnd, old(rcv), old(acklist.acks), w)
    {
      if w.cmd == PUSH && Diff(Mod32, w.sn, Wrap(rcv.nxt + cfg.rcvWnd)) < 0 {
        acklist.Push(w.sn, w.ts);
        if Diff(Mod32, w.sn, rcv.nxt) >= 0 {
          ParseData(InSeg(w.sn, Piece(w.frg, w.data)));
        }
      }
    }

    /** The loop's flag and maxack after segment w. */
    method NoteAck(w: Wire, flag: bool, maxack: int) returns (flag': bool, maxack': int)
      ensures flag' == (flag || w.cmd == ACK)
      ensures maxack' == if w.cmd == ACK && (!flag || Diff(Mod32, w.sn, maxack) > 0) then w.sn else maxack
    {
      flag', maxack' := flag, maxack;
      if w.cmd == ACK {
        if !flag {
          flag', maxack' := true, w.sn;
        } else if Diff(Mod32, w.sn, maxack) > 0 {
          maxack' := w.sn;
        }
      }
    }

    ghost function ScanOf(flag: bool, maxack: int): (s: Scan)
      reads this, acklist
      requires Valid()
    {
      Scan(CtlOf(), flag, maxack)
    }

    /** The loop body of ikcp_input for one decoded segment. */
    method InputSeg(w: Wire, flag: bool, maxack: int) returns (flag': bool, maxack': int)
      requires Ready()
      modifies this, acklist, acklist.flat
      ensures Ready() && (acklist.flat == old(acklist.flat) || fresh(acklist.flat))
      ensures ScanOf(flag', maxack') == Protocol.InputSeg(Mod32, cfg, old(ScanOf(flag, maxack)), w)
    {
      hide Protocol.SndInput, Protocol.RcvInput, Protocol.AckInput, Protocol.UpdateRtt, Words.TimeDiff, Words.Diff;
      TakeAcks(w);
      flag', maxack' := NoteAck(w, flag, maxack);
      AcceptPush(w);
      if w.cmd == WASK { probe := probe.(tell := true); }
    }

    /** The sender's share of the loop body. */
    method TakeAcks(w: Wire)
      requires Valid()
      modifies this`cc, this`rtt, this`snd, this`nsndBuf
      ensures Valid() && cc == old(cc).(rmtWnd := w.wnd) && snd == SndInput(Mod32, old(snd), w)
      ensures rtt == if w.cmd == ACK && TimeDiff(clock.current, w.ts) >= 0
                     then UpdateRtt(cfg, old(rtt), TimeDiff(clock.current, w.ts)) else old(rtt)
    {
      cc := cc.(rmtWnd := w.wnd);
      if w.cmd == ACK && TimeDiff(clock.current, w.ts) >= 0 {
        UpdateAck(TimeDiff(clock.current, w.ts));
      }
      ReleaseAcked(w);
    }

    /** Congestion window growth at the end of ikcp_input. */
    method GrowWindow()
      modifies this`cc
      ensures cc == Grow(cfg, old(cc))
    {
      var cwnd, incr := cc.cwnd, cc.incr;
      if cwnd < cc.rmtWnd {
        var mss := cfg.Mss();
        if cwnd < cc.ssthresh {
          cwnd := Wrap(cwnd + 1);
          incr := Wrap(incr + mss);
        } else {
          if incr < mss { incr := mss; }
          incr := Wrap(incr + Wrap(mss * mss) / incr + mss / 16);
          if Wrap(Wrap(cwnd + 1) * mss) <= incr {
            cwnd := Wrap(incr + mss - 1) / mss;
          }
        }
        if cwnd > cc.rmtWnd {
          cwnd := cc.rmtWnd;
          incr := Wrap(cc.rmtWnd * mss);
        }
      }
      cc := cc.(cwnd := cwnd, incr := incr);
    }

    /** What ikcp_input does after its loop. */
    method FinishInput(prevUna: int, flag: bool, maxack: int)
      requires Valid()
      modifies this`snd, this`cc
      ensures Valid() && CtlOf() == InputTail(Mod32, cfg, prevUna, old(ScanOf(flag, maxack)))
    {
      if flag { ParseFastack(maxack); }
      if Diff(Mod32, snd.una, prevUna) > 0 { GrowWindow(); }
    }

    /** One turn of the loop of ikcp_input: a segment is processed, or an error code ends the loop. */
    method Turn(data: seq<byte>, off: nat, flag: bool, maxack: int)
      returns (code: int, off': nat, flag': bool, maxack': int, ghost s: Scan)
      requires Ready() && off + OVERHEAD <= |data|
      modifies this, acklist, acklist.flat
      ensures Ready() && (acklist.flat == old(acklist.flat) || fresh(acklist.flat))
      ensures s == ScanOf(flag', maxack') && off <= off' <= |data| && (code == 0 ==> off < off')
      ensures Outcome(cfg, old(ScanOf(flag, maxack)), data[off..]) ==
              if code == 0 then Outcome(cfg, s, data[off'..]) else (s, code)
    {
      hide WireFormat.Decode, Protocol.InputSegs, Protocol.InputSeg;
      off', flag', maxack' := off, flag, maxack;
      s := ScanOf(flag, maxack);
      var w;
      code, w := ReadSegment(cfg.conv, data, off);
      if code != 0 {
        OutcomeStop(cfg, s, data[off..], code);
      } else {
        OutcomeStep(cfg, s, data, off, w);
        flag', maxack' := InputSeg(w, flag, maxack);
        s := ScanOf(flag', maxack');
        off' := off + OVERHEAD + |w.data|;
      }
    }

    /** The loop of ikcp_input: all segments up to the first bad one; status 0 if there is none. */
    method InputLoop(data: seq<byte>) returns (status: int, flag: bool, maxack: int)
      requires Ready()
      modifies this, acklist, acklist.flat
      ensures Ready() && (acklist.flat == old(acklist.flat) || fresh(acklist.flat))
      ensures (ScanOf(flag, maxack), status) == Outcome(cfg, old(ScanOf(false, 0)), data)
    {
      flag, maxack := false, 0;
      var off := 0;
      ghost var s := ScanOf(flag, maxack);
      ghost var goal := Outcome(cfg, s, data);
      assert data[off..] == data;
      while |data| - off >= OVERHEAD
        invariant 0 <= off <= |data| && Ready()
        invariant acklist.flat == old(acklist.flat) || fresh(acklist.flat)
        invariant s == ScanOf(flag, maxack) && Outcome(cfg, s, data[off..]) == goal
        decreases |data| - off
      {
        status, off, flag, maxack, s := Turn(data, off, flag, maxack);
        if status != 0 { return; }
      }
      OutcomeStop(cfg, s, data[off..], 0);
      status := 0;
    }

    /** ikcp_input. */
    method Input(data: seq<byte>) returns (ret: int)
      requires Ready()
      modifies this, acklist, acklist.flat
      ensures Ready() && (acklist.flat == old(acklist.flat) || fresh(acklist.flat))
      ensures (CtlOf(), ret) == InputBytes(cfg, old(CtlOf()), data)
    {
      var prevUna := snd.una;
      if |data| < OVERHEAD { return -1; }
      var status, flag, maxack := InputLoop(data);
      if status != 0 { return status; }
      FinishInput(prevUna, flag, maxack);
      return 0;
    }

    // ----- flush -------------------------------------------------------------------------

    /** The acknowledgement loop; its last sn and ts stay in the template. */
    method FlushAcks(e: Env) returns (last: Ack)
      requires Valid() && acklist.Valid() && outbox.Valid() && outbox.buffer as object != acklist.flat as object
      modifies outbox, outbox.buffer
      ensures acklist.Valid() && outbox.Valid() && outbox.sent == old(outbox.sent) + AckWires(e, acklist.acks)
      ensures last == LastAck(acklist.acks)
    {
      hide Outbox.Valid;
      last := Ack(0, 0);
      ghost var acks := acklist.acks;
      for i := 0 to acklist.count
        invariant acklist.Valid() && outbox.Valid()
        invariant outbox.sent == old(outbox.sent) + AckWires(e, acks[..i])
        invariant last == LastAck(acks[..i])
      {
        last := acklist.Get(i);
        AckWiresStep(e, acks, i);
        outbox.Put(Control(e, ACK, last));
      }
      assert acks[..|acks|] == acks;
    }

    /** The probe timer. */
    method ProbeRemote()
      modifies this`probe
      ensures probe == ProbeTimer(old(probe), cc.rmtWnd, clock.current)
    {
      if cc.rmtWnd == 0 {
        if probe.wait == 0 {
          probe := probe.(wait := PROBE_INIT, ts := Wrap(clock.current + PROBE_INIT));
        } else if TimeDiff(clock.current, probe.ts) >= 0 {
          var wait := probe.wait;
          if wait < PROBE_INIT { wait := PROBE_INIT; }
          wait := wait + wait / 2;
          if wait > PROBE_LIMIT { wait := PROBE_LIMIT; }
          probe := probe.(wait := wait, ts := Wrap(clock.current + wait), ask := true);
        }
      } else {
        probe := probe.(ts := 0, wait := 0);
      }
    }

    /** The probe commands. */
    method FlushProbes(e: Env, last: Ack)
      requires Valid() && outbox.Valid()
      modifies outbox, outbox.buffer
      ensures outbox.Valid() && outbox.sent == old(outbox.sent) + ProbeWires(e, probe, last)
    {
      hide Outbox.Valid;
      if probe.ask { outbox.Put(Control(e, WASK, last)); }
      if probe.tell { outbox.Put(Control(e, WINS, last)); }
    }

    /** snd_queue -> snd_buf while the window is open. */
    method NumberNew(e: Env, wnd: int)
      requires Valid()
      modifies this`snd, this`nsndQue, this`nsndBuf
      ensures Valid() && snd == Number(Mod32, e, wnd, old(snd))
    {
      while Diff(Mod32, snd.nxt, Wrap(snd.una + wnd)) < 0
        invariant Valid()
        invariant Number(Mod32, e, wnd, snd) == Number(Mod32, e, wnd, old(snd))
        decreases |snd.queue|
      {
        if |snd.queue| == 0 { break; }
        var piece := snd.queue[0];
        var seg := OutSeg(snd.nxt, piece, e.wnd, e.current, e.una, e.current, e.rto, 0, 0);
        snd := snd.(queue := snd.queue[1..], buf := snd.buf + [seg], nxt := Wrap(snd.nxt + 1),
                    numbered := snd.numbered + [piece]);
        nsndQue := nsndQue - 1;
        nsndBuf := nsndBuf + 1;
      }
    }

    /** The decision of the data loop about one entry. */
    method Consider(e: Env, s: OutSeg) returns (t: OutSeg, fate: Fate)
      ensures fate == FateOf(cfg, e.current, s) && t == Touch(cfg, e, s)
    {
      var resent := if cfg.fastResend > 0 then cfg.fastResend else 0xffff_ffff;
      var rtomin := if cfg.nodelay == 0 then e.rto / 8 else 0;
      t, fate := s, Keep;
      if s.xmit == 0 {
        fate := First;
        t := t.(xmit := Wrap(t.xmit + 1), rto := e.rto, resendts := Wrap(e.current + e.rto + rtomin));
      } else if TimeDiff(e.current, s.resendts) >= 0 {
        fate := Timeout;
        var rto;
        if cfg.nodelay == 0 {
          rto := Wrap(s.rto + Max(s.rto, e.rto));
        } else {
          var step := if cfg.nodelay < 2 then Signed(s.rto) else e.rto;
          rto := Wrap(s.rto + HalfTrunc(step));
        }
        t := t.(xmit := Wrap(t.xmit + 1), rto := rto, resendts := Wrap(e.current + rto));
      } else if s.fastack >= resent {
        if Signed(s.xmit) <= cfg.fastLimit || cfg.fastLimit <= 0 {
          fate := Fast;
          t := t.(xmit := Wrap(t.xmit + 1), fastack := 0, resendts := Wrap(e.current + s.rto));
        }
      }
      if fate != Keep {
        t := t.(ts := e.current, wnd := e.wnd, una := e.una);
      }
    }

    /** One turn of the data loop. */
    method FlushEntry(e: Env, i: nat) returns (fate: Fate)
      requires Valid() && outbox.Valid() && i < |snd.buf|
      modifies this`snd, this`xmit, this`dead, outbox, outbox.buffer
      ensures Valid() && outbox.Valid() && fate == FateOf(cfg, e.current, old(snd.buf)[i])
      ensures var t := Touch(cfg, e, old(snd.buf)[i]);
              && snd == old(snd).(buf := old(snd.buf)[i := t])
              && outbox.sent == old(outbox.sent) + (if fate.Keep? then [] else [PushWire(t)])
              && xmit == (if fate.Timeout? then Wrap(old(xmit) + 1) else old(xmit))
              && dead == (old(dead) || (!fate.Keep? && t.xmit >= cfg.deadLink))
    {
      hide Outbox.Valid;
      var seg;
      seg, fate := Consider(e, snd.buf[i]);
      TouchPiece(cfg, e, snd.buf[i]);
      if fate == Timeout { xmit := Wrap(xmit + 1); }
      snd := snd.(buf := snd.buf[i := seg]);
      if fate != Keep {
        outbox.Put(PushWire(seg));
        if seg.xmit >= cfg.deadLink { dead := true; }
      }
    }

    /** The data loop. */
    method FlushData(e: Env) returns (change: nat, lost: bool)
      requires Valid() && outbox.Valid()
      modifies this`snd, this`xmit, this`dead, outbox, outbox.buffer
      ensures Valid() && outbox.Valid()
      ensures var t := Transmit(cfg, e, old(snd.buf));
              && snd == old(snd).(buf := t.buf) && outbox.sent == old(outbox.sent) + t.wires
              && change == t.fasts && lost == (t.timeouts > 0)
              && xmit == Wrap(old(xmit) + t.timeouts) && dead == (old(dead) || t.dead)
    {
      hide Outbox.Valid, Protocol.Touch, Protocol.FateOf, Protocol.Transmit;
      change, lost := 0, false;
      ghost var buf := snd.buf;
      ghost var t := Transmit(cfg, e, buf[..0]);
      TransmitNone(cfg, e, buf);
      for i := 0 to |snd.buf|
        invariant Valid() && outbox.Valid() && |snd.buf| == |buf|
        invariant t == Transmit(cfg, e, buf[..i])
        invariant snd == old(snd).(buf := t.buf + buf[i..]) && outbox.sent == old(outbox.sent) + t.wires
        invariant change == t.fasts && lost == (t.timeouts > 0)
        invariant xmit == Wrap(old(xmit) + t.timeouts) && dead == (old(dead) || t.dead)
      {
        TransmitStep(cfg, e, buf, i);
        SpliceStep(buf, t.buf, i, Touch(cfg, e, buf[i]));
        WrapWrap(old(xmit) + t.timeouts, 1);
        t := Transmit(cfg, e, buf[..i + 1]);
        var fate := FlushEntry(e, i);
        if fate == Timeout { lost := true; }
        if fate == Fast { change := change + 1; }
      }
      assert buf[..|buf|] == buf;
    }

    /** The congestion window at the end of ikcp_flush. */
    method BackOffWindow(wnd: int, change: nat, lost: bool)
      modifies this`cc
      ensures cc == Backed(cfg, old(cc), Wrap(snd.nxt - snd.una), wnd, change > 0, lost)
    {
      if change > 0 {
        var ssthresh := Wrap(snd.nxt - snd.una) / 2;
        if ssthresh < THRESH_MIN { ssthresh := THRESH_MIN; }
        var cwnd := Wrap(ssthresh + Resent(cfg));
        cc := cc.(ssthresh := ssthresh, cwnd := cwnd, incr := Wrap(cwnd * cfg.Mss()));
      }
      if lost {
        var ssthresh := wnd / 2;
        if ssthresh < THRESH_MIN { ssthresh := THRESH_MIN; }
        cc := cc.(ssthresh := ssthresh, cwnd := 1, incr := cfg.Mss());
      }
      if cc.cwnd < 1 {
        cc := cc.(cwnd := 1, incr := cfg.Mss());
      }
    }

    /** Acknowledgements and probes. */
    method EmitControl(e: Env)
      requires Ready()
      modifies this`probe, acklist, outbox, outbox.buffer
      ensures Ready() && outbox.Valid() && acklist.flat == old(acklist.flat)
      ensures acklist.acks == []
      ensures var p := ProbeTimer(old(probe), cc.rmtWnd, clock.current);
              && probe == p.(ask := false, tell := false)
              && outbox.sent == AckWires(e, old(acklist.acks)) + ProbeWires(e, p, LastAck(old(acklist.acks)))
    {
      hide Outbox.Valid, Protocol.ProbeTimer, Protocol.AckWires, Protocol.ProbeWires;
      outbox.Open();
      var last := FlushAcks(e);
      acklist.Clear();
      ProbeRemote();
      FlushProbes(e, last);
      probe := probe.(ask := false, tell := false);
    }

    /** Data and the congestion window: numbers what the window admits, sends what is due. */
    method EmitData(e: Env, wnd: int) returns (ghost t: Tx)
      requires Valid() && outbox.Valid()
      modifies this`snd, this`nsndQue, this`nsndBuf, this`xmit, this`dead, this`cc, outbox, outbox.buffer
      ensures Valid() && outbox.Valid()
      ensures var s := Number(Mod32, e, wnd, old(snd));
              && t == Transmit(cfg, e, s.buf) && snd == s.(buf := t.buf)
              && cc == Backed(cfg, old(cc), Wrap(s.nxt - s.una), wnd, t.fasts > 0, t.timeouts > 0)
      ensures xmit == Wrap(old(xmit) + t.timeouts) && dead == (old(dead) || t.dead)
      ensures outbox.sent == old(outbox.sent) + t.wires
    {
      hide Outbox.Valid, Protocol.Transmit, Protocol.Number, Protocol.Backed;
      NumberNew(e, wnd);
      t := Transmit(cfg, e, snd.buf);
      var change, lost := FlushData(e);
      BackOffWindow(wnd, change, lost);
    }

    /** The stages of ikcp_flush in order, and its last output. */
    method FlushStages(e: Env, wnd: int) returns (out: seq<seq<byte>>, ghost t: Tx)
      requires Ready()
      modifies this`snd, this`nsndQue, this`nsndBuf, this`xmit, this`dead, this`cc, this`probe,
               acklist, outbox, outbox.buffer
      ensures Ready() && acklist.flat == old(acklist.flat) && acklist.acks == []
      ensures var s := Number(Mod32, e, wnd, old(snd));
              && t == Transmit(cfg, e, s.buf) && snd == s.(buf := t.buf)
              && cc == Backed(cfg, old(cc), Wrap(s.nxt - s.una), wnd, t.fasts > 0, t.timeouts > 0)
      ensures xmit == Wrap(old(xmit) + t.timeouts) && dead == (old(dead) || t.dead)
      ensures var p := ProbeTimer(old(probe), old(cc).rmtWnd, clock.current);
              && probe == p.(ask := false, tell := false)
              && out == ByteSystem.Packets(cfg.conv, Pack(cfg.mtu,
                   AckWires(e, old(acklist.acks)) + ProbeWires(e, p, LastAck(old(acklist.acks))) + t.wires))
    {
      hide Outbox.Valid, Protocol.Transmit, Protocol.Number, Protocol.Backed, Protocol.ProbeTimer,
           Protocol.AckWires, Protocol.ProbeWires, Protocol.Pack, ByteSystem.Packets;
      EmitControl(e);
      t := EmitData(e, wnd);
      out := outbox.Close();
    }

    /** ikcp_flush; `out` is what it hands to the output callback, call by call. */
    method Flush() returns (out: seq<seq<byte>>)
      requires Ready()
      modifies this, acklist, outbox, outbox.buffer
      ensures Ready() && acklist.flat == old(acklist.flat)
      ensures var (k, ds) := Protocol.Flush(Mod32, cfg, old(CtlOf()));
              CtlOf() == k && out == ByteSystem.Packets(cfg.conv, ds)
    {
      hide Protocol.Transmit, Protocol.Number, Protocol.Backed, Protocol.ProbeTimer,
           Protocol.AckWires, Protocol.ProbeWires, Protocol.Pack, ByteSystem.Packets;
      if !clock.updated {
        ByteSystem.PacketsNone(cfg.conv);
        return [];
      }
      ghost var k := CtlOf();
      var unused := if nrcvQue < cfg.rcvWnd then cfg.rcvWnd - nrcvQue else 0;
      var e := Env(clock.current, rtt.rto, unused, rcv.nxt);
      var wnd := Min(cfg.sndWnd, cc.rmtWnd);
      if !cfg.noCwnd { wnd := Min(cc.cwnd, wnd); }
      ghost var t;
      out, t := FlushStages(e, wnd);
      Assemble(cfg, k, CtlOf(), t);
    }

    /** ikcp_update. */
    method Update(now: u32) returns (out: seq<seq<byte>>)
      requires Ready()
      modifies this, acklist, outbox, outbox.buffer
      ensures Ready() && acklist.flat == old(acklist.flat)
      ensures var (k, ds) := Protocol.Update(Mod32, cfg, old(CtlOf()), now);
              CtlOf() == k && out == ByteSystem.Packets(cfg.conv, ds)
    {
      var go := AdvanceClock(now);
      if go {
        out := Flush();
      } else {
        ByteSystem.PacketsNone(cfg.conv);
        out := [];
      }
    }

    /** The clock part of ikcp_update. */
    method AdvanceClock(now: u32) returns (go: bool)
      modifies this`clock
      ensures (clock, go) == Tick(cfg.interval, old(clock), now)
    {
      var tsFlush := clock.tsFlush;
      if !clock.updated { tsFlush := now; }
      var slap := TimeDiff(now, tsFlush);
      if slap >= 10000 || slap < -10000 {
        tsFlush := now;
        slap := 0;
      }
      go := slap >= 0;
      if go {
        tsFlush := Wrap(tsFlush + cfg.interval);
        if TimeDiff(now, tsFlush) >= 0 {
          tsFlush := Wrap(now + cfg.interval);
        }
      }
      clock := Clock(now, tsFlush, true);
    }

    /** ikcp_check. */
    method Check(now: u32) returns (r: u32)
      requires Valid()
      ensures r == Protocol.Check(cfg, CtlOf(), now)
    {
      if !clock.updated { return now; }
      var due := clock.tsFlush;
      if TimeDiff(now, due) >= 10000 || TimeDiff(now, due) < -10000 { return now; }
      if TimeDiff(now, due) >= 0 { return now; }
      var tmFlush := TimeDiff(due, now);
      var found, tmPacket := FindSoonest(snd.buf, now);
      if found { return now; }
      var minimal := if tmPacket < tmFlush then tmPacket else tmFlush;
      if minimal >= cfg.interval { minimal := cfg.interval; }
      return Wrap(now + minimal);
    }
  }

  // ----- flush lemmas --------------------------------------------------------------------

  lemma AckWiresStep(e: Env, acks: seq<Ack>, i: nat)
    requires i < |acks|
    ensures AckWires(e, acks[..i + 1]) == AckWires(e, acks[..i]) + [Control(e, ACK, acks[i])]
    ensures LastAck(acks[..i + 1]) == acks[i]
  {
    assert acks[..i + 1][..i] == acks[..i];
  }

  /** The parts of the control block after flush. */
  lemma Assemble(cfg: Config, k: Ctl, k': Ctl, t: Tx)
    requires var e, wnd := EnvOf(cfg, k), EffectiveWnd(cfg, k.cc);
             var s := Number(Mod32, e, wnd, k.snd);
             && t == Transmit(cfg, e, s.buf) && k'.snd == s.(buf := t.buf)
             && k'.cc == Backed(cfg, k.cc, Wrap(s.nxt - s.una), wnd, t.fasts > 0, t.timeouts > 0)
    requires k'.probe == ProbeTimer(k.probe, k.cc.rmtWnd, k.clock.current).(ask := false, tell := false)
    requires k'.acks == [] && k'.xmit == Wrap(k.xmit + t.timeouts) && k'.dead == (k.dead || t.dead)
    requires k'.rcv == k.rcv && k'.rtt == k.rtt && k'.clock == k.clock
    ensures k' == FlushState(Mod32, cfg, k)
  {
  }

  lemma TouchPiece(cfg: Config, e: Env, s: OutSeg)
    ensures Touch(cfg, e, s).piece == s.piece
  {
  }

  lemma SpliceStep(buf: seq<OutSeg>, done: seq<OutSeg>, i: nat, s: OutSeg)
    requires i < |buf| && |done| == i
    ensures (done + buf[i..])[i] == buf[i]
    ensures (done + buf[i..])[i := s] == done + [s] + buf[i + 1..]
  {
  }

  lemma TransmitNone(cfg: Config, e: Env, buf: seq<OutSeg>)
    ensures Transmit(cfg, e, buf[..0]) == Tx([], [], 0, 0, false) && buf[0..] == buf
  {
  }

  lemma TransmitStep(cfg: Config, e: Env, buf: seq<OutSeg>, i: nat)
    requires i < |buf|
    ensures var t, t' := Transmit(cfg, e, buf[..i]), Transmit(cfg, e, buf[..i + 1]);
            var f, s := FateOf(cfg, e.current, buf[i]), Touch(cfg, e, buf[i]);
            && t'.buf == t.buf + [s] && t'.wires == t.wires + (if f.Keep? then [] else [PushWire(s)])
            && t'.timeouts == t.timeouts + (if f.Timeout? then 1 else 0)
            && t'.fasts == t.fasts + (if f.Fast? then 1 else 0)
            && t'.dead == (t.dead || (!f.Keep? && s.xmit >= cfg.deadLink))
  {
    assert buf[..i + 1][..i] == buf[..i];
  }

  /** The loop of ikcp_check. */
  method FindSoonest(buf: seq<OutSeg>, now: int) returns (found: bool, least: int)
    ensures Soonest(buf, now) == if found then Due else In(least)
  {
    least := 0x7fff_ffff;
    for i := 0 to |buf|
      invariant Soonest(buf[..i], now) == In(least)
    {
      assert buf[..i + 1][..i] == buf[..i];
      var diff := TimeDiff(buf[i].resendts, now);
      if diff <= 0 {
        SoonestDue(buf, i, now);
        return true, least;
      }
      if diff < least { least := diff; }
    }
    assert buf[..|buf|] == buf;
    return false, least;
  }

  lemma {:induction false} SoonestDue(buf: seq<OutSeg>, i: nat, now: int)
    requires i < |buf| && TimeDiff(buf[i].resendts, now) <= 0
    ensures Soonest(buf, now).Due?
  {
    if i < |buf| - 1 { SoonestDue(buf[..|buf| - 1], i, now); }
  }

  // ----- loop lemmas ---------------------------------------------------------------------

  lemma {:induction false} JoinedAppend(a: seq<InSeg>, b: seq<InSeg>)
    ensures Joined(a + b) == Joined(a) + Joined(b)
  {
    if a == [] {
      assert a + b == b;
    } else {
      assert (a + b)[1..] == a[1..] + b;
      JoinedAppend(a[1..], b);
    }
  }

  lemma JoinedLast(q: seq<InSeg>, i: nat)
    requires i < |q|
    ensures Joined(q[..i + 1]) == Joined(q[..i]) + q[i].piece.data
  {
    assert q[..i + 1] == q[..i] + [q[i]];
    JoinedAppend(q[..i], [q[i]]);
    assert Joined([q[i]][1..]) == [];
  }

  lemma SkippedStep(buf: seq<OutSeg>, cur: seq<OutSeg>, i: nat, sn: int)
    requires i < |buf| && |cur| == i && Diff(Mod32, sn, buf[i].sn) >= 0
    ensures var s := if sn != buf[i].sn then buf[i].(fastack := Wrap(buf[i].fastack + 1)) else buf[i];
            cur + Skipped(Mod32, buf[i..], sn) == cur + [s] + Skipped(Mod32, buf[i + 1..], sn)
  {
    assert buf[i..][1..] == buf[i + 1..];
  }

  /** The loop of ikcp_parse_fastack. */
  method CountSkips(buf: seq<OutSeg>, sn: int) returns (r: seq<OutSeg>)
    ensures r == Skipped(Mod32, buf, sn)
  {
    r := [];
    var i := 0;
    assert buf[0..] == buf;
    while i < |buf|
      invariant 0 <= i <= |buf| && |r| == i
      invariant Skipped(Mod32, buf, sn) == r + Skipped(Mod32, buf[i..], sn)
    {
      if Diff(Mod32, sn, buf[i].sn) < 0 {
        return r + buf[i..];
      }
      SkippedStep(buf, r, i, sn);
      r := r + [if sn != buf[i].sn then buf[i].(fastack := Wrap(buf[i].fastack + 1)) else buf[i]];
      i := i + 1;
    }
  }

  lemma FragmentStep(all: seq<Piece>, rest: seq<byte>, i: nat, mss: int, stream: bool)
    requires mss > 0 && i < |all| && all[i..] == Fragment(rest, mss, stream)
    ensures var size := if |rest| > mss then mss else |rest|;
            && all[i] == Piece(if stream then 0 else |all| - i - 1, rest[..size])
            && all[..i + 1] == all[..i] + [all[i]]
            && (i + 1 < |all| ==> all[i + 1..] == Fragment(rest[size..], mss, stream))
  {
    assert all[i] == all[i..][0] && all[i + 1..] == all[i..][1..];
    if |rest| > mss {
      Messages.FragmentCons(rest, mss, stream);
    }
  }

  /** The search loop of ikcp_parse_ack. */
  method FindAcked(buf: seq<OutSeg>, sn: int) returns (i: nat, found: bool)
    ensures found ==> i < |buf|
    ensures RemoveSn(Mod32, buf, sn) == if found then buf[..i] + buf[i + 1..] else buf
  {
    i, found := 0, false;
    assert buf[0..] == buf;
    while i < |buf|
      invariant i <= |buf| && !found
      invariant RemoveSn(Mod32, buf, sn) == buf[..i] + RemoveSn(Mod32, buf[i..], sn)
    {
      if sn == buf[i].sn {
        found := true;
        break;
      }
      if Diff(Mod32, sn, buf[i].sn) < 0 { break; }
      RemoveStep(buf, i, sn);
      i := i + 1;
    }
    RemoveEnd(buf, i, sn);
  }

  lemma RemoveEnd(buf: seq<OutSeg>, i: nat, sn: int)
    requires i <= |buf|
    requires i == |buf| || sn == buf[i].sn || Diff(Mod32, sn, buf[i].sn) < 0
    ensures buf[..i] + RemoveSn(Mod32, buf[i..], sn) ==
            if i < |buf| && sn == buf[i].sn then buf[..i] + buf[i + 1..] else buf
  {
    Seqs.SplitAt(buf, i);
    if i < |buf| { assert buf[i..][1..] == buf[i + 1..]; }
  }

  lemma RemoveStep(buf: seq<OutSeg>, i: nat, sn: int)
    requires i < |buf| && sn != buf[i].sn && Diff(Mod32, sn, buf[i].sn) >= 0
    ensures buf[..i] + RemoveSn(Mod32, buf[i..], sn) == buf[..i + 1] + RemoveSn(Mod32, buf[i + 1..], sn)
  {
    assert buf[i..][1..] == buf[i + 1..];
    assert buf[..i + 1] == buf[..i] + [buf[i]];
    Seqs.Assoc(buf[..i], [buf[i]], RemoveSn(Mod32, buf[i + 1..], sn));
  }

  /** The backward scan of ikcp_parse_data: whether seg's number is present, else where to put seg. */
  method ScanBack(buf: seq<InSeg>, seg: InSeg) returns (p: nat, repeat: bool)
    ensures p <= |buf|
    ensures InsertBack(Mod32, buf, seg) == if repeat then buf else buf[..p] + [seg] + buf[p..]
  {
    p := |buf|;
    repeat := false;
    assert buf[..p] == buf && buf[p..] == [];
    while p > 0
      invariant p <= |buf|
      invariant InsertBack(Mod32, buf, seg) == InsertBack(Mod32, buf[..p], seg) + buf[p..]
    {
      var last := buf[p - 1];
      if last.sn == seg.sn {
        repeat := true;
        break;
      }
      if Diff(Mod32, seg.sn, last.sn) > 0 { break; }
      ScanStep(buf, p, seg);
      p := p - 1;
    }
    ScanEnd(buf, p, seg);
  }

  lemma ScanStep(buf: seq<InSeg>, p: nat, seg: InSeg)
    requires 0 < p <= |buf| && buf[p - 1].sn != seg.sn && Diff(Mod32, seg.sn, buf[p - 1].sn) <= 0
    ensures InsertBack(Mod32, buf[..p], seg) + buf[p..] == InsertBack(Mod32, buf[..p - 1], seg) + buf[p - 1..]
  {
    assert buf[..p][..p - 1] == buf[..p - 1];
    assert buf[p - 1..] == [buf[p - 1]] + buf[p..];
  }

  lemma ScanEnd(buf: seq<InSeg>, p: nat, seg: InSeg)
    requires p <= |buf|
    requires p == 0 || buf[p - 1].sn == seg.sn || Diff(Mod32, seg.sn, buf[p - 1].sn) > 0
    ensures InsertBack(Mod32, buf[..p], seg) + buf[p..] ==
            if p > 0 && buf[p - 1].sn == seg.sn then buf else buf[..p] + [seg] + buf[p..]
  {
    Seqs.SplitAt(buf, p);
  }

  /** Where scan s ends once it has gone through the given bytes, and the status of the parse. */
  ghost function Outcome(cfg: Config, s: Scan, rest: seq<byte>): (r: (Scan, int)) {
    (InputSegs(Mod32, cfg, s, Decode(cfg.conv, rest).segs), Decode(cfg.conv, rest).status)
  }

  lemma OutcomeStep(cfg: Config, s: Scan, data: seq<byte>, off: nat, w: Wire)
    requires off <= |data| && Reads(cfg.conv, data, off, w)
    ensures Outcome(cfg, Protocol.InputSeg(Mod32, cfg, s, w), data[off + OVERHEAD + |w.data|..])
         == Outcome(cfg, s, data[off..])
  {
    var more := Decode(cfg.conv, data[off + OVERHEAD + |w.data|..]);
    assert ([w] + more.segs)[1..] == more.segs;
  }

  lemma OutcomeStop(cfg: Config, s: Scan, rest: seq<byte>, code: int)
    requires Decode(cfg.conv, rest) == Decoded([], code)
    ensures Outcome(cfg, s, rest) == (s, code)
  {
  }

  /** Parsing data from off on yields w first. */
  ghost predicate Reads(conv: int, data: seq<byte>, off: nat, w: Wire) {
    && off + OVERHEAD + |w.data| <= |data|
    && var more := Decode(conv, data[off + OVERHEAD + |w.data|..]);
       Decode(conv, data[off..]) == Decoded([w] + more.segs, more.status)
  }

  /** One header and its data, with the tests of ikcp_input. */
  method ReadSegment(conv: int, data: seq<byte>, off: nat) returns (code: int, w: Wire)
    requires off + OVERHEAD <= |data|
    ensures code == 0 ==> Reads(conv, data, off, w)
    ensures code != 0 ==> Decode(conv, data[off..]) == Decoded([], code)
  {
    HeaderAt(data, off);
    w := Wire(0, 0, 0, 0, 0, 0, []);
    if Get32(data, off) != conv { return -1, w; }
    var len := Get32(data, off + 20);
    if |data| - off - OVERHEAD < len || Signed(len) < 0 { return -2, w; }
    if !KnownCmd(data[off + 4]) { return -3, w; }
    w := WireAt(data, off, len);
    SegmentRead(conv, data, off, len);
    return 0, w;
  }

  function WireAt(data: seq<byte>, off: nat, len: nat): (w: Wire)
    requires off + OVERHEAD + len <= |data|
  {
    Wire(data[off + 4], data[off + 5], Get16(data, off + 6), Get32(data, off + 8), Get32(data, off + 12),
         Get32(data, off + 16), data[off + OVERHEAD..off + OVERHEAD + len])
  }

  lemma SegmentRead(conv: int, data: seq<byte>, off: nat, len: nat)
    requires off + OVERHEAD + len <= |data| && Get32(data, off) == conv && Get32(data, off + 20) == len
    requires Signed(len) >= 0 && KnownCmd(data[off + 4])
    ensures Reads(conv, data, off, WireAt(data, off, len))
  {
    HeaderAt(data, off);
    var rest := data[off..];
    assert rest[OVERHEAD..OVERHEAD + len] == data[off + OVERHEAD..off + OVERHEAD + len];
    assert rest[OVERHEAD + len..] == data[off + OVERHEAD + len..];
  }

  /** Reading a header in place. */
  lemma HeaderAt(data: seq<byte>, off: nat)
    requires off + OVERHEAD <= |data|
    ensures var rest := data[off..];
            && Get32(data, off) == Get32(rest, 0) && data[off + 4] == rest[4] && data[off + 5] == rest[5]
            && Get16(data, off + 6) == Get16(rest, 6) && Get32(data, off + 8) == Get32(rest, 8)
            && Get32(data, off + 12) == Get32(rest, 12) && Get32(data, off + 16) == Get32(rest, 16)
            && Get32(data, off + 20) == Get32(rest, 20)
  {
    var rest := data[off..];
    assert data[off..off + 4] == rest[0..4] && data[off + 6..off + 8] == rest[6..8];
    assert data[off + 8..off + 12] == rest[8..12] && data[off + 12..off + 16] == rest[12..16];
    assert data[off + 16..off + 20] == rest[16..20] && data[off + 20..off + 24] == rest[20..24];
  }
}
