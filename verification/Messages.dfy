/** Fragmentation and reassembly: what the user sends is what the peer's user receives. */
module Messages {
  import opened Words
  import opened Protocol
  import opened Safety
  import opened System
  import Seqs

  // ----- flattening ----------------------------------------------------------------------

  /** The pieces of a run of messages, cut as ikcp_send cuts them. */
  function Pieces(msgs: seq<seq<byte>>, mss: int): (ps: seq<Piece>)
    requires mss > 0
  {
    if msgs == [] then []
    else Pieces(msgs[..|msgs| - 1], mss) + Fragment(msgs[|msgs| - 1], mss, false)
  }

  function Concat(msgs: seq<seq<byte>>): (r: seq<byte>) {
    if msgs == [] then [] else Concat(msgs[..|msgs| - 1]) + msgs[|msgs| - 1]
  }

  function Bytes(ps: seq<Piece>): (r: seq<byte>) {
    if ps == [] then [] else Bytes(ps[..|ps| - 1]) + ps[|ps| - 1].data
  }

  function PiecesOf(q: seq<InSeg>): (ps: seq<Piece>)
    ensures |ps| == |q| && forall i :: 0 <= i < |q| ==> ps[i] == q[i].piece
  {
    Seqs.Map((s: InSeg) => s.piece, q)
  }

  lemma {:induction false} PiecesAppend(a: seq<seq<byte>>, b: seq<seq<byte>>, mss: int)
    requires mss > 0
    ensures Pieces(a + b, mss) == Pieces(a, mss) + Pieces(b, mss)
  {
    if b == [] {
      assert a + b == a;
    } else {
      assert (a + b)[..|a + b| - 1] == a + b[..|b| - 1];
      PiecesAppend(a, b[..|b| - 1], mss);
    }
  }

  lemma {:induction false} BytesAppend(a: seq<Piece>, b: seq<Piece>)
    ensures Bytes(a + b) == Bytes(a) + Bytes(b)
  {
    if b == [] {
      assert a + b == a;
    } else {
      assert (a + b)[..|a + b| - 1] == a + b[..|b| - 1];
      BytesAppend(a, b[..|b| - 1]);
    }
  }

  lemma ConcatLast(msgs: seq<seq<byte>>, m: seq<byte>)
    ensures Concat(msgs + [m]) == Concat(msgs) + m
  {
    assert (msgs + [m])[..|msgs|] == msgs;
  }

  lemma PiecesLast(msgs: seq<seq<byte>>, m: seq<byte>, mss: int)
    requires mss > 0
    ensures Pieces(msgs + [m], mss) == Pieces(msgs, mss) + Fragment(m, mss, false)
  {
    assert (msgs + [m])[..|msgs|] == msgs;
  }

  // ----- one message ---------------------------------------------------------------------

  /** Fragment unfolds into its first piece and the fragments of what follows. */
  lemma FragmentCons(data: seq<byte>, mss: int, stream: bool)
    requires mss > 0 && |data| > mss
    ensures var f, rest := Fragment(data, mss, stream), Fragment(data[mss..], mss, stream);
            && f == [Piece(if stream then 0 else |rest|, data[..mss])] + rest
            && f[1..] == rest
            && data == data[..mss] + data[mss..]
  {
  }

  lemma PrefixTail(f: seq<Piece>, q: seq<InSeg>)
    requires f != [] && f <= PiecesOf(q)
    ensures q != [] && q[0].piece == f[0] && f[1..] <= PiecesOf(q[1..])
    ensures q[..|f|] == [q[0]] + q[1..][..|f| - 1]
  {
  }

  lemma JoinedCons(x: InSeg, q: seq<InSeg>)
    ensures Joined([x] + q) == x.piece.data + Joined(q)
  {
    assert ([x] + q)[1..] == q;
  }

  /** Queue q begins with exactly the fragments of one message: the reader takes those, and their
      bytes are the message. */
  lemma {:induction false} HeadIsMessage(q: seq<InSeg>, msg: seq<byte>, mss: int)
    requires mss > 0
    requires Fragment(msg, mss, false) <= PiecesOf(q)
    ensures HeadLen(q) == |Fragment(msg, mss, false)|
    ensures Joined(q[..|Fragment(msg, mss, false)|]) == msg
    decreases |msg|
  {
    var f := Fragment(msg, mss, false);
    PrefixTail(f, q);
    JoinedCons(q[0], q[1..][..|f| - 1]);
    if |msg| > mss {
      FragmentCons(msg, mss, false);
      HeadIsMessage(q[1..], msg[mss..], mss);
    }
  }

  /** Fragment numbers count down to 0. */
  lemma {:induction false} FirstFrg(msg: seq<byte>, mss: int)
    requires mss > 0
    ensures Fragment(msg, mss, false)[0].frg == |Fragment(msg, mss, false)| - 1
  {
  }

  // ----- the receiving half --------------------------------------------------------------

  ghost predicate RcvHist(r: Rcv) {
    |r.queue| <= |r.moved| && r.moved[|r.moved| - |r.queue|..] == PiecesOf(r.queue)
  }

  /** Pieces that have left the receive queue. */
  ghost function Consumed(r: Rcv): (ps: seq<Piece>)
    requires |r.queue| <= |r.moved|
  {
    r.moved[..|r.moved| - |r.queue|]
  }

  lemma {:induction false} DrainHist(m: Arith, wnd: int, r: Rcv)
    requires RcvHist(r)
    ensures var r' := Drain(m, wnd, r); RcvHist(r') && Consumed(r') == Consumed(r) && r'.taken == r.taken
    decreases |r.buf|
  {
    if r.buf != [] && r.buf[0].sn == r.nxt && |r.queue| < wnd {
      MoveHist(m, r);
      hide RcvHist, Consumed;
      DrainHist(m, wnd, r.(buf := r.buf[1..], queue := r.queue + [r.buf[0]], nxt := Norm(m, r.nxt + 1),
                           moved := r.moved + [r.buf[0].piece]));
    }
  }

  lemma MoveHist(m: Arith, r: Rcv)
    requires RcvHist(r) && r.buf != []
    ensures var r1 := r.(buf := r.buf[1..], queue := r.queue + [r.buf[0]], nxt := Norm(m, r.nxt + 1),
                         moved := r.moved + [r.buf[0].piece]);
            RcvHist(r1) && Consumed(r1) == Consumed(r)
  {
    var n := |r.moved| - |r.queue|;
    assert PiecesOf(r.queue + [r.buf[0]]) == PiecesOf(r.queue) + [r.buf[0].piece];
    Seqs.SplitSnoc(r.moved, n, r.buf[0].piece);
  }

  lemma {:induction false} InputHist(m: Arith, cfg: Config, s: Scan, d: Datagram)
    requires RcvHist(s.k.rcv)
    ensures var r := InputSegs(m, cfg, s, d).k.rcv;
            RcvHist(r) && Consumed(r) == Consumed(s.k.rcv) && r.taken == s.k.rcv.taken
    decreases |d|
  {
    if d != [] {
      var r, w := s.k.rcv, d[0];
      DrainHist(m, cfg.rcvWnd, r.(buf := InsertBack(m, r.buf, InSeg(w.sn, Piece(w.frg, w.data)))));
      InputHist(m, cfg, InputSeg(m, cfg, s, w), d[1..]);
    }
  }

  lemma TakeHist(r: Rcv)
    requires RcvHist(r)
    ensures RcvHist(TakeHead(r, false))
    ensures Consumed(TakeHead(r, false)) == Consumed(r) + PiecesOf(r.queue[..HeadLen(r.queue)])
  {
    hide HeadLen, PiecesOf, Joined;
    var n, m := HeadLen(r.queue), |r.moved| - |r.queue|;
    var r' := TakeHead(r, false);
    assert r'.moved == r.moved && r'.queue == r.queue[n..] && |r'.moved| - |r'.queue| == m + n;
    Seqs.CutFurther(r.moved, m, n);
    PiecesCut(r.queue, n);
  }

  lemma PiecesCut(q: seq<InSeg>, n: nat)
    requires n <= |q|
    ensures PiecesOf(q)[..n] == PiecesOf(q[..n]) && PiecesOf(q)[n..] == PiecesOf(q[n..])
  {
  }

  /** What leaves the queue in a successful non-peek receive. */
  lemma RecvHist(m: Arith, cfg: Config, k: Ctl, len: int)
    requires RcvHist(k.rcv)
    ensures var r := Recv(m, cfg, k, len).rcv;
            && RcvHist(r)
            && (if len < 0 || RecvCode(k.rcv, len) < 0
                then Consumed(r) == Consumed(k.rcv) && r.taken == k.rcv.taken
                else
                  var head := k.rcv.queue[..HeadLen(k.rcv.queue)];
                  Consumed(r) == Consumed(k.rcv) + PiecesOf(head) && r.taken == k.rcv.taken + [Joined(head)])
  {
    if RecvCode(k.rcv, len) >= 0 {
      if len >= 0 { TakeHist(k.rcv); }
      DrainHist(m, cfg.rcvWnd, TakeHead(k.rcv, len < 0));
    }
  }

  // ----- the invariant -------------------------------------------------------------------

  ghost predicate AllLast(ps: seq<Piece>) {
    forall i :: 0 <= i < |ps| ==> ps[i].frg == 0
  }

  ghost predicate Sendable(msgs: seq<seq<byte>>, mss: int)
    requires mss > 0
  {
    forall i :: 0 <= i < |msgs| ==> |Fragment(msgs[i], mss, false)| < WND_RCV
  }

  ghost predicate SenderMsgs(cfg: Config, s: Snd) {
    if cfg.stream
    then AllLast(s.numbered + s.queue) && Bytes(s.numbered + s.queue) == Concat(s.accepted)
    else s.numbered + s.queue == Pieces(s.accepted, cfg.Mss()) && Sendable(s.accepted, cfg.Mss())
  }

  /** cfg and accepted are the sender's. */
  ghost predicate ReceiverMsgs(cfg: Config, accepted: seq<seq<byte>>, r: Rcv) {
    && RcvHist(r)
    && (if cfg.stream
        then Bytes(Consumed(r)) == Concat(r.taken)
        else Consumed(r) == Pieces(r.taken, cfg.Mss()) && r.taken <= accepted)
  }

  ghost predicate MsgInv(c: Pair, s: Sys) {
    && SenderMsgs(c.x, s.x.snd) && ReceiverMsgs(c.x, s.x.snd.accepted, s.y.rcv)
    && SenderMsgs(c.y, s.y.snd) && ReceiverMsgs(c.y, s.y.snd.accepted, s.x.rcv)
  }

  // ----- sending -------------------------------------------------------------------------

  lemma BytesOne(p: Piece)
    ensures Bytes([p]) == p.data
  {
    assert [p][..0] == [];
  }

  lemma {:induction false} FragmentStream(data: seq<byte>, mss: int)
    requires mss > 0
    ensures AllLast(Fragment(data, mss, true)) && Bytes(Fragment(data, mss, true)) == data
    decreases |data|
  {
    FragmentBytes(data, mss, true);
    if |data| > mss {
      FragmentCons(data, mss, true);
      FragmentStream(data[mss..], mss);
    }
  }

  lemma ExtendBytes(front: seq<Piece>, p: Piece, more: seq<byte>)
    ensures Bytes(front + [Piece(0, p.data + more)]) == Bytes(front + [p]) + more
  {
    assert (front + [Piece(0, p.data + more)])[..|front|] == front;
    assert (front + [p])[..|front|] == front;
  }

  lemma ExtendStream(cfg: Config, s: Snd, more: seq<byte>)
    requires cfg.stream && AllLast(s.numbered + s.queue)
    requires more == [] || ExtendLast(cfg, s, more) != s
    ensures var t := ExtendLast(cfg, s, more);
            AllLast(t.numbered + t.queue) && Bytes(t.numbered + t.queue) == Bytes(s.numbered + s.queue) + more
  {
    if s.queue != [] && |s.queue[|s.queue| - 1].data| < cfg.Mss() {
      var n := |s.queue| - 1;
      var p, front := s.queue[n], s.numbered + s.queue[..n];
      assert s.numbered + s.queue == front + [p];
      assert s.numbered + (s.queue[..n] + [Piece(0, p.data + more)]) == front + [Piece(0, p.data + more)];
      ExtendBytes(front, p, more);
    }
  }

  lemma AllLastAppend(a: seq<Piece>, b: seq<Piece>)
    requires AllLast(a) && AllLast(b)
    ensures AllLast(a + b)
  {
  }

  lemma AppendStream(ps: seq<Piece>, q: seq<Piece>, more: seq<byte>, mss: int)
    requires mss > 0 && AllLast(ps + q)
    ensures var f := Fragment(more, mss, true);
            AllLast(ps + (q + f)) && Bytes(ps + (q + f)) == Bytes(ps + q) + more
  {
    var f := Fragment(more, mss, true);
    FragmentStream(more, mss);
    BytesAppend(ps + q, f);
    AllLastAppend(ps + q, f);
    Seqs.Assoc(ps, q, f);
  }

  lemma SendStream(cfg: Config, s: Snd, data: seq<byte>)
    requires cfg.stream && SenderMsgs(cfg, s)
    ensures SenderMsgs(cfg, Send(cfg, s, data).0)
  {
    var ext := Extension(cfg, s, |data|);
    var s1 := ExtendLast(cfg, s, data[..ext]);
    ExtendStream(cfg, s, data[..ext]);
    ConcatLast(s.accepted, data);
    ConcatLast(s.accepted, data[..ext]);
    Seqs.SplitAt(data, ext);
    AppendStream(s.numbered, s1.queue, data[ext..], cfg.Mss());
    Seqs.Assoc(Concat(s.accepted), data[..ext], data[ext..]);
    hide Bytes, Concat, AllLast, Fragment, FragCount, ExtendLast;
    assert data[ext..] == [] ==> data[..ext] == data;
  }

  lemma SendMessage(cfg: Config, s: Snd, data: seq<byte>)
    requires !cfg.stream && SenderMsgs(cfg, s)
    ensures SenderMsgs(cfg, Send(cfg, s, data).0)
  {
    FragmentCount(data, cfg.Mss(), false);
    PiecesLast(s.accepted, data, cfg.Mss());
    assert data[0..] == data;
    var f := Fragment(data, cfg.Mss(), false);
    assert s.numbered + (s.queue + f) == s.numbered + s.queue + f;
  }

  /** How much longer the queue's bytes get by extending its last segment. */
  lemma ExtendLastBytes(cfg: Config, s: Snd, more: seq<byte>)
    requires more == [] || Extension(cfg, s, |more|) == |more|
    ensures Bytes(ExtendLast(cfg, s, more).queue) == Bytes(s.queue) + more
  {
    if cfg.stream && s.queue != [] && |s.queue[|s.queue| - 1].data| < cfg.Mss() {
      var n := |s.queue| - 1;
      var p, q := s.queue[n], s.queue[..n] + [Piece(0, s.queue[n].data + more)];
      assert q[..n] == s.queue[..n];
    }
  }

  lemma {:induction false} FragmentBytes(data: seq<byte>, mss: int, stream: bool)
    requires mss > 0
    ensures Bytes(Fragment(data, mss, stream)) == data
    decreases |data|
  {
    if |data| <= mss {
      BytesOne(Piece(0, data));
    } else {
      FragmentCons(data, mss, stream);
      FragmentBytes(data[mss..], mss, stream);
      var first := Fragment(data, mss, stream)[0];
      BytesOne(first);
      BytesAppend([first], Fragment(data[mss..], mss, stream));
    }
  }

  /** What fits once still fits. */
  lemma ExtensionAgain(cfg: Config, s: Snd, len: nat)
    ensures Extension(cfg, s, Extension(cfg, s, len)) == Extension(cfg, s, len)
    ensures FragCount(0, cfg.Mss()) == 1
  {
  }

  /** What ikcp_send answers and what it leaves in snd_queue: 0 exactly when what does not fit the last segment
      needs fewer than 128 fragments, and then all bytes are queued; otherwise -2, and only those that
      extended the last segment are. */
  lemma SendVerdict(cfg: Config, s: Snd, data: seq<byte>)
    ensures var (t, ret) := Send(cfg, s, data);
            var ext := Extension(cfg, s, |data|);
            && (ret == 0 <==> FragCount(|data| - ext, cfg.Mss()) < WND_RCV) && (ret == 0 || ret == -2)
            && Bytes(t.queue) == Bytes(s.queue) + (if ret == 0 then data else data[..ext])
  {
    hide Bytes, Fragment, ExtendLast, Extension, FragCount;
    var ext := Extension(cfg, s, |data|);
    var s1 := ExtendLast(cfg, s, data[..ext]);
    ExtensionAgain(cfg, s, |data|);
    ExtendLastBytes(cfg, s, data[..ext]);
    Seqs.SplitAt(data, ext);
    FragmentBytes(data[ext..], cfg.Mss(), cfg.stream);
    BytesAppend(s1.queue, Fragment(data[ext..], cfg.Mss(), cfg.stream));
    Seqs.Assoc(Bytes(s.queue), data[..ext], data[ext..]);
    assert data[ext..] == [] ==> data[..ext] == data;
  }

  /** In message mode the segments themselves: those of the message are appended, or nothing is. */
  lemma SendSegments(cfg: Config, s: Snd, data: seq<byte>)
    requires !cfg.stream
    ensures var (t, ret) := Send(cfg, s, data);
            && t.queue == s.queue + (if ret == 0 then Fragment(data, cfg.Mss(), false) else [])
            && (ret == 0 <==> |Fragment(data, cfg.Mss(), false)| < WND_RCV)
  {
    FragmentCount(data, cfg.Mss(), false);
    assert data[0..] == data;
  }

  /** A refused send leaves snd_queue as it was exactly when it had no last segment to extend. */
  lemma RefusedSend(cfg: Config, s: Snd, data: seq<byte>)
    requires Send(cfg, s, data).1 != 0
    ensures Send(cfg, s, data).0.queue == s.queue <==>
            !(cfg.stream && s.queue != [] && |s.queue[|s.queue| - 1].data| < cfg.Mss())
  {
    var ext := Extension(cfg, s, |data|);
    if cfg.stream && s.queue != [] && |s.queue[|s.queue| - 1].data| < cfg.Mss() {
      SendVerdict(cfg, s, data);
      assert ext > 0;
      assert |Bytes(Send(cfg, s, data).0.queue)| == |Bytes(s.queue)| + ext;
    }
  }

  /** A concrete refused send that leaves bytes behind: 128 * 26 bytes after one queued byte. */
  lemma RefusedSendExample()
    ensures var cfg: Config := RawConfig(0, 50, 32, 128, 100, 0, 100, 0, 5, false, true, 20);
            var s := Snd(0, 0, [Piece(0, [7])], [], [], [[7]]);
            var data := seq(3328, i => 9);
            && Send(cfg, s, data).1 == -2
            && |Send(cfg, s, data).0.queue[0].data| == 26
  {
  }

  // ----- receiving -----------------------------------------------------------------------

  lemma PiecesFirst(msgs: seq<seq<byte>>, mss: int)
    requires mss > 0 && msgs != []
    ensures Pieces(msgs, mss) == Fragment(msgs[0], mss, false) + Pieces(msgs[1..], mss)
  {
    PiecesAppend([msgs[0]], msgs[1..], mss);
    Seqs.SplitFirst(msgs);
    assert Pieces([msgs[0]][..0], mss) == [];
  }

  lemma Unread(cfg: Config, s: Snd, r: Rcv)
    requires !cfg.stream && SenderMsgs(cfg, s) && ReceiverMsgs(cfg, s.accepted, r) && r.moved <= s.numbered
    ensures PiecesOf(r.queue) <= Pieces(s.accepted[|r.taken|..], cfg.Mss())
  {
    var rest := s.accepted[|r.taken|..];
    assert s.accepted == r.taken + rest;
    PiecesAppend(r.taken, rest, cfg.Mss());
    assert r.moved == Consumed(r) + PiecesOf(r.queue);
    assert r.moved <= s.numbered + s.queue;
    Seqs.PrefixCancel(Consumed(r), PiecesOf(r.queue), Pieces(rest, cfg.Mss()));
  }

  /** The queue of a receiver continues the sender's messages where the user stopped reading. */
  lemma NextMessage(cfg: Config, s: Snd, r: Rcv)
    requires !cfg.stream && SenderMsgs(cfg, s) && ReceiverMsgs(cfg, s.accepted, r) && r.moved <= s.numbered
    requires r.queue != []
    ensures |r.taken| < |s.accepted|
    ensures var f := Fragment(s.accepted[|r.taken|], cfg.Mss(), false);
            && f[0] == r.queue[0].piece && |f| < WND_RCV
            && (|f| <= |r.queue| ==> f <= PiecesOf(r.queue))
  {
    Unread(cfg, s, r);
    PiecesFirst(s.accepted[|r.taken|..], cfg.Mss());
    assert PiecesOf(r.queue)[0] == r.queue[0].piece;
  }

  /** Message mode: a successful receive returns the next message of the sender, whole. */
  lemma RecvMessage(cfg: Config, s: Snd, r: Rcv, len: int)
    requires !cfg.stream && SenderMsgs(cfg, s) && ReceiverMsgs(cfg, s.accepted, r) && r.moved <= s.numbered
    requires RecvCode(r, len) >= 0
    ensures |r.taken| < |s.accepted|
    ensures var head := r.queue[..HeadLen(r.queue)];
            && Joined(head) == s.accepted[|r.taken|]
            && PiecesOf(head) == Fragment(s.accepted[|r.taken|], cfg.Mss(), false)
  {
    NextMessage(cfg, s, r);
    var msg := s.accepted[|r.taken|];
    FirstFrg(msg, cfg.Mss());
    HeadIsMessage(r.queue, msg, cfg.Mss());
    var f := Fragment(msg, cfg.Mss(), false);
    assert PiecesOf(r.queue[..|f|]) == f;
  }

  lemma RecvMsgOk(cfg: Config, s: Snd, rcfg: Config, k: Ctl, len: int)
    requires SenderMsgs(cfg, s) && ReceiverMsgs(cfg, s.accepted, k.rcv) && k.rcv.moved <= s.numbered
    ensures ReceiverMsgs(cfg, s.accepted, Recv(Exact, rcfg, k, len).rcv)
  {
    RecvHist(Exact, rcfg, k, len);
    var r := k.rcv;
    if len >= 0 && RecvCode(r, len) >= 0 {
      var head := r.queue[..HeadLen(r.queue)];
      if cfg.stream {
        var n := |r.moved| - |r.queue|;
        assert PiecesOf(r.queue)[0] == r.moved[n] == (s.numbered + s.queue)[n];
        assert head == [r.queue[0]];
        assert Joined(head) == r.queue[0].piece.data by { assert Joined(head[1..]) == []; }
        BytesAppend(Consumed(r), PiecesOf(head));
        assert Bytes(PiecesOf(head)[..0]) == [];
        ConcatLast(r.taken, Joined(head));
      } else {
        RecvMessage(cfg, s, r, len);
        PiecesLast(r.taken, Joined(head), cfg.Mss());
      }
    }
  }

  // ----- runs ----------------------------------------------------------------------------

  /** What a call of x does to message bookkeeping. */
  ghost predicate MsgEffect(c: Pair, s: Sys, k: Ctl) {
    && SenderMsgs(c.x, k.snd) && s.x.snd.accepted <= k.snd.accepted
    && ReceiverMsgs(c.y, s.y.snd.accepted, k.rcv)
  }

  lemma DeliverMsg(c: Pair, s: Sys, d: Datagram)
    requires Inv(c, s) && MsgInv(c, s) && d in s.yx
    ensures MsgEffect(c, s, Input(Exact, c.x, s.x, d))
  {
    InputOk(c.x, s.x, d, s.y.rcv, s.y.snd.numbered);
    InputHist(Exact, c.x, Scan(s.x, false, 0), d);
  }

  lemma FlushMsg(c: Pair, s: Sys, k: Ctl)
    requires Inv(c, s) && MsgInv(c, s) && k == s.x.(clock := k.clock)
    ensures MsgEffect(c, s, Flush(Exact, c.x, k).0)
  {
    FlushSndOk(c.x, k);
  }

  lemma UpdateMsg(c: Pair, s: Sys, time: u32)
    requires Inv(c, s) && MsgInv(c, s)
    ensures MsgEffect(c, s, Update(Exact, c.x, s.x, time).0)
  {
    FlushMsg(c, s, s.x.(clock := Tick(c.x.interval, s.x.clock, time).0));
  }

  lemma SendMsg(c: Pair, s: Sys, data: seq<byte>)
    requires MsgInv(c, s)
    ensures MsgEffect(c, s, s.x.(snd := Send(c.x, s.x.snd, data).0))
  {
    if c.x.stream { SendStream(c.x, s.x.snd, data); } else { SendMessage(c.x, s.x.snd, data); }
  }

  lemma RecvMsg(c: Pair, s: Sys, len: int)
    requires Inv(c, s) && MsgInv(c, s)
    ensures MsgEffect(c, s, Recv(Exact, c.x, s.x, len))
  {
    RecvMsgOk(c.y, s.y.snd, c.x, s.x, len);
  }

  lemma ActMsg(c: Pair, s: Sys, op: Op)
    requires Inv(c, s) && MsgInv(c, s)
    ensures MsgEffect(c, s, Act(Exact, c.x, s.x, s.yx, op).0)
  {
    hide MsgEffect, Inv, MsgInv, Act, Send, Recv, Update, Flush, Input;
    IdleMsg(c, s);
    ActIs(Exact, c.x, s.x, s.yx, op);
    match op
    case DoSend(data) => SendMsg(c, s, data);
    case DoRecv(len) => RecvMsg(c, s, len);
    case DoUpdate(time) => UpdateMsg(c, s, time);
    case DoFlush => FlushMsg(c, s, s.x);
    case DoDeliver(i) => if i < |s.yx| { DeliverMsg(c, s, s.yx[i]); }
  }

  lemma ActIs(m: Arith, cfg: Config, k: Ctl, inbox: seq<Datagram>, op: Op)
    ensures Act(m, cfg, k, inbox, op).0 ==
            match op
            case DoSend(data) => k.(snd := Send(cfg, k.snd, data).0)
            case DoRecv(len) => Recv(m, cfg, k, len)
            case DoUpdate(time) => Update(m, cfg, k, time).0
            case DoFlush => Flush(m, cfg, k).0
            case DoDeliver(i) => if i < |inbox| then Input(m, cfg, k, inbox[i]) else k
  {
    hide Send, Recv, Update, Flush, Input;
  }

  lemma IdleMsg(c: Pair, s: Sys)
    requires MsgInv(c, s)
    ensures MsgEffect(c, s, s.x)
  {
  }

  lemma {:induction false} RunMsg(c: Pair, acts: seq<Action>)
    ensures MsgInv(c, Run(Exact, c, acts))
  {
    if acts != [] {
      var s, a := Run(Exact, c, acts[..|acts| - 1]), acts[|acts| - 1];
      RunMsg(c, acts[..|acts| - 1]);
      RunInv(c, acts[..|acts| - 1]);
      if a.side.A? { ActMsg(c, s, a.op); } else { ActMsg(c.Flip(), s.Flip(), a.op); }
    }
  }

  lemma PrefixBytes(a: seq<Piece>, b: seq<Piece>)
    requires a <= b
    ensures Bytes(a) <= Bytes(b)
  {
    BytesAppend(a, b[|a|..]);
    assert b == a + b[|a|..];
  }

  /** What y's user has read is a prefix of what x's user has sent. */
  ghost predicate Delivered(c: Pair, s: Sys) {
    if c.x.stream then Concat(s.y.rcv.taken) <= Concat(s.x.snd.accepted) else s.y.rcv.taken <= s.x.snd.accepted
  }

  lemma DeliveredInv(c: Pair, s: Sys)
    requires Inv(c, s) && MsgInv(c, s)
    ensures Delivered(c, s)
  {
    if c.x.stream {
      var all := s.x.snd.numbered + s.x.snd.queue;
      assert Consumed(s.y.rcv) <= all;
      PrefixBytes(Consumed(s.y.rcv), all);
    }
  }

  /** Message round trip in both directions, over every run. */
  lemma MessageRoundTrip(c: Pair, acts: seq<Action>)
    ensures var s := Run(Exact, c, acts); Delivered(c, s) && Delivered(c.Flip(), s.Flip())
  {
    RunInv(c, acts);
    RunMsg(c, acts);
    var s := Run(Exact, c, acts);
    DeliveredInv(c, s);
    DeliveredInv(c.Flip(), s.Flip());
  }

  /** The first of y's queue belongs to the message that y's user reads next, and is complete once as many
      segments are there as any message has. */
  lemma FullReadable(c: Pair, s: Sys)
    requires Inv(c, s) && MsgInv(c, s) && |s.y.rcv.queue| >= c.y.rcvWnd
    ensures PeekSize(s.y.rcv.queue) >= 0
  {
    var r := s.y.rcv;
    if c.x.stream {
      StreamHead(c, s);
    } else {
      NextMessage(c.x, s.x.snd, r);
      FirstFrg(s.x.snd.accepted[|r.taken|], c.x.Mss());
    }
  }

  /** In stream mode every segment ends a message. */
  lemma StreamHead(c: Pair, s: Sys)
    requires Inv(c, s) && MsgInv(c, s) && c.x.stream && s.y.rcv.queue != []
    ensures s.y.rcv.queue[0].piece.frg == 0
  {
    var r := s.y.rcv;
    var n := |r.moved| - |r.queue|;
    assert PiecesOf(r.queue)[0] == r.moved[n] == (s.x.snd.numbered + s.x.snd.queue)[n];
  }

  /** Reading a complete message takes at least one segment off those the receiver holds. */
  lemma ReadTakes(c: Pair, s: Sys, len: int)
    requires RcvHist(s.y.rcv) && 0 <= PeekSize(s.y.rcv.queue) <= len
    ensures var r, r' := s.y.rcv, Recv(Exact, c.y, s.y, len).rcv;
            && |r'.taken| == |r.taken| + 1 && |r'.queue| + |r'.buf| < |r.queue| + |r.buf|
            && |r'.queue| - |r.queue| < r'.nxt - r.nxt
  {
    RecvHist(Exact, c.y, s.y, len);
    DrainNet(c.y.rcvWnd, TakeHead(s.y.rcv, false));
  }

  /** No receive-window deadlock: a full receive queue starts with a complete message, and reading
      it makes room or lets the next number in. */
  lemma FullQueueReadable(c: Pair, acts: seq<Action>, len: int)
    ensures var s := Run(Exact, c, acts);
            |s.y.rcv.queue| >= c.y.rcvWnd ==>
              && PeekSize(s.y.rcv.queue) >= 0
              && (len >= PeekSize(s.y.rcv.queue) ==>
                    var r := Recv(Exact, c.y, s.y, len).rcv;
                    && |r.taken| == |s.y.rcv.taken| + 1
                    && (|r.queue| < c.y.rcvWnd || s.y.rcv.nxt < r.nxt))
  {
    RunInv(c, acts);
    RunMsg(c, acts);
    var s := Run(Exact, c, acts);
    if |s.y.rcv.queue| >= c.y.rcvWnd {
      FullReadable(c, s);
      if len >= PeekSize(s.y.rcv.queue) { ReadTakes(c, s, len); }
    }
  }

  /** Draining lengthens the queue by as much as it advances the next number and shortens the buffer. */
  lemma {:induction false} DrainNet(wnd: int, r: Rcv)
    ensures var r' := Drain(Exact, wnd, r);
            |r'.queue| - |r.queue| == r'.nxt - r.nxt == |r.buf| - |r'.buf| >= 0
    decreases |r.buf|
  {
    if r.buf != [] && r.buf[0].sn == r.nxt && |r.queue| < wnd {
      DrainNet(wnd, r.(buf := r.buf[1..], queue := r.queue + [r.buf[0]], nxt := r.nxt + 1,
                       moved := r.moved + [r.buf[0].piece]));
    }
  }

  // ----- what a send queues, and what a receive answers ----------------------------------

  /** Fragment i of a message: its bytes from i * mss on, and the count of fragments still to come, or 0 in stream mode. */
  lemma {:induction false} FragmentAt(data: seq<byte>, mss: int, stream: bool, i: nat)
    requires mss > 0 && i < |Fragment(data, mss, stream)|
    ensures 0 <= i * mss <= |data|
    ensures var f := Fragment(data, mss, stream);
            && f[i].frg == (if stream then 0 else |f| - 1 - i)
            && f[i].data == data[i * mss..Min(|data|, (i + 1) * mss)]
    decreases |data|
  {
    if |data| > mss {
      FragmentCons(data, mss, stream);
      if i > 0 {
        var rest := data[mss..];
        FragmentAt(rest, mss, stream, i - 1);
        assert i * mss == (i - 1) * mss + mss && (i + 1) * mss == i * mss + mss;
        hide Fragment;
        assert rest[(i - 1) * mss..Min(|rest|, i * mss)] == data[i * mss..Min(|data|, (i + 1) * mss)];
      }
    }
  }

  /** A stream-mode send first fills the last segment up to the mss. */
  lemma SendFills(cfg: Config, s: Snd, data: seq<byte>)
    requires cfg.stream && s.queue != [] && |s.queue[|s.queue| - 1].data| < cfg.Mss()
    ensures var n, t := |s.queue| - 1, Send(cfg, s, data).0;
            && n < |t.queue| && t.queue[..n] == s.queue[..n] && t.queue[n].frg == 0
            && t.queue[n].data == s.queue[n].data + data[..Min(|data|, cfg.Mss() - |s.queue[n].data|)]
  {
  }

  /** Which answer a receive gives, in terms of the message that y's user reads next: -1 with nothing there, -2 while fragments
      of it are missing, -3 if it is longer than the buffer (whose length counts without its sign), and else its length. */
  lemma RecvVerdict(c: Pair, acts: seq<Action>, len: int)
    requires !c.x.stream
    ensures var s := Run(Exact, c, acts);
            var r, code := s.y.rcv, RecvCode(s.y.rcv, len);
            && (r.queue == [] <==> code == -1)
            && (r.queue != [] ==>
                  && |r.taken| < |s.x.snd.accepted|
                  && var msg := s.x.snd.accepted[|r.taken|];
                     code == if |r.queue| < |Fragment(msg, c.x.Mss(), false)| then -2
                             else if |msg| > (if len < 0 then -len else len) then -3 else |msg|)
  {
    var s := Run(Exact, c, acts);
    RunInv(c, acts);
    RunMsg(c, acts);
    hide Run;
    var r := s.y.rcv;
    if r.queue != [] {
      NextMessage(c.x, s.x.snd, r);
      var msg := s.x.snd.accepted[|r.taken|];
      FirstFrg(msg, c.x.Mss());
      if |Fragment(msg, c.x.Mss(), false)| <= |r.queue| { HeadIsMessage(r.queue, msg, c.x.Mss()); }
    }
  }

  /** In stream mode a receive takes one segment. */
  lemma StreamVerdict(c: Pair, acts: seq<Action>, len: int)
    requires c.x.stream
    ensures var r := Run(Exact, c, acts).y.rcv;
            RecvCode(r, len) == if r.queue == [] then -1
                                else if |r.queue[0].piece.data| > (if len < 0 then -len else len) then -3
                                else |r.queue[0].piece.data|
  {
    var s := Run(Exact, c, acts);
    RunInv(c, acts);
    RunMsg(c, acts);
    hide Run;
    var q := s.y.rcv.queue;
    if q != [] {
      StreamHead(c, s);
      assert HeadLen(q) == 1 && q[..1] == [q[0]];
      assert Joined([q[0]]) == q[0].piece.data + Joined([q[0]][1..]) && Joined([q[0]][1..]) == [];
    }
  }
}
