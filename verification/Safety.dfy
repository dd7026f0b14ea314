/** What each half of an endpoint keeps, on unbounded sequence numbers. */
module Safety {
  import opened Words
  import opened Protocol
  import Seqs

  // ----- predicates ----------------------------------------------------------------------

  ghost predicate SortedOut(buf: seq<OutSeg>) {
    forall i, j :: 0 <= i < j < |buf| ==> buf[i].sn < buf[j].sn
  }

  ghost predicate SortedIn(buf: seq<InSeg>) {
    forall i, j :: 0 <= i < j < |buf| ==> buf[i].sn < buf[j].sn
  }

  ghost predicate InOut(buf: seq<OutSeg>, n: int) {
    exists i :: 0 <= i < |buf| && buf[i].sn == n
  }

  ghost predicate InIn(buf: seq<InSeg>, n: int) {
    exists i :: 0 <= i < |buf| && buf[i].sn == n
  }

  /** The receiver has number n: delivered in order, or waiting in rcv_buf. */
  ghost predicate Held(r: Rcv, n: int) {
    n < r.nxt || InIn(r.buf, n)
  }

  /** Entry s is unaltered: it carries the piece that got its number. */
  ghost predicate Numbered(s: OutSeg, una: int, numbered: seq<Piece>) {
    0 <= una <= s.sn < |numbered| && s.piece == numbered[s.sn]
  }

  /** Fragment numbers fit the 8 bits they get on the wire. */
  ghost predicate SmallFrg(ps: seq<Piece>) {
    forall i :: 0 <= i < |ps| ==> 0 <= ps[i].frg < WND_RCV
  }

  ghost predicate SndOk(s: Snd) {
    && s.nxt == |s.numbered|
    && 0 <= s.una == Shrink(s).una <= s.nxt
    && SortedOut(s.buf)
    && (forall i :: 0 <= i < |s.buf| ==> Numbered(s.buf[i], s.una, s.numbered))
    && SmallFrg(s.numbered)
    && SmallFrg(s.queue)
  }

  /** Entry s of rcv_buf lies in the window and is what the peer numbered. */
  ghost predicate Awaited(s: InSeg, nxt: int, wnd: int, source: seq<Piece>) {
    0 <= nxt <= s.sn < nxt + wnd && s.sn < |source| && s.piece == source[s.sn]
  }

  ghost predicate Drained(wnd: int, r: Rcv) {
    r.buf == [] || r.buf[0].sn != r.nxt || |r.queue| >= wnd
  }

  /** All of RcvOk but Drained, which is broken while ParseData runs. */
  ghost predicate RcvCore(wnd: int, r: Rcv, source: seq<Piece>) {
    && r.nxt == |r.moved|
    && r.moved <= source
    && |r.queue| <= wnd
    && SortedIn(r.buf)
    && (forall i :: 0 <= i < |r.buf| ==> Awaited(r.buf[i], r.nxt, wnd, source))
  }

  ghost predicate RcvOk(wnd: int, r: Rcv, source: seq<Piece>) {
    RcvCore(wnd, r, source) && Drained(wnd, r)
  }

  // ----- the receiving half --------------------------------------------------------------

  /** Where the backward scan stops: after all entries below sn. */
  ghost function Place(buf: seq<InSeg>, sn: int): (p: nat)
    ensures p <= |buf|
  {
    if buf == [] || buf[|buf| - 1].sn < sn then |buf| else Place(buf[..|buf| - 1], sn)
  }

  lemma {:induction false} PlaceSplits(buf: seq<InSeg>, sn: int)
    requires SortedIn(buf)
    ensures forall i :: 0 <= i < Place(buf, sn) ==> buf[i].sn < sn
    ensures forall i :: Place(buf, sn) <= i < |buf| ==> sn <= buf[i].sn
  {
    if !(buf == [] || buf[|buf| - 1].sn < sn) {
      PlaceSplits(buf[..|buf| - 1], sn);
    }
  }

  lemma PlaceFinds(buf: seq<InSeg>, sn: int)
    requires SortedIn(buf)
    ensures var p := Place(buf, sn); InIn(buf, sn) <==> p < |buf| && buf[p].sn == sn
  {
    PlaceSplits(buf, sn);
    var p := Place(buf, sn);
    if p < |buf| {
      assert forall i :: p < i < |buf| ==> buf[p].sn < buf[i].sn;
    }
  }

  lemma {:induction false} InsertBackAt(buf: seq<InSeg>, seg: InSeg)
    requires SortedIn(buf)
    ensures var p := Place(buf, seg.sn);
            InsertBack(Exact, buf, seg) ==
            if p < |buf| && buf[p].sn == seg.sn then buf else buf[..p] + [seg] + buf[p..]
  {
    if buf == [] || buf[|buf| - 1].sn < seg.sn {
      Seqs.InsertAtEnd(buf, seg);
    } else {
      var front := buf[..|buf| - 1];
      InsertBackAt(front, seg);
      PlaceFinds(front, seg.sn);
      PlaceFinds(buf, seg.sn);
      Seqs.SplitLast(buf);
      Seqs.InsertInFront(buf, Place(front, seg.sn), seg);
    }
  }

  /** Membership after an insertion. */
  lemma InInsert(a: seq<InSeg>, seg: InSeg, b: seq<InSeg>)
    ensures forall n :: InIn(a + [seg] + b, n) <==> InIn(a + b, n) || n == seg.sn
  {
    var s, r := a + b, a + [seg] + b;
    forall n
      ensures InIn(r, n) <==> InIn(s, n) || n == seg.sn
    {
      if InIn(r, n) && n != seg.sn {
        var i :| 0 <= i < |r| && r[i].sn == n;
        assert s[if i < |a| then i else i - 1].sn == n;
      }
      if InIn(s, n) {
        var i :| 0 <= i < |s| && s[i].sn == n;
        assert r[if i < |a| then i else i + 1].sn == n;
      }
      assert r[|a|].sn == seg.sn;
    }
  }

  lemma InsertBackSorted(buf: seq<InSeg>, seg: InSeg)
    requires SortedIn(buf)
    ensures SortedIn(InsertBack(Exact, buf, seg))
  {
    InsertBackAt(buf, seg);
    PlaceSplits(buf, seg.sn);
  }

  /** The backward scan is duplicate-free insertion. */
  lemma InsertBackMembers(buf: seq<InSeg>, seg: InSeg)
    requires SortedIn(buf)
    ensures InIn(buf, seg.sn) ==> InsertBack(Exact, buf, seg) == buf
    ensures !InIn(buf, seg.sn) ==> multiset(InsertBack(Exact, buf, seg)) == multiset(buf) + multiset{seg}
    ensures forall n :: InIn(InsertBack(Exact, buf, seg), n) <==> InIn(buf, n) || n == seg.sn
    ensures forall x :: x in InsertBack(Exact, buf, seg) ==> x in buf || x == seg
  {
    InsertBackAt(buf, seg);
    PlaceFinds(buf, seg.sn);
    var p := Place(buf, seg.sn);
    if !InIn(buf, seg.sn) {
      Seqs.SplitAt(buf, p);
      InInsert(buf[..p], seg, buf[p..]);
    }
  }

  /** Draining keeps everything held, extends `moved`, and stops only for a gap or a full queue. */
  lemma {:induction false} DrainOk(wnd: int, r: Rcv, source: seq<Piece>)
    requires RcvCore(wnd, r, source)
    ensures RcvOk(wnd, Drain(Exact, wnd, r), source)
    ensures forall n :: Held(r, n) ==> Held(Drain(Exact, wnd, r), n)
    ensures r.moved <= Drain(Exact, wnd, r).moved
    ensures r.buf != [] && r.buf[0].sn == r.nxt && |r.queue| < wnd ==> r.nxt < Drain(Exact, wnd, r).nxt
    ensures Drain(Exact, wnd, r).taken == r.taken
    decreases |r.buf|
  {
    if r.buf != [] && r.buf[0].sn == r.nxt && |r.queue| < wnd {
      var r1 := r.(buf := r.buf[1..], queue := r.queue + [r.buf[0]], nxt := r.nxt + 1,
                   moved := r.moved + [r.buf[0].piece]);
      assert Awaited(r.buf[0], r.nxt, wnd, source);
      assert r1.moved <= source;
      forall i | 0 <= i < |r1.buf|
        ensures Awaited(r1.buf[i], r1.nxt, wnd, source)
      {
        assert Awaited(r.buf[i + 1], r.nxt, wnd, source) && r.buf[0].sn < r.buf[i + 1].sn;
      }
      forall n | Held(r, n) ensures Held(r1, n) {
        if n > r.nxt {
          var i :| 0 <= i < |r.buf| && r.buf[i].sn == n;
          assert r1.buf[i - 1].sn == n;
        }
      }
      DrainOk(wnd, r1, source);
    }
  }

  lemma InsertCore(wnd: int, r: Rcv, seg: InSeg, source: seq<Piece>)
    requires RcvCore(wnd, r, source) && Awaited(seg, r.nxt, wnd, source)
    ensures var r1 := r.(buf := InsertBack(Exact, r.buf, seg));
            && RcvCore(wnd, r1, source) && InIn(r1.buf, seg.sn)
            && forall n :: Held(r, n) ==> Held(r1, n)
  {
    InsertBackSorted(r.buf, seg);
    InsertBackMembers(r.buf, seg);
    var buf1 := InsertBack(Exact, r.buf, seg);
    forall i | 0 <= i < |buf1|
      ensures Awaited(buf1[i], r.nxt, wnd, source)
    {
      assert buf1[i] in buf1;
      if buf1[i] in r.buf {
        var j :| 0 <= j < |r.buf| && r.buf[j] == buf1[i];
      }
    }
  }

  /** A data segment that carries what the peer numbered keeps the receiver correct; inside the
      window it is held afterwards, and it is delivered at once if it is the next one and there is room. */
  lemma ParseDataOk(wnd: int, r: Rcv, seg: InSeg, source: seq<Piece>)
    requires RcvOk(wnd, r, source)
    requires 0 <= seg.sn < |source| && seg.piece == source[seg.sn]
    ensures RcvOk(wnd, ParseData(Exact, wnd, r, seg), source)
    ensures forall n :: Held(r, n) ==> Held(ParseData(Exact, wnd, r, seg), n)
    ensures seg.sn < r.nxt + wnd ==> Held(ParseData(Exact, wnd, r, seg), seg.sn)
    ensures r.moved <= ParseData(Exact, wnd, r, seg).moved
    ensures seg.sn == r.nxt && |r.queue| < wnd ==> r.nxt < ParseData(Exact, wnd, r, seg).nxt
    ensures ParseData(Exact, wnd, r, seg).taken == r.taken
  {
    if r.nxt <= seg.sn < r.nxt + wnd {
      InsertCore(wnd, r, seg, source);
      var r1 := r.(buf := InsertBack(Exact, r.buf, seg));
      if seg.sn == r.nxt {
        var i :| 0 <= i < |r1.buf| && r1.buf[i].sn == seg.sn;
        assert Awaited(r1.buf[0], r1.nxt, wnd, source);
      }
      DrainOk(wnd, r1, source);
    }
  }

  /** Taking the head message leaves the receiver correct. */
  lemma RecvOk(cfg: Config, k: Ctl, len: int, source: seq<Piece>)
    requires RcvOk(cfg.rcvWnd, k.rcv, source)
    ensures RcvOk(cfg.rcvWnd, Recv(Exact, cfg, k, len).rcv, source)
    ensures forall n :: Held(k.rcv, n) ==> Held(Recv(Exact, cfg, k, len).rcv, n)
    ensures k.rcv.moved <= Recv(Exact, cfg, k, len).rcv.moved
  {
    if RecvCode(k.rcv, len) >= 0 {
      var r1 := TakeHead(k.rcv, len < 0);
      DrainOk(cfg.rcvWnd, r1, source);
      assert forall n :: Held(k.rcv, n) ==> Held(r1, n);
    }
  }

  // ----- the sending half ----------------------------------------------------------------

  lemma {:induction false} DropBelowOk(buf: seq<OutSeg>, una: int)
    requires SortedOut(buf)
    ensures var r := DropBelow(Exact, buf, una);
            && |r| <= |buf| && r == buf[|buf| - |r|..]
            && (forall i :: 0 <= i < |r| ==> una <= r[i].sn)
            && (forall n :: InOut(buf, n) && una <= n ==> InOut(r, n))
  {
    if buf != [] && una > buf[0].sn {
      DropBelowOk(buf[1..], una);
      forall n | InOut(buf, n) && una <= n
        ensures InOut(buf[1..], n)
      {
        var i :| 0 <= i < |buf| && buf[i].sn == n;
        assert buf[1..][i - 1].sn == n;
      }
    } else if buf != [] {
      assert forall i :: 0 < i < |buf| ==> buf[0].sn < buf[i].sn;
    }
  }

  /** RemoveSn takes out the entry with number sn, if there is one. */
  lemma {:induction false} RemoveSnAt(buf: seq<OutSeg>, sn: int) returns (p: nat)
    requires SortedOut(buf)
    ensures p <= |buf|
    ensures forall i :: 0 <= i < p ==> buf[i].sn < sn
    ensures forall i :: p <= i < |buf| ==> sn <= buf[i].sn
    ensures RemoveSn(Exact, buf, sn) ==
            if p < |buf| && buf[p].sn == sn then buf[..p] + buf[p + 1..] else buf
  {
    if buf == [] || sn <= buf[0].sn {
      p := 0;
    } else {
      var q := RemoveSnAt(buf[1..], sn);
      p := q + 1;
      Seqs.SplitFirst(buf);
      if p < |buf| {
        Seqs.RemoveInTail(buf, q);
      }
    }
  }

  /** Membership after a removal. */
  lemma OutRemove(a: seq<OutSeg>, seg: OutSeg, b: seq<OutSeg>)
    ensures forall n :: InOut(a + [seg] + b, n) <==> InOut(a + b, n) || n == seg.sn
  {
    var s, r := a + b, a + [seg] + b;
    forall n
      ensures InOut(r, n) <==> InOut(s, n) || n == seg.sn
    {
      if InOut(r, n) && n != seg.sn {
        var i :| 0 <= i < |r| && r[i].sn == n;
        assert s[if i < |a| then i else i - 1].sn == n;
      }
      if InOut(s, n) {
        var i :| 0 <= i < |s| && s[i].sn == n;
        assert r[if i < |a| then i else i + 1].sn == n;
      }
      assert r[|a|].sn == seg.sn;
    }
  }

  lemma RemoveSnSorted(buf: seq<OutSeg>, sn: int)
    requires SortedOut(buf)
    ensures SortedOut(RemoveSn(Exact, buf, sn))
  {
    var p := RemoveSnAt(buf, sn);
  }

  lemma NotBetween(a: seq<OutSeg>, b: seq<OutSeg>, sn: int)
    requires forall i :: 0 <= i < |a| ==> a[i].sn < sn
    requires forall i :: 0 <= i < |b| ==> sn < b[i].sn
    ensures !InOut(a + b, sn)
  {
    forall i | 0 <= i < |a + b| ensures (a + b)[i].sn != sn {
      if i >= |a| { assert (a + b)[i] == b[i - |a|]; }
    }
  }

  lemma RemoveSnMembers(buf: seq<OutSeg>, sn: int)
    requires SortedOut(buf)
    ensures var r := RemoveSn(Exact, buf, sn);
            && (forall i :: 0 <= i < |r| ==> r[i] in buf)
            && (forall n :: InOut(r, n) <==> InOut(buf, n) && n != sn)
            && |r| == |buf| - (if InOut(buf, sn) then 1 else 0)
  {
    var p := RemoveSnAt(buf, sn);
    if p < |buf| && buf[p].sn == sn {
      Seqs.SplitAround(buf, p);
      OutRemove(buf[..p], buf[p], buf[p + 1..]);
      NotBetween(buf[..p], buf[p + 1..], sn);
    } else {
      assert forall i :: p <= i < |buf| ==> sn < buf[i].sn by {
        assert forall i :: p < i < |buf| ==> buf[p].sn < buf[i].sn;
      }
    }
  }

  /** A smaller snd_buf, once shrunk, is correct. */
  lemma ShrinkOk(s: Snd, buf: seq<OutSeg>)
    requires SndOk(s)
    requires SortedOut(buf) && forall i :: 0 <= i < |buf| ==> buf[i] in s.buf
    ensures SndOk(Shrink(s.(buf := buf)))
    ensures s.una <= Shrink(s.(buf := buf)).una
  {
    var t := Shrink(s.(buf := buf));
    forall i | 0 <= i < |buf|
      ensures Numbered(buf[i], t.una, t.numbered) && s.una <= buf[i].sn
    {
      var j :| 0 <= j < |s.buf| && s.buf[j] == buf[i];
      assert Numbered(s.buf[j], s.una, s.numbered);
      var j0 :| 0 <= j0 < |s.buf| && s.buf[j0] == buf[0];
      assert Numbered(s.buf[j0], s.una, s.numbered);
      assert 0 < i ==> buf[0].sn < buf[i].sn;
    }
  }

  /** What a cumulative acknowledgement does to the sending half. */
  lemma UnaOk(s: Snd, una: int)
    requires SndOk(s)
    ensures var t := Shrink(s.(buf := DropBelow(Exact, s.buf, una)));
            && SndOk(t) && s.una <= t.una && Min(una, s.nxt) <= t.una
            && (forall n :: InOut(s.buf, n) && una <= n ==> InOut(t.buf, n))
  {
    DropBelowOk(s.buf, una);
    ShrinkOk(s, DropBelow(Exact, s.buf, una));
  }

  /** What a selective acknowledgement does to the sending half. */
  lemma AckOk(s: Snd, sn: int)
    requires SndOk(s)
    ensures var t := Shrink(ParseAck(Exact, s, sn));
            && SndOk(t) && s.una <= t.una
            && (forall n :: InOut(s.buf, n) && n != sn ==> InOut(t.buf, n))
  {
    if InFlight(Exact, s, sn) {
      RemoveSnSorted(s.buf, sn);
      RemoveSnMembers(s.buf, sn);
      ShrinkOk(s, RemoveSn(Exact, s.buf, sn));
    } else {
      ShrinkOk(s, s.buf);
    }
  }

  /** Two buffers that differ only in transmission data. */
  ghost predicate SameNumbers(a: seq<OutSeg>, b: seq<OutSeg>) {
    |a| == |b| && forall i :: 0 <= i < |a| ==> a[i].sn == b[i].sn && a[i].piece == b[i].piece
  }

  lemma SameNumbersOk(s: Snd, buf: seq<OutSeg>)
    requires SndOk(s) && SameNumbers(s.buf, buf)
    ensures SndOk(s.(buf := buf))
    ensures forall n :: InOut(s.buf, n) <==> InOut(buf, n)
  {
    forall i | 0 <= i < |buf| ensures Numbered(buf[i], s.una, s.numbered) {
      assert Numbered(s.buf[i], s.una, s.numbered);
    }
    forall n ensures InOut(s.buf, n) <==> InOut(buf, n) {
      if InOut(s.buf, n) { var i :| 0 <= i < |buf| && s.buf[i].sn == n; assert buf[i].sn == n; }
      if InOut(buf, n) { var i :| 0 <= i < |buf| && buf[i].sn == n; assert s.buf[i].sn == n; }
    }
  }

  lemma {:induction false} SkippedSame(m: Arith, buf: seq<OutSeg>, sn: int)
    ensures SameNumbers(buf, Skipped(m, buf, sn))
  {
    if !(buf == [] || Diff(m, sn, buf[0].sn) < 0) {
      SkippedSame(m, buf[1..], sn);
    }
  }

  /** What the data loop of flush does, entry by entry. */
  lemma {:induction false} TransmitBuf(cfg: Config, e: Env, buf: seq<OutSeg>)
    ensures var t := Transmit(cfg, e, buf).buf;
            && SameNumbers(buf, t)
            && forall i :: 0 <= i < |buf| ==> t[i] == Touch(cfg, e, buf[i])
  {
    if buf != [] {
      TransmitBuf(cfg, e, buf[..|buf| - 1]);
    }
  }

  /** w is a transmission of entry s. */
  ghost predicate Carries(w: Wire, s: OutSeg) {
    w.cmd == PUSH && w.sn == s.sn && w.frg == s.piece.frg % 256 && w.data == s.piece.data
  }

  /** Everything transmitted is some entry of the buffer, stamped by this flush. */
  lemma {:induction false} TransmitWires(cfg: Config, e: Env, buf: seq<OutSeg>)
    ensures forall w :: w in Transmit(cfg, e, buf).wires ==>
              w.una == e.una && exists s :: s in buf && Carries(w, s)
  {
    if buf != [] {
      var k := |buf| - 1;
      TransmitWires(cfg, e, buf[..k]);
      assert buf[k] in buf;
      assert forall s :: s in buf[..k] ==> s in buf;
      assert Carries(PushWire(Touch(cfg, e, buf[k])), buf[k]);
    }
  }

  /** One iteration of the numbering loop. */
  function NumberOne(e: Env, s: Snd): (t: Snd)
    requires s.queue != []
  {
    s.(queue := s.queue[1..], buf := s.buf + [Fresh(e, s.nxt, s.queue[0])], nxt := s.nxt + 1,
       numbered := s.numbered + [s.queue[0]])
  }

  lemma NumberOneOk(e: Env, s: Snd)
    requires SndOk(s) && s.queue != []
    ensures SndOk(NumberOne(e, s))
  {
    var t := NumberOne(e, s);
    forall i | 0 <= i < |t.buf|
      ensures Numbered(t.buf[i], t.una, t.numbered)
    {
      if i < |s.buf| { assert Numbered(s.buf[i], s.una, s.numbered); }
    }
  }

  lemma NumberOneMembers(e: Env, s: Snd)
    requires SndOk(s) && s.queue != []
    ensures forall n :: InOut(NumberOne(e, s).buf, n) <==> InOut(s.buf, n) || n == s.nxt
  {
    OutRemove(s.buf, Fresh(e, s.nxt, s.queue[0]), []);
    assert s.buf + [] == s.buf;
    assert NumberOne(e, s).buf == s.buf + [Fresh(e, s.nxt, s.queue[0])] + [];
  }

  /** Numbering keeps the sending half correct and in the window; it stops only when the queue
      is empty or the window is full. */
  lemma {:induction false} NumberOk(e: Env, wnd: int, s: Snd)
    requires SndOk(s)
    ensures var t := Number(Exact, e, wnd, s);
            && SndOk(t) && t.una == s.una && t.accepted == s.accepted
            && s.buf <= t.buf && t.numbered + t.queue == s.numbered + s.queue
            && t.nxt - s.nxt == |t.buf| - |s.buf|
            && s.nxt <= t.nxt <= Max(s.nxt, s.una + wnd)
            && (t.queue == [] || t.una + wnd <= t.nxt)
    decreases |s.queue|
  {
    if s.nxt < s.una + wnd && s.queue != [] {
      NumberOneOk(e, s);
      assert s.numbered + s.queue == NumberOne(e, s).numbered + NumberOne(e, s).queue;
      NumberOk(e, wnd, NumberOne(e, s));
    }
  }

  lemma {:induction false} NumberMembers(e: Env, wnd: int, s: Snd)
    requires SndOk(s)
    ensures forall n :: s.nxt <= n < Number(Exact, e, wnd, s).nxt ==> InOut(Number(Exact, e, wnd, s).buf, n)
    ensures forall n :: InOut(s.buf, n) ==> InOut(Number(Exact, e, wnd, s).buf, n)
    ensures s.numbered <= Number(Exact, e, wnd, s).numbered
    decreases |s.queue|
  {
    if s.nxt < s.una + wnd && s.queue != [] {
      NumberOneOk(e, s);
      NumberOneMembers(e, s);
      NumberMembers(e, wnd, NumberOne(e, s));
    }
  }
}
