/** How flush packs segments into datagrams. */
module Packing {
  import opened Words
  import opened Protocol
  import Seqs

  /** The segments of a run of datagrams, in order. */
  function Flat(ds: seq<Datagram>): (ws: seq<Wire>) {
    if ds == [] then [] else Flat(ds[..|ds| - 1]) + ds[|ds| - 1]
  }

  lemma CutFlat(p: Packer)
    ensures Flat(Cut(p)) == Flat(p.done) + p.cur
  {
    if p.cur != [] {
      assert (p.done + [p.cur])[..|p.done|] == p.done;
    }
  }

  lemma {:induction false} PutAllFlat(mtu: int, p: Packer, ws: seq<Wire>)
    ensures var q := PutAll(mtu, p, ws); Flat(q.done) + q.cur == Flat(p.done) + p.cur + ws
  {
    if ws != [] {
      var front, w := ws[..|ws| - 1], ws[|ws| - 1];
      PutAllFlat(mtu, p, front);
      var q := PutAll(mtu, p, front);
      CutFlat(q);
      Seqs.SplitLast(ws);
      assert Flat(p.done) + p.cur + ws == Flat(p.done) + p.cur + front + [w];
      assert Flat(q.done) + q.cur + [w] == Flat(q.done) + (q.cur + [w]);
    }
  }

  /** Unpacking the datagrams of one flush gives back exactly its segments, in order. */
  lemma PackFlat(mtu: int, ws: seq<Wire>)
    ensures Flat(Pack(mtu, ws)) == ws
  {
    PutAllFlat(mtu, Packer([], []), ws);
    CutFlat(PutAll(mtu, Packer([], []), ws));
  }

  /** A segment that fits the mtu on its own. */
  ghost predicate Fits(mtu: int, w: Wire) {
    OVERHEAD + |w.data| <= mtu
  }

  ghost predicate Filled(mtu: int, d: Datagram) {
    d != [] && Size(d) <= mtu
  }

  lemma {:induction false} PutAllFits(mtu: int, ws: seq<Wire>)
    requires forall w :: w in ws ==> Fits(mtu, w)
    ensures var q := PutAll(mtu, Packer([], []), ws);
            && (forall d :: d in q.done ==> Filled(mtu, d))
            && Size(q.cur) <= Max(mtu, 0)
            && (ws != [] ==> q.cur != [])
  {
    if ws != [] {
      var front, w := ws[..|ws| - 1], ws[|ws| - 1];
      PutAllFits(mtu, front);
      var q := PutAll(mtu, Packer([], []), front);
      assert Fits(mtu, w);
      assert [w][..0] == [];
      assert Size([w]) == OVERHEAD + |w.data|;
      assert (q.cur + [w])[..|q.cur|] == q.cur;
      assert Size(q.cur + [w]) == Size(q.cur) + OVERHEAD + |w.data|;
    }
  }

  /** When every segment fits the mtu, so does every datagram; none is empty. */
  lemma PackFits(mtu: int, ws: seq<Wire>)
    requires forall w :: w in ws ==> Fits(mtu, w)
    ensures forall d :: d in Pack(mtu, ws) ==> Filled(mtu, d)
  {
    PutAllFits(mtu, ws);
    if ws != [] { assert Fits(mtu, ws[0]); }
  }

  lemma {:induction false} FlatMember(ds: seq<Datagram>, d: Datagram, w: Wire)
    requires d in ds && w in d
    ensures w in Flat(ds)
  {
    if d != ds[|ds| - 1] {
      FlatMember(ds[..|ds| - 1], d, w);
    }
  }

  /** Nothing is sent that was not asked for. */
  lemma PackMembers(mtu: int, ws: seq<Wire>)
    ensures forall d, w :: d in Pack(mtu, ws) && w in d ==> w in ws
  {
    forall d, w | d in Pack(mtu, ws) && w in d
      ensures w in ws
    {
      FlatMember(Pack(mtu, ws), d, w);
      PackFlat(mtu, ws);
    }
  }
}
