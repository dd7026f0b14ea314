/** The output side of ikcp_flush: the buffer of one datagram, its write pointer and the callback. */
module Output {
  import opened Words
  import opened Protocol
  import opened WireFormat
  import ByteSystem
  import Seqs

  class Outbox {
    const conv: u32
    const mtu: nat
    const buffer: array<byte>
    var ptr: nat
    var out: seq<seq<byte>>

    /** The segments put in since the box was opened. */
    ghost var sent: seq<Wire>

    /** The packer that holds them. */
    ghost function PackerOf(): (p: Packer)
      reads this
    {
      PutAll(mtu, Packer([], []), sent)
    }

    ghost predicate Valid()
      reads this, buffer
    {
      && buffer.Length == (mtu + OVERHEAD) * 3 && ptr <= mtu
      && buffer[..ptr] == Encode(conv, PackerOf().cur)
      && out == ByteSystem.Packets(conv, PackerOf().done)
    }

    constructor (conv: u32, mtu: nat)
      ensures Valid() && sent == [] && this.conv == conv && this.mtu == mtu && fresh(buffer)
    {
      this.conv, this.mtu := conv, mtu;
      buffer := new byte[(mtu + OVERHEAD) * 3];
      ptr, out, sent := 0, [], [];
    }

    /** The start of a flush. */
    method Open()
      requires buffer.Length == (mtu + OVERHEAD) * 3
      modifies this
      ensures Valid() && sent == []
    {
      ptr, out, sent := 0, [], [];
    }

    /** Appends a segment, first outputting what is there if both do not fit one datagram. The write
        stays inside the buffer. */
    method Put(w: Wire)
      requires Valid() && OVERHEAD + |w.data| <= mtu
      modifies this, buffer
      ensures Valid() && sent == old(sent) + [w]
    {
      hide WireFormat.EncodeSeg, WireFormat.Encode, Protocol.Put, Protocol.PutAll, ByteSystem.Packets;
      ghost var pk := PackerOf();
      EncodePut(conv, mtu, pk, w);
      PutAllSnoc(mtu, Packer([], []), sent, w);
      if ptr + OVERHEAD + |w.data| > mtu {
        Emit();
        ptr := 0;
      }
      WriteSeg(w);
      sent := sent + [w];
    }

    /** ikcp_output: nothing happens when there is nothing to output. */
    method Emit()
      requires ptr <= buffer.Length
      modifies this`out
      ensures out == if ptr == 0 then old(out) else old(out) + [buffer[..ptr]]
    {
      if ptr != 0 { out := out + [buffer[..ptr]]; }
    }

    /** ikcp_encode_seg at the write pointer, and the copy of the data after it. */
    method WriteSeg(w: Wire)
      requires ptr + OVERHEAD + |w.data| <= buffer.Length
      modifies this`ptr, buffer
      ensures ptr == old(ptr) + OVERHEAD + |w.data|
      ensures buffer[..ptr] == old(buffer[..ptr]) + EncodeSeg(conv, w)
    {
      WriteHeader(buffer, ptr, conv, w);
      ghost var before := old(buffer[..ptr]);
      CopyBytes(buffer, ptr + OVERHEAD, w.data);
      Seqs.Assoc(before, Header(conv, w), w.data);
      ptr := ptr + OVERHEAD + |w.data|;
    }

    /** The end of a flush: the datagrams output, in order. */
    method Close() returns (r: seq<seq<byte>>)
      requires Valid()
      modifies this`out
      ensures r == ByteSystem.Packets(conv, Pack(mtu, sent))
    {
      EncodeCut(conv, PackerOf());
      Emit();
      return out;
    }
  }

  // ----- writing -------------------------------------------------------------------------

  /** ikcp_encode8u, ikcp_encode16u, ikcp_encode32u: n bytes, least significant first. */
  method WriteLe(b: array<byte>, p: nat, x: int, n: nat)
    requires p + n <= b.Length
    modifies b
    ensures b[..p + n] == old(b[..p]) + Le(x, n)
  {
    var v := x;
    for i := 0 to n
      invariant b[..p + i] + Le(v, n - i) == old(b[..p]) + Le(x, n)
    {
      ghost var before := b[..p + i];
      b[p + i] := v % 256;
      assert b[..p + i + 1] == before + [v % 256];
      Seqs.Assoc(before, [v % 256], Le(v / 256, n - i - 1));
      v := v / 256;
    }
  }

  /** memcpy. */
  method CopyBytes(b: array<byte>, p: nat, data: seq<byte>)
    requires p + |data| <= b.Length
    modifies b
    ensures b[..p + |data|] == old(b[..p]) + data
  {
    forall i | 0 <= i < |data| { b[p + i] := data[i]; }
    assert b[..p] == old(b[..p]);
  }

  /** ikcp_encode_seg. */
  method WriteHeader(b: array<byte>, p: nat, conv: int, w: Wire)
    requires p + OVERHEAD <= b.Length
    modifies b
    ensures b[..p + OVERHEAD] == old(b[..p]) + Header(conv, w)
  {
    WriteLe(b, p, conv, 4);
    WriteLe(b, p + 4, w.cmd, 1);
    WriteLe(b, p + 5, w.frg, 1);
    WriteLe(b, p + 6, w.wnd, 2);
    WriteLe(b, p + 8, w.ts, 4);
    WriteLe(b, p + 12, w.sn, 4);
    WriteLe(b, p + 16, w.una, 4);
    WriteLe(b, p + 20, |w.data|, 4);
    NineParts(old(b[..p]), Le(conv, 4), Le(w.cmd, 1), Le(w.frg, 1), Le(w.wnd, 2), Le(w.ts, 4), Le(w.sn, 4),
              Le(w.una, 4), Le(|w.data|, 4));
  }

  lemma NineParts(z: seq<byte>, a: seq<byte>, b: seq<byte>, c: seq<byte>, d: seq<byte>, e: seq<byte>, f: seq<byte>, g: seq<byte>, h: seq<byte>)
    ensures z + a + b + c + d + e + f + g + h == z + (a + b + c + d + e + f + g + h)
  {
  }

  // ----- packing on bytes ----------------------------------------------------------------

  lemma EncodeOne(conv: int, w: Wire)
    ensures Encode(conv, [w]) == EncodeSeg(conv, w)
  {
    assert [w][..0] == [];
    assert Encode(conv, [w][..0]) == [];
  }

  lemma EncodeSnoc(conv: int, d: Datagram, w: Wire)
    ensures Encode(conv, d + [w]) == Encode(conv, d) + EncodeSeg(conv, w)
  {
    assert (d + [w])[..|d|] == d;
  }

  lemma EncodeCut(conv: int, pk: Packer)
    ensures ByteSystem.Packets(conv, Cut(pk)) ==
            if Size(pk.cur) == 0 then ByteSystem.Packets(conv, pk.done)
            else ByteSystem.Packets(conv, pk.done) + [Encode(conv, pk.cur)]
  {
    if pk.cur != [] { ByteSystem.NonEmptySize(pk.cur); }
    ByteSystem.PacketsAppend(conv, pk.done, [pk.cur]);
    assert ByteSystem.Packets(conv, [pk.cur]) == [Encode(conv, pk.cur)];
  }

  lemma EncodePut(conv: int, mtu: int, pk: Packer, w: Wire)
    ensures var q := Put(mtu, pk, w);
            if Size(pk.cur) + OVERHEAD + |w.data| > mtu
            then Encode(conv, q.cur) == EncodeSeg(conv, w)
                 && ByteSystem.Packets(conv, q.done) ==
                    (if Size(pk.cur) == 0 then ByteSystem.Packets(conv, pk.done)
                     else ByteSystem.Packets(conv, pk.done) + [Encode(conv, pk.cur)])
            else Encode(conv, q.cur) == Encode(conv, pk.cur) + EncodeSeg(conv, w) && q.done == pk.done
  {
    EncodeOne(conv, w);
    EncodeSnoc(conv, pk.cur, w);
    EncodeCut(conv, pk);
  }

  lemma PutAllSnoc(mtu: int, pk: Packer, ws: seq<Wire>, w: Wire)
    ensures PutAll(mtu, pk, ws + [w]) == Protocol.Put(mtu, PutAll(mtu, pk, ws), w)
  {
    assert (ws + [w])[..|ws|] == ws;
  }
}
