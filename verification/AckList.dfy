/** The list of acknowledgements to send: a flat array that doubles when it is full. */
module Acknowledgements {
  import opened Protocol

  /** The flat array [sn1, ts1, sn2, ts2, ...] as pairs. */
  function PairUp(flat: seq<int>): (acks: seq<Ack>)
    ensures |acks| == |flat| / 2
    ensures forall i :: 0 <= i < |acks| ==> acks[i] == Ack(flat[2 * i], flat[2 * i + 1])
  {
    seq(|flat| / 2, i requires 0 <= i < |flat| / 2 => Ack(flat[2 * i], flat[2 * i + 1]))
  }

  class AckList {
    var flat: array<int>
    var count: nat
    var block: nat

    /** The pending acknowledgements, in push order. */
    ghost var acks: seq<Ack>

    ghost predicate Valid()
      reads this, flat
    {
      count <= block && flat.Length == 2 * block && acks == PairUp(flat[..2 * count])
    }

    constructor ()
      ensures Valid() && acks == [] && fresh(flat)
    {
      flat := new int[0];
      count, block, acks := 0, 0, [];
    }

    /** ikcp_ack_push. */
    method Push(sn: int, ts: int)
      requires Valid()
      modifies this, flat
      ensures Valid() && acks == old(acks) + [Ack(sn, ts)]
      ensures flat == old(flat) || fresh(flat)
    {
      if count + 1 > block {
        Grow(count + 1);
      }
      ghost var before := flat[..2 * count];
      flat[count * 2] := sn;
      flat[count * 2 + 1] := ts;
      count := count + 1;
      assert flat[..2 * count] == before + [sn, ts];
      acks := acks + [Ack(sn, ts)];
    }

    /** Moves to an array of 8, 16, 32, ... pairs that holds at least newsize of them. */
    method Grow(newsize: nat)
      requires Valid() && newsize > block
      modifies this`flat, this`block
      ensures Valid() && newsize <= block && fresh(flat)
    {
      var newblock := 8;
      while newblock < newsize
        invariant newblock >= 8
        decreases newsize - newblock
      {
        newblock := newblock * 2;
      }
      var bigger := new int[2 * newblock];
      for x := 0 to count
        modifies bigger
        invariant forall j :: 0 <= j < 2 * x ==> bigger[j] == flat[j]
      {
        bigger[x * 2] := flat[x * 2];
        bigger[x * 2 + 1] := flat[x * 2 + 1];
      }
      assert bigger[..2 * count] == flat[..2 * count];
      flat := bigger;
      block := newblock;
    }

    /** ikcp_ack_get. */
    method Get(p: nat) returns (a: Ack)
      requires Valid() && p < |acks|
      ensures a == acks[p]
    {
      a := Ack(flat[p * 2], flat[p * 2 + 1]);
    }

    /** ackcount = 0; the array is kept. */
    method Clear()
      requires Valid()
      modifies this`count, this`acks
      ensures Valid() && acks == []
    {
      count, acks := 0, [];
    }
  }
}
