/**
 The intrusive circular lists of kcp_learn/ikcp.h. A ring of nodes is described by the sequence of its
 nodes from the head on; the IQUEUE macros insert into and remove from that sequence.
 */
module Queue {
  import opened Words
  import opened Protocol
  import Engine
  import Seqs

  /** A list node with the segment it is embedded in; the head of a list carries an unused one. */
  class Node<T> {
    var next: Node?<T>
    var prev: Node?<T>
    const seg: T

    constructor (seg: T)
      ensures this.seg == seg
    {
      this.seg := seg;
      next, prev := null, null;
    }
  }

  /** Where position i of a ring of n nodes is followed. */
  function After(i: nat, n: nat): (j: nat) {
    if i + 1 < n then i + 1 else 0
  }

  /** Well-formed circular list: distinct nodes, each linked with the one after it in both directions. */
  ghost predicate Ring<T>(ns: seq<Node<T>>)
    reads ns
  {
    && |ns| > 0
    && Distinct(ns)
    && (forall i :: 0 <= i < |ns| ==> Linked(ns, i))
  }

  ghost predicate Linked<T>(ns: seq<Node<T>>, i: nat)
    requires i < |ns|
    reads ns
  {
    ns[i].next == ns[After(i, |ns|)] && ns[After(i, |ns|)].prev == ns[i]
  }

  /** The list's contents: the segments of all nodes but the head. */
  ghost function Segs<T>(ns: seq<Node<T>>): (s: seq<T>)
    requires |ns| > 0
    ensures |s| == |ns| - 1 && forall i :: 0 <= i < |s| ==> s[i] == ns[i + 1].seg
  {
    seq(|ns| - 1, i requires 0 <= i < |ns| - 1 => ns[i + 1].seg)
  }

  // ----- the macros ----------------------------------------------------------------------

  /** IQUEUE_INIT. */
  method Init<T>(head: Node<T>)
    modifies head
    ensures Ring([head]) && Segs([head]) == []
  {
    head.next := head;
    head.prev := head;
    assert Linked([head], 0);
  }

  /** IQUEUE_IS_EMPTY. */
  method IsEmpty<T>(head: Node<T>, ghost ns: seq<Node<T>>) returns (b: bool)
    requires Ring(ns) && ns[0] == head
    ensures b <==> Segs(ns) == []
  {
    assert Linked(ns, 0);
    b := head == head.next;
  }

  /** The sequence with x after position i. */
  ghost function Inserted<T>(ns: seq<Node<T>>, i: nat, x: Node<T>): (r: seq<Node<T>>)
    requires i < |ns|
    ensures |r| == |ns| + 1
    ensures forall k :: 0 <= k < |r| ==> r[k] == if k <= i then ns[k] else if k == i + 1 then x else ns[k - 1]
  {
    ns[..i + 1] + [x] + ns[i + 1..]
  }

  /** The sequence without position i. */
  ghost function Removed<T>(ns: seq<Node<T>>, i: nat): (r: seq<Node<T>>)
    requires i < |ns|
    ensures |r| == |ns| - 1
    ensures forall k :: 0 <= k < |r| ==> r[k] == if k < i then ns[k] else ns[k + 1]
  {
    ns[..i] + ns[i + 1..]
  }

  ghost predicate Distinct<T>(ns: seq<Node<T>>) {
    forall i, j :: 0 <= i < j < |ns| ==> ns[i] != ns[j]
  }

  lemma InsertedDistinct<T>(ns: seq<Node<T>>, i: nat, x: Node<T>)
    requires i < |ns| && Distinct(ns) && x !in ns
    ensures Distinct(Inserted(ns, i, x))
  {
    assert forall k :: 0 <= k < |ns| ==> ns[k] in ns;
  }

  /** IQUEUE_ADD: node goes right after `at`, which is at position i. */
  method Add<T>(node: Node<T>, at: Node<T>, ghost ns: seq<Node<T>>, ghost i: nat)
    requires Ring(ns) && i < |ns| && ns[i] == at && node !in ns
    modifies ns, node
    ensures Ring(Inserted(ns, i, node))
  {
    assert Linked(ns, i);
    ghost var r := Inserted(ns, i, node);
    InsertedDistinct(ns, i, node);
    hide Inserted;
    node.prev := at;
    node.next := at.next;
    at.next.prev := node;
    at.next := node;
    forall k | 0 <= k < |r| ensures Linked(r, k) {
      if k < i {
        assert old(Linked(ns, k));
      } else if k > i + 1 {
        assert old(Linked(ns, k - 1));
      }
    }
  }

  /** IQUEUE_ADD_TAIL: node goes right before the head. */
  method AddTail<T>(node: Node<T>, head: Node<T>, ghost ns: seq<Node<T>>)
    requires Ring(ns) && ns[0] == head && node !in ns
    modifies ns, node
    ensures Ring(ns + [node])
  {
    ghost var n := |ns|;
    ghost var r := ns + [node];
    assert Linked(ns, n - 1);
    node.prev := head.prev;
    node.next := head;
    head.prev.next := node;
    head.prev := node;
    forall k | 0 <= k < |r| ensures Linked(r, k) {
      if k < n - 1 { assert old(Linked(ns, k)); }
    }
  }

  /** IQUEUE_DEL of the node at position i, not the head. */
  method Del<T>(entry: Node<T>, ghost ns: seq<Node<T>>, ghost i: nat)
    requires Ring(ns) && 0 < i < |ns| && ns[i] == entry
    modifies ns
    ensures Ring(Removed(ns, i)) && entry.next == null && entry.prev == null
  {
    assert Linked(ns, i) && Linked(ns, i - 1);
    ghost var r := Removed(ns, i);
    entry.next.prev := entry.prev;
    entry.prev.next := entry.next;
    entry.next := null;
    entry.prev := null;
    forall k | 0 <= k < |r| ensures Linked(r, k) {
      if k < i - 1 {
        assert old(Linked(ns, k));
      } else if k > i - 1 {
        assert old(Linked(ns, k + 1));
      }
    }
  }

  lemma SegsInserted<T>(ns: seq<Node<T>>, i: nat, x: Node<T>)
    requires i < |ns|
    ensures Segs(Inserted(ns, i, x)) == Segs(ns)[..i] + [x.seg] + Segs(ns)[i..]
  {
  }

  lemma SegsRemoved<T>(ns: seq<Node<T>>, i: nat)
    requires 0 < i < |ns|
    ensures Segs(Removed(ns, i)) == Segs(ns)[..i - 1] + Segs(ns)[i..]
  {
  }

  // ----- loops over the lists ------------------------------------------------------------

  /** ikcp_parse_data on rcv_buf: walk backward over prev pointers, then insert unless found. */
  method InsertSegment(head: Node<InSeg>, node: Node<InSeg>, ghost ns: seq<Node<InSeg>>)
    returns (repeat: bool, ghost ns': seq<Node<InSeg>>)
    requires Ring(ns) && ns[0] == head && node !in ns
    modifies ns, node
    ensures Ring(ns') && ns'[0] == head && (repeat ==> ns' == ns) && (!repeat ==> |ns'| == |ns| + 1)
    ensures Segs(ns') == InsertBack(Mod32, Segs(ns), node.seg)
  {
    var p;
    ghost var i;
    p, repeat, i := ScanBackward(head, node.seg, ns);
    ns' := ns;
    if !repeat {
      Add(node, p, ns, i);
      ns' := Inserted(ns, i, node);
      SegsInserted(ns, i, node);
    }
  }

  /** The walk of InsertSegment; it stops at position i of the ring. */
  method ScanBackward(head: Node<InSeg>, seg: InSeg, ghost ns: seq<Node<InSeg>>)
    returns (p: Node<InSeg>, repeat: bool, ghost i: nat)
    requires Ring(ns) && ns[0] == head
    ensures i < |ns| && ns[i] == p
    ensures InsertBack(Mod32, Segs(ns), seg) ==
            if repeat then Segs(ns) else Segs(ns)[..i] + [seg] + Segs(ns)[i..]
  {
    ghost var buf := Segs(ns);
    i := |ns| - 1;
    assert Linked(ns, i);
    p := head.prev;
    repeat := false;
    assert buf[..i] == buf && buf[i..] == [];
    while p != head
      invariant i < |ns| && ns[i] == p && !repeat
      invariant InsertBack(Mod32, buf, seg) == InsertBack(Mod32, buf[..i], seg) + buf[i..]
      decreases i
    {
      assert i > 0 && buf[i - 1] == p.seg;
      if p.seg.sn == seg.sn {
        repeat := true;
        break;
      }
      if Diff(Mod32, seg.sn, p.seg.sn) > 0 { break; }
      Engine.ScanStep(buf, i, seg);
      assert Linked(ns, i - 1);
      p := p.prev;
      i := i - 1;
    }
    Engine.ScanEnd(buf, i, seg);
  }

  /** ikcp_parse_una on snd_buf: unlink from the front while the number is acknowledged. */
  method DropAcked(head: Node<OutSeg>, una: int, ghost ns: seq<Node<OutSeg>>)
    returns (dropped: nat, ghost ns': seq<Node<OutSeg>>)
    requires Ring(ns) && ns[0] == head
    modifies ns
    ensures Ring(ns') && ns'[0] == head && dropped == |ns| - |ns'|
    ensures Segs(ns') == DropBelow(Mod32, Segs(ns), una)
  {
    ns' := ns;
    dropped := 0;
    assert Linked(ns, 0);
    var p: Node<OutSeg> := head.next;
    while p != head
      invariant Ring(ns') && ns'[0] == head && p == ns'[After(0, |ns'|)]
      invariant dropped == |ns| - |ns'|
      invariant forall i :: 0 <= i < |ns'| ==> ns'[i] in ns
      invariant DropBelow(Mod32, Segs(ns'), una) == DropBelow(Mod32, Segs(ns), una)
      decreases |ns'|
    {
      assert |ns'| > 1 && Segs(ns')[0] == p.seg;
      assert Linked(ns', 1);
      var next: Node<OutSeg> := p.next;
      if Diff(Mod32, una, p.seg.sn) > 0 {
        Del(p, ns', 1);
        SegsRemoved(ns', 1);
        assert Segs(ns')[..0] + Segs(ns')[1..] == Segs(ns')[1..];
        ns' := Removed(ns', 1);
        dropped := dropped + 1;
      } else {
        break;
      }
      p := next;
    }
  }

  /** ikcp_parse_ack on snd_buf: walk forward over next pointers, unlink the acknowledged segment, and stop early at a
      larger number. */
  method RemoveAcked(head: Node<OutSeg>, sn: int, ghost ns: seq<Node<OutSeg>>)
    returns (found: bool, ghost ns': seq<Node<OutSeg>>)
    requires Ring(ns) && ns[0] == head
    modifies ns
    ensures Ring(ns') && ns'[0] == head && |ns'| == |ns| - (if found then 1 else 0)
    ensures Segs(ns') == RemoveSn(Mod32, Segs(ns), sn)
  {
    var p;
    ghost var i;
    p, found, i := ScanForward(head, sn, ns);
    ns' := ns;
    if found {
      Del(p, ns, i + 1);
      SegsRemoved(ns, i + 1);
      ns' := Removed(ns, i + 1);
    }
  }

  /** The walk of RemoveAcked; it stops before or at the segment at position i of the list. */
  method ScanForward(head: Node<OutSeg>, sn: int, ghost ns: seq<Node<OutSeg>>)
    returns (p: Node<OutSeg>, found: bool, ghost i: nat)
    requires Ring(ns) && ns[0] == head
    ensures found ==> i + 1 < |ns| && p == ns[i + 1]
    ensures RemoveSn(Mod32, Segs(ns), sn) == if found then Segs(ns)[..i] + Segs(ns)[i + 1..] else Segs(ns)
  {
    ghost var buf := Segs(ns);
    assert Linked(ns, 0);
    p := head.next;
    found := false;
    i := 0;
    assert buf[0..] == buf;
    while p != head
      invariant i <= |buf| && p == ns[After(i, |ns|)] && !found
      invariant RemoveSn(Mod32, buf, sn) == buf[..i] + RemoveSn(Mod32, buf[i..], sn)
      decreases |buf| - i
    {
      assert i < |buf| && buf[i] == p.seg;
      if sn == p.seg.sn {
        found := true;
        break;
      }
      if Diff(Mod32, sn, p.seg.sn) < 0 { break; }
      Engine.RemoveStep(buf, i, sn);
      assert Linked(ns, i + 1);
      p := p.next;
      i := i + 1;
    }
    Engine.RemoveEnd(buf, i, sn);
  }

  /** rcv_buf -> rcv_queue and snd_queue -> snd_buf: the first node of one list becomes the last of another. */
  method MoveFirst<T>(from: Node<T>, to: Node<T>, ghost ns: seq<Node<T>>, ghost ms: seq<Node<T>>)
    requires Ring(ns) && ns[0] == from && |ns| > 1
    requires Ring(ms) && ms[0] == to && forall i :: 0 <= i < |ns| ==> ns[i] !in ms
    modifies ns, ms
    ensures Ring(Removed(ns, 1)) && Ring(ms + [ns[1]])
    ensures Segs(Removed(ns, 1)) == Segs(ns)[1..] && Segs(ms + [ns[1]]) == Segs(ms) + [Segs(ns)[0]]
  {
    assert Linked(ns, 0);
    var node: Node<T> := from.next;
    assert node in ns;
    Del(node, ns, 1);
    SegsRemoved(ns, 1);
    assert Segs(ns)[..0] + Segs(ns)[1..] == Segs(ns)[1..];
    ghost var rest := Removed(ns, 1);
    assert node !in rest;
    label del:
    RingSame(ms);
    AddTail(node, to, ms);
    assert forall i :: 0 <= i < |rest| ==> rest[i] != node && rest[i] !in ms;
    RingSame@del(rest);
  }

  twostate lemma RingSame<T>(ns: seq<Node<T>>)
    requires old(Ring(ns)) && forall i :: 0 <= i < |ns| ==> ns[i].next == old(ns[i].next) && ns[i].prev == old(ns[i].prev)
    ensures Ring(ns)
  {
    forall i | 0 <= i < |ns| ensures Linked(ns, i) {
      assert old(Linked(ns, i));
    }
  }
}
