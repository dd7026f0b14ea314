/** The setters of kcp_learn/ikcp.c and the configurations that they can produce. */
module Settings {
  import opened Words
  import opened Protocol

  const RTO_NDL := 30
  const RTO_MIN := 100
  const DEADLINK := 20
  const FASTACK_LIMIT := 5

  type i32 = x: int | -0x8000_0000 <= x < 0x8000_0000

  /** One call of a setter; the stream flag is assigned directly. */
  datatype Setter =
    | Mtu(mtu: i32)
    | Interval(interval: i32)
    | NoDelay(nodelay: i32, interval: i32, resend: i32, nc: i32)
    | Windows(sndwnd: i32, rcvwnd: i32)
    | Stream(on: bool)

  function Default(conv: u32): (c: RawConfig) {
    RawConfig(conv, 1400, 32, WND_RCV, 100, 0, RTO_MIN, 0, FASTACK_LIMIT, false, false, DEADLINK)
  }

  function Clamp(interval: int): (r: int) {
    if interval > 5000 then 5000 else if interval < 10 then 10 else interval
  }

  function Apply(c: RawConfig, s: Setter): (r: RawConfig) {
    match s
    case Mtu(mtu) => if mtu < 50 then c else c.(mtu := mtu)
    case Interval(interval) => c.(interval := Clamp(interval))
    case NoDelay(nodelay, interval, resend, nc) =>
      var c1 := if nodelay < 0 then c else c.(nodelay := nodelay, minRto := if nodelay != 0 then RTO_NDL else RTO_MIN);
      var c2 := if interval < 0 then c1 else c1.(interval := Clamp(interval));
      var c3 := if resend < 0 then c2 else c2.(fastResend := resend);
      if nc < 0 then c3 else c3.(noCwnd := nc != 0)
    case Windows(sndwnd, rcvwnd) =>
      var c1 := if sndwnd > 0 then c.(sndWnd := sndwnd) else c;
      if rcvwnd > 0 then c1.(rcvWnd := Max(rcvwnd, WND_RCV)) else c1
    case Stream(on) => c.(stream := on)
  }

  function Configured(conv: u32, ss: seq<Setter>): (c: RawConfig) {
    if ss == [] then Default(conv) else Apply(Configured(conv, ss[..|ss| - 1]), ss[|ss| - 1])
  }

  /** How far apart two numbers are. */
  function Far(a: int, b: int): (d: nat) {
    if a < b then b - a else a - b
  }

  /** The fields of the control block that the setters write. */
  class Block {
    var cfg: RawConfig

    constructor (conv: u32)
      ensures cfg == Default(conv)
    {
      cfg := Default(conv);
    }

    /** ikcp_setmtu. */
    method SetMtu(mtu: i32) returns (status: int)
      modifies this
      ensures cfg == Apply(old(cfg), Mtu(mtu)) && (status == 0 <==> mtu >= 50) && (status == -1 <==> mtu < 50)
    {
      if mtu < 50 || mtu < OVERHEAD { return -1; }
      cfg := cfg.(mtu := mtu);
      return 0;
    }

    /** ikcp_interval. */
    method SetInterval(interval: i32)
      modifies this
      ensures cfg == Apply(old(cfg), Interval(interval))
      ensures 10 <= cfg.interval <= 5000
      ensures forall v :: 10 <= v <= 5000 ==> Far(cfg.interval, interval) <= Far(v, interval)
    {
      var v: int := interval;
      if v > 5000 { v := 5000; } else if v < 10 { v := 10; }
      cfg := cfg.(interval := v);
    }

    /** ikcp_nodelay. */
    method SetNoDelay(nodelay: i32, interval: i32, resend: i32, nc: i32)
      modifies this
      ensures cfg == Apply(old(cfg), NoDelay(nodelay, interval, resend, nc))
      ensures nodelay >= 0 ==> cfg.nodelay == nodelay && cfg.minRto == (if nodelay == 0 then 100 else 30)
      ensures interval >= 0 ==> 10 <= cfg.interval <= 5000 && (10 <= interval <= 5000 ==> cfg.interval == interval)
      ensures (resend >= 0 ==> cfg.fastResend == resend) && (nc >= 0 ==> (cfg.noCwnd <==> nc != 0))
    {
      if nodelay >= 0 {
        cfg := cfg.(nodelay := nodelay);
        if nodelay != 0 { cfg := cfg.(minRto := RTO_NDL); } else { cfg := cfg.(minRto := RTO_MIN); }
      }
      if interval >= 0 { SetInterval(interval); }
      if resend >= 0 { cfg := cfg.(fastResend := resend); }
      if nc >= 0 { cfg := cfg.(noCwnd := nc != 0); }
    }

    /** ikcp_wndsize. */
    method SetWindows(sndwnd: i32, rcvwnd: i32)
      modifies this
      ensures cfg == Apply(old(cfg), Windows(sndwnd, rcvwnd))
      ensures (sndwnd > 0 ==> cfg.sndWnd == sndwnd) && (sndwnd <= 0 ==> cfg.sndWnd == old(cfg.sndWnd))
      ensures rcvwnd > 0 ==> cfg.rcvWnd >= 128 && cfg.rcvWnd >= rcvwnd && (cfg.rcvWnd == 128 || cfg.rcvWnd == rcvwnd)
      ensures rcvwnd <= 0 ==> cfg.rcvWnd == old(cfg.rcvWnd)
    {
      if sndwnd > 0 { cfg := cfg.(sndWnd := sndwnd); }
      if rcvwnd > 0 { cfg := cfg.(rcvWnd := Max(rcvwnd, WND_RCV)); }
    }
  }

  /** What the setters can produce, field by field. */
  predicate Settable(c: RawConfig) {
    && c.Ok()
    && c.nodelay < 0x8000_0000 && c.minRto == (if c.nodelay != 0 then RTO_NDL else RTO_MIN)
    && 0 <= c.fastResend && c.fastLimit == FASTACK_LIMIT && c.deadLink == DEADLINK
  }

  lemma ApplyKeeps(c: RawConfig, s: Setter)
    requires Settable(c)
    ensures Settable(Apply(c, s)) && Apply(c, s).conv == c.conv
  {
  }

  lemma {:induction false} SetterKeeps(conv: u32, ss: seq<Setter>)
    ensures Settable(Configured(conv, ss)) && Configured(conv, ss).conv == conv
  {
    assert Settable(Default(conv));
    hide Settable, Apply;
    if ss != [] {
      SetterKeeps(conv, ss[..|ss| - 1]);
      ApplyKeeps(Configured(conv, ss[..|ss| - 1]), ss[|ss| - 1]);
    }
  }

  function Recipe(c: RawConfig): (ss: seq<Setter>)
    requires Settable(c)
  {
    [Mtu(c.mtu), Windows(c.sndWnd, c.rcvWnd),
     NoDelay(c.nodelay, c.interval, c.fastResend, if c.noCwnd then 1 else 0), Stream(c.stream)]
  }

  lemma Extend(conv: u32, ss: seq<Setter>, s: Setter)
    ensures Configured(conv, ss + [s]) == Apply(Configured(conv, ss), s)
  {
    assert (ss + [s])[..|ss|] == ss;
  }

  lemma RecipeWorks(c: RawConfig)
    requires Settable(c)
    ensures Configured(c.conv, Recipe(c)) == c
  {
    var r := Recipe(c);
    Extend(c.conv, [], r[0]);
    Extend(c.conv, [r[0]], r[1]);
    Extend(c.conv, [r[0], r[1]], r[2]);
    Extend(c.conv, [r[0], r[1], r[2]], r[3]);
    assert [] + [r[0]] == [r[0]] && [r[0]] + [r[1]] == [r[0], r[1]];
    assert [r[0], r[1]] + [r[2]] == [r[0], r[1], r[2]] && [r[0], r[1], r[2]] + [r[3]] == r;
  }

  /** After any calls of the setters, the configuration is one that the protocol's results are proved for; and
      the configurations that calls can produce are exactly the settable ones. */
  lemma SettersReach(c: RawConfig)
    ensures (exists ss :: Configured(c.conv, ss) == c) <==> Settable(c)
    ensures Settable(c) ==> c.Ok()
  {
    if Settable(c) { RecipeWorks(c); }
    forall ss | Configured(c.conv, ss) == c ensures Settable(c) { SetterKeeps(c.conv, ss); }
  }
}
