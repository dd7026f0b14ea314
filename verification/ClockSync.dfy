/**
 The clock-offset exchange of kcp-cpp/KCPNet.cpp. The server sends a time packet, the client writes its clock into
 it and sends it back, and the server keeps (delay, compensation) of the last exchanges. Clocks are microseconds.
 */
module ClockSync {
  import opened Words
  import Seqs

  const MAX_DELAY_DIFF_MS := 20
  const MIN_COLLECTED := 5
  const MAX_SAVED := 100

  datatype TimePacket = TimePacket(t1: int, t2: int, t3: int, active: int, correction: int)
  datatype Sample = Sample(delay: int, comp: int)

  // ----- the sorted copy of the samples ---------------------------------------------------

  /** The order of std::pair. */
  predicate Le(a: Sample, b: Sample) {
    a.delay < b.delay || (a.delay == b.delay && a.comp <= b.comp)
  }

  function Insert(x: Sample, s: seq<Sample>): (r: seq<Sample>)
    ensures |r| == |s| + 1
  {
    if s == [] || Le(x, s[0]) then [x] + s else [s[0]] + Insert(x, s[1..])
  }

  function Sort(s: seq<Sample>): (r: seq<Sample>)
    ensures |r| == |s|
  {
    if s == [] then [] else Insert(s[0], Sort(s[1..]))
  }

  /** std::partial_sort_copy into a range of n elements. */
  function Smallest(s: seq<Sample>, n: nat): (r: seq<Sample>)
    requires n <= |s|
    ensures |r| == n
  {
    Sort(s)[..n]
  }

  predicate Ascending(s: seq<Sample>) {
    forall i, j :: 0 <= i < j < |s| ==> Le(s[i], s[j])
  }

  lemma {:induction false} InsertAscending(x: Sample, s: seq<Sample>)
    requires Ascending(s)
    ensures Ascending(Insert(x, s)) && multiset(Insert(x, s)) == multiset(s) + multiset{x}
  {
    Seqs.MultisetCons(x, s);
    if s != [] && !Le(x, s[0]) {
      var t := Insert(x, s[1..]);
      InsertAscending(x, s[1..]);
      Seqs.SplitFirst(s);
      Seqs.MultisetCons(s[0], s[1..]);
      Seqs.MultisetCons(s[0], t);
      forall y | y in t ensures Le(s[0], y) {
        assert y in multiset(t);
        assert y in s[1..] || y == x;
      }
      AscendingCons(s[0], t);
    } else {
      forall y | y in s ensures Le(x, y) { assert y == s[0] || y in s[1..]; }
      AscendingCons(x, s);
    }
  }

  lemma AscendingCons(x: Sample, s: seq<Sample>)
    requires Ascending(s) && forall y :: y in s ==> Le(x, y)
    ensures Ascending([x] + s)
  {
  }

  lemma {:induction false} SortAscending(s: seq<Sample>)
    ensures Ascending(Sort(s)) && multiset(Sort(s)) == multiset(s)
  {
    if s != [] {
      SortAscending(s[1..]);
      InsertAscending(s[0], Sort(s[1..]));
      Seqs.SplitFirst(s);
    }
  }

  /** The first of the smallest is a sample with the least delay. */
  lemma SmallestFirst(s: seq<Sample>, n: nat)
    requires 0 < n <= |s|
    ensures Smallest(s, n)[0] in s && forall x :: x in s ==> Smallest(s, n)[0].delay <= x.delay
  {
    SortAscending(s);
    var r := Sort(s);
    assert r[0] in multiset(r);
    forall x | x in s ensures r[0].delay <= x.delay {
      assert x in multiset(r);
    }
  }

  // ----- server and client ----------------------------------------------------------------

  datatype Server = Server(list: seq<Sample>, stable: bool, correction: int, clientGot: bool)
  datatype Client = Client(correction: int, target: int, got: bool)

  function Measure(p: TimePacket, now: int): (r: Sample) {
    Sample(now - p.t1, HalfTrunc((p.t2 - p.t1) + (p.t3 - now)))
  }

  /** Appends a sample and forgets the oldest one when there are too many. */
  function Push(list: seq<Sample>, x: Sample): (r: seq<Sample>) {
    if |list| + 1 > MAX_SAVED then (list + [x])[1..] else list + [x]
  }

  predicate Steady(list: seq<Sample>)
    requires |list| >= MIN_COLLECTED
  {
    var five := Smallest(list, MIN_COLLECTED);
    (five[MIN_COLLECTED - 1].delay - five[0].delay) / 1000 < MAX_DELAY_DIFF_MS
  }

  function Best(list: seq<Sample>): (r: Sample)
    requires |list| >= MIN_COLLECTED
  {
    Smallest(list, MIN_COLLECTED)[0]
  }

  /** What the arrival of an answered time packet does to the server's record of the connection. */
  function Hear(s: Server, p: TimePacket, now: int): (r: Server) {
    var list := Push(s.list, Measure(p, now));
    if |list| < MIN_COLLECTED then s.(list := list)
    else
      var stable := s.stable || Steady(list);
      Server(list, stable, if stable then Best(list).comp else s.correction, s.clientGot || p.active == 2)
  }

  function Ask(s: Server, now: int): (r: TimePacket) {
    TimePacket(now, 0, 0, if s.stable then 1 else 0, if s.stable then s.correction else 0)
  }

  function Adopt(c: Client, p: TimePacket): (r: Client) {
    if p.active == 1 then Client(if c.got then c.correction else p.correction, p.correction, true) else c
  }

  function Answer(p: TimePacket, clock: int): (r: TimePacket) {
    p.(t2 := clock, t3 := clock, active := if p.active == 1 then 2 else p.active)
  }

  /** The per-connection fields that the server's worker updates. */
  class Connection {
    var list: seq<Sample>
    var stable: bool
    var correction: int
    var clientGot: bool

    function State(): (s: Server)
      reads this
    {
      Server(list, stable, correction, clientGot)
    }

    constructor ()
      ensures State() == Server([], false, 0, false)
    {
      list, stable, correction, clientGot := [], false, 0, false;
    }

    /** The time-packet branch of netWorkerServer. */
    method OnTime(p: TimePacket, now: int)
      modifies this
      ensures State() == Hear(old(State()), p, now)
    {
      var delay := now - p.t1;
      var comp := HalfTrunc((p.t2 - p.t1) + (p.t3 - now));
      list := list + [Sample(delay, comp)];
      if |list| > MAX_SAVED { list := list[1..]; }
      if |list| >= MIN_COLLECTED {
        var points := Smallest(list, MIN_COLLECTED);
        if (points[MIN_COLLECTED - 1].delay - points[0].delay) / 1000 < MAX_DELAY_DIFF_MS && !stable {
          stable := true;
        }
        if stable { correction := points[0].comp; }
        if !clientGot && p.active == 2 { clientGot := true; }
      }
    }

    /** sendTimePacket. */
    method SendTime(now: int) returns (p: TimePacket)
      ensures p == Ask(State(), now)
    {
      p := TimePacket(now, 0, 0, 0, 0);
      if stable { p := p.(active := 1, correction := correction); }
    }
  }

  /** The fields that the client's worker updates. */
  class Peer {
    var correction: int
    var target: int
    var got: bool

    function State(): (c: Client)
      reads this
    {
      Client(correction, target, got)
    }

    constructor ()
      ensures State() == Client(0, 0, false)
    {
      correction, target, got := 0, 0, false;
    }

    /** The time-packet branch of netWorkerClient. */
    method OnTime(p: TimePacket, clock: int) returns (r: TimePacket)
      modifies this
      ensures State() == Adopt(old(State()), p) && r == Answer(p, clock)
    {
      r := p;
      if r.active == 1 {
        r := r.(active := 2);
        if !got { correction := r.correction; }
        target := r.correction;
        got := true;
      }
      r := r.(t2 := clock, t3 := clock);
    }
  }

  // ----- what steady means ---------------------------------------------------------------

  /** How many samples have a delay below b. */
  function Quick(list: seq<Sample>, b: int): (n: nat)
    ensures n <= |list|
  {
    if list == [] then 0 else Quick(list[..|list| - 1], b) + (if list[|list| - 1].delay < b then 1 else 0)
  }

  lemma {:induction false} QuickCons(x: Sample, list: seq<Sample>, b: int)
    ensures Quick([x] + list, b) == Quick(list, b) + (if x.delay < b then 1 else 0)
  {
    if list == [] {
      assert [x] + list == [x] && [x][..0] == [];
    } else {
      assert ([x] + list)[..|list|] == [x] + list[..|list| - 1];
      QuickCons(x, list[..|list| - 1], b);
    }
  }

  lemma {:induction false} QuickInsert(x: Sample, list: seq<Sample>, b: int)
    ensures Quick(Insert(x, list), b) == Quick(list, b) + (if x.delay < b then 1 else 0)
  {
    QuickCons(x, list, b);
    if list != [] {
      Seqs.SplitFirst(list);
      QuickCons(list[0], list[1..], b);
      QuickInsert(x, list[1..], b);
      QuickCons(list[0], Insert(x, list[1..]), b);
    }
  }

  lemma {:induction false} QuickSort(list: seq<Sample>, b: int)
    ensures Quick(Sort(list), b) == Quick(list, b)
  {
    if list != [] {
      QuickSort(list[1..], b);
      QuickInsert(list[0], Sort(list[1..]), b);
      Seqs.SplitFirst(list);
      QuickCons(list[0], list[1..], b);
    }
  }

  /** In an ascending list the quick samples come first. */
  lemma {:induction false} QuickFirst(list: seq<Sample>, b: int, i: nat)
    requires Ascending(list) && i < |list|
    ensures list[i].delay < b <==> i < Quick(list, b)
  {
    var k := |list| - 1;
    if i < k {
      QuickFirst(list[..k], b, i);
    }
    if k > 0 && list[k].delay < b {
      QuickFirst(list[..k], b, k - 1);
      assert Le(list[k - 1], list[k]);
    }
  }

  /** A list of samples is steady exactly when at least five of them are within 20 milliseconds of the quickest. */
  lemma SteadyCount(list: seq<Sample>)
    requires |list| >= MIN_COLLECTED
    ensures Steady(list) <==> Quick(list, Best(list).delay + 20000) >= 5
  {
    var b := Best(list).delay + 20000;
    SortAscending(list);
    QuickSort(list, b);
    QuickFirst(Sort(list), b, 4);
    assert Le(Sort(list)[0], Sort(list)[4]);
  }

  // ----- runs -----------------------------------------------------------------------------

  /** Time passes, then one thing happens. Packets are picked from all those ever sent, so they may be lost,
      duplicated, reordered and delayed by any time. */
  datatype Event = Poll(wait: nat) | ToClient(wait: nat, k: nat) | ToServer(wait: nat, k: nat)

  /** The client's clock shows the server's plus `offset`. `all` is the history of samples. */
  datatype World = World(now: int, server: Server, client: Client,
                         asked: seq<TimePacket>, answered: seq<TimePacket>, all: seq<Sample>)

  function Start(t0: int): (w: World) {
    World(t0, Server([], false, 0, false), Client(0, 0, false), [], [], [])
  }

  function Step(offset: int, w: World, e: Event): (r: World) {
    var w1 := w.(now := w.now + e.wait);
    match e
    case Poll(_) => w1.(asked := w.asked + [Ask(w.server, w1.now)])
    case ToClient(_, k) =>
      if k >= |w.asked| then w1
      else w1.(client := Adopt(w.client, w.asked[k]),
               answered := w.answered + [Answer(w.asked[k], w1.now + offset)])
    case ToServer(_, k) =>
      if k >= |w.answered| then w1
      else w1.(server := Hear(w.server, w.answered[k], w1.now), all := w.all + [Measure(w.answered[k], w1.now)])
  }

  function Run(offset: int, t0: int, es: seq<Event>): (w: World) {
    if es == [] then Start(t0) else Step(offset, Run(offset, t0, es[..|es| - 1]), es[|es| - 1])
  }

  function Abs(x: int): (r: nat) {
    if x < 0 then -x else x
  }

  /** The last samples that the server still has after n of them. */
  function Window(all: seq<Sample>, n: nat): (r: seq<Sample>)
    requires n <= |all|
  {
    all[Max(0, n - MAX_SAVED)..n]
  }

  /** Within half the delay of the true offset, plus rounding. */
  predicate Accurate(offset: int, x: Sample) {
    0 <= x.delay && 2 * Abs(x.comp - offset) <= x.delay + 1
  }

  /** The correction c is within half of every one of these samples' delays, plus rounding. */
  predicate Within(offset: int, c: int, list: seq<Sample>) {
    forall x :: x in list ==> 2 * Abs(c - offset) <= x.delay + 1
  }

  /** An answer's path is known: it was asked at t1 and answered at a server time between t1 and now. */
  predicate Timed(offset: int, now: int, p: TimePacket) {
    p.t2 == p.t3 && p.t1 <= p.t2 - offset <= now
  }

  /** A correction in circulation is the quickest of a window of samples. */
  predicate Known(all: seq<Sample>, c: int) {
    exists n :: MIN_COLLECTED <= n <= |all| && c == Best(Window(all, n)).comp
  }

  /** Some window of at least five samples was steady. */
  predicate WasSteady(all: seq<Sample>) {
    exists n :: MIN_COLLECTED <= n <= |all| && Steady(Window(all, n))
  }

  predicate ServerInv(offset: int, w: World) {
    && w.server.list == Window(w.all, |w.all|)
    && (forall i :: 0 <= i < |w.all| ==> Accurate(offset, w.all[i]))
    && (w.server.stable <==> WasSteady(w.all))
    && (w.server.stable ==> |w.all| >= MIN_COLLECTED && w.server.correction == Best(w.server.list).comp)
    && (w.server.clientGot ==> w.client.got)
  }

  predicate NetInv(offset: int, w: World) {
    && (forall i :: 0 <= i < |w.asked| ==>
          w.asked[i].t1 <= w.now && (w.asked[i].active == 1 ==> Known(w.all, w.asked[i].correction))
          && w.asked[i].active != 2)
    && (forall i :: 0 <= i < |w.answered| ==>
          Timed(offset, w.now, w.answered[i]) && (w.answered[i].active == 2 ==> w.client.got))
    && (w.client.got ==> Known(w.all, w.client.target) && Known(w.all, w.client.correction))
  }

  /** One exchange: the error of its compensation is bounded by its delay. */
  lemma ExchangeError(offset: int, now: int, p: TimePacket)
    requires Timed(offset, now, p)
    ensures Accurate(offset, Measure(p, now))
  {
  }

  lemma WindowGrows(all: seq<Sample>, x: Sample)
    ensures Push(Window(all, |all|), x) == Window(all + [x], |all| + 1)
  {
  }

  lemma WindowKept(all: seq<Sample>, x: Sample, n: nat)
    requires n <= |all|
    ensures Window(all + [x], n) == Window(all, n)
  {
  }

  lemma KnownKept(all: seq<Sample>, x: Sample, c: int)
    requires Known(all, c)
    ensures Known(all + [x], c)
  {
    var n :| MIN_COLLECTED <= n <= |all| && c == Best(Window(all, n)).comp;
    WindowKept(all, x, n);
  }

  lemma SteadyGrows(all: seq<Sample>, x: Sample)
    ensures WasSteady(all + [x]) <==>
            WasSteady(all) || (|all| + 1 >= MIN_COLLECTED && Steady(Window(all + [x], |all| + 1)))
  {
    if WasSteady(all) {
      var n :| MIN_COLLECTED <= n <= |all| && Steady(Window(all, n));
      WindowKept(all, x, n);
    }
    if WasSteady(all + [x]) {
      var n :| MIN_COLLECTED <= n <= |all| + 1 && Steady(Window(all + [x], n));
      if n <= |all| { WindowKept(all, x, n); }
    }
  }

  lemma HearInv(offset: int, w: World, k: nat, now: int)
    requires ServerInv(offset, w) && NetInv(offset, w) && k < |w.answered| && w.now <= now
    ensures ServerInv(offset, w.(now := now, server := Hear(w.server, w.answered[k], now),
                                 all := w.all + [Measure(w.answered[k], now)]))
  {
    var x := Measure(w.answered[k], now);
    ExchangeError(offset, now, w.answered[k]);
    WindowGrows(w.all, x);
    SteadyGrows(w.all, x);
  }

  /** More samples leave the corrections in circulation known. */
  lemma NetKept(offset: int, w: World, now: int, server: Server, x: Sample)
    requires NetInv(offset, w) && w.now <= now
    ensures NetInv(offset, w.(now := now, server := server, all := w.all + [x]))
  {
    hide Best, Window, Known;
    forall c | Known(w.all, c) ensures Known(w.all + [x], c) { KnownKept(w.all, x, c); }
  }

  lemma PollInv(offset: int, w: World, now: int)
    requires ServerInv(offset, w) && NetInv(offset, w) && w.now <= now
    ensures NetInv(offset, w.(now := now, asked := w.asked + [Ask(w.server, now)]))
  {
    if w.server.stable { assert Known(w.all, w.server.correction); }
    hide Best, Window, Known;
  }

  lemma AnswerInv(offset: int, w: World, k: nat, now: int)
    requires NetInv(offset, w) && k < |w.asked| && w.now <= now
    ensures NetInv(offset, w.(now := now, client := Adopt(w.client, w.asked[k]),
                              answered := w.answered + [Answer(w.asked[k], now + offset)]))
  {
    hide Best, Window, Known;
  }

  lemma StepInv(offset: int, w: World, e: Event)
    requires ServerInv(offset, w) && NetInv(offset, w)
    ensures ServerInv(offset, Step(offset, w, e)) && NetInv(offset, Step(offset, w, e))
  {
    hide Best, Window, Known, WasSteady, Hear, Accurate;
    match e
    case Poll(wait) => PollInv(offset, w, w.now + wait);
    case ToClient(wait, k) =>
      if k < |w.asked| { AnswerInv(offset, w, k, w.now + wait); }
    case ToServer(wait, k) =>
      if k < |w.answered| {
        var now := w.now + wait;
        HearInv(offset, w, k, now);
        NetKept(offset, w, now, Hear(w.server, w.answered[k], now), Measure(w.answered[k], now));
      }
  }

  lemma {:induction false} RunInv(offset: int, t0: int, es: seq<Event>)
    ensures ServerInv(offset, Run(offset, t0, es)) && NetInv(offset, Run(offset, t0, es))
  {
    if es != [] {
      RunInv(offset, t0, es[..|es| - 1]);
      StepInv(offset, Run(offset, t0, es[..|es| - 1]), es[|es| - 1]);
    }
  }

  lemma BestOf(offset: int, all: seq<Sample>, n: nat)
    requires MIN_COLLECTED <= n <= |all|
    requires forall i :: 0 <= i < |all| ==> Accurate(offset, all[i])
    ensures Within(offset, Best(Window(all, n)).comp, Window(all, n))
  {
    SmallestFirst(Window(all, n), MIN_COLLECTED);
    assert Accurate(offset, Best(Window(all, n)));
  }

  /** Once stable, the server's correction is within half of every delay among its last 100 samples, hence of
      the smallest; and the server is stable exactly when some window of samples was steady. */
  lemma ServerAccuracy(offset: int, t0: int, es: seq<Event>)
    ensures var w := Run(offset, t0, es);
            && w.server.list == Window(w.all, |w.all|) && |w.server.list| == Min(|w.all|, 100)
            && (w.server.stable <==> WasSteady(w.all))
            && (w.server.stable ==> w.server.list != [] && Within(offset, w.server.correction, w.server.list))
  {
    var w := Run(offset, t0, es);
    RunInv(offset, t0, es);
    if w.server.stable { BestOf(offset, w.all, |w.all|); }
  }

  /** What the client holds is as good, for the samples the server had when it sent that correction. */
  lemma ClientAccuracy(offset: int, t0: int, es: seq<Event>)
    requires Run(offset, t0, es).client.got
    ensures var w := Run(offset, t0, es);
            exists n :: MIN_COLLECTED <= n <= |w.all| && Within(offset, w.client.target, Window(w.all, n))
  {
    var w := Run(offset, t0, es);
    RunInv(offset, t0, es);
    var n :| MIN_COLLECTED <= n <= |w.all| && w.client.target == Best(Window(w.all, n)).comp;
    BestOf(offset, w.all, n);
  }

  /** The server believes that the client has a correction only when it does. */
  lemma ConfirmationSound(offset: int, t0: int, es: seq<Event>)
    ensures Run(offset, t0, es).server.clientGot ==> Run(offset, t0, es).client.got
  {
    RunInv(offset, t0, es);
  }

  /** The rounding term is needed: an exchange whose error is half its delay plus one half. */
  lemma RoundingExample()
    ensures var p := TimePacket(0, -4, -4, 0, 0);
            Timed(-5, 1, p) && Measure(p, 1) == Sample(1, -4) && 2 * Abs(-4 - -5) == 1 + 1
  {
  }

  // ----- who learns what, and when -------------------------------------------------------

  lemma RunSnoc(offset: int, t0: int, es: seq<Event>, e: Event)
    ensures Run(offset, t0, es + [e]) == Step(offset, Run(offset, t0, es), e)
  {
    assert (es + [e])[..|es|] == es;
  }

  /** Before some window was steady the server holds no correction; every request says whether there is one, and which. */
  lemma {:induction false} Unstable(offset: int, t0: int, es: seq<Event>)
    ensures !Run(offset, t0, es).server.stable ==> Run(offset, t0, es).server.correction == 0
  {
    if es != [] { Unstable(offset, t0, es[..|es| - 1]); }
  }

  lemma Requests(offset: int, t0: int, es: seq<Event>, wait: nat)
    ensures var w, w' := Run(offset, t0, es), Run(offset, t0, es + [Poll(wait)]);
            && |w'.asked| == |w.asked| + 1
            && var p := w'.asked[|w.asked|];
               p.t1 == w.now + wait && (p.active == 1 <==> w.server.stable) && (p.active != 1 ==> p.active == 0)
               && p.correction == w.server.correction
  {
    RunSnoc(offset, t0, es, Poll(wait));
    Unstable(offset, t0, es);
  }

  /** A request that carries a correction makes it the client's target; the correction that the client starts from is the first
      one it ever got. */
  lemma Adopts(offset: int, t0: int, es: seq<Event>, wait: nat, k: nat)
    requires k < |Run(offset, t0, es).asked|
    ensures var w, w' := Run(offset, t0, es), Run(offset, t0, es + [ToClient(wait, k)]);
            var p := w.asked[k];
            && (w'.client.got <==> w.client.got || p.active == 1)
            && w'.client.target == (if p.active == 1 then p.correction else w.client.target)
            && (w.client.got ==> w'.client.correction == w.client.correction)
            && (!w.client.got && w'.client.got ==> w'.client.correction == w'.client.target)
  {
    RunSnoc(offset, t0, es, ToClient(wait, k));
  }

  /** The server takes the answer to such a request, once it has five samples, as proof that the client has one. */
  lemma Confirms(offset: int, t0: int, es: seq<Event>, wait: nat, k: nat)
    requires k < |Run(offset, t0, es).answered|
    ensures var w, w' := Run(offset, t0, es), Run(offset, t0, es + [ToServer(wait, k)]);
            w'.server.clientGot <==> w.server.clientGot || (w.answered[k].active == 2 && |w.all| + 1 >= 5)
  {
    RunSnoc(offset, t0, es, ToServer(wait, k));
    RunInv(offset, t0, es);
  }

  /** Every answer to a request with a correction, and no other, says so. */
  lemma {:induction false} AnswersSay(offset: int, t0: int, es: seq<Event>, wait: nat, k: nat)
    requires k < |Run(offset, t0, es).asked|
    ensures var w, w' := Run(offset, t0, es), Run(offset, t0, es + [ToClient(wait, k)]);
            |w'.answered| == |w.answered| + 1 && (w'.answered[|w.answered|].active == 2 <==> w.asked[k].active == 1)
  {
    RunSnoc(offset, t0, es, ToClient(wait, k));
    RunInv(offset, t0, es);
  }
}
