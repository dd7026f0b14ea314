/** The round-trip estimator. */
module RttEstimator {
  import opened Words
  import opened Protocol

  /** The estimator after a run of samples. */
  function Samples(cfg: Config, r: Rtt, rs: seq<int>): (r': Rtt) {
    if rs == [] then r else UpdateRtt(cfg, Samples(cfg, r, rs[..|rs| - 1]), rs[|rs| - 1])
  }

  ghost predicate InRange(top: int, r: Rtt) {
    0 <= r.srtt <= top && 0 <= r.rttval <= top
  }

  lemma UpdateInRange(cfg: Config, r: Rtt, rtt: int, top: int)
    requires 0 <= rtt <= top && 1 <= top && InRange(top, r)
    ensures InRange(top, UpdateRtt(cfg, r, rtt))
    ensures cfg.minRto <= UpdateRtt(cfg, r, rtt).rto <= RTO_MAX
  {
  }

  /** Over any run of samples in [0, top], srtt and rttval stay in [0, max(1, top)], and the timeout
      is in [minrto, 60000] after every update. */
  lemma {:induction false} SamplesInRange(cfg: Config, rs: seq<int>, top: int)
    requires 0 <= top && forall i :: 0 <= i < |rs| ==> 0 <= rs[i] <= top
    ensures InRange(Max(1, top), Samples(cfg, Create().rtt, rs))
    ensures rs != [] ==> cfg.minRto <= Samples(cfg, Create().rtt, rs).rto <= RTO_MAX
  {
    if rs != [] {
      SamplesInRange(cfg, rs[..|rs| - 1], top);
      UpdateInRange(cfg, Samples(cfg, Create().rtt, rs[..|rs| - 1]), rs[|rs| - 1], Max(1, top));
    }
  }

  /** No intermediate value of an update overflows a signed word while samples are below 2^28. */
  lemma NoSignedOverflow(cfg: Config, rs: seq<int>, rtt: int)
    requires 0 <= rtt < 0x1000_0000 && forall i :: 0 <= i < |rs| ==> 0 <= rs[i] < 0x1000_0000
    ensures var r, r' := Samples(cfg, Create().rtt, rs), Samples(cfg, Create().rtt, rs + [rtt]);
            && 7 * r.srtt + rtt < 0x8000_0000
            && 3 * r.rttval + Max(rtt, r.srtt) < 0x8000_0000
            && r'.srtt + Max(cfg.interval, 4 * r'.rttval) < 0x8000_0000
  {
    SamplesInRange(cfg, rs, 0x0fff_ffff);
    SamplesInRange(cfg, rs + [rtt], 0x0fff_ffff);
  }

  // ----- constant samples ----------------------------------------------------------------

  ghost predicate Settled(r: int, srtt: int) {
    r - 7 <= srtt <= r
  }

  function Constant(r: int, n: nat): (rs: seq<int>)
    ensures |rs| == n && forall i :: 0 <= i < n ==> rs[i] == r
  {
    seq(n, _ => r)
  }

  /** One more equal sample moves srtt toward the sample, strictly unless it has settled. */
  lemma Approach(cfg: Config, e: Rtt, r: int)
    requires 1 <= r && 0 < e.srtt
    ensures var s, s' := e.srtt, UpdateRtt(cfg, e, r).srtt;
            && 0 < s'
            && (r < s ==> r <= s' < s)
            && (s < r - 7 ==> s < s' <= r)
            && (Settled(r, s) ==> s' == s)
  {
  }

  /** Under a constant sample the estimate settles in [r - 7, r] and stays there. */
  lemma {:induction false} ConstantSettles(cfg: Config, e: Rtt, r: int, n: nat)
    requires 1 <= r && 0 < e.srtt
    ensures 0 < Samples(cfg, e, Constant(r, n)).srtt
    ensures n >= (if r < e.srtt then e.srtt - r else r - e.srtt) ==> Settled(r, Samples(cfg, e, Constant(r, n)).srtt)
    ensures Settled(r, Samples(cfg, e, Constant(r, n)).srtt) || 
            n + (var s := Samples(cfg, e, Constant(r, n)).srtt; if r < s then s - r else r - s)
              <= (if r < e.srtt then e.srtt - r else r - e.srtt)
  {
    if n > 0 {
      ConstantSettles(cfg, e, r, n - 1);
      assert Constant(r, n)[..n - 1] == Constant(r, n - 1);
      Approach(cfg, Samples(cfg, e, Constant(r, n - 1)), r);
    }
  }

  /** A fresh estimator takes the first sample as it is. */
  lemma FreshSettles(cfg: Config, r: int, n: nat)
    requires 1 <= r && 1 <= n
    ensures Samples(cfg, Create().rtt, Constant(r, n)).srtt == r
  {
    if n == 1 {
      assert Constant(r, n)[..0] == [];
    } else {
      FreshSettles(cfg, r, n - 1);
      assert Constant(r, n)[..n - 1] == Constant(r, n - 1);
    }
  }

  // ----- the timeout ---------------------------------------------------------------------

  lemma SamplesLast(cfg: Config, e: Rtt, rs: seq<int>, rtt: int)
    ensures Samples(cfg, e, rs + [rtt]) == UpdateRtt(cfg, Samples(cfg, e, rs), rtt)
  {
    assert (rs + [rtt])[..|rs|] == rs;
  }

  /** After every sample the timeout covers the estimate with the interval, and with four times the variance, unless
      it is cut at 60000 ms; and it is no longer than one of these asks for. */
  lemma RtoExact(cfg: Config, e: Rtt, rs: seq<int>)
    requires rs != []
    ensures var r := Samples(cfg, e, rs);
            && r.rto <= 60000
            && (r.rto == 60000 || (r.srtt + cfg.interval <= r.rto && r.srtt + 4 * r.rttval <= r.rto && cfg.minRto <= r.rto))
            && (r.rto == 60000 ==>
                  60000 <= r.srtt + cfg.interval || 60000 <= r.srtt + 4 * r.rttval || 60000 <= cfg.minRto)
            && (r.rto == cfg.minRto || r.rto == 60000 || r.rto == r.srtt + cfg.interval || r.rto == r.srtt + 4 * r.rttval)
  {
  }

  // ----- what one sample does ------------------------------------------------------------

  /** How far a sample is from an estimate. */
  function Off(x: int, srtt: int): (d: nat) {
    if x < srtt then srtt - x else x - srtt
  }

  /** The first sample of a fresh estimator sets the estimate, and the variance to half of it. */
  lemma FirstSample(cfg: Config, x: int)
    requires 0 <= x
    ensures var r := Samples(cfg, Create().rtt, [x]); r.srtt == x && 2 * r.rttval <= x < 2 * r.rttval + 2
  {
    assert [x][..0] == [];
  }

  /** A later sample moves the estimate an eighth of the way, but not below 1, and the variance a quarter of the way from
      where it was to the deviation of this sample, rounded down. */
  lemma NextSample(cfg: Config, e: Rtt, rs: seq<int>, x: int)
    requires 0 <= x && 0 < Samples(cfg, e, rs).srtt
    ensures var r, r' := Samples(cfg, e, rs), Samples(cfg, e, rs + [x]);
            && (8 * r'.srtt <= 7 * r.srtt + x < 8 * r'.srtt + 8 || (r'.srtt == 1 && 7 * r.srtt + x < 8))
            && 4 * r'.rttval <= 3 * r.rttval + Off(x, r.srtt) < 4 * r'.rttval + 4
  {
    hide UpdateRtt, Off;
    SamplesLast(cfg, e, rs, x);
    EstimateMoves(cfg, Samples(cfg, e, rs), x);
    VarianceMoves(cfg, Samples(cfg, e, rs), x);
  }

  lemma EstimateMoves(cfg: Config, r: Rtt, x: int)
    requires 0 <= x && 0 < r.srtt
    ensures var s := UpdateRtt(cfg, r, x).srtt;
            8 * s <= 7 * r.srtt + x < 8 * s + 8 || (s == 1 && 7 * r.srtt + x < 8)
  {
  }

  lemma VarianceMoves(cfg: Config, r: Rtt, x: int)
    requires 0 < r.srtt
    ensures var v := UpdateRtt(cfg, r, x).rttval; 4 * v <= 3 * r.rttval + Off(x, r.srtt) < 4 * v + 4
  {
  }

  /** A sample that deviates more than the variance raises it, by a quarter of the excess, up to rounding. */
  lemma DeviationRaises(cfg: Config, e: Rtt, rs: seq<int>, x: int)
    requires 0 <= x && 0 < Samples(cfg, e, rs).srtt
    requires Off(x, Samples(cfg, e, rs).srtt) >= Samples(cfg, e, rs).rttval
    ensures var r, r' := Samples(cfg, e, rs), Samples(cfg, e, rs + [x]);
            var excess := Off(x, r.srtt) - r.rttval;
            4 * (r'.rttval - r.rttval) <= excess < 4 * (r'.rttval - r.rttval) + 4
  {
    NextSample(cfg, e, rs, x);
  }

  // ----- the variance under constant samples ---------------------------------------------

  /** Where the variance rests when every sample is off by d. */
  ghost predicate Rests(d: nat, v: int) {
    d - 3 <= v <= d && 0 <= v
  }

  /** How far it is from there. */
  ghost function Way(d: nat, v: int): (n: nat) {
    if v > d then v - d else if v < d - 3 then d - 3 - v else 0
  }

  lemma VarianceStep(cfg: Config, e: Rtt, r: int)
    requires 1 <= r && 0 < e.srtt && Settled(r, e.srtt) && 0 <= e.rttval
    ensures var d, v, v' := r - e.srtt, e.rttval, UpdateRtt(cfg, e, r).rttval;
            && 0 <= v' && (Rests(d, v) ==> v' == v) && (!Rests(d, v) ==> Way(d, v') < Way(d, v))
  {
  }

  /** Once the estimate has settled under a constant sample, it stays, and the variance reaches [d - 3, d], where d is what
      the sample is off the estimate, in at most as many samples as it was away, and stays; then the timeout stays. */
  lemma {:induction false} VarianceSettles(cfg: Config, e: Rtt, r: int, n: nat)
    requires 1 <= r && 0 < e.srtt && Settled(r, e.srtt) && 0 <= e.rttval
    ensures var d, t := r - e.srtt, Samples(cfg, e, Constant(r, n));
            && t.srtt == e.srtt && 0 <= t.rttval && Way(d, t.rttval) <= Max(0, Way(d, e.rttval) - n)
            && (n >= Way(d, e.rttval) ==> Rests(d, t.rttval))
  {
    if n > 0 {
      VarianceSettles(cfg, e, r, n - 1);
      assert Constant(r, n)[..n - 1] == Constant(r, n - 1);
      var t := Samples(cfg, e, Constant(r, n - 1));
      Approach(cfg, t, r);
      VarianceStep(cfg, t, r);
    }
  }

  /** A fresh estimator under a constant sample r ends with no variance, so that the timeout settles at r + interval, within
      its bounds. */
  lemma FreshRto(cfg: Config, r: int, n: nat)
    requires 1 <= r && n >= r + 1
    ensures var t := Samples(cfg, Create().rtt, Constant(r, n));
            t.srtt == r && t.rttval == 0 && t.rto == Min(Max(cfg.minRto, r + cfg.interval), RTO_MAX)
  {
    hide UpdateRtt, Samples, Constant;
    FirstSample(cfg, r);
    var e := Samples(cfg, Create().rtt, [r]);
    Split(cfg, Create().rtt, r, n - 1);
    VarianceSettles(cfg, e, r, n - 1);
    RtoExact(cfg, Create().rtt, Constant(r, n));
  }

  lemma {:induction false} Split(cfg: Config, e: Rtt, r: int, n: nat)
    ensures Samples(cfg, e, Constant(r, n + 1)) == Samples(cfg, Samples(cfg, e, [r]), Constant(r, n))
  {
    assert Constant(r, n + 1)[..n] == Constant(r, n);
    if n == 0 {
      assert Constant(r, 1) == [r];
    } else {
      Split(cfg, e, r, n - 1);
      assert Constant(r, n)[..n - 1] == Constant(r, n - 1);
    }
  }
}
