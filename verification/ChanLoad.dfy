/** The channel load average and the T3122 wait indicator (bts_update_t3122_chan_load in
    src/osmo-bsc/chan_alloc.c). */
module ChanLoad {

  const NUM_SAMPLES := 7
  const MIN_WAIT := 10     // GSM_T3122_DEFAULT
  const MAX_WAIT := 128
  const UINT16_MAX := 0xffff

  datatype Load = Load(used: nat, total: nat)

  /** A sample that is not bogus. */
  predicate Good(l: Load) {
    l.total > 0 && l.used <= l.total
  }

  function Plus(a: Load, b: Load): Load {
    Load(a.used + b.used, a.total + b.total)
  }

  function Total(s: seq<Load>): (r: Load) {
    if s == [] then Load(0, 0) else Plus(Total(s[..|s| - 1]), s[|s| - 1])
  }

  lemma {:induction false} TotalOfGood(s: seq<Load>)
    requires forall l :: l in s ==> Good(l)
    ensures Total(s).used <= Total(s).total && (s != [] ==> Good(Total(s)))
  {
    if s != [] {
      assert s[|s| - 1] in s;
      TotalOfGood(s[..|s| - 1]);
    }
  }

  /** Counters too large for fixed-point calculation are left out. */
  function Sane(counters: seq<Load>): (r: seq<Load>) {
    if counters == [] then []
    else
      var c := counters[|counters| - 1];
      Sane(counters[..|counters| - 1]) + if c.used > UINT16_MAX || c.total > UINT16_MAX then [] else [c]
  }

  lemma TotalStep(s: seq<Load>, l: Load)
    ensures Total(s + [l]) == Plus(Total(s), l)
  {
    assert (s + [l])[..|s|] == s;
  }

  /** Summing up the load of all kinds of channels */
  method SumUp(counters: seq<Load>) returns (sum: Load)
    ensures sum == Total(Sane(counters))
  {
    sum := Load(0, 0);
    var i := 0;
    while i < |counters|
      invariant 0 <= i <= |counters| && sum == Total(Sane(counters[..i]))
    {
      var c := counters[i];
      assert counters[..i + 1][..i] == counters[..i];
      TotalStep(Sane(counters[..i]), c);
      if !(c.used > UINT16_MAX || c.total > UINT16_MAX) {
        sum := Plus(sum, c);
      } else {
        assert Sane(counters[..i + 1]) == Sane(counters[..i]);
      }
      i := i + 1;
    }
    assert counters[..|counters|] == counters;
  }

  // ----- fixed-point arithmetic -----

  /** Dividing rounds down by less than one. */
  lemma Rounds(a: nat, b: nat)
    requires b > 0
    ensures (a / b) * b <= a < (a / b) * b + b
  {
  }

  lemma TimesLeq(a: nat, b: nat, c: nat)
    requires a <= b
    ensures a * c <= b * c
  {
  }

  function Ratio(l: Load): (r: nat)
    requires l.total > 0
  {
    (l.used * 256) / l.total
  }

  lemma RatioBound(l: Load)
    requires Good(l)
    ensures Ratio(l) <= 256
    ensures Ratio(l) * l.total <= 256 * l.used < (Ratio(l) + 1) * l.total
  {
    Rounds(l.used * 256, l.total);
    if Ratio(l) >= 257 {
      TimesLeq(257, Ratio(l), l.total);
    }
  }

  /** A percentage of at most 100 that is the true load, or less than 2 below it. */
  predicate CloseTo(l: Load, percent: nat) {
    percent <= 100 && percent * l.total <= 100 * l.used < (percent + 2) * l.total
  }

  /** The average in percent never exceeds the true one and falls short of it by less than 2. */
  lemma PercentBound(l: Load, avg: nat)
    requires Good(l) && avg == (Ratio(l) * 100) / 256
    ensures CloseTo(l, avg)
  {
    RatioBound(l);
    var q, t := Ratio(l), l.total;
    assert 256 * avg <= 100 * q < 256 * avg + 256;
    Scaled(256, avg, 0, t);
    Scaled(100, q, 0, t);
    Scaled(256, avg, 256, t);
    Scaled(1, q, 1, t);
    Scaled(1, avg, 2, t);
    TimesLeq(256 * avg, 100 * q, t);
    TimesLeq(100 * q, 256 * avg + 256, t);
  }

  lemma Scaled(k: nat, a: nat, c: nat, t: nat)
    ensures (k * a + c) * t == k * (a * t) + c * t
  {
  }

  /** The wait indicator is 128 times the load, rounded down, but at least the default. */
  predicate WaitFor(l: Load, wait: nat) {
    && MIN_WAIT <= wait <= MAX_WAIT
    && (wait > MIN_WAIT ==> wait * l.total <= MAX_WAIT * l.used)
    && MAX_WAIT * l.used < (wait + 1) * l.total
  }

  lemma WaitBound(l: Load, wait: nat)
    requires Good(l) && wait == (Ratio(l) * MAX_WAIT) / 256
    ensures wait <= MAX_WAIT && wait * l.total <= MAX_WAIT * l.used < (wait + 1) * l.total
  {
    RatioBound(l);
    var q, t := Ratio(l), l.total;
    assert 2 * wait <= q < 2 * wait + 2;
    Scaled(2, wait, 0, t);
    Scaled(2, wait, 2, t);
    Scaled(1, wait, 1, t);
    TimesLeq(2 * wait, q, t);
    TimesLeq(q + 1, 2 * wait + 2, t);
  }

  /** The load half of the calculation; the source asserts that it is at most 100 */
  method Percent(l: Load) returns (percent: nat)
    requires Good(l)
    ensures CloseTo(l, percent)
  {
    percent := (Ratio(l) * 100) / 256;
    PercentBound(l, percent);
  }

  /** The T3122 half of the calculation */
  method WaitIndicator(l: Load) returns (wait: nat)
    requires Good(l)
    ensures WaitFor(l, wait)
  {
    wait := (Ratio(l) * MAX_WAIT) / 256;
    WaitBound(l, wait);
    if wait < MIN_WAIT {
      TimesLeq(wait + 1, MIN_WAIT + 1, l.total);
      wait := MIN_WAIT;
    } else if wait > MAX_WAIT {
      assert false;
    }
  }

  class LoadAverage {
    var samples: seq<Load>     // chan_load_samples
    var idx: nat               // chan_load_samples_idx
    var avg: nat               // chan_load_avg
    var t3122: nat
    ghost var valid: seq<Load>        // good samples since the last bogus one or the last average
    ghost var published: seq<(seq<Load>, nat)>   // every average, with the samples it covers

    /** An average covers NUM_SAMPLES + 1 good samples and is close to their true load. */
    ghost predicate Published(covers: seq<Load>, percent: nat) {
      && |covers| == NUM_SAMPLES + 1
      && (forall l :: l in covers ==> Good(l))
      && CloseTo(Total(covers), percent)
    }

    ghost predicate Valid()
      reads this
    {
      && |samples| == NUM_SAMPLES && idx == |valid| <= NUM_SAMPLES
      && samples[..idx] == valid
      && (forall l :: l in valid ==> Good(l))
      && avg <= 100
      && (t3122 == 0 || MIN_WAIT <= t3122 <= MAX_WAIT)
      && (forall p :: p in published ==> Published(p.0, p.1))
    }

    constructor ()
      ensures Valid() && published == []
    {
      samples := seq(NUM_SAMPLES, _ => Load(0, 0));
      idx, avg, t3122, valid, published := 0, 0, 0, [], [];
    }

    method AddSamples(now: Load) returns (sum: Load)
      requires Valid() && idx == NUM_SAMPLES
      ensures sum == Plus(Total(valid), now)
    {
      sum := now;
      var i := 0;
      while i < NUM_SAMPLES
        invariant 0 <= i <= NUM_SAMPLES && sum == Plus(Total(samples[..i]), now)
      {
        TotalStep(samples[..i], samples[i]);
        assert samples[..i] + [samples[i]] == samples[..i + 1];
        sum := Plus(sum, samples[i]);
        i := i + 1;
      }
    }

    /** The average and the wait indicator of a full window */
    method Publish(now: Load)
      requires Valid() && idx == NUM_SAMPLES && Good(now)
      modifies this
      ensures Valid() && idx == 0 && WaitFor(Total(old(valid) + [now]), t3122)
      ensures published == old(published) + [(old(valid) + [now], avg)]
    {
      var sum := AddSamples(now);
      ghost var covers := valid + [now];
      TotalStep(valid, now);
      TotalOfGood(covers);
      idx := 0;
      avg := Percent(sum);
      t3122 := WaitIndicator(sum);
      published := published + [(covers, avg)];
      valid := [];
    }

    /** bts_update_t3122_chan_load: a bogus sample forgets the others, the first NUM_SAMPLES good ones
        are kept, and the next one makes an average of them all */
    method Update(usable: bool, counters: seq<Load>)
      requires Valid()
      modifies this
      ensures Valid()
      ensures
        var now := Total(Sane(counters));
        if !usable then valid == old(valid) && published == old(published) && t3122 == old(t3122)
        else if !Good(now) then valid == [] && t3122 == 0 && published == old(published) && avg == old(avg)
        else if |old(valid)| < NUM_SAMPLES then
          valid == old(valid) + [now] && published == old(published) && avg == old(avg) && t3122 == old(t3122)
        else valid == [] && published == old(published) + [(old(valid) + [now], avg)]
             && WaitFor(Total(old(valid) + [now]), t3122)
    {
      if !usable {
        return;
      }
      var now := SumUp(counters);
      if now.total == 0 || now.used > now.total {
        t3122, idx, valid := 0, 0, [];
        return;
      }
      if idx < NUM_SAMPLES {
        samples := samples[idx := now];
        idx := idx + 1;
        valid := valid + [now];
        return;
      }
      Publish(now);
    }

    /** Any sequence of samples: every average ever published covers eight good samples and is close to
        their load. */
    method Run(samples: seq<(bool, seq<Load>)>)
      requires Valid()
      modifies this
      ensures Valid() && forall p :: p in published ==> Published(p.0, p.1)
      ensures t3122 == 0 || MIN_WAIT <= t3122 <= MAX_WAIT
    {
      for i := 0 to |samples|
        invariant Valid()
      {
        Update(samples[i].0, samples[i].1);
      }
    }
  }
}
