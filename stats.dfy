/**
 * Per-pattern statistics (`PatternsStats`): for every pattern, how many
 * frames it won and the minimum, sum and maximum of each measured metric,
 * rebuilt from the detection logs and reported with averages.
 */
module Stats {
  import opened Wrappers
  import opened Frames
  import DetectionLogs

  /** A metric bound: a real number, or one of the infinities it starts from. */
  datatype Ext = NegInf | Fin(v: real) | PosInf

  predicate AtMost(a: Ext, b: Ext) {
    match (a, b)
    case (NegInf, _) => true
    case (_, PosInf) => true
    case (Fin(x), Fin(y)) => x <= y
    case _ => false
  }

  function MinExt(a: Ext, b: Ext): (r: Ext)
    ensures AtMost(r, a) && AtMost(r, b)
    ensures r == a || r == b
  {
    if AtMost(a, b) then a else b
  }

  function MaxExt(a: Ext, b: Ext): (r: Ext)
    ensures AtMost(a, r) && AtMost(b, r)
    ensures r == a || r == b
  {
    if AtMost(a, b) then b else a
  }

  /** The `{"min", "sum", "max"}` record of one metric. */
  datatype Aggregate = Aggregate(min: Ext, sum: real, max: Ext)

  /** The reset value: `min` at +inf, `sum` 0, `max` at -inf. */
  const EmptyAggregate := Aggregate(PosInf, 0.0, NegInf)

  datatype Metric = Power | Probability | F0 | F1 | F2

  /** The statistics of one pattern. */
  datatype PatternStat = PatternStat(
    count: nat,
    power: Aggregate,
    probability: Aggregate,
    f0: Aggregate,
    f1: Aggregate,
    f2: Aggregate)
  {
    function Get(m: Metric): Aggregate {
      match m
      case Power => power
      case Probability => probability
      case F0 => f0
      case F1 => f1
      case F2 => f2
    }

    function With(m: Metric, a: Aggregate): (r: PatternStat)
      ensures r.count == count && r.Get(m) == a
      ensures forall m' :: m' != m ==> r.Get(m') == Get(m')
    {
      match m
      case Power => this.(power := a)
      case Probability => this.(probability := a)
      case F0 => this.(f0 := a)
      case F1 => this.(f1 := a)
      case F2 => this.(f2 := a)
    }
  }

  /** `_initialize_pattern_stats`'s record, which `generate` also resets every pattern to. */
  const EmptyStat := PatternStat(0, EmptyAggregate, EmptyAggregate, EmptyAggregate, EmptyAggregate, EmptyAggregate)

  /** `_update_metric` on one record: a missing value changes nothing. */
  function Include(a: Aggregate, value: Option<real>): Aggregate {
    if value.None? then a
    else Aggregate(MinExt(a.min, Fin(value.value)), a.sum + value.value, MaxExt(a.max, Fin(value.value)))
  }

  lemma UpdateTwice(m: map<string, PatternStat>, k: string, a: PatternStat, b: PatternStat)
    ensures m[k := a][k := b] == m[k := b]
  {
  }

  /** One metric of a pattern's record takes one more value. */
  function Bump(p: PatternStat, m: Metric, value: Option<real>): PatternStat {
    p.With(m, Include(p.Get(m), value))
  }

  /** A record that has seen no value, or only finite ones. */
  predicate WellFormed(a: Aggregate) {
    && a.min != NegInf && a.max != PosInf
    && (a.min == PosInf <==> a.max == NegInf)
  }

  predicate WellFormedStat(p: PatternStat) {
    WellFormed(p.power) && WellFormed(p.probability) && WellFormed(p.f0) && WellFormed(p.f1) && WellFormed(p.f2)
  }

  lemma IncludeWellFormed(a: Aggregate, value: Option<real>)
    requires WellFormed(a)
    ensures WellFormed(Include(a, value))
  {
  }

  /** A missing value leaves the record as it was. */
  lemma BumpNone(p: PatternStat, m: Metric)
    ensures Bump(p, m, None) == p
  {
  }

  /** Folding a value into one metric keeps a well-formed record well-formed and its count as it was. */
  lemma BumpWellFormed(p: PatternStat, m: Metric, value: Option<real>)
    requires WellFormedStat(p)
    ensures WellFormedStat(Bump(p, m, value)) && Bump(p, m, value).count == p.count
  {
    IncludeWellFormed(p.Get(m), value);
  }

  /** The metrics `add_frame` reads from one frame whose winner has a name. */
  datatype Sample = Sample(
    name: string,
    probability: real,
    power: Option<real>,
    f0: Option<real>,
    f1: Option<real>,
    f2: Option<real>)

  function ValueOf(s: Sample, m: Metric): Option<real> {
    match m
    case Power => s.power
    case Probability => Some(s.probability)
    case F0 => s.f0
    case F1 => s.f1
    case F2 => s.f2
  }

  /** What `add_frame` counts for a frame: nothing without matches or without a winner name. */
  function SampleOf(f: Frame): (r: Option<Sample>)
    reads f`patterns
    ensures r.Some? <==> f.patterns != [] && WinnerName(f.patterns) != ""
    ensures r.Some? ==> (r.value.name == WinnerName(f.patterns)
      && r.value.probability == WinnerProbability(f.patterns)
      && r.value.power == f.power && r.value.f0 == f.f0 && r.value.f1 == f.f1 && r.value.f2 == f.f2)
  {
    if f.patterns == [] then None
    else if f.patterns[0].name == "" then None
    else Some(Sample(f.patterns[0].name, f.patterns[0].probability, f.power, f.f0, f.f1, f.f2))
  }

  function Samples(fs: seq<Frame>): (r: seq<Option<Sample>>)
    reads fs
    ensures |r| == |fs|
  {
    if fs == [] then [] else Samples(fs[..|fs| - 1]) + [SampleOf(fs[|fs| - 1])]
  }

  lemma {:induction false} SamplesAppend(a: seq<Frame>, b: seq<Frame>)
    ensures Samples(a + b) == Samples(a) + Samples(b)
    decreases |b|
  {
    if b == [] {
      assert a + b == a;
    } else {
      var init := b[..|b| - 1];
      SamplesAppend(a, init);
      assert (a + b)[..|a + b| - 1] == a + init;
    }
  }

  /** The samples of the logs read up to and including log `i`. */
  lemma SamplesOfLogsSnoc(logs: seq<DetectionLogs.DetectionLog>, i: nat)
    requires i < |logs|
    ensures Samples(DetectionLogs.AllFrames(logs[..i + 1]))
         == Samples(DetectionLogs.AllFrames(logs[..i])) + Samples(logs[i].frames)
  {
    assert logs[..i + 1][..i] == logs[..i];
    SamplesAppend(DetectionLogs.AllFrames(logs[..i]), logs[i].frames);
  }

  /** One more frame won by the pattern: the count goes up and every metric takes the value, in `add_frame`'s order. */
  function Record(p: PatternStat, s: Sample): PatternStat {
    var counted := p.(count := p.count + 1);
    Bump(Bump(Bump(Bump(Bump(counted, Power, ValueOf(s, Power)), Probability, ValueOf(s, Probability)),
      F0, ValueOf(s, F0)), F1, ValueOf(s, F1)), F2, ValueOf(s, F2))
  }

  /** Each metric of a recorded frame is folded in exactly once. */
  lemma RecordGet(p: PatternStat, s: Sample, m: Metric)
    ensures Record(p, s).count == p.count + 1
    ensures Record(p, s).Get(m) == Include(p.Get(m), ValueOf(s, m))
  {
  }

  /** `add_frame` on the statistics map: the winner's record, created when missing, takes the sample. */
  function AddSample(stats: map<string, PatternStat>, s: Option<Sample>): map<string, PatternStat> {
    if s.None? then stats
    else stats[s.value.name := Record(if s.value.name in stats then stats[s.value.name] else EmptyStat, s.value)]
  }

  /** The samples, in order, folded into the map one `add_frame` at a time. */
  function Replay(stats: map<string, PatternStat>, xs: seq<Option<Sample>>): map<string, PatternStat> {
    if xs == [] then stats else AddSample(Replay(stats, xs[..|xs| - 1]), xs[|xs| - 1])
  }

  /** Every pattern's record back to the reset value, keeping the patterns. */
  function ResetAll(stats: map<string, PatternStat>): (r: map<string, PatternStat>)
    ensures r.Keys == stats.Keys
    ensures forall k :: k in r ==> r[k] == EmptyStat
  {
    map k | k in stats :: EmptyStat
  }

  /** The samples won by pattern `k`, in order. */
  function ForKey(xs: seq<Option<Sample>>, k: string): seq<Sample> {
    if xs == [] then []
    else
      var last := xs[|xs| - 1];
      ForKey(xs[..|xs| - 1], k) + (if last.Some? && last.value.name == k then [last.value] else [])
  }

  function RecordAll(p: PatternStat, ss: seq<Sample>): PatternStat {
    if ss == [] then p else Record(RecordAll(p, ss[..|ss| - 1]), ss[|ss| - 1])
  }

  function IncludeAll(a: Aggregate, vs: seq<Option<real>>): Aggregate {
    if vs == [] then a else Include(IncludeAll(a, vs[..|vs| - 1]), vs[|vs| - 1])
  }

  function ValuesOf(ss: seq<Sample>, m: Metric): (r: seq<Option<real>>)
    ensures |r| == |ss|
    ensures forall i :: 0 <= i < |ss| ==> r[i] == ValueOf(ss[i], m)
  {
    if ss == [] then [] else ValuesOf(ss[..|ss| - 1], m) + [ValueOf(ss[|ss| - 1], m)]
  }

  /** The sum of the present values. */
  function SumPresent(vs: seq<Option<real>>): real {
    if vs == [] then 0.0
    else SumPresent(vs[..|vs| - 1]) + (if vs[|vs| - 1].Some? then vs[|vs| - 1].value else 0.0)
  }

  /**
   * The replay is pattern by pattern: a pattern is in the result iff it
   * was there before or won some frame, and its record is its old record
   * (or the empty one) after exactly the frames it won, in order.
   */
  lemma {:induction false} ReplayAt(stats: map<string, PatternStat>, xs: seq<Option<Sample>>, k: string)
    ensures k in Replay(stats, xs) <==> k in stats || ForKey(xs, k) != []
    ensures k in Replay(stats, xs) ==>
      Replay(stats, xs)[k] == RecordAll(if k in stats then stats[k] else EmptyStat, ForKey(xs, k))
    decreases |xs|
  {
    if xs != [] {
      var init := xs[..|xs| - 1];
      var last := xs[|xs| - 1];
      ReplayAt(stats, init, k);
      var before := Replay(stats, init);
      var base := if k in stats then stats[k] else EmptyStat;
      if last.Some? && last.value.name == k {
        var f := ForKey(init, k);
        assert ForKey(xs, k) == f + [last.value];
        assert (f + [last.value])[..|f|] == f;
        assert RecordAll(base, f + [last.value]) == Record(RecordAll(base, f), last.value);
        if k !in before {
          assert f == [];
        }
      } else {
        assert ForKey(xs, k) == ForKey(init, k);
      }
    }
  }

  /** Patterns the replay creates are exactly the ones that won a frame. */
  lemma ReplayKeys(stats: map<string, PatternStat>, xs: seq<Option<Sample>>)
    ensures forall k :: k in Replay(stats, xs) <==> k in stats || ForKey(xs, k) != []
  {
    forall k ensures k in Replay(stats, xs) <==> k in stats || ForKey(xs, k) != [] {
      ReplayAt(stats, xs, k);
    }
  }

  /** `generate` twice over the same logs gives what it gave once. */
  lemma GenerateIdempotent(stats: map<string, PatternStat>, xs: seq<Option<Sample>>)
    ensures Replay(ResetAll(Replay(ResetAll(stats), xs)), xs) == Replay(ResetAll(stats), xs)
  {
    var once := Replay(ResetAll(stats), xs);
    var twice := Replay(ResetAll(once), xs);
    forall k ensures k in twice <==> k in once {
      ReplayAt(ResetAll(once), xs, k);
      ReplayAt(ResetAll(stats), xs, k);
    }
    forall k | k in twice ensures twice[k] == once[k] {
      ReplayAt(ResetAll(once), xs, k);
      ReplayAt(ResetAll(stats), xs, k);
    }
  }

  /** An empty record for each of `names`, as a new `PatternsStats` holds. */
  function Blank(names: seq<string>): map<string, PatternStat> {
    map k | k in names :: EmptyStat
  }

  /** The statistics agree with the logged samples `xs`: `generate` would rebuild exactly them. */
  predicate InSync(stats: map<string, PatternStat>, xs: seq<Option<Sample>>) {
    Replay(ResetAll(stats), xs) == stats
  }

  /** One more sample is one more `add_frame`. */
  lemma ReplaySnoc(stats: map<string, PatternStat>, xs: seq<Option<Sample>>, x: Option<Sample>)
    ensures Replay(stats, xs + [x]) == AddSample(Replay(stats, xs), x)
  {
    assert (xs + [x])[..|xs|] == xs;
  }

  /**
   * Regenerating statistics that are in step with `xs` after one more
   * sample `x` was added gives them back, except that the winner of `x`
   * holds its record from before `x` (or the empty one).
   */
  lemma {:induction false} RegenerateAt(stats: map<string, PatternStat>, xs: seq<Option<Sample>>, x: Option<Sample>, k: string)
    requires InSync(stats, xs) && x.Some?
    ensures var again := Replay(ResetAll(AddSample(stats, x)), xs);
      && (k in again <==> k in stats || k == x.value.name)
      && (k in again ==> again[k] == if k in stats then stats[k] else EmptyStat)
  {
    ReplayAt(ResetAll(AddSample(stats, x)), xs, k);
    ReplayAt(ResetAll(stats), xs, k);
  }

  /** Statistics in step with the logs stay so when the next logged frame is added once. */
  lemma {:induction false} AddSampleKeepsSync(stats: map<string, PatternStat>, xs: seq<Option<Sample>>, x: Option<Sample>)
    requires InSync(stats, xs)
    ensures InSync(AddSample(stats, x), xs + [x])
  {
    var grown := AddSample(stats, x);
    ReplaySnoc(ResetAll(grown), xs, x);
    if x.Some? {
      var again := Replay(ResetAll(grown), xs);
      forall k ensures (k in AddSample(again, x) <==> k in grown) && (k in grown ==> AddSample(again, x)[k] == grown[k]) {
        RegenerateAt(stats, xs, x, k);
      }
      assert AddSample(again, x) == grown;
    } else {
      GenerateIdempotent(stats, xs);
    }
  }

  /**
   * New statistics generated from a log that holds one frame, with that
   * frame then added again, count it twice, so they are no longer what
   * `generate` builds from the log.
   */
  lemma LoggedFrameCountedTwice(names: seq<string>, s: Sample)
    ensures Replay(Blank(names), [Some(s)])[s.name].count == 1
    ensures AddSample(Replay(Blank(names), [Some(s)]), Some(s))[s.name].count == 2
    ensures !InSync(AddSample(Replay(Blank(names), [Some(s)]), Some(s)), [Some(s)])
  {
    var twice := AddSample(Replay(Blank(names), [Some(s)]), Some(s));
    ReplaySnoc(Blank(names), [], Some(s));
    ReplaySnoc(ResetAll(twice), [], Some(s));
    assert [] + [Some(s)] == [Some(s)];
  }

  /** A record built from the empty one counts its samples and aggregates each metric over them. */
  lemma {:induction false} RecordAllMetric(ss: seq<Sample>, m: Metric)
    ensures RecordAll(EmptyStat, ss).count == |ss|
    ensures RecordAll(EmptyStat, ss).Get(m) == IncludeAll(EmptyAggregate, ValuesOf(ss, m))
    decreases |ss|
  {
    if ss != [] {
      var init := ss[..|ss| - 1];
      RecordAllMetric(init, m);
      RecordGet(RecordAll(EmptyStat, init), ss[|ss| - 1], m);
      assert ValuesOf(ss, m)[..|ss| - 1] == ValuesOf(init, m);
    }
  }

  /**
   * `_update_metric` over a run of values: the minimum and maximum stay at
   * their infinities iff no value was present, and neither is ever the
   * wrong infinity.
   */
  lemma {:induction false} IncludeAllWellFormed(vs: seq<Option<real>>)
    ensures WellFormed(IncludeAll(EmptyAggregate, vs))
    ensures IncludeAll(EmptyAggregate, vs).min == PosInf <==> forall i :: 0 <= i < |vs| ==> vs[i].None?
    decreases |vs|
  {
    if vs != [] {
      var init := vs[..|vs| - 1];
      IncludeAllWellFormed(init);
      assert forall i :: 0 <= i < |init| ==> init[i] == vs[i];
    }
  }

  /** Every present value lies between the minimum and the maximum, and the sum is the sum of the present values. */
  lemma {:induction false} IncludeAllBetween(vs: seq<Option<real>>)
    ensures var a := IncludeAll(EmptyAggregate, vs);
      && (forall i :: 0 <= i < |vs| && vs[i].Some? ==> AtMost(a.min, Fin(vs[i].value)) && AtMost(Fin(vs[i].value), a.max))
      && a.sum == SumPresent(vs)
    decreases |vs|
  {
    if vs != [] {
      var init := vs[..|vs| - 1];
      IncludeAllBetween(init);
      assert forall i :: 0 <= i < |init| ==> init[i] == vs[i];
    }
  }

  /** A finite minimum or maximum is one of the values. */
  lemma {:induction false} IncludeAllAttained(vs: seq<Option<real>>)
    ensures var a := IncludeAll(EmptyAggregate, vs);
      && (a.min.Fin? ==> Some(a.min.v) in vs)
      && (a.max.Fin? ==> Some(a.max.v) in vs)
    decreases |vs|
  {
    if vs != [] {
      var init := vs[..|vs| - 1];
      IncludeAllAttained(init);
      assert vs == init + [vs[|vs| - 1]];
    }
  }

  /** `x` added up `n` times. */
  function Times(n: nat, x: real): real {
    if n == 0 then 0.0 else Times(n - 1, x) + x
  }

  lemma {:induction false} TimesIsProduct(n: nat, x: real)
    ensures Times(n, x) == (n as real) * x
  {
    if n > 0 {
      TimesIsProduct(n - 1, x);
    }
  }

  /** With every value present and between `lo` and `hi`, the sum lies between `n` times `lo` and `n` times `hi`. */
  lemma {:induction false} SumBetween(vs: seq<Option<real>>, lo: real, hi: real)
    requires forall i :: 0 <= i < |vs| ==> vs[i].Some? && lo <= vs[i].value <= hi
    ensures Times(|vs|, lo) <= SumPresent(vs) <= Times(|vs|, hi)
    decreases |vs|
  {
    if vs != [] {
      SumBetween(vs[..|vs| - 1], lo, hi);
    }
  }

  /** One reported metric: `get_stats` turns infinities into 0 and averages over the frame count. */
  datatype MetricReport = MetricReport(min: real, average: real, max: real)

  datatype Report = Report(
    name: string,
    count: nat,
    power: MetricReport,
    probability: MetricReport,
    f0: MetricReport,
    f1: MetricReport,
    f2: MetricReport)
  {
    function Get(m: Metric): MetricReport {
      match m
      case Power => power
      case Probability => probability
      case F0 => f0
      case F1 => f1
      case F2 => f2
    }
  }

  /**
   * A bound still at its starting infinity reports 0; the other two
   * infinities never occur in a well-formed record.
   */
  function Summarize(a: Aggregate, total: int): (r: MetricReport)
    ensures WellFormed(a) && a.min == PosInf ==> r.min == 0.0 && r.max == 0.0
    ensures a.min.Fin? ==> r.min == a.min.v
    ensures a.max.Fin? ==> r.max == a.max.v
    ensures total <= 0 ==> r.average == 0.0
    ensures total > 0 ==> r.average * (total as real) == a.sum
  {
    MetricReport(
      if a.min.Fin? then a.min.v else 0.0,
      if total > 0 then a.sum / (total as real) else 0.0,
      if a.max.Fin? then a.max.v else 0.0)
  }

  function ReportOf(name: string, p: PatternStat, total: int): (r: Report)
    ensures r.name == name && r.count == p.count
    ensures forall m :: r.Get(m) == Summarize(p.Get(m), total)
  {
    Report(name, p.count,
      Summarize(p.power, total), Summarize(p.probability, total), Summarize(p.f0, total),
      Summarize(p.f1, total), Summarize(p.f2, total))
  }

  /** A record built from nothing but samples has no negative-infinite minimum and no positive-infinite maximum. */
  lemma {:induction false} RecordAllWellFormed(p: PatternStat, ss: seq<Sample>)
    requires WellFormedStat(p)
    ensures WellFormedStat(RecordAll(p, ss))
    decreases |ss|
  {
    if ss != [] {
      RecordAllWellFormed(p, ss[..|ss| - 1]);
      var q := RecordAll(p, ss[..|ss| - 1]);
      var x := ss[|ss| - 1];
      IncludeWellFormed(q.power, x.power);
      IncludeWellFormed(q.probability, Some(x.probability));
      IncludeWellFormed(q.f0, x.f0);
      IncludeWellFormed(q.f1, x.f1);
      IncludeWellFormed(q.f2, x.f2);
    }
  }

  lemma AverageBetween(sum: real, n: real, lo: real, hi: real)
    requires n > 0.0 && n * lo <= sum <= n * hi
    ensures lo <= sum / n <= hi
  {
    var q := sum / n;
    assert q * n == sum;
    assert n * (q - lo) >= 0.0;
    assert n * (hi - q) >= 0.0;
  }

  /**
   * The summary of one metric over a run of values: no values report all
   * zeros, and every present value lies between the reported minimum and
   * maximum.
   */
  lemma SummaryBounds(vs: seq<Option<real>>)
    ensures WellFormed(IncludeAll(EmptyAggregate, vs))
    ensures var r := Summarize(IncludeAll(EmptyAggregate, vs), |vs|);
      && (vs == [] ==> r == MetricReport(0.0, 0.0, 0.0))
      && (forall i :: 0 <= i < |vs| && vs[i].Some? ==> r.min <= vs[i].value <= r.max)
  {
    IncludeAllWellFormed(vs);
    IncludeAllBetween(vs);
    var a := IncludeAll(EmptyAggregate, vs);
    var r := Summarize(a, |vs|);
    forall i | 0 <= i < |vs| && vs[i].Some? ensures r.min <= vs[i].value <= r.max {
      assert AtMost(a.min, Fin(vs[i].value)) && AtMost(Fin(vs[i].value), a.max);
    }
  }

  /**
   * The average is the sum of the present values over the number of
   * values: a missing value still counts in the denominator.
   */
  lemma SummaryAverageIsMean(vs: seq<Option<real>>)
    ensures vs != [] ==> Summarize(IncludeAll(EmptyAggregate, vs), |vs|).average == SumPresent(vs) / (|vs| as real)
  {
    IncludeAllBetween(vs);
  }

  /** When every value is present, the average lies between the minimum and the maximum. */
  lemma SummaryAverage(vs: seq<Option<real>>)
    requires vs != [] && forall i :: 0 <= i < |vs| ==> vs[i].Some?
    ensures WellFormed(IncludeAll(EmptyAggregate, vs))
    ensures var r := Summarize(IncludeAll(EmptyAggregate, vs), |vs|); r.min <= r.average <= r.max
  {
    IncludeAllWellFormed(vs);
    SumWithinBounds(vs);
    var a := IncludeAll(EmptyAggregate, vs);
    AggregateAverage(a, |vs|);
  }

  lemma SumWithinBounds(vs: seq<Option<real>>)
    requires vs != [] && forall i :: 0 <= i < |vs| ==> vs[i].Some?
    ensures var a := IncludeAll(EmptyAggregate, vs);
      a.min.Fin? && a.max.Fin? && Times(|vs|, a.min.v) <= a.sum <= Times(|vs|, a.max.v)
  {
    IncludeAllWellFormed(vs);
    IncludeAllBetween(vs);
    var a := IncludeAll(EmptyAggregate, vs);
    assert vs[0].Some?;
    var lo, hi := a.min.v, a.max.v;
    forall i | 0 <= i < |vs| ensures vs[i].Some? && lo <= vs[i].value <= hi {
      assert AtMost(a.min, Fin(vs[i].value)) && AtMost(Fin(vs[i].value), a.max);
    }
    SumBetween(vs, lo, hi);
    assert a.sum == SumPresent(vs);
  }

  lemma AggregateAverage(a: Aggregate, n: nat)
    requires WellFormed(a) && n > 0 && a.min.Fin? && a.max.Fin?
    requires Times(n, a.min.v) <= a.sum <= Times(n, a.max.v)
    ensures var r := Summarize(a, n); r.min <= r.average <= r.max
  {
    TimesIsProduct(n, a.min.v);
    TimesIsProduct(n, a.max.v);
    AverageBetween(a.sum, n as real, a.min.v, a.max.v);
  }

  /** `SummaryBounds` for one metric of a pattern's report built from the frames it won. */
  lemma ReportOfSamples(name: string, ss: seq<Sample>, m: Metric)
    ensures WellFormedStat(RecordAll(EmptyStat, ss))
    ensures var r := ReportOf(name, RecordAll(EmptyStat, ss), |ss|).Get(m);
      && (ss == [] ==> r == MetricReport(0.0, 0.0, 0.0))
      && (forall i :: 0 <= i < |ss| && ValueOf(ss[i], m).Some? ==> r.min <= ValueOf(ss[i], m).value <= r.max)
  {
    RecordAllWellFormed(EmptyStat, ss);
    RecordAllMetric(ss, m);
    SummaryBounds(ValuesOf(ss, m));
  }

  /**
   * The reported average of one metric is the sum of the values the frames
   * carry over the number of frames the pattern won: a frame without the
   * metric still counts in the denominator.
   */
  lemma ReportAverageIsMean(name: string, ss: seq<Sample>, m: Metric)
    ensures ss != [] ==>
      ReportOf(name, RecordAll(EmptyStat, ss), |ss|).Get(m).average == SumPresent(ValuesOf(ss, m)) / (|ss| as real)
  {
    RecordAllMetric(ss, m);
    SummaryAverageIsMean(ValuesOf(ss, m));
  }

  /** `SummaryAverage` for one metric of a pattern's report, when every frame it won carries that metric. */
  lemma ReportAverageOfSamples(name: string, ss: seq<Sample>, m: Metric)
    requires ss != [] && forall i :: 0 <= i < |ss| ==> ValueOf(ss[i], m).Some?
    ensures WellFormedStat(RecordAll(EmptyStat, ss))
    ensures var r := ReportOf(name, RecordAll(EmptyStat, ss), |ss|).Get(m); r.min <= r.average <= r.max
  {
    RecordAllWellFormed(EmptyStat, ss);
    RecordAllMetric(ss, m);
    SummaryAverage(ValuesOf(ss, m));
  }

  /** `total_frames` has the same patterns as the records and agrees with their counts; every record is well formed. */
  ghost predicate Consistent(stats: map<string, PatternStat>, totalFrames: map<string, int>) {
    && (forall k :: k in totalFrames <==> k in stats)
    && (forall k :: k in stats ==> totalFrames[k] == stats[k].count && WellFormedStat(stats[k]))
  }

  /** Storing a well-formed record for a pattern, with its count as the pattern's total, keeps the maps consistent. */
  lemma ConsistentUpdate(stats: map<string, PatternStat>, totalFrames: map<string, int>, name: string, p: PatternStat)
    requires Consistent(stats, totalFrames) && WellFormedStat(p)
    ensures Consistent(stats[name := p], totalFrames[name := p.count])
  {
  }

  /** Replacing a record by a well-formed one with the same count keeps the maps consistent. */
  lemma ConsistentReplace(stats: map<string, PatternStat>, totalFrames: map<string, int>, name: string, p: PatternStat)
    requires Consistent(stats, totalFrames) && name in stats && WellFormedStat(p) && p.count == stats[name].count
    ensures Consistent(stats[name := p], totalFrames)
  {
  }

  /** Storing a pattern's own record back changes nothing. */
  lemma SameRecord(stats: map<string, PatternStat>, name: string)
    requires name in stats
    ensures stats[name := stats[name]] == stats
  {
  }

  /** Empty records, with a total of 0 for each pattern, are consistent. */
  lemma ConsistentZeros(stats: map<string, PatternStat>)
    requires forall k :: k in stats ==> stats[k] == EmptyStat
    ensures Consistent(stats, map k | k in stats :: 0)
  {
  }

  /** The statistics of every pattern, with `total_frames` kept beside them. */
  class PatternsStats {
    var stats: map<string, PatternStat>
    var totalFrames: map<string, int>

    ghost predicate Valid()
      reads this
    {
      Consistent(stats, totalFrames)
    }

    /** The constructor (and `clear`): an empty record for every configured pattern. */
    constructor (patternNames: seq<string>)
      ensures Valid()
      ensures forall k :: k in stats <==> k in patternNames
      ensures forall k :: k in stats ==> stats[k] == EmptyStat
    {
      stats, totalFrames := map[], map[];
      new;
      var i := 0;
      while i < |patternNames|
        invariant 0 <= i <= |patternNames|
        invariant Valid()
        invariant forall k :: k in stats <==> k in patternNames[..i]
        invariant forall k :: k in stats ==> stats[k] == EmptyStat
      {
        InitializePatternStats(patternNames[i]);
        i := i + 1;
      }
      assert patternNames[..i] == patternNames;
    }

    /** `_initialize_pattern_stats`: an empty record for a pattern not seen yet; nothing otherwise. */
    method InitializePatternStats(name: string)
      requires Valid()
      modifies this
      ensures Valid() && name in stats
      ensures stats == old(stats)[name := if name in old(stats) then old(stats)[name] else EmptyStat]
      ensures totalFrames == old(totalFrames)[name := if name in old(stats) then old(totalFrames)[name] else 0]
    {
      if name !in stats {
        ConsistentUpdate(stats, totalFrames, name, EmptyStat);
        stats := stats[name := EmptyStat];
        totalFrames := totalFrames[name := 0];
      }
    }

    /** `_update_metric`: folds one value into one metric of one pattern; a missing value is skipped. */
    method UpdateMetric(name: string, m: Metric, value: Option<real>)
      requires Valid() && name in stats
      modifies this
      ensures Valid()
      ensures totalFrames == old(totalFrames)
      ensures stats == old(stats)[name := Bump(old(stats)[name], m, value)]
      ensures value.None? ==> stats == old(stats)
    {
      if value.None? {
        BumpNone(stats[name], m);
        SameRecord(stats, name);
        return;
      }
      var p := stats[name];
      var a := p.Get(m);
      var x := value.value;
      var included := Aggregate(MinExt(a.min, Fin(x)), a.sum + x, MaxExt(a.max, Fin(x)));
      assert included == Include(a, value);
      var updated := p.With(m, included);
      BumpWellFormed(p, m, value);
      ConsistentReplace(stats, totalFrames, name, updated);
      stats := stats[name := updated];
    }

    /** `add_frame`: the frame's winner, if it has a name, is counted with the frame's metrics. */
    method AddFrame(frame: Frame)
      requires Valid()
      modifies this
      ensures Valid()
      ensures stats == AddSample(old(stats), SampleOf(frame))
    {
      if frame.patterns == [] {
        return;
      }
      var winner := frame.patterns[0];
      var name := winner.name;
      if name == "" {
        return;
      }
      ghost var sample := Sample(name, winner.probability, frame.power, frame.f0, frame.f1, frame.f2);
      assert SampleOf(frame) == Some(sample);
      InitializePatternStats(name);
      ghost var initialized := stats;
      CountFrame(name);
      ghost var counted := stats;
      UpdateMetrics(name, frame.power, Some(winner.probability), frame.f0, frame.f1, frame.f2);
      assert stats[name] == Record(initialized[name], sample);
      UpdateTwice(initialized, name, counted[name], stats[name]);
      UpdateTwice(old(stats), name, initialized[name], stats[name]);
    }

    /** The counters of `add_frame`: one more frame for the pattern, in its record and in `total_frames`. */
    method CountFrame(name: string)
      requires Valid() && name in stats
      modifies this
      ensures Valid()
      ensures stats == old(stats)[name := old(stats)[name].(count := old(stats)[name].count + 1)]
      ensures totalFrames == old(totalFrames)[name := old(totalFrames)[name] + 1]
    {
      var counted := stats[name].(count := stats[name].count + 1);
      ConsistentUpdate(stats, totalFrames, name, counted);
      stats := stats[name := counted];
      totalFrames := totalFrames[name := counted.count];
    }

    /** The five `_update_metric` calls of `add_frame`, in the source's order. */
    method UpdateMetrics(name: string, power: Option<real>, probability: Option<real>,
                         f0: Option<real>, f1: Option<real>, f2: Option<real>)
      requires Valid() && name in stats
      modifies this
      ensures Valid()
      ensures totalFrames == old(totalFrames)
      ensures stats == old(stats)[name :=
        Bump(Bump(Bump(Bump(Bump(old(stats)[name], Power, power), Probability, probability), F0, f0), F1, f1), F2, f2)]
    {
      ghost var p := stats[name];
      UpdateMetric(name, Power, power);
      UpdateTwice(old(stats), name, p, Bump(p, Power, power));
      p := Bump(p, Power, power);
      UpdateMetric(name, Probability, probability);
      UpdateTwice(old(stats), name, p, Bump(p, Probability, probability));
      p := Bump(p, Probability, probability);
      UpdateMetric(name, F0, f0);
      UpdateTwice(old(stats), name, p, Bump(p, F0, f0));
      p := Bump(p, F0, f0);
      UpdateMetric(name, F1, f1);
      UpdateTwice(old(stats), name, p, Bump(p, F1, f1));
      p := Bump(p, F1, f1);
      UpdateMetric(name, F2, f2);
      UpdateTwice(old(stats), name, p, Bump(p, F2, f2));
    }

    /** `get_stats`: one report per pattern. */
    function GetStats(): (r: map<string, Report>)
      reads this
      requires Valid()
      ensures forall k :: k in r <==> k in stats
      ensures forall k :: k in r ==> r[k] == ReportOf(k, stats[k], stats[k].count)
    {
      map k | k in stats :: ReportOf(k, stats[k], totalFrames[k])
    }

    /**
     * `generate`: every record back to empty, then every frame of every
     * log, in order, through `add_frame`; returns the report.
     */
    method Generate(logs: DetectionLogs.DetectionLogCollection) returns (r: map<string, Report>)
      requires Valid()
      modifies this
      ensures Valid()
      ensures stats == Replay(ResetAll(old(stats)), Samples(DetectionLogs.AllFrames(logs.collection)))
      ensures r == GetStats()
    {
      Rebuild(logs);
      r := GetStats();
    }

    /** The body of `generate` before the report: the reset, then the replay of every logged frame. */
    method Rebuild(logs: DetectionLogs.DetectionLogCollection)
      requires Valid()
      modifies this
      ensures Valid()
      ensures stats == Replay(ResetAll(old(stats)), Samples(DetectionLogs.AllFrames(logs.collection)))
    {
      ResetStats();
      ghost var start := stats;
      var logList := logs.collection;
      var i := 0;
      while i < |logList|
        invariant 0 <= i <= |logList|
        invariant Valid()
        invariant stats == Replay(start, Samples(DetectionLogs.AllFrames(logList[..i])))
      {
        ReplayLog(logList, i, start);
        i := i + 1;
      }
      assert logList[..i] == logList;
    }

    /** One pass of the outer loop of `generate`: the frames of log `i`, after those of the logs before it. */
    method ReplayLog(logList: seq<DetectionLogs.DetectionLog>, i: nat, ghost start: map<string, PatternStat>)
      requires i < |logList|
      requires Valid()
      requires stats == Replay(start, Samples(DetectionLogs.AllFrames(logList[..i])))
      modifies this
      ensures Valid()
      ensures stats == Replay(start, Samples(DetectionLogs.AllFrames(logList[..i + 1])))
    {
      ghost var done := Samples(DetectionLogs.AllFrames(logList[..i]));
      ghost var next := Samples(logList[i].frames);
      AddFrames(logList[i].frames);
      assert next == Samples(logList[i].frames);
      assert done == Samples(DetectionLogs.AllFrames(logList[..i]));
      SamplesOfLogsSnoc(logList, i);
      ReplayAppend(start, done, next);
    }

    /** The reset at the start of `generate`: every known pattern back to the empty record. */
    method ResetStats()
      requires Valid()
      modifies this
      ensures Valid()
      ensures stats == ResetAll(old(stats))
    {
      ResetRecords();
      totalFrames := map k | k in stats :: 0;
      ConsistentZeros(stats);
    }

    /** The loop of the reset over the known patterns. */
    method ResetRecords()
      modifies this`stats
      ensures stats == ResetAll(old(stats))
    {
      var keys := stats.Keys;
      while keys != {}
        invariant keys <= stats.Keys == old(stats).Keys
        invariant forall k :: k in stats ==> stats[k] == if k in keys then old(stats)[k] else EmptyStat
        decreases keys
      {
        var k :| k in keys;
        stats := stats[k := EmptyStat];
        keys := keys - {k};
      }
    }

    /** The inner loop of `generate`: the frames of one log through `add_frame`, in order. */
    method AddFrames(fs: seq<Frame>)
      requires Valid()
      modifies this
      ensures Valid()
      ensures stats == Replay(old(stats), old(Samples(fs)))
    {
      var j := 0;
      while j < |fs|
        invariant 0 <= j <= |fs|
        invariant Valid()
        invariant stats == Replay(old(stats), old(Samples(fs[..j])))
      {
        assert fs[..j + 1][..j] == fs[..j];
        AddFrame(fs[j]);
        j := j + 1;
      }
      assert fs[..j] == fs;
    }
  }

  lemma ReplayStep(start: map<string, PatternStat>, done: seq<Option<Sample>>, next: seq<Option<Sample>>,
                   upTo: seq<Option<Sample>>, stats: map<string, PatternStat>)
    requires upTo == done + next && stats == Replay(Replay(start, done), next)
    ensures stats == Replay(start, upTo)
  {
    ReplayAppend(start, done, next);
  }

  /** Replaying two runs one after the other is replaying them joined. */
  lemma {:induction false} ReplayAppend(stats: map<string, PatternStat>, xs: seq<Option<Sample>>, ys: seq<Option<Sample>>)
    ensures Replay(stats, xs + ys) == Replay(Replay(stats, xs), ys)
    decreases |ys|
  {
    if ys == [] {
      assert xs + ys == xs;
    } else {
      var init := ys[..|ys| - 1];
      ReplayAppend(stats, xs, init);
      assert (xs + ys)[..|xs + ys| - 1] == xs + init;
    }
  }
}
