/**
 * One classified audio frame as the tester records it (`ParrotTesterFrame`),
 * its per-pattern match records, the order in which `freeze` sorts them,
 * and the winner that every other component reads.
 */
module Frames {
  import opened Wrappers

  /** A match is recorded only when its probability is strictly above this. */
  const ThresholdProbability: real := 0.1

  const StatusDetected: string := "detected"
  const StatusGraceDetected: string := "grace_detected"
  const StatusThrottled: string := "throttled"
  const StatusNone: string := ""

  /** `STATUS_ORDER.get(status, 99)`: the four known statuses rank 0..3, anything else 99. */
  function StatusRank(status: string): (r: nat)
    ensures r <= 3 <==> status in {StatusDetected, StatusGraceDetected, StatusThrottled, StatusNone}
    ensures r != 99 ==> r <= 3
  {
    if status == StatusDetected then 0
    else if status == StatusGraceDetected then 1
    else if status == StatusThrottled then 2
    else if status == StatusNone then 3
    else 99
  }

  /** The status `add_pattern` records: grace detection wins over detection, detection over throttling. */
  function StatusOf(detected: bool, throttled: bool, graceDetected: bool): (s: string)
    ensures s == StatusGraceDetected <==> graceDetected
    ensures s == StatusDetected <==> !graceDetected && detected
    ensures s == StatusThrottled <==> !graceDetected && !detected && throttled
    ensures StatusRank(s) <= 3
  {
    if graceDetected then StatusGraceDetected
    else if detected then StatusDetected
    else if throttled then StatusThrottled
    else StatusNone
  }

  /** One entry of `ParrotTesterFrame.patterns`. */
  datatype PatternMatch = PatternMatch(
    name: string,
    sounds: set<string>,
    probability: real,
    status: string,
    graceperiod: bool,
    color: string)

  /** The sort key of `freeze`: status rank first, then probability descending. */
  datatype SortKey = SortKey(rank: nat, probability: real)

  function KeyOf(m: PatternMatch): SortKey {
    SortKey(StatusRank(m.status), m.probability)
  }

  /** `a` may come before `b` in the frozen order. */
  predicate SortsBefore(a: PatternMatch, b: PatternMatch) {
    StatusRank(a.status) < StatusRank(b.status)
    || (StatusRank(a.status) == StatusRank(b.status) && a.probability >= b.probability)
  }

  ghost predicate Ordered(s: seq<PatternMatch>) {
    forall i, j :: 0 <= i < j < |s| ==> SortsBefore(s[i], s[j])
  }

  /** Inserts `m` before the first element it sorts before; equal keys keep `m` in front. */
  function Insert(m: PatternMatch, s: seq<PatternMatch>): seq<PatternMatch> {
    if s == [] || SortsBefore(m, s[0]) then [m] + s
    else [s[0]] + Insert(m, s[1..])
  }

  /** Python's stable `sorted` with the key of `freeze`. */
  function SortMatches(s: seq<PatternMatch>): seq<PatternMatch> {
    if s == [] then [] else Insert(s[0], SortMatches(s[1..]))
  }

  /** The matches of `s` whose key is `k`, in order. */
  function WithKey(s: seq<PatternMatch>, k: SortKey): seq<PatternMatch> {
    if s == [] then []
    else (if KeyOf(s[0]) == k then [s[0]] else []) + WithKey(s[1..], k)
  }

  lemma SortsBeforeTransitive(a: PatternMatch, b: PatternMatch, c: PatternMatch)
    requires SortsBefore(a, b) && SortsBefore(b, c)
    ensures SortsBefore(a, c)
  {
  }

  lemma OrderedCons(a: PatternMatch, r: seq<PatternMatch>)
    requires Ordered(r)
    requires forall x :: x in r ==> SortsBefore(a, x)
    ensures Ordered([a] + r)
  {
    var s := [a] + r;
    forall i, j | 0 <= i < j < |s| ensures SortsBefore(s[i], s[j]) {
      if i > 0 {
        assert s[i] == r[i - 1] && s[j] == r[j - 1];
      } else {
        assert s[j] == r[j - 1];
      }
    }
  }

  lemma {:induction false} InsertOrdered(m: PatternMatch, s: seq<PatternMatch>)
    requires Ordered(s)
    ensures Ordered(Insert(m, s))
    ensures multiset(Insert(m, s)) == multiset(s) + multiset{m}
    ensures forall x :: x in Insert(m, s) ==> x == m || x in s
  {
    if s == [] || SortsBefore(m, s[0]) {
      forall x | x in s ensures SortsBefore(m, x) {
        var k :| 0 <= k < |s| && s[k] == x;
        if k > 0 {
          SortsBeforeTransitive(m, s[0], x);
        }
      }
      OrderedCons(m, s);
    } else {
      var t := s[1..];
      assert Ordered(t) by {
        forall i, j | 0 <= i < j < |t| ensures SortsBefore(t[i], t[j]) {
          assert t[i] == s[i + 1] && t[j] == s[j + 1];
        }
      }
      InsertOrdered(m, t);
      var r := Insert(m, t);
      assert Insert(m, s) == [s[0]] + r;
      forall x | x in r ensures SortsBefore(s[0], x) {
        if x != m {
          var k :| 0 <= k < |t| && t[k] == x;
          assert s[k + 1] == x;
        }
      }
      OrderedCons(s[0], r);
      assert s == [s[0]] + t;
    }
  }

  /** `freeze` yields an ordered permutation of the recorded matches. */
  lemma {:induction false} SortMatchesOrdered(s: seq<PatternMatch>)
    ensures Ordered(SortMatches(s))
    ensures multiset(SortMatches(s)) == multiset(s)
    ensures |SortMatches(s)| == |s|
  {
    if s != [] {
      SortMatchesOrdered(s[1..]);
      InsertOrdered(s[0], SortMatches(s[1..]));
      assert s == [s[0]] + s[1..];
    }
    assert |SortMatches(s)| == |multiset(SortMatches(s))| == |multiset(s)| == |s|;
  }

  lemma {:induction false} WithKeyInsert(m: PatternMatch, s: seq<PatternMatch>, k: SortKey)
    ensures WithKey(Insert(m, s), k) == (if KeyOf(m) == k then [m] else []) + WithKey(s, k)
  {
    if s == [] || SortsBefore(m, s[0]) {
      assert ([m] + s)[1..] == s;
    } else {
      WithKeyInsert(m, s[1..], k);
      assert ([s[0]] + Insert(m, s[1..]))[1..] == Insert(m, s[1..]);
      // s[0] sorts strictly before m, so it never shares m's key
      assert KeyOf(s[0]) != KeyOf(m);
    }
  }

  /** `freeze` is stable: matches with equal keys keep the order in which they were recorded. */
  lemma {:induction false} SortMatchesStable(s: seq<PatternMatch>, k: SortKey)
    ensures WithKey(SortMatches(s), k) == WithKey(s, k)
  {
    if s != [] {
      SortMatchesStable(s[1..], k);
      WithKeyInsert(s[0], SortMatches(s[1..]), k);
    }
  }

  /** `winner`: the first match, `{}` (here `None`) when there is none. */
  function Winner(patterns: seq<PatternMatch>): Option<PatternMatch> {
    if patterns == [] then None else Some(patterns[0])
  }

  /** `winner_name`, with `""` standing for the missing key. */
  function WinnerName(patterns: seq<PatternMatch>): string {
    if patterns == [] then "" else patterns[0].name
  }

  /** `winner_probability`, defaulting to 0. */
  function WinnerProbability(patterns: seq<PatternMatch>): real {
    if patterns == [] then 0.0 else patterns[0].probability
  }

  /** `winner_status`, defaulting to `""`. */
  function WinnerStatus(patterns: seq<PatternMatch>): string {
    if patterns == [] then StatusNone else patterns[0].status
  }

  /**
   * After `freeze` the winner is a recorded match that sorts before every
   * recorded match, and among the matches with its key it is the one
   * recorded first; with no matches there is no winner.
   */
  lemma WinnerOfFrozen(patterns: seq<PatternMatch>)
    ensures patterns == [] <==> Winner(SortMatches(patterns)).None?
    ensures Winner(SortMatches(patterns)).Some? ==>
      var w := Winner(SortMatches(patterns)).value;
      && w in patterns
      && (forall p :: p in patterns ==> SortsBefore(w, p))
      && |WithKey(patterns, KeyOf(w))| > 0 && WithKey(patterns, KeyOf(w))[0] == w
      && WinnerName(SortMatches(patterns)) == w.name
      && WinnerStatus(SortMatches(patterns)) == w.status
      && WinnerProbability(SortMatches(patterns)) == w.probability
  {
    SortMatchesOrdered(patterns);
    var s := SortMatches(patterns);
    if s != [] {
      var w := s[0];
      assert w in multiset(patterns);
      forall p | p in patterns ensures SortsBefore(w, p) {
        assert p in multiset(s);
        var j :| 0 <= j < |s| && s[j] == p;
        if j == 0 {
          assert SortsBefore(w, w);
        }
      }
      SortMatchesStable(patterns, KeyOf(w));
      assert s == [w] + s[1..];
    }
  }

  /** Status beats probability: a throttled match at 0.9 loses to a detected match at 0.2. */
  lemma StatusBeatsProbability(throttled: PatternMatch, detected: PatternMatch)
    requires throttled.status == StatusThrottled && throttled.probability == 0.9
    requires detected.status == StatusDetected && detected.probability == 0.2
    ensures Winner(SortMatches([throttled, detected])) == Some(detected)
  {
    assert SortMatches([detected]) == [detected];
    assert [throttled, detected][1..] == [detected];
    assert !SortsBefore(throttled, detected);
  }

  /** Identity of a frame, capture or log: `"<ts truncated to 3 decimals> <winner name>"`. */
  datatype FrameId = FrameId(millis: int, winner: string)

  ghost predicate Distinct(s: seq<Frame>) {
    forall i, j :: 0 <= i < j < |s| ==> s[i] != s[j]
  }

  /** `ParrotTesterFrame`: the sample's measurements and what the tester learns about it. */
  class Frame {
    const ts: real
    const power: Option<real>
    const f0: Option<real>
    const f1: Option<real>
    const f2: Option<real>
    var patterns: seq<PatternMatch>
    var patternNames: set<string>
    var detected: bool
    var graceDetected: bool
    var id: Option<nat>
    var index: Option<nat>
    var tsDelta: Option<real>
    var tsZeroBased: Option<real>
    var logId: Option<FrameId>
    var captureId: Option<FrameId>

    constructor (ts: real, power: Option<real>, f0: Option<real>, f1: Option<real>, f2: Option<real>)
      ensures this.ts == ts && this.power == power
      ensures this.f0 == f0 && this.f1 == f1 && this.f2 == f2
      ensures patterns == [] && patternNames == {} && !detected && !graceDetected
      ensures id == None && index == None && tsDelta == None && tsZeroBased == None
      ensures logId == None && captureId == None
    {
      this.ts, this.power := ts, power;
      this.f0, this.f1, this.f2 := f0, f1, f2;
      patterns, patternNames := [], {};
      detected, graceDetected := false, false;
      id, index, tsDelta, tsZeroBased := None, None, None, None;
      logId, captureId := None, None;
    }

    /**
     * `add_pattern`: records a match only above the probability threshold;
     * `detected` and `grace_detected` can only turn from false to true.
     */
    method AddPattern(name: string, sounds: set<string>, probability: real, isDetected: bool,
                      isThrottled: bool, inGraceperiod: bool, color: string, isGraceDetected: bool)
      modifies this`patterns, this`patternNames, this`detected, this`graceDetected
      ensures probability > ThresholdProbability ==>
        && patterns == old(patterns)
             + [PatternMatch(name, sounds, probability, StatusOf(isDetected, isThrottled, isGraceDetected), inGraceperiod, color)]
        && patternNames == old(patternNames) + {name}
        && detected == (old(detected) || isDetected)
        && graceDetected == (old(graceDetected) || isGraceDetected)
      ensures probability <= ThresholdProbability ==>
        && patterns == old(patterns) && patternNames == old(patternNames)
        && detected == old(detected) && graceDetected == old(graceDetected)
    {
      if probability > ThresholdProbability {
        if isDetected {
          detected := true;
        }
        if isGraceDetected {
          graceDetected := true;
        }
        patternNames := patternNames + {name};
        patterns := patterns
          + [PatternMatch(name, sounds, probability, StatusOf(isDetected, isThrottled, isGraceDetected), inGraceperiod, color)];
      }
    }

    /** `freeze`: sorts the matches by status rank, then by descending probability. */
    method Freeze()
      modifies this`patterns
      ensures patterns == SortMatches(old(patterns))
    {
      patterns := SortMatches(patterns);
    }
  }

  /** `create_id_from_frame`: the truncated timestamp and the current winner's name. */
  function CreateId(f: Frame): (r: FrameId)
    reads f`patterns
    ensures r.millis as real <= f.ts * 1000.0 < r.millis as real + 1.0
    ensures r.winner == WinnerName(f.patterns)
  {
    FrameId((f.ts * 1000.0).Floor, WinnerName(f.patterns))
  }
}
