/**
 * What the wrapper asks of the classifier for one pattern and one audio
 * frame: `detect` (was the pattern detected, and only thanks to the grace
 * thresholds?), the summed label probability, and the throttle and grace
 * period flags it records beside them.
 */
module Detection {
  import opened Wrappers

  /** `pattern.timestamps`: the classifier's per-pattern clocks (0 when unset). */
  datatype Timestamps = Timestamps(graceperiodUntil: real, throttledAt: real, throttledUntil: real)

  /** A configured pattern of the classifier. */
  datatype Pattern = Pattern(name: string, labels: seq<string>, timestamps: Timestamps)

  /** The classifier's frame: its time, measurements and per-label class probabilities. */
  datatype AudioFrame = AudioFrame(
    ts: real,
    power: Option<real>,
    f0: Option<real>,
    f1: Option<real>,
    f2: Option<real>,
    classes: map<string, real>)

  /**
   * The classifier's own decisions, which this model does not see into:
   * `pattern.detect(frame)` and `pattern.match_pattern(pattern, frame, graceperiod_until)`.
   */
  datatype Classifier = Classifier(
    detects: (Pattern, AudioFrame) -> bool,
    matches: (Pattern, AudioFrame, real) -> bool)

  /** `is_using_grace_thresholds_for_detection`. */
  predicate UsesGraceThresholds(p: Pattern, f: AudioFrame) {
    f.ts < p.timestamps.graceperiodUntil
  }

  /** `force_normal_threshold_detection`: the match re-run with the grace period switched off. */
  predicate NormalThresholdMatch(c: Classifier, p: Pattern, f: AudioFrame) {
    c.matches(p, f, 0.0)
  }

  /**
   * `detect`: whether the pattern was detected, and whether that detection
   * was a grace detection, i.e. one the normal thresholds would have refused
   * while the pattern's grace period is set and still running.
   */
  function Detect(c: Classifier, p: Pattern, f: AudioFrame): (r: (bool, bool))
    ensures r.0 == c.detects(p, f)
    ensures r.1 ==> r.0
    ensures r.1 <==>
      && c.detects(p, f)
      && p.timestamps.graceperiodUntil != 0.0
      && f.ts < p.timestamps.graceperiodUntil
      && !c.matches(p, f, 0.0)
  {
    var detected := c.detects(p, f);
    if detected && p.timestamps.graceperiodUntil != 0.0 && UsesGraceThresholds(p, f) then
      if !NormalThresholdMatch(c, p, f) then (detected, true) else (detected, false)
    else
      (detected, false)
  }

  /** The flag recorded as `graceperiod`: the grace period runs past the frame. */
  predicate InGraceperiod(p: Pattern, f: AudioFrame) {
    p.timestamps.graceperiodUntil > f.ts
  }

  /** The flag recorded as `throttled`: a throttle was set and runs past the frame. */
  predicate Throttled(p: Pattern, f: AudioFrame) {
    p.timestamps.throttledAt > 0.0 && p.timestamps.throttledUntil > f.ts
  }

  /** `classes.get(label, 0)`. */
  function ClassProbability(classes: map<string, real>, key: string): real {
    if key in classes then classes[key] else 0.0
  }

  /** The recorded probability: the class probabilities of the pattern's labels, summed (0 when none). */
  function LabelProbability(classes: map<string, real>, labels: seq<string>): real {
    if labels == [] then 0.0 else LabelProbability(classes, labels[..|labels| - 1]) + ClassProbability(classes, labels[|labels| - 1])
  }

  /** The summed probability splits over the labels. */
  lemma {:induction false} LabelProbabilityAppend(classes: map<string, real>, a: seq<string>, b: seq<string>)
    ensures LabelProbability(classes, a + b) == LabelProbability(classes, a) + LabelProbability(classes, b)
    decreases |b|
  {
    if b == [] {
      assert a + b == a;
    } else {
      var init := b[..|b| - 1];
      LabelProbabilityAppend(classes, a, init);
      assert (a + b)[..|a + b| - 1] == a + init;
    }
  }

  /** With class probabilities in [0, 1], the sum lies between 0 and the number of labels. */
  lemma {:induction false} LabelProbabilityBounds(classes: map<string, real>, labels: seq<string>)
    requires forall l :: l in classes ==> 0.0 <= classes[l] <= 1.0
    ensures 0.0 <= LabelProbability(classes, labels) <= |labels| as real
  {
    if labels != [] {
      LabelProbabilityBounds(classes, labels[..|labels| - 1]);
    }
  }

  /** Labels the classifier did not report add nothing. */
  lemma {:induction false} UnknownLabelsAddNothing(classes: map<string, real>, labels: seq<string>)
    requires forall i :: 0 <= i < |labels| ==> labels[i] !in classes
    ensures LabelProbability(classes, labels) == 0.0
  {
    if labels != [] {
      UnknownLabelsAddNothing(classes, labels[..|labels| - 1]);
    }
  }
}
