/**
 * The tester's hook into the classifier: the wrapper that runs for every
 * audio frame (record each pattern's match, freeze, log, capture) and the
 * guard that installs and removes it.
 */
module Tester {
  import opened Wrappers
  import opened Frames
  import opened Detection
  import Buffering
  import Captures
  import DetectionLogs
  import Stats

  /** The sounds recorded for a pattern: its labels. */
  function SoundsOf(p: Pattern): set<string> {
    set l | l in p.labels
  }

  /** The match record `add_pattern` is handed for pattern `p`, coloured `color`. */
  function MatchOf(c: Classifier, p: Pattern, f: AudioFrame, color: string): PatternMatch {
    var d := Detect(c, p, f);
    PatternMatch(p.name, SoundsOf(p), LabelProbability(f.classes, p.labels),
      StatusOf(d.0, Throttled(p, f), d.1), InGraceperiod(p, f), color)
  }

  /** `add_pattern` keeps a pattern's match only when its summed probability is above the threshold. */
  predicate Kept(p: Pattern, f: AudioFrame) {
    LabelProbability(f.classes, p.labels) > ThresholdProbability
  }

  /** The records kept for the patterns, in the classifier's order: those above the probability threshold. */
  function Recorded(c: Classifier, ps: seq<Pattern>, f: AudioFrame, colorOf: nat -> string): seq<PatternMatch> {
    if ps == [] then []
    else
      var i := |ps| - 1;
      Recorded(c, ps[..i], f, colorOf) + (if Kept(ps[i], f) then [MatchOf(c, ps[i], f, colorOf(i))] else [])
  }

  /** The frame's `pattern_names` after the loop: the names of the kept patterns. */
  function KeptNames(c: Classifier, ps: seq<Pattern>, f: AudioFrame): set<string> {
    if ps == [] then {}
    else KeptNames(c, ps[..|ps| - 1], f) + (if Kept(ps[|ps| - 1], f) then {ps[|ps| - 1].name} else {})
  }

  /** The frame's `detected` flag after the loop: some kept pattern was detected. */
  predicate AnyKeptDetected(c: Classifier, ps: seq<Pattern>, f: AudioFrame) {
    ps != [] && (AnyKeptDetected(c, ps[..|ps| - 1], f) || (Kept(ps[|ps| - 1], f) && Detect(c, ps[|ps| - 1], f).0))
  }

  /** The frame's `grace_detected` flag after the loop: some kept pattern was grace-detected. */
  predicate AnyKeptGraceDetected(c: Classifier, ps: seq<Pattern>, f: AudioFrame) {
    ps != [] && (AnyKeptGraceDetected(c, ps[..|ps| - 1], f) || (Kept(ps[|ps| - 1], f) && Detect(c, ps[|ps| - 1], f).1))
  }

  /** The names of the patterns the classifier detected in the frame: the wrapper's `active`. */
  function ActiveNames(c: Classifier, ps: seq<Pattern>, f: AudioFrame): set<string> {
    if ps == [] then {}
    else ActiveNames(c, ps[..|ps| - 1], f) + (if Detect(c, ps[|ps| - 1], f).0 then {ps[|ps| - 1].name} else {})
  }

  /** How many of the patterns the classifier detected in the frame. */
  function DetectedCount(c: Classifier, ps: seq<Pattern>, f: AudioFrame): nat {
    if ps == [] then 0
    else DetectedCount(c, ps[..|ps| - 1], f) + (if Detect(c, ps[|ps| - 1], f).0 then 1 else 0)
  }

  /** `n` copies of `x`. */
  function Repeat<T>(x: T, n: nat): (r: seq<T>)
    ensures |r| == n && forall i :: 0 <= i < n ==> r[i] == x
  {
    if n == 0 then [] else Repeat(x, n - 1) + [x]
  }

  /** Each pattern is counted once per frame: at least one detection iff some name is active, never more than the patterns. */
  lemma {:induction false} DetectedCountActive(c: Classifier, ps: seq<Pattern>, f: AudioFrame)
    ensures DetectedCount(c, ps, f) > 0 <==> ActiveNames(c, ps, f) != {}
    ensures DetectedCount(c, ps, f) <= |ps|
    ensures DetectedCount(c, ps, f) >= |ActiveNames(c, ps, f)|
  {
    if ps != [] {
      DetectedCountActive(c, ps[..|ps| - 1], f);
    }
  }

  /** A name is active iff one of the patterns so named was detected. */
  lemma {:induction false} ActiveNamesDetected(c: Classifier, ps: seq<Pattern>, f: AudioFrame, name: string)
    ensures name in ActiveNames(c, ps, f) <==> exists i :: 0 <= i < |ps| && ps[i].name == name && Detect(c, ps[i], f).0
  {
    if ps != [] {
      var n := |ps| - 1;
      ActiveNamesDetected(c, ps[..n], f, name);
      if name in ActiveNames(c, ps[..n], f) {
        var i :| 0 <= i < n && ps[..n][i].name == name && Detect(c, ps[..n][i], f).0;
        assert ps[i] == ps[..n][i];
      }
      if exists i :: 0 <= i < |ps| && ps[i].name == name && Detect(c, ps[i], f).0 {
        var i :| 0 <= i < |ps| && ps[i].name == name && Detect(c, ps[i], f).0;
        if i < n {
          assert ps[..n][i] == ps[i];
        }
      }
    }
  }

  /** A record is kept exactly for the patterns above the threshold, and it carries their own values. */
  lemma {:induction false} RecordedMatches(c: Classifier, ps: seq<Pattern>, f: AudioFrame, colorOf: nat -> string)
    ensures |Recorded(c, ps, f, colorOf)| <= |ps|
    ensures forall m :: m in Recorded(c, ps, f, colorOf) ==>
      m.probability > ThresholdProbability
      && exists i :: 0 <= i < |ps| && m == MatchOf(c, ps[i], f, colorOf(i))
  {
    if ps != [] {
      var n := |ps| - 1;
      RecordedMatches(c, ps[..n], f, colorOf);
      forall m | m in Recorded(c, ps, f, colorOf)
        ensures m.probability > ThresholdProbability
        ensures exists i :: 0 <= i < |ps| && m == MatchOf(c, ps[i], f, colorOf(i))
      {
        if m in Recorded(c, ps[..n], f, colorOf) {
          var i :| 0 <= i < n && m == MatchOf(c, ps[..n][i], f, colorOf(i));
          assert ps[..n][i] == ps[i];
        } else {
          assert m == MatchOf(c, ps[n], f, colorOf(n));
        }
      }
    }
  }

  /**
   * The frame's names and flags agree with its records: a name is in
   * `pattern_names` iff a record carries it, `detected` holds iff some record
   * is detected or grace-detected, `grace_detected` iff some record is
   * grace-detected; and a detected frame always has an active pattern.
   */
  lemma {:induction false} KeptAgreesWithRecorded(c: Classifier, ps: seq<Pattern>, f: AudioFrame, colorOf: nat -> string)
    ensures forall name :: name in KeptNames(c, ps, f) <==> exists m :: m in Recorded(c, ps, f, colorOf) && m.name == name
    ensures AnyKeptDetected(c, ps, f) <==>
      exists m :: m in Recorded(c, ps, f, colorOf) && (m.status == StatusDetected || m.status == StatusGraceDetected)
    ensures AnyKeptGraceDetected(c, ps, f) <==> exists m :: m in Recorded(c, ps, f, colorOf) && m.status == StatusGraceDetected
    ensures AnyKeptDetected(c, ps, f) ==> ActiveNames(c, ps, f) != {}
  {
    if ps != [] {
      var n := |ps| - 1;
      KeptAgreesWithRecorded(c, ps[..n], f, colorOf);
      var before := Recorded(c, ps[..n], f, colorOf);
      var last := if Kept(ps[n], f) then [MatchOf(c, ps[n], f, colorOf(n))] else [];
      assert Recorded(c, ps, f, colorOf) == before + last;
      assert forall m :: m in Recorded(c, ps, f, colorOf) <==> m in before || m in last;
    }
  }

  /** One more pattern of the loop: each fold over the first `i + 1` patterns is the fold over `i` and pattern `i`. */
  lemma PrefixStep(c: Classifier, ps: seq<Pattern>, f: AudioFrame, colorOf: nat -> string, i: nat)
    requires i < |ps|
    ensures Recorded(c, ps[..i + 1], f, colorOf) == Recorded(c, ps[..i], f, colorOf)
      + (if Kept(ps[i], f) then [MatchOf(c, ps[i], f, colorOf(i))] else [])
    ensures KeptNames(c, ps[..i + 1], f) == KeptNames(c, ps[..i], f) + (if Kept(ps[i], f) then {ps[i].name} else {})
    ensures AnyKeptDetected(c, ps[..i + 1], f) == (AnyKeptDetected(c, ps[..i], f) || (Kept(ps[i], f) && Detect(c, ps[i], f).0))
    ensures AnyKeptGraceDetected(c, ps[..i + 1], f)
      == (AnyKeptGraceDetected(c, ps[..i], f) || (Kept(ps[i], f) && Detect(c, ps[i], f).1))
    ensures ActiveNames(c, ps[..i + 1], f) == ActiveNames(c, ps[..i], f) + (if Detect(c, ps[i], f).0 then {ps[i].name} else {})
    ensures DetectedCount(c, ps[..i + 1], f) == DetectedCount(c, ps[..i], f) + (if Detect(c, ps[i], f).0 then 1 else 0)
  {
    assert ps[..i + 1][..i] == ps[..i];
  }

  /** Logging the frame once more when the pattern was detected is one more copy in the log. */
  lemma RepeatStep<T>(prefix: seq<T>, x: T, n: nat, detected: bool)
    ensures (prefix + Repeat(x, n)) + (if detected then [x] else []) == prefix + Repeat(x, n + if detected then 1 else 0)
  {
    if !detected {
      assert (prefix + Repeat(x, n)) + [] == prefix + Repeat(x, n);
    }
  }

  /** Who holds the classifier's `pattern_match`: one of its own handlers, or the tester's wrapper. */
  datatype Callback = Handler(name: string) | TesterWrapper

  /** The stored original (`original_pattern_match`) and the installed callback. */
  datatype Guard = Guard(original: Option<Callback>, patternMatch: Callback)

  /** `parrot_tester_wrap_parrot_integration`: wraps only when no original is stored. */
  function WrapGuard(g: Guard): (r: Guard)
    ensures g.original.None? ==> r == Guard(Some(g.patternMatch), TesterWrapper)
    ensures g.original.Some? ==> r == g
  {
    if g.original.None? then Guard(Some(g.patternMatch), TesterWrapper) else g
  }

  /** `parrot_tester_restore_parrot_integration`: puts the original back only when one is stored. */
  function RestoreGuard(g: Guard): (r: Guard)
    ensures g.original.Some? ==> r == Guard(None, g.original.value)
    ensures g.original.None? ==> r == g
    ensures r.original.None?
  {
    if g.original.Some? then Guard(None, g.original.value) else g
  }

  /** Wrapping twice wraps once; restoring twice restores once. */
  lemma GuardIdempotent(g: Guard)
    ensures WrapGuard(WrapGuard(g)) == WrapGuard(g)
    ensures RestoreGuard(RestoreGuard(g)) == RestoreGuard(g)
  {
  }

  /** Restoring after wrapping reinstalls the callback found before the wrap. */
  lemma RestoreUndoesWrap(g: Guard)
    requires g.original.None?
    ensures RestoreGuard(WrapGuard(g)) == g
    ensures WrapGuard(g).patternMatch == TesterWrapper
  {
  }

  /** The module's global state: the pre-roll buffer, captures, detection logs, statistics and the guard. */
  class Tester {
    const buffer: Buffering.SlidingBuffer
    const captures: Captures.CaptureCollection
    const logs: DetectionLogs.DetectionLogCollection
    var stats: Stats.PatternsStats?
    var logEvents: bool
    var original: Option<Callback>
    var patternMatch: Callback

    ghost predicate Valid()
      reads this, buffer, captures, captures.current, logs, logs.collection
    {
      buffer.Valid() && captures.Valid() && logs.Valid()
    }

    /** The detection logs are well formed. */
    ghost predicate LogsOk()
      reads this, logs, logs.collection
    {
      logs.Valid()
    }

    /** Every frame in the detection logs is there once. */
    ghost predicate LoggedOnce()
      reads this, logs
    {
      Distinct(logs.added)
    }

    function GuardState(): Guard
      reads this
    {
      Guard(original, patternMatch)
    }

    /** The module's initial state, with the classifier's own `pattern_match` installed. */
    constructor (handler: Callback)
      ensures Valid() && LoggedOnce()
      ensures buffer.size == Buffering.DefaultSize && buffer.buffer == [] && buffer.bufferLast == []
      ensures captures.captures == [] && captures.current == null
      ensures logs.collection == [] && logs.added == []
      ensures stats == null && !logEvents
      ensures GuardState() == Guard(None, handler)
    {
      buffer := new Buffering.SlidingBuffer(Buffering.DefaultSize);
      captures := new Captures.CaptureCollection();
      logs := new DetectionLogs.DetectionLogCollection();
      stats := null;
      logEvents := false;
      original := None;
      patternMatch := handler;
    }

    /** `parrot_tester_wrap_parrot_integration`. */
    method Wrap()
      modifies this`original, this`patternMatch
      ensures GuardState() == WrapGuard(old(GuardState()))
    {
      if original.None? {
        original := Some(patternMatch);
        patternMatch := TesterWrapper;
      }
    }

    /**
     * What `reset_capture_collection` leaves behind, beside an empty capture
     * collection: an empty buffer, no detection logs, no statistics and no
     * log events.
     */
    ghost predicate RecordsCleared()
      reads this, buffer, logs
    {
      && buffer.buffer == [] && buffer.bufferLast == []
      && logs.collection == [] && logs.current == null && logs.added == []
      && stats == null && !logEvents
    }

    /** `parrot_tester_restore_parrot_integration`, with `reset_capture_collection` when asked. */
    method Restore(resetUiState: bool)
      requires Valid()
      modifies this, buffer, captures, logs
      ensures Valid()
      ensures GuardState() == RestoreGuard(old(GuardState()))
      ensures resetUiState ==>
        && RecordsCleared()
        && captures.captures == [] && captures.current == null && captures.job == None && captures.scheduled == {}
        && captures.nextHandle == old(captures.nextHandle)
      ensures !resetUiState ==>
        && unchanged(buffer, captures, logs)
        && stats == old(stats) && logEvents == old(logEvents)
    {
      if original.Some? {
        patternMatch := original.value;
        original := None;
      }
      if resetUiState {
        ResetCaptureCollection();
      }
    }

    /** `reset_capture_collection`: empties the buffer, the captures and the logs, and drops the statistics. */
    method ResetCaptureCollection()
      requires Valid()
      modifies this`stats, this`logEvents, buffer, captures, logs
      ensures Valid()
      ensures RecordsCleared()
      ensures captures.captures == [] && captures.current == null && captures.job == None && captures.scheduled == {}
      ensures captures.nextHandle == old(captures.nextHandle)
    {
      buffer.Clear();
      captures.Clear();
      logs.Clear();
      stats := null;
      logEvents := false;
    }

    /**
     * `init_stats`: creates the statistics for the configured patterns when
     * there are none, then `generate`s them from the detection logs.
     */
    method InitStats(patternNames: seq<string>)
      requires logs.Valid() && (stats != null ==> stats.Valid())
      modifies this`stats, stats
      ensures stats != null && stats.Valid()
      ensures old(stats) == null ==>
        fresh(stats) && stats.stats == Stats.Replay(Stats.Blank(patternNames), Stats.Samples(logs.added))
      ensures old(stats) != null ==>
        stats == old(stats) && stats.stats == Stats.Replay(Stats.ResetAll(old(stats.stats)), Stats.Samples(logs.added))
      ensures Stats.InSync(stats.stats, Stats.Samples(logs.added))
    {
      if stats == null {
        stats := new Stats.PatternsStats(patternNames);
        assert Stats.ResetAll(stats.stats) == Stats.Blank(patternNames);
      }
      GenerateStats();
    }

    /** `patterns_stats.generate(detection_log_collection)`: the statistics are rebuilt from every logged frame. */
    method GenerateStats()
      requires logs.Valid() && stats != null && stats.Valid()
      modifies stats
      ensures stats.Valid()
      ensures stats.stats == Stats.Replay(Stats.ResetAll(old(stats.stats)), Stats.Samples(logs.added))
      ensures Stats.InSync(stats.stats, Stats.Samples(logs.added))
    {
      DetectionLogs.LogsHoldEveryFrame(logs);
      var _ := stats.Generate(logs);
      Stats.GenerateIdempotent(old(stats.stats), Stats.Samples(logs.added));
    }

    /**
     * `add_frame_to_stats` as written: with no statistics yet, `init_stats`
     * already replays the logs, which hold the frame, and the frame is then
     * added once more.
     */
    method AddFrameToStats(tf: Frame, patternNames: seq<string>)
      requires logs.Valid() && (stats != null ==> stats.Valid())
      modifies this`stats, stats
      ensures stats != null && stats.Valid()
      ensures old(stats) != null ==>
        stats == old(stats) && stats.stats == Stats.AddSample(old(stats.stats), Stats.SampleOf(tf))
      ensures old(stats) == null ==>
        && fresh(stats)
        && stats.stats == Stats.AddSample(Stats.Replay(Stats.Blank(patternNames), Stats.Samples(logs.added)), Stats.SampleOf(tf))
      // a frame that is the whole log and has a winner ends up counted twice
      ensures old(stats) == null && logs.added == [tf] && Stats.SampleOf(tf).Some? ==>
        !Stats.InSync(stats.stats, Stats.Samples(logs.added))
    {
      if stats == null {
        InitStats(patternNames);
        stats.AddFrame(tf);
        if logs.added == [tf] && Stats.SampleOf(tf).Some? {
          assert Stats.Samples(logs.added) == [Stats.SampleOf(tf)];
          Stats.LoggedFrameCountedTwice(patternNames, Stats.SampleOf(tf).value);
        }
      } else {
        stats.AddFrame(tf);
      }
    }

    /**
     * `add_frame_to_stats` counting each logged frame once: a frame just
     * logged is replayed by `init_stats` and not added again; otherwise it is
     * added, and statistics in step with the logs before it stay in step.
     */
    method AddLoggedFrameToStats(tf: Frame, patternNames: seq<string>)
      requires logs.Valid() && (stats != null ==> stats.Valid())
      modifies this`stats, stats
      ensures stats != null && stats.Valid()
      ensures old(stats) != null ==>
        stats == old(stats) && stats.stats == Stats.AddSample(old(stats.stats), Stats.SampleOf(tf))
      ensures old(stats) == null ==>
        fresh(stats) && stats.stats == Stats.Replay(Stats.Blank(patternNames), Stats.Samples(logs.added))
      // with the frame last in the logs, the statistics end in step with the logs
      ensures old(stats) == null ==> Stats.InSync(stats.stats, Stats.Samples(logs.added))
      ensures (&& logs.added != [] && logs.added[|logs.added| - 1] == tf && old(stats) != null
               && Stats.InSync(old(stats.stats), Stats.Samples(logs.added[..|logs.added| - 1]))) ==>
        Stats.InSync(stats.stats, Stats.Samples(logs.added))
    {
      if stats == null {
        InitStats(patternNames);
      } else {
        ghost var before := stats.stats;
        stats.AddFrame(tf);
        if logs.added != [] && logs.added[|logs.added| - 1] == tf {
          var prior := logs.added[..|logs.added| - 1];
          assert logs.added == prior + [tf];
          Stats.SamplesAppend(prior, [tf]);
          assert Stats.Samples([tf]) == [Stats.SampleOf(tf)];
          if Stats.InSync(before, Stats.Samples(prior)) {
            Stats.AddSampleKeepsSync(before, Stats.Samples(prior), Stats.SampleOf(tf));
          }
        }
      }
    }

    /** One pass of the wrapper's per-pattern loop: `detect`, then `add_pattern` with what it found. */
    static method ScorePattern(tf: Frame, c: Classifier, p: Pattern, f: AudioFrame, color: string)
      returns (detected: bool)
      modifies tf`patterns, tf`patternNames, tf`detected, tf`graceDetected
      ensures detected == Detect(c, p, f).0
      ensures tf.patterns == old(tf.patterns) + (if Kept(p, f) then [MatchOf(c, p, f, color)] else [])
      ensures tf.patternNames == old(tf.patternNames) + (if Kept(p, f) then {p.name} else {})
      ensures tf.detected == (old(tf.detected) || (Kept(p, f) && Detect(c, p, f).0))
      ensures tf.graceDetected == (old(tf.graceDetected) || (Kept(p, f) && Detect(c, p, f).1))
    {
      var graceDetected;
      detected, graceDetected := Detect(c, p, f).0, Detect(c, p, f).1;
      var probability := LabelProbability(f.classes, p.labels);
      tf.AddPattern(p.name, SoundsOf(p), probability, detected, Throttled(p, f), InGraceperiod(p, f), color, graceDetected);
    }

    /**
     * The per-pattern loop of the wrapper, logging once per frame: every
     * pattern's match goes through `add_pattern`, and the detected ones make
     * up `active`.
     */
    static method ScorePatterns(tf: Frame, c: Classifier, ps: seq<Pattern>, f: AudioFrame, colorOf: nat -> string)
      returns (active: set<string>)
      modifies tf`patterns, tf`patternNames, tf`detected, tf`graceDetected
      ensures tf.patterns == old(tf.patterns) + Recorded(c, ps, f, colorOf)
      ensures tf.patternNames == old(tf.patternNames) + KeptNames(c, ps, f)
      ensures tf.detected == (old(tf.detected) || AnyKeptDetected(c, ps, f))
      ensures tf.graceDetected == (old(tf.graceDetected) || AnyKeptGraceDetected(c, ps, f))
      ensures active == ActiveNames(c, ps, f)
    {
      active := {};
      var i := 0;
      while i < |ps|
        invariant 0 <= i <= |ps|
        invariant tf.patterns == old(tf.patterns) + Recorded(c, ps[..i], f, colorOf)
        invariant tf.patternNames == old(tf.patternNames) + KeptNames(c, ps[..i], f)
        invariant tf.detected == (old(tf.detected) || AnyKeptDetected(c, ps[..i], f))
        invariant tf.graceDetected == (old(tf.graceDetected) || AnyKeptGraceDetected(c, ps[..i], f))
        invariant active == ActiveNames(c, ps[..i], f)
      {
        var detected := ScorePattern(tf, c, ps[i], f, colorOf(i));
        if detected {
          active := active + {ps[i].name};
        }
        PrefixStep(c, ps, f, colorOf, i);
        i := i + 1;
      }
      assert ps[..i] == ps;
    }

    /**
     * The per-pattern loop as the wrapper writes it: the frame is added to
     * the detection log inside the loop, once for every detected pattern.
     */
    method ScorePatternsAsWritten(tf: Frame, c: Classifier, ps: seq<Pattern>, f: AudioFrame, colorOf: nat -> string)
      returns (active: set<string>)
      requires LogsOk() && tf.patterns == []
      modifies tf`patterns, tf`patternNames, tf`detected, tf`graceDetected, tf`logId, logs, logs.current
      ensures LogsOk()
      ensures tf.patterns == Recorded(c, ps, f, colorOf)
      ensures active == ActiveNames(c, ps, f)
      ensures logs.added == old(logs.added) + Repeat(tf, DetectedCount(c, ps, f))
    {
      active := {};
      ghost var logged := logs.added;
      var i := 0;
      while i < |ps|
        invariant 0 <= i <= |ps|
        invariant LogsOk()
        invariant logs.current == old(logs.current) || fresh(logs.current)
        invariant tf.patterns == Recorded(c, ps[..i], f, colorOf)
        invariant active == ActiveNames(c, ps[..i], f)
        invariant logs.added == logged + Repeat(tf, DetectedCount(c, ps[..i], f))
      {
        var detected := ScoreAndLogNext(tf, c, ps, f, colorOf, i, logged);
        if detected {
          active := active + {ps[i].name};
        }
        i := i + 1;
      }
      assert ps[..i] == ps;
    }

    /** Pattern `i` of the loop as written: its match joins the frame, and the frame is logged again if it was detected. */
    method ScoreAndLogNext(tf: Frame, c: Classifier, ps: seq<Pattern>, f: AudioFrame, colorOf: nat -> string, i: nat,
                           ghost logged: seq<Frame>)
      returns (detected: bool)
      requires i < |ps| && LogsOk()
      requires tf.patterns == Recorded(c, ps[..i], f, colorOf)
      requires logs.added == logged + Repeat(tf, DetectedCount(c, ps[..i], f))
      modifies tf`patterns, tf`patternNames, tf`detected, tf`graceDetected, tf`logId, logs, logs.current
      ensures LogsOk()
      ensures logs.current == old(logs.current) || fresh(logs.current)
      ensures detected == Detect(c, ps[i], f).0
      ensures ActiveNames(c, ps[..i + 1], f) == ActiveNames(c, ps[..i], f) + (if detected then {ps[i].name} else {})
      ensures tf.patterns == Recorded(c, ps[..i + 1], f, colorOf)
      ensures logs.added == logged + Repeat(tf, DetectedCount(c, ps[..i + 1], f))
    {
      ghost var count := DetectedCount(c, ps[..i], f);
      PrefixStep(c, ps, f, colorOf, i);
      detected := ScoreAndLog(tf, c, ps[i], f, colorOf(i));
      RepeatStep(logged, tf, count, detected);
    }

    /** One pass of the loop as written: score the pattern, and log the frame again if it was detected. */
    method ScoreAndLog(tf: Frame, c: Classifier, p: Pattern, f: AudioFrame, color: string)
      returns (detected: bool)
      requires logs.Valid()
      modifies tf`patterns, tf`patternNames, tf`detected, tf`graceDetected, tf`logId, logs, logs.current
      ensures logs.Valid()
      ensures logs.current == old(logs.current) || fresh(logs.current)
      ensures detected == Detect(c, p, f).0
      ensures tf.patterns == old(tf.patterns) + (if Kept(p, f) then [MatchOf(c, p, f, color)] else [])
      ensures logs.added == old(logs.added) + (if detected then [tf] else [])
    {
      detected := ScorePattern(tf, c, p, f, color);
      if detected {
        logs.Add(tf);
      }
    }

    /** The open capture is full, so the next frame ends it. */
    ghost predicate FullCapture()
      reads this, captures, captures.current
    {
      captures.current != null && |captures.current.frames| >= Captures.MaxFramesPerCapture
    }

    /** A capture is open and has room for the next frame. */
    ghost predicate CaptureOpen()
      reads this, captures, captures.current
    {
      captures.current != null && |captures.current.frames| < Captures.MaxFramesPerCapture
    }

    /**
     * The wrapper's work for one frame, logging once per frame: the frame
     * enters the pre-roll buffer, every pattern is scored, the matches are
     * frozen, a frame with an active pattern is added to the detection log,
     * and the frame goes to the capture collection.
     */
    method ProcessFrame(c: Classifier, ps: seq<Pattern>, f: AudioFrame, colorOf: nat -> string, doublePopPause: bool)
      returns (active: set<string>, tf: Frame, pausePlayback: bool)
      requires Valid()
      modifies this, buffer, captures, captures.current, logs, logs.current
      modifies captures.OpenFrames()`id, captures.OpenFrames()`index
      modifies captures.OpenFrames()`tsDelta, captures.OpenFrames()`tsZeroBased
      ensures Valid()
      ensures fresh(tf) && tf.ts == f.ts
      ensures active == ActiveNames(c, ps, f)
      // logged once when active, unless the pause's reset then empties the logs
      ensures logs.added == (if pausePlayback then [] else old(logs.added) + (if active != {} then [tf] else []))
      ensures old(LoggedOnce()) ==> LoggedOnce()
      // a full capture is ended first, and a double-pop pause restores and resets
      ensures pausePlayback ==> doublePopPause && old(FullCapture())
      ensures pausePlayback ==> GuardState() == RestoreGuard(old(GuardState())) && RecordsCleared()
      ensures !pausePlayback ==>
        GuardState() == old(GuardState()) && stats == old(stats) && logEvents == old(logEvents)
      // where the frame goes
      ensures active != {} && old(CaptureOpen()) ==>
        && captures.current == old(captures.current) && captures.captures == old(captures.captures)
        && Captures.GrewBy(captures.current, old(captures.current.frames), old(captures.current.detectEntries),
                           old(captures.current.patternNames), tf, true)
      ensures active != {} && !old(CaptureOpen()) ==>
        && captures.current != null && fresh(captures.current)
        && captures.captures == (if pausePlayback then [] else old(captures.captures)) + [captures.current]
        && Captures.OpenedOver(captures.current, buffer.Get(tf.ts), tf)
      ensures active != {} ==>
        && captures.current != null && tf in captures.current.frames && tf.captureId == Some(captures.current.id)
        && captures.job == Some(Captures.Job(old(captures.nextHandle), tf.ts + Captures.CaptureTimeout))
        && captures.scheduled == {old(captures.nextHandle)}
      ensures active == {} && old(CaptureOpen()) ==>
        && captures.current == old(captures.current) && captures.captures == old(captures.captures)
        && Captures.GrewBy(captures.current, old(captures.current.frames), old(captures.current.detectEntries),
                           old(captures.current.patternNames), tf, false)
        && captures.job == old(captures.job) && captures.scheduled == old(captures.scheduled)
      ensures active == {} && !old(CaptureOpen()) ==>
        && captures.current == null && captures.job == None && captures.scheduled == {}
        && captures.captures == (if pausePlayback then [] else old(captures.captures))
      // an inactive frame is never stamped, and the frames of a capture that is not ended are untouched
      ensures active == {} ==> tf.captureId == None
      ensures !old(FullCapture()) ==> Captures.FramesKept(old(captures.OpenFrames()))
    {
      ghost var open := captures.OpenFrames();
      active, tf := ScoreFrame(c, ps, f, colorOf);
      assert unchanged(this, captures);
      assert captures.OpenFrames() == open;
      assert Captures.FramesKept(open);
      pausePlayback := Capture(tf, active, doublePopPause);
    }

    /** Everything the wrapper does for one frame before `capture_collection.add`. */
    method ScoreFrame(c: Classifier, ps: seq<Pattern>, f: AudioFrame, colorOf: nat -> string)
      returns (active: set<string>, tf: Frame)
      requires buffer.Valid() && logs.Valid()
      modifies buffer, logs, logs.current
      ensures buffer.Valid() && logs.Valid()
      ensures fresh(tf) && tf.ts == f.ts && tf.power == f.power && tf.captureId == None
      ensures active == ActiveNames(c, ps, f)
      ensures tf.patterns == SortMatches(Recorded(c, ps, f, colorOf))
      ensures tf.patternNames == KeptNames(c, ps, f)
      ensures tf.detected == AnyKeptDetected(c, ps, f) && tf.graceDetected == AnyKeptGraceDetected(c, ps, f)
      ensures buffer.buffer != [] && buffer.buffer[|buffer.buffer| - 1] == tf
      ensures logs.added == old(logs.added) + (if active != {} then [tf] else [])
      ensures active != {} ==> logs.current != null && tf.logId == logs.current.Id()
      ensures active == {} ==> tf.logId == None
      ensures old(LoggedOnce()) ==> LoggedOnce()
    {
      active, tf := NewScoredFrame(c, ps, f, colorOf);
      LogFrame(tf, active);
    }

    /** A new frame enters the buffer, and every pattern is scored on it and frozen. */
    method NewScoredFrame(c: Classifier, ps: seq<Pattern>, f: AudioFrame, colorOf: nat -> string)
      returns (active: set<string>, tf: Frame)
      requires buffer.Valid()
      modifies buffer
      ensures buffer.Valid()
      ensures fresh(tf) && tf.ts == f.ts && tf.power == f.power && tf.captureId == None && tf.logId == None
      ensures active == ActiveNames(c, ps, f)
      ensures tf.patterns == SortMatches(Recorded(c, ps, f, colorOf))
      ensures tf.patternNames == KeptNames(c, ps, f)
      ensures tf.detected == AnyKeptDetected(c, ps, f) && tf.graceDetected == AnyKeptGraceDetected(c, ps, f)
      ensures buffer.buffer != [] && buffer.buffer[|buffer.buffer| - 1] == tf
    {
      tf := EnterBuffer(f);
      active := ScoreAndFreeze(tf, c, ps, f, colorOf);
    }

    /** The frame's one entry in the detection log, made when some pattern is active. */
    method LogFrame(tf: Frame, active: set<string>)
      requires logs.Valid()
      modifies logs, logs.current, tf`logId
      ensures logs.Valid()
      ensures logs.added == old(logs.added) + (if active != {} then [tf] else [])
      ensures active != {} ==> logs.current != null && tf.logId == logs.current.Id()
      ensures active == {} ==> tf.logId == old(tf.logId)
      ensures old(LoggedOnce()) && tf !in old(logs.added) ==> LoggedOnce()
    {
      if active != {} {
        logs.Add(tf);
      }
    }

    /** The as-written steps before `capture_collection.add`: buffer, score and log per pattern, freeze. */
    method ScoreFrameAsWritten(c: Classifier, ps: seq<Pattern>, f: AudioFrame, colorOf: nat -> string)
      returns (active: set<string>, tf: Frame)
      requires buffer.Valid() && logs.Valid()
      modifies buffer, logs, logs.current
      ensures buffer.Valid() && logs.Valid()
      ensures fresh(tf) && tf.ts == f.ts && tf.power == f.power && tf.captureId == None
      ensures active == ActiveNames(c, ps, f)
      ensures tf.patterns == SortMatches(Recorded(c, ps, f, colorOf))
      ensures buffer.buffer != [] && buffer.buffer[|buffer.buffer| - 1] == tf
      ensures logs.added == old(logs.added) + Repeat(tf, DetectedCount(c, ps, f))
    {
      tf := EnterBuffer(f);
      active := ScorePatternsAsWritten(tf, c, ps, f, colorOf);
      tf.Freeze();
    }

    /** `ParrotTesterFrame(frame)` followed by `buffer.add`. */
    method EnterBuffer(f: AudioFrame) returns (tf: Frame)
      requires buffer.Valid()
      modifies buffer
      ensures buffer.Valid()
      ensures fresh(tf) && tf.ts == f.ts && tf.power == f.power && tf.f0 == f.f0 && tf.f1 == f.f1 && tf.f2 == f.f2
      ensures tf.patterns == [] && tf.patternNames == {} && !tf.detected && !tf.graceDetected
      ensures tf.logId == None && tf.captureId == None
      ensures buffer.buffer != [] && buffer.buffer[|buffer.buffer| - 1] == tf
    {
      tf := new Frame(f.ts, f.power, f.f0, f.f1, f.f2);
      buffer.Add(tf);
    }

    /** The per-pattern loop, then `freeze`. */
    static method ScoreAndFreeze(tf: Frame, c: Classifier, ps: seq<Pattern>, f: AudioFrame, colorOf: nat -> string)
      returns (active: set<string>)
      requires tf.patterns == []
      modifies tf`patterns, tf`patternNames, tf`detected, tf`graceDetected
      ensures active == ActiveNames(c, ps, f)
      ensures tf.patterns == SortMatches(Recorded(c, ps, f, colorOf))
      ensures tf.patternNames == old(tf.patternNames) + KeptNames(c, ps, f)
      ensures tf.detected == (old(tf.detected) || AnyKeptDetected(c, ps, f))
      ensures tf.graceDetected == (old(tf.graceDetected) || AnyKeptGraceDetected(c, ps, f))
    {
      active := ScorePatterns(tf, c, ps, f, colorOf);
      assert tf.patterns == Recorded(c, ps, f, colorOf);
      tf.Freeze();
    }

    /**
     * `capture_collection.end_current_capture`, with what its double-pop
     * pause runs: `restore_patterns_paused` calls the generated hook's
     * `parrot_tester_restore_parrot_integration()`, whose `reset_ui_state`
     * defaults to true, so the pause also unwraps the classifier and empties
     * the buffer, the captures, the logs and the statistics.
     */
    method EndCapture(doublePopPause: bool) returns (pausePlayback: bool)
      requires Valid()
      modifies this, buffer, captures, logs
      modifies captures.OpenFrames()`id, captures.OpenFrames()`index
      modifies captures.OpenFrames()`tsDelta, captures.OpenFrames()`tsZeroBased
      ensures Valid()
      ensures captures.current == null && captures.job == None && captures.scheduled == {}
      ensures captures.nextHandle == old(captures.nextHandle)
      ensures old(captures.current) == null ==> !pausePlayback
      ensures old(captures.current) != null ==>
        (pausePlayback <==> doublePopPause && old(captures.current.DetectedTwoPops()))
      ensures pausePlayback ==> GuardState() == RestoreGuard(old(GuardState())) && RecordsCleared() && captures.captures == []
      ensures !pausePlayback ==>
        && GuardState() == old(GuardState()) && unchanged(buffer, logs)
        && stats == old(stats) && logEvents == old(logEvents) && captures.captures == old(captures.captures)
    {
      pausePlayback := captures.EndCurrentCapture(doublePopPause);
      PauseIfAsked(pausePlayback);
    }

    /** `restore_patterns_paused` when `end_current_capture` asks for it, nothing otherwise. */
    method PauseIfAsked(pausePlayback: bool)
      requires Valid() && captures.current == null && captures.job == None && captures.scheduled == {}
      modifies this, buffer, captures, logs
      ensures Valid()
      ensures captures.current == null && captures.job == None && captures.scheduled == {}
      ensures captures.nextHandle == old(captures.nextHandle)
      ensures pausePlayback ==> GuardState() == RestoreGuard(old(GuardState())) && RecordsCleared() && captures.captures == []
      ensures !pausePlayback ==> unchanged(this, buffer, captures, logs)
    {
      if pausePlayback {
        Restore(true);
      }
    }

    /** The capture timer fires: the scheduled `end_current_capture` runs. */
    method TimerFired(doublePopPause: bool) returns (pausePlayback: bool)
      requires Valid() && captures.job.Some?
      modifies this, buffer, captures, logs
      modifies captures.OpenFrames()`id, captures.OpenFrames()`index
      modifies captures.OpenFrames()`tsDelta, captures.OpenFrames()`tsZeroBased
      ensures Valid()
      ensures captures.current == null && captures.job == None && captures.scheduled == {}
      ensures pausePlayback <==> doublePopPause && old(captures.current.DetectedTwoPops())
      ensures pausePlayback ==> GuardState() == RestoreGuard(old(GuardState())) && RecordsCleared() && captures.captures == []
      ensures !pausePlayback ==>
        && GuardState() == old(GuardState()) && unchanged(buffer, logs)
        && stats == old(stats) && logEvents == old(logEvents) && captures.captures == old(captures.captures)
    {
      pausePlayback := EndCapture(doublePopPause);
    }

    /**
     * `capture_collection.add` for the frame just buffered: a full capture is
     * ended first, with the pause's restore when it asks for one, and then
     * the frame opens or extends a capture, or is dropped.
     */
    method Capture(tf: Frame, active: set<string>, doublePopPause: bool) returns (pausePlayback: bool)
      requires Valid()
      requires buffer.buffer != [] && buffer.buffer[|buffer.buffer| - 1] == tf
      requires tf !in captures.OpenFrames()
      modifies this, buffer, captures, captures.current, logs, tf`captureId
      modifies captures.OpenFrames()`id, captures.OpenFrames()`index
      modifies captures.OpenFrames()`tsDelta, captures.OpenFrames()`tsZeroBased
      ensures Valid()
      ensures pausePlayback <==> old(FullCapture()) && doublePopPause && old(captures.current.DetectedTwoPops())
      ensures pausePlayback ==> GuardState() == RestoreGuard(old(GuardState())) && RecordsCleared()
      ensures !pausePlayback ==>
        && GuardState() == old(GuardState()) && unchanged(buffer, logs)
        && stats == old(stats) && logEvents == old(logEvents)
      ensures active != {} && old(CaptureOpen()) ==>
        && captures.current == old(captures.current) && captures.captures == old(captures.captures)
        && Captures.GrewBy(captures.current, old(captures.current.frames), old(captures.current.detectEntries),
                           old(captures.current.patternNames), tf, true)
      ensures active != {} && !old(CaptureOpen()) ==>
        && captures.current != null && fresh(captures.current)
        && captures.captures == (if pausePlayback then [] else old(captures.captures)) + [captures.current]
        && Captures.OpenedOver(captures.current, buffer.Get(tf.ts), tf)
      ensures active != {} ==>
        && captures.current != null && tf in captures.current.frames && tf.captureId == Some(captures.current.id)
        && captures.job == Some(Captures.Job(old(captures.nextHandle), tf.ts + Captures.CaptureTimeout))
        && captures.scheduled == {old(captures.nextHandle)}
      // the pause's reset empties the buffer, so the new capture has no pre-roll
      ensures active != {} && pausePlayback ==> captures.current != null && captures.current.frames == [tf]
      ensures active == {} && old(CaptureOpen()) ==>
        && captures.current == old(captures.current) && captures.captures == old(captures.captures)
        && Captures.GrewBy(captures.current, old(captures.current.frames), old(captures.current.detectEntries),
                           old(captures.current.patternNames), tf, false)
        && captures.job == old(captures.job) && captures.scheduled == old(captures.scheduled)
      ensures active == {} && !old(CaptureOpen()) ==>
        && captures.current == null && captures.job == None && captures.scheduled == {}
        && captures.captures == (if pausePlayback then [] else old(captures.captures))
      ensures active == {} ==> tf.captureId == old(tf.captureId)
      ensures !old(FullCapture()) ==> Captures.FramesKept(old(captures.OpenFrames()))
    {
      if captures.current != null && |captures.current.frames| >= Captures.MaxFramesPerCapture {
        pausePlayback := CaptureAfterFull(tf, active, doublePopPause);
      } else {
        pausePlayback := false;
        CaptureWithRoom(tf, active);
      }
    }

    /** `add` when no capture is full: the frame is placed and nothing is reset. */
    method CaptureWithRoom(tf: Frame, active: set<string>)
      requires Valid() && !FullCapture()
      requires buffer.buffer != [] && buffer.buffer[|buffer.buffer| - 1] == tf
      requires tf !in captures.OpenFrames()
      modifies captures, captures.current, tf`captureId
      ensures Valid() && unchanged(this, buffer, logs)
      ensures active != {} && old(CaptureOpen()) ==>
        && captures.current == old(captures.current) && captures.captures == old(captures.captures)
        && Captures.GrewBy(captures.current, old(captures.current.frames), old(captures.current.detectEntries),
                           old(captures.current.patternNames), tf, true)
      ensures active != {} && !old(CaptureOpen()) ==>
        && captures.current != null && fresh(captures.current)
        && captures.captures == old(captures.captures) + [captures.current]
        && Captures.OpenedOver(captures.current, buffer.Get(tf.ts), tf)
      ensures active != {} ==>
        && captures.current != null && tf in captures.current.frames && tf.captureId == Some(captures.current.id)
        && captures.job == Some(Captures.Job(old(captures.nextHandle), tf.ts + Captures.CaptureTimeout))
        && captures.scheduled == {old(captures.nextHandle)}
      ensures active == {} && old(CaptureOpen()) ==>
        && captures.current == old(captures.current) && captures.captures == old(captures.captures)
        && Captures.GrewBy(captures.current, old(captures.current.frames), old(captures.current.detectEntries),
                           old(captures.current.patternNames), tf, false)
        && captures.job == old(captures.job) && captures.scheduled == old(captures.scheduled)
      ensures active == {} && !old(CaptureOpen()) ==>
        && captures.current == null && captures.job == None && captures.scheduled == {}
        && captures.captures == old(captures.captures)
      ensures active == {} ==> tf.captureId == old(tf.captureId)
      ensures Captures.FramesKept(old(captures.OpenFrames()))
    {
      assert (buffer.bufferLast + buffer.buffer)[|buffer.bufferLast + buffer.buffer| - 1] == tf;
      Buffering.LastNotInDropLast(buffer.bufferLast + buffer.buffer);
      captures.Place(tf, active, buffer);
      if active != {} {
        assert tf == captures.current.frames[|captures.current.frames| - 1];
      }
    }

    /**
     * `add` when the open capture is full: it is ended (and a double-pop
     * pause restores and resets everything), then the frame opens a new
     * capture or is dropped.
     */
    method CaptureAfterFull(tf: Frame, active: set<string>, doublePopPause: bool) returns (pausePlayback: bool)
      requires Valid() && FullCapture()
      requires buffer.buffer != [] && buffer.buffer[|buffer.buffer| - 1] == tf
      requires tf !in captures.OpenFrames()
      modifies this, buffer, captures, logs, tf`captureId
      modifies captures.OpenFrames()`id, captures.OpenFrames()`index
      modifies captures.OpenFrames()`tsDelta, captures.OpenFrames()`tsZeroBased
      ensures Valid()
      ensures pausePlayback <==> doublePopPause && old(captures.current.DetectedTwoPops())
      ensures pausePlayback ==> GuardState() == RestoreGuard(old(GuardState())) && RecordsCleared()
      ensures !pausePlayback ==>
        && GuardState() == old(GuardState()) && unchanged(buffer, logs)
        && stats == old(stats) && logEvents == old(logEvents)
      ensures active != {} ==>
        && fresh(captures.current)
        && OpenedBy(tf, if pausePlayback then [] else old(captures.captures), old(captures.nextHandle))
      // the pause's reset empties the buffer, so the new capture has no pre-roll
      ensures active != {} && pausePlayback ==> captures.current != null && captures.current.frames == [tf]
      ensures active == {} ==>
        && captures.current == null && captures.job == None && captures.scheduled == {}
        && captures.captures == (if pausePlayback then [] else old(captures.captures))
        && tf.captureId == old(tf.captureId)
    {
      assert (buffer.bufferLast + buffer.buffer)[|buffer.bufferLast + buffer.buffer| - 1] == tf;
      Buffering.LastNotInDropLast(buffer.bufferLast + buffer.buffer);
      pausePlayback := EndCapture(doublePopPause);
      OpenOrDrop(tf, active);
    }

    /**
     * `tf` has just opened the open capture: seeded from the buffer, appended
     * to `prior`, and its job armed with handle `handle`.
     */
    ghost predicate OpenedBy(tf: Frame, prior: seq<Captures.Capture>, handle: nat)
      reads this, buffer, captures, captures.current, captures.OpenFrames()`patternNames, tf
    {
      && buffer.Valid() && captures.current != null
      && captures.captures == prior + [captures.current]
      && Captures.OpenedOver(captures.current, buffer.Get(tf.ts), tf)
      && tf.captureId == Some(captures.current.id)
      && captures.job == Some(Captures.Job(handle, tf.ts + Captures.CaptureTimeout))
      && captures.scheduled == {handle}
    }

    /** `add` once the full capture is ended: an active frame opens a capture, an inactive one is dropped. */
    method OpenOrDrop(tf: Frame, active: set<string>)
      requires Valid() && captures.current == null
      requires tf !in Buffering.DropLast(buffer.bufferLast + buffer.buffer)
      modifies captures, tf`captureId
      ensures Valid() && unchanged(this, buffer, logs)
      ensures active != {} ==> fresh(captures.current) && OpenedBy(tf, old(captures.captures), old(captures.nextHandle))
      // an empty buffer gives no pre-roll
      ensures active != {} && buffer.bufferLast + buffer.buffer == [] ==>
        captures.current != null && captures.current.frames == [tf]
      ensures active == {} ==>
        && captures.current == null && captures.job == None && captures.scheduled == {}
        && captures.captures == old(captures.captures)
        && tf.captureId == old(tf.captureId)
    {
      captures.Place(tf, active, buffer);
      if active != {} {
        assert tf == captures.current.frames[|captures.current.frames| - 1];
      }
    }
  }

  /** A classifier that detects every pattern. */
  const DetectsAll: Classifier := Classifier((p, f) => true, (p, f, g) => true)

  /** Two patterns, both heard in the same frame. */
  const PopAndHiss: seq<Pattern> := [
    Pattern("pop", ["pop"], Timestamps(0.0, 0.0, 0.0)),
    Pattern("hiss", ["hiss"], Timestamps(0.0, 0.0, 0.0))]

  const BothHeard: AudioFrame := AudioFrame(1.0, None, None, None, None, map["pop" := 0.9, "hiss" := 0.8])

  /**
   * When two patterns fire in one frame, the loop as written logs that
   * frame twice, so the log no longer holds each frame once; the corrected
   * wrapper logs it once.
   */
  lemma TwoDetectionsLogTwice(x: Frame)
    ensures ActiveNames(DetectsAll, PopAndHiss, BothHeard) == {"pop", "hiss"}
    ensures Repeat(x, DetectedCount(DetectsAll, PopAndHiss, BothHeard)) == [x, x]
    ensures !Distinct(Repeat(x, DetectedCount(DetectsAll, PopAndHiss, BothHeard)))
  {
    assert PopAndHiss[..1] == [PopAndHiss[0]];
    assert PopAndHiss[..2] == PopAndHiss;
    assert DetectedCount(DetectsAll, PopAndHiss[..1], BothHeard) == 1;
    var r := Repeat(x, DetectedCount(DetectsAll, PopAndHiss, BothHeard));
    assert r[0] == r[1];
  }
}
