/**
 * Captures: bursts of detections with pre-roll context, and the
 * Idle/Open state machine of `CaptureCollection` that opens, extends and
 * finalizes them on a cancellable timer.
 */
module Captures {
  import opened Wrappers
  import opened Frames
  import Buffering

  /** The winner name `detected_two_pops` looks for. */
  const PopName: string := "pop"

  /** `capture_timeout` ("350ms"), in seconds. */
  const CaptureTimeout: real := 0.35

  /** `max_frames_per_capture`. */
  const MaxFramesPerCapture: nat := 50

  /** The union of the pattern names of the frames of `s`. */
  function NamesOf(s: seq<Frame>): set<string>
    reads s`patternNames
  {
    set f, n | f in s && n in f.patternNames :: n
  }

  predicate WonByPop(f: Frame)
    reads f`patterns
  {
    WinnerName(f.patterns) == PopName
  }

  /** Whether each frame of `s` is won by "pop", position by position. */
  function PopFlags(s: seq<Frame>): (b: seq<bool>)
    reads s`patterns
    ensures |b| == |s| && forall i :: 0 <= i < |s| ==> b[i] == WonByPop(s[i])
  {
    if s == [] then [] else PopFlags(s[..|s| - 1]) + [WonByPop(s[|s| - 1])]
  }

  /** How many entries of `b` hold. */
  function CountTrue(b: seq<bool>): nat {
    if b == [] then 0 else CountTrue(b[..|b| - 1]) + (if b[|b| - 1] then 1 else 0)
  }

  /** Number of frames of `s` whose winner is "pop": the sum `detected_two_pops` takes. */
  function PopCount(s: seq<Frame>): nat
    reads s`patterns
  {
    CountTrue(PopFlags(s))
  }

  /** The count reaches one exactly when some entry holds. */
  lemma {:induction false} CountTruePositive(b: seq<bool>)
    ensures CountTrue(b) >= 1 <==> exists i :: 0 <= i < |b| && b[i]
  {
    if b != [] {
      var t := b[..|b| - 1];
      CountTruePositive(t);
      if exists i :: 0 <= i < |b| && b[i] {
        var i :| 0 <= i < |b| && b[i];
        if i < |t| {
          assert t[i];
        }
      }
      if CountTrue(t) >= 1 {
        var i :| 0 <= i < |t| && t[i];
        assert b[i];
      }
    }
  }

  /** The count reaches two exactly when two different entries hold. */
  lemma {:induction false} CountTrueAtLeastTwo(b: seq<bool>)
    ensures CountTrue(b) >= 2 <==> exists i, j :: 0 <= i < j < |b| && b[i] && b[j]
  {
    if b != [] {
      var t := b[..|b| - 1];
      var n := |b| - 1;
      CountTrueAtLeastTwo(t);
      CountTruePositive(t);
      if CountTrue(t) >= 2 {
        var i, j :| 0 <= i < j < |t| && t[i] && t[j];
        assert b[i] && b[j];
      } else if CountTrue(b) >= 2 {
        var i :| 0 <= i < |t| && t[i];
        assert b[i] && b[n];
      }
      if exists i, j :: 0 <= i < j < |b| && b[i] && b[j] {
        var i, j :| 0 <= i < j < |b| && b[i] && b[j];
        assert t[i];
        if j < n {
          assert t[j];
        }
      }
    }
  }

  /** Counting reaches two exactly when two different positions hold frames won by "pop". */
  lemma PopCountAtLeastTwo(s: seq<Frame>)
    ensures PopCount(s) >= 2 <==> exists i, j :: 0 <= i < j < |s| && WonByPop(s[i]) && WonByPop(s[j])
  {
    var b := PopFlags(s);
    CountTrueAtLeastTwo(b);
    if exists i, j :: 0 <= i < j < |s| && WonByPop(s[i]) && WonByPop(s[j]) {
      var i, j :| 0 <= i < j < |s| && WonByPop(s[i]) && WonByPop(s[j]);
      assert b[i] && b[j];
    }
  }

  /** Two pop-won frames among `d` are two pop-won entries of `e` when `d` lists the frames of `e`. */
  lemma PopPairsOfEntries(d: seq<Frame>, e: seq<(Frame, nat)>)
    requires |d| == |e| && forall k :: 0 <= k < |d| ==> d[k] == e[k].0
    ensures (exists i, j :: 0 <= i < j < |d| && WonByPop(d[i]) && WonByPop(d[j]))
        <==> (exists i, j :: 0 <= i < j < |e| && WonByPop(e[i].0) && WonByPop(e[j].0))
  {
    if exists i, j :: 0 <= i < j < |e| && WonByPop(e[i].0) && WonByPop(e[j].0) {
      var i, j :| 0 <= i < j < |e| && WonByPop(e[i].0) && WonByPop(e[j].0);
      assert WonByPop(d[i]) && WonByPop(d[j]);
    }
  }

  /** The names of a list of matches, in order. */
  function MatchNames(ps: seq<PatternMatch>): (r: seq<string>)
    ensures |r| == |ps| && forall k :: 0 <= k < |ps| ==> r[k] == ps[k].name
  {
    if ps == [] then [] else MatchNames(ps[..|ps| - 1]) + [ps[|ps| - 1].name]
  }

  /** The names of all matches of the frames of `s`, frame by frame. */
  function AllMatchNames(s: seq<Frame>): seq<string>
    reads s`patterns
  {
    if s == [] then [] else AllMatchNames(s[..|s| - 1]) + MatchNames(s[|s| - 1].patterns)
  }

  /** `s` without repetitions, each name where it first occurs. */
  function Dedup(s: seq<string>): seq<string> {
    if s == [] then []
    else
      var d := Dedup(s[..|s| - 1]);
      if s[|s| - 1] in d then d else d + [s[|s| - 1]]
  }

  /** One more name: `Dedup` keeps it only when it is new. */
  lemma DedupSnoc(s: seq<string>, x: string)
    ensures Dedup(s + [x]) == if x in Dedup(s) then Dedup(s) else Dedup(s) + [x]
  {
    assert (s + [x])[..|s|] == s;
  }

  /** `Dedup` keeps every name once and adds none. */
  lemma {:induction false} DedupMembers(s: seq<string>)
    ensures forall x :: x in Dedup(s) <==> x in s
    ensures forall i, j :: 0 <= i < j < |Dedup(s)| ==> Dedup(s)[i] != Dedup(s)[j]
  {
    if s != [] {
      var t := s[..|s| - 1];
      DedupMembers(t);
      assert s == t + [s[|s| - 1]];
    }
  }

  /** A timer job: the scheduler's handle and the time at which it fires. */
  datatype Job = Job(handle: nat, due: real)

  /** `c` is what `Capture(frame)` builds over `preRoll`: its frames, its one detect entry, its id and its names. */
  ghost predicate OpenedOver(c: Capture, preRoll: seq<Frame>, frame: Frame)
    reads c, c.frames`patternNames, frame`patterns
  {
    && c.frames == preRoll + [frame]
    && c.detectEntries == [(frame, |preRoll|)]
    && c.id == CreateId(frame)
    && c.patternNames == NamesOf(c.frames)
  }

  /** No frame of `fs` has changed since the old state. */
  twostate predicate FramesKept(fs: seq<Frame>)
    reads fs
  {
    forall g | g in fs :: unchanged(g)
  }

  /**
   * `c` has grown by `frame` from `frames`, `entries` and `names`: the frame
   * is appended, recorded as a detect frame when `detect`, and its names added.
   */
  ghost predicate GrewBy(c: Capture, frames: seq<Frame>, entries: seq<(Frame, nat)>, names: set<string>,
                         frame: Frame, detect: bool)
    reads c, frame`patternNames
  {
    && c.frames == frames + [frame]
    && c.detectEntries == entries + (if detect then [(frame, |frames|)] else [])
    && c.patternNames == names + frame.patternNames
  }

  /** `Capture`: one detection episode. */
  class Capture {
    const id: FrameId
    var frames: seq<Frame>
    /** `_detect_frames`: each detect frame with its position in `frames`. */
    var detectEntries: seq<(Frame, nat)>
    var patternNames: set<string>

    ghost predicate Valid()
      reads this
    {
      && |detectEntries| > 0
      && Distinct(frames)
      && (forall k :: 0 <= k < |detectEntries| ==>
            detectEntries[k].1 < |frames| && frames[detectEntries[k].1] == detectEntries[k].0)
      && (forall k, l :: 0 <= k < l < |detectEntries| ==> detectEntries[k].1 < detectEntries[l].1)
    }

    /** `detect_frames`. */
    function DetectFrames(): (r: seq<Frame>)
      reads this
      ensures |r| == |detectEntries| && forall k :: 0 <= k < |r| ==> r[k] == detectEntries[k].0
    {
      var entries := detectEntries;
      seq(|entries|, k requires 0 <= k < |entries| => entries[k].0)
    }

    function LastDetect(): Frame
      reads this
      requires |detectEntries| > 0
    {
      detectEntries[|detectEntries| - 1].0
    }

    /**
     * `Capture(detect_frame)`: the pre-roll frames the buffer returns for the
     * detect frame's timestamp, then the detect frame itself.
     */
    constructor (preRoll: seq<Frame>, detectFrame: Frame)
      requires Distinct(preRoll) && detectFrame !in preRoll
      modifies detectFrame`captureId
      ensures Valid()
      ensures id == CreateId(detectFrame)
      ensures frames == preRoll + [detectFrame]
      ensures detectEntries == [(detectFrame, |preRoll|)]
      ensures patternNames == NamesOf(frames)
      ensures detectFrame.captureId == Some(id)
    {
      var all := preRoll + [detectFrame];
      var names: set<string> := {};
      for i := 0 to |all|
        invariant names == NamesOf(all[..i])
      {
        assert all[..i + 1][..i] == all[..i];
        names := names + all[i].patternNames;
      }
      assert all[..|all|] == all;
      id := CreateId(detectFrame);
      frames := all;
      detectEntries := [(detectFrame, |preRoll|)];
      patternNames := names;
      new;
      detectFrame.captureId := Some(id);
      assert Distinct(frames) by {
        forall i, j | 0 <= i < j < |frames| ensures frames[i] != frames[j] {
          if j == |preRoll| {
            assert frames[i] == preRoll[i];
          } else {
            assert frames[i] == preRoll[i] && frames[j] == preRoll[j];
          }
        }
      }
    }

    /** `add_frame`: appends a frame that detected nothing. */
    method AddFrame(frame: Frame)
      requires Valid() && frame !in frames
      modifies this`frames, this`patternNames
      ensures Valid()
      ensures frames == old(frames) + [frame]
      ensures patternNames == old(patternNames) + frame.patternNames
    {
      frames := frames + [frame];
      patternNames := patternNames + frame.patternNames;
    }

    /** `add_detect_frame`: appends a detect frame and records its position. */
    method AddDetectFrame(frame: Frame)
      requires Valid() && frame !in frames
      modifies this`frames, this`detectEntries, this`patternNames, frame`captureId
      ensures Valid()
      ensures frames == old(frames) + [frame]
      ensures detectEntries == old(detectEntries) + [(frame, |old(frames)|)]
      ensures patternNames == old(patternNames) + frame.patternNames
      ensures frame.captureId == Some(id)
    {
      frames := frames + [frame];
      frame.captureId := Some(id);
      detectEntries := detectEntries + [(frame, |frames| - 1)];
      patternNames := patternNames + frame.patternNames;
    }

    /** `detected_two_pops`: at least two detect frames are won by "pop". */
    predicate DetectedTwoPops()
      requires Valid()
      reads this, frames`patterns
    {
      var d := DetectFrames();
      assert forall k :: 0 <= k < |d| ==> d[k] in frames;
      PopCount(d) >= 2
    }

    /** Two pops were detected exactly when two different detect frames are won by "pop". */
    lemma DetectedTwoPopsIff()
      requires Valid()
      ensures DetectedTwoPops() <==>
        exists i, j :: 0 <= i < j < |detectEntries| && WonByPop(detectEntries[i].0) && WonByPop(detectEntries[j].0)
    {
      var d := DetectFrames();
      PopCountAtLeastTwo(d);
      PopPairsOfEntries(d, detectEntries);
    }

    /** `detected_pattern_names`: the names matched on detect frames, first occurrence first. */
    method DetectedPatternNames() returns (names: seq<string>)
      ensures names == Dedup(AllMatchNames(DetectFrames()))
      ensures forall x :: x in names <==> x in AllMatchNames(DetectFrames())
      ensures forall i, j :: 0 <= i < j < |names| ==> names[i] != names[j]
    {
      var detect := DetectFrames();
      names := [];
      var seen: set<string> := {};
      for i := 0 to |detect|
        invariant names == Dedup(AllMatchNames(detect[..i]))
        invariant forall x :: x in seen <==> x in names
      {
        ghost var before := AllMatchNames(detect[..i]);
        var ps := detect[i].patterns;
        names, seen := AppendNewNames(names, seen, before, ps);
        assert AllMatchNames(detect[..i + 1]) == before + MatchNames(ps) by {
          assert detect[..i + 1][..i] == detect[..i];
        }
      }
      assert detect[..|detect|] == detect;
      DedupMembers(AllMatchNames(detect));
    }

    /** The inner loop of `detected_pattern_names`: appends the names of `ps` not seen yet. */
    static method AppendNewNames(names: seq<string>, seen: set<string>, ghost before: seq<string>, ps: seq<PatternMatch>)
      returns (names': seq<string>, seen': set<string>)
      requires names == Dedup(before) && forall x :: x in seen <==> x in names
      ensures names' == Dedup(before + MatchNames(ps))
      ensures forall x :: x in seen' <==> x in names'
    {
      names', seen' := names, seen;
      assert before + MatchNames(ps[..0]) == before;
      for j := 0 to |ps|
        invariant names' == Dedup(before + MatchNames(ps[..j]))
        invariant forall x :: x in seen' <==> x in names'
      {
        var name := ps[j].name;
        assert before + MatchNames(ps[..j + 1]) == (before + MatchNames(ps[..j])) + [name] by {
          assert ps[..j + 1][..j] == ps[..j];
        }
        DedupSnoc(before + MatchNames(ps[..j]), name);
        if name !in seen' {
          names' := names' + [name];
          seen' := seen' + {name};
        }
      }
      assert ps[..|ps|] == ps;
    }

    /** `other_pattern_names`: names seen in the capture that no detect frame matched. */
    method OtherPatternNames() returns (r: set<string>)
      ensures forall x :: x in r <==> x in patternNames && x !in AllMatchNames(DetectFrames())
    {
      var detected := DetectedPatternNames();
      r := patternNames - set x | x in detected;
    }

    static ghost predicate Stamped(f: Frame, i: nat, firstDetectTs: real, firstTs: real)
      reads f`index, f`id, f`tsDelta, f`tsZeroBased
    {
      && f.index == Some(i)
      && f.id == Some(i + 1)
      && f.tsDelta == Some(f.ts - firstDetectTs)
      && f.tsZeroBased == Some(f.ts - firstTs)
    }

    static method Stamp(f: Frame, i: nat, firstDetectTs: real, firstTs: real)
      modifies f`id, f`index, f`tsDelta, f`tsZeroBased
      ensures Stamped(f, i, firstDetectTs, firstTs)
    {
      f.tsDelta := Some(f.ts - firstDetectTs);
      f.tsZeroBased := Some(f.ts - firstTs);
      f.id := Some(i + 1);
      f.index := Some(i);
    }

    /** What `complete` leaves behind: positions, 1-based ids and both time offsets. */
    ghost predicate Completed()
      reads this, frames`index, frames`id, frames`tsDelta, frames`tsZeroBased
    {
      && |detectEntries| > 0 && |frames| > 0
      && forall i :: 0 <= i < |frames| ==> Stamped(frames[i], i, detectEntries[0].0.ts, frames[0].ts)
    }

    /** `complete`: numbers the frames and offsets their timestamps from the first detect frame and the first frame. */
    method Complete()
      requires Valid()
      modifies frames`id, frames`index, frames`tsDelta, frames`tsZeroBased
      ensures Completed()
    {
      var firstDetectTs := detectEntries[0].0.ts;
      var firstTs := frames[0].ts;
      var i := 0;
      while i < |frames|
        invariant 0 <= i <= |frames|
        invariant forall k :: 0 <= k < i ==> Stamped(frames[k], k, firstDetectTs, firstTs)
      {
        Stamp(frames[i], i, firstDetectTs, firstTs);
        i := i + 1;
      }
    }
  }

  /**
   * `CaptureCollection`: at most one open capture, the history of captures,
   * and the pending finalize job. The scheduler (`cron.after`/`cron.cancel`)
   * is modelled by the set of handles it still holds and a handle counter.
   */
  class CaptureCollection {
    var current: Capture?
    var captures: seq<Capture>
    /** `end_current_capture_job`. */
    var job: Option<Job>
    /** Handles the scheduler would still fire. */
    var scheduled: set<nat>
    var nextHandle: nat

    /**
     * Open iff a job is pending; the scheduler holds that one job and
     * nothing else; the open capture is the last one recorded, and its job
     * fires one timeout after its last detect frame.
     */
    ghost predicate Valid()
      reads this, current
    {
      && (current != null <==> job.Some?)
      && scheduled == (if job.Some? then {job.value.handle} else {})
      && (job.Some? ==> job.value.handle < nextHandle)
      && (current != null ==>
            && |captures| > 0 && captures[|captures| - 1] == current
            && current.Valid()
            && job.value.due == current.LastDetect().ts + CaptureTimeout)
    }

    /** The frames `complete` may stamp: those of the open capture. */
    function OpenFrames(): seq<Frame>
      reads this, current
    {
      if current == null then [] else current.frames
    }

    constructor ()
      ensures Valid()
      ensures current == null && captures == [] && job == None && scheduled == {}
    {
      current, captures, job := null, [], None;
      scheduled, nextHandle := {}, 0;
    }

    /** `cron.after(capture_timeout, end_current_capture)` for a frame at `ts`. */
    method Arm(ts: real)
      modifies this`job, this`scheduled, this`nextHandle
      ensures job == Some(Job(old(nextHandle), ts + CaptureTimeout))
      ensures scheduled == old(scheduled) + {old(nextHandle)}
      ensures nextHandle == old(nextHandle) + 1
    {
      job := Some(Job(nextHandle, ts + CaptureTimeout));
      scheduled := scheduled + {nextHandle};
      nextHandle := nextHandle + 1;
    }

    /**
     * `end_current_capture`: a no-op when nothing is open; otherwise
     * completes the open capture, closes it and drops its job. Playback is
     * paused when the double-pop option is on and the finished capture
     * detected two pops.
     */
    method EndCurrentCapture(doublePopPause: bool) returns (pausePlayback: bool)
      requires Valid()
      modifies this, OpenFrames()`id, OpenFrames()`index, OpenFrames()`tsDelta, OpenFrames()`tsZeroBased
      ensures Valid()
      ensures current == null && job == None && scheduled == {}
      ensures captures == old(captures) && nextHandle == old(nextHandle)
      ensures old(current) == null ==> !pausePlayback
      ensures old(current) != null ==>
        && unchanged(old(current)) && old(current).Completed()
        && (pausePlayback <==> doublePopPause && old(current.DetectedTwoPops()))
    {
      pausePlayback := false;
      if current != null {
        pausePlayback := EndOpenCapture(doublePopPause);
      }
    }

    /** `end_current_capture` with a capture open: complete it, close it, and say whether to pause. */
    method EndOpenCapture(doublePopPause: bool) returns (pausePlayback: bool)
      requires Valid() && current != null
      modifies this, current.frames`id, current.frames`index, current.frames`tsDelta, current.frames`tsZeroBased
      ensures Valid()
      ensures current == null && job == None && scheduled == {}
      ensures captures == old(captures) && nextHandle == old(nextHandle)
      ensures unchanged(old(current)) && old(current).Completed()
      ensures pausePlayback <==> doublePopPause && old(current.DetectedTwoPops())
    {
      // `complete` does not touch the matches, so the last capture's
      // double-pop verdict can be read before it
      var lastCapture := captures[|captures| - 1];
      var twoPops := lastCapture.DetectedTwoPops();
      lastCapture.Complete();
      Close();
      pausePlayback := doublePopPause && twoPops;
    }

    /** Closes the open capture and cancels its job. */
    method Close()
      requires current != null && job.Some? && scheduled == {job.value.handle}
      modifies this`current, this`job, this`scheduled
      ensures current == null && job == None && scheduled == {}
    {
      current := null;
      if job.Some? {
        scheduled := scheduled - {job.value.handle};
      }
      job := None;
    }

    /** The scheduler fires the pending job: the open capture is finalized. */
    method TimerFired(doublePopPause: bool) returns (pausePlayback: bool)
      requires Valid() && job.Some?
      modifies this, OpenFrames()`id, OpenFrames()`index, OpenFrames()`tsDelta, OpenFrames()`tsZeroBased
      ensures Valid()
      ensures current == null && job == None && scheduled == {}
      ensures captures == old(captures)
      ensures unchanged(old(current)) && old(current).Completed()
      ensures pausePlayback <==> doublePopPause && old(current.DetectedTwoPops())
    {
      pausePlayback := EndCurrentCapture(doublePopPause);
    }

    /**
     * `add`: force-ends a capture that already holds 50 frames, then opens
     * a capture for an active frame when none is open (seeded from the
     * buffer) or extends the open one, re-arming the timer; an inactive
     * frame only extends an open capture and leaves the timer alone.
     */
    method Add(frame: Frame, active: set<string>, buffer: Buffering.SlidingBuffer, doublePopPause: bool)
      returns (pausePlayback: bool)
      requires Valid() && buffer.Valid()
      requires buffer.bufferLast + buffer.buffer != []
      requires (buffer.bufferLast + buffer.buffer)[|buffer.bufferLast + buffer.buffer| - 1] == frame
      requires current != null ==> frame !in current.frames
      modifies this, current, frame`captureId
      modifies OpenFrames()`id, OpenFrames()`index, OpenFrames()`tsDelta, OpenFrames()`tsZeroBased
      ensures Valid()
      // a full capture is finalized before the frame is looked at
      ensures old(current != null && |current.frames| >= MaxFramesPerCapture) ==>
        && unchanged(old(current)) && old(current).Completed()
        && (pausePlayback <==> doublePopPause && old(current.DetectedTwoPops()))
      ensures !old(current != null && |current.frames| >= MaxFramesPerCapture) ==> !pausePlayback
      // an active frame with nothing open opens exactly one new capture
      ensures active != {} && old(current == null || |current.frames| >= MaxFramesPerCapture) ==>
        && current != null && fresh(current)
        && captures == old(captures) + [current]
        && OpenedOver(current, old(buffer.Get(frame.ts)), frame)
      // an active frame with a capture open is one more detect frame
      ensures active != {} && old(current != null && |current.frames| < MaxFramesPerCapture) ==>
        && current == old(current) && captures == old(captures)
        && GrewBy(current, old(current.frames), old(current.detectEntries), old(current.patternNames), frame, true)
      // either way the old job is cancelled and a fresh one armed from this frame
      ensures active != {} ==>
        && job == Some(Job(old(nextHandle), frame.ts + CaptureTimeout))
        && scheduled == {old(nextHandle)}
        && frame.captureId == Some(current.id)
      // an inactive frame extends the open capture without touching the timer ...
      ensures active == {} && old(current != null && |current.frames| < MaxFramesPerCapture) ==>
        && current == old(current) && captures == old(captures)
        && GrewBy(current, old(current.frames), old(current.detectEntries), old(current.patternNames), frame, false)
        && job == old(job) && scheduled == old(scheduled)
      // ... and is dropped when nothing is open
      ensures active == {} && old(current == null || |current.frames| >= MaxFramesPerCapture) ==>
        current == null && captures == old(captures) && job == None && scheduled == {}
      // an inactive frame is never stamped, and the frames of a capture that is not ended are untouched
      ensures active == {} ==> frame.captureId == old(frame.captureId)
      ensures !old(current != null && |current.frames| >= MaxFramesPerCapture) ==>
        FramesKept(old(OpenFrames()))
    {
      if current != null && |current.frames| >= MaxFramesPerCapture {
        pausePlayback := AddAfterFull(frame, active, buffer, doublePopPause);
      } else {
        pausePlayback := false;
        Buffering.LastNotInDropLast(buffer.bufferLast + buffer.buffer);
        Place(frame, active, buffer);
      }
    }

    /**
     * `add` when the open capture already holds 50 frames: it is ended
     * first, then an active frame opens a new capture and an inactive one
     * is dropped.
     */
    method AddAfterFull(frame: Frame, active: set<string>, buffer: Buffering.SlidingBuffer, doublePopPause: bool)
      returns (pausePlayback: bool)
      requires Valid() && buffer.Valid()
      requires current != null && |current.frames| >= MaxFramesPerCapture
      requires buffer.bufferLast + buffer.buffer != []
      requires (buffer.bufferLast + buffer.buffer)[|buffer.bufferLast + buffer.buffer| - 1] == frame
      modifies this, frame`captureId
      modifies OpenFrames()`id, OpenFrames()`index, OpenFrames()`tsDelta, OpenFrames()`tsZeroBased
      ensures Valid()
      ensures unchanged(old(current)) && old(current).Completed()
      ensures pausePlayback <==> doublePopPause && old(current.DetectedTwoPops())
      ensures active != {} ==>
        && current != null && fresh(current)
        && captures == old(captures) + [current]
        && OpenedOver(current, old(buffer.Get(frame.ts)), frame)
        && job == Some(Job(old(nextHandle), frame.ts + CaptureTimeout))
        && scheduled == {old(nextHandle)}
        && frame.captureId == Some(current.id)
      ensures active == {} ==>
        && current == null && captures == old(captures) && job == None && scheduled == {}
        && frame.captureId == old(frame.captureId)
    {
      pausePlayback := EndOpenCapture(doublePopPause);
      Buffering.LastNotInDropLast(buffer.bufferLast + buffer.buffer);
      Place(frame, active, buffer);
    }

    /** The part of `add` after the size check: route the frame by whether it is active. */
    method Place(frame: Frame, active: set<string>, buffer: Buffering.SlidingBuffer)
      requires Valid() && buffer.Valid()
      requires frame !in Buffering.DropLast(buffer.bufferLast + buffer.buffer)
      requires current != null ==> frame !in current.frames
      modifies this, current, frame`captureId
      ensures Valid()
      ensures active != {} && old(current) == null ==>
        && current != null && fresh(current)
        && captures == old(captures) + [current]
        && OpenedOver(current, old(buffer.Get(frame.ts)), frame)
      ensures active != {} && old(current) != null ==>
        && current == old(current) && captures == old(captures)
        && GrewBy(current, old(current.frames), old(current.detectEntries), old(current.patternNames), frame, true)
      ensures active != {} ==>
        && job == Some(Job(old(nextHandle), frame.ts + CaptureTimeout))
        && scheduled == {old(nextHandle)}
        && current != null && frame.captureId == Some(current.id)
      ensures active == {} && old(current) != null ==>
        && current == old(current) && captures == old(captures)
        && GrewBy(current, old(current.frames), old(current.detectEntries), old(current.patternNames), frame, false)
        && job == old(job) && scheduled == old(scheduled)
      ensures active == {} && old(current) == null ==>
        current == null && captures == old(captures) && job == None && scheduled == {}
      ensures active == {} ==> frame.captureId == old(frame.captureId)
      ensures FramesKept(old(OpenFrames()))
    {
      if active != {} {
        AddActive(frame, buffer);
      } else if current != null {
        current.AddFrame(frame);
      }
    }

    /**
     * The active branch of `add`: open or extend, and cancel and re-arm the
     * job. The source opens first; the two steps touch disjoint state, so the
     * model re-arms first.
     */
    method AddActive(frame: Frame, buffer: Buffering.SlidingBuffer)
      requires Valid() && buffer.Valid()
      requires frame !in Buffering.DropLast(buffer.bufferLast + buffer.buffer)
      requires current != null ==> frame !in current.frames
      modifies this, current, frame`captureId
      ensures Valid() && current != null
      ensures old(current) == null ==>
        && fresh(current)
        && captures == old(captures) + [current]
        && OpenedOver(current, old(buffer.Get(frame.ts)), frame)
      ensures old(current) != null ==>
        && current == old(current) && captures == old(captures)
        && GrewBy(current, old(current.frames), old(current.detectEntries), old(current.patternNames), frame, true)
      ensures job == Some(Job(old(nextHandle), frame.ts + CaptureTimeout))
      ensures scheduled == {old(nextHandle)}
      ensures frame.captureId == Some(current.id)
    {
      Rearm(frame.ts);
      OpenOrExtend(frame, buffer);
    }

    /** `cron.cancel` of the pending job, if any, then `cron.after` for a frame at `ts`. */
    method Rearm(ts: real)
      requires scheduled == (if job.Some? then {job.value.handle} else {})
      modifies this`job, this`scheduled, this`nextHandle
      ensures job == Some(Job(old(nextHandle), ts + CaptureTimeout))
      ensures scheduled == {old(nextHandle)}
      ensures nextHandle == old(nextHandle) + 1
    {
      if job.Some? {
        scheduled := scheduled - {job.value.handle};
      }
      Arm(ts);
    }

    /** Opens a capture seeded from the buffer, or adds a detect frame to the open one. */
    method OpenOrExtend(frame: Frame, buffer: Buffering.SlidingBuffer)
      requires buffer.Valid()
      requires frame !in Buffering.DropLast(buffer.bufferLast + buffer.buffer)
      requires current != null ==> current.Valid() && frame !in current.frames
      requires current != null ==> |captures| > 0 && captures[|captures| - 1] == current
      modifies this`current, this`captures, current, frame`captureId
      ensures current != null && current.Valid() && current.LastDetect() == frame
      ensures |captures| > 0 && captures[|captures| - 1] == current
      ensures old(current) == null ==>
        && fresh(current)
        && captures == old(captures) + [current]
        && OpenedOver(current, old(buffer.Get(frame.ts)), frame)
      ensures old(current) != null ==>
        && current == old(current) && captures == old(captures)
        && GrewBy(current, old(current.frames), old(current.detectEntries), old(current.patternNames), frame, true)
      ensures frame.captureId == Some(current.id)
    {
      if current == null {
        Open(frame, buffer);
      } else {
        current.AddDetectFrame(frame);
      }
    }

    /** Opens a capture seeded with the buffer's pre-roll for the detect frame. */
    method Open(frame: Frame, buffer: Buffering.SlidingBuffer)
      requires buffer.Valid()
      requires frame !in Buffering.DropLast(buffer.bufferLast + buffer.buffer)
      requires current == null
      modifies this`current, this`captures, frame`captureId
      ensures current != null && fresh(current) && current.Valid() && current.LastDetect() == frame
      ensures captures == old(captures) + [current]
      ensures OpenedOver(current, old(buffer.Get(frame.ts)), frame)
      ensures frame.captureId == Some(current.id)
    {
      var preRoll := buffer.Get(frame.ts);
      var c := new Capture(preRoll, frame);
      current := c;
      captures := captures + [c];
    }

    /** `clear`: forgets every capture, closes the open one without completing it, cancels the job. */
    method Clear()
      requires Valid()
      modifies this
      ensures Valid()
      ensures captures == [] && current == null && job == None && scheduled == {}
      ensures nextHandle == old(nextHandle)
    {
      captures := [];
      current := null;
      if job.Some? {
        scheduled := scheduled - {job.value.handle};
        job := None;
      }
    }
  }
}
