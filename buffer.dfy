/**
 * The pre-roll `Buffer`: an active segment that is archived whole once it
 * has grown past `size`, and a time-windowed view of everything but the
 * most recent frame.
 */
module Buffering {
  import opened Frames

  const DefaultSize: nat := 5

  /** `get_time_window`: frames younger than this (in seconds) are returned by `get`. */
  const TimeWindow: real := 0.3

  /** The frames of `s` that are less than `TimeWindow` older than `now`, in order. */
  function Recent(s: seq<Frame>, now: real): seq<Frame> {
    if s == [] then []
    else (if now - s[0].ts < TimeWindow then [s[0]] else []) + Recent(s[1..], now)
  }

  /** `all[:-1]`: everything but the last element (nothing for an empty list). */
  function DropLast(s: seq<Frame>): (r: seq<Frame>)
    ensures |s| > 0 ==> s == r + [s[|s| - 1]]
    ensures |s| == 0 ==> r == []
  {
    if s == [] then [] else s[..|s| - 1]
  }

  /** `Recent` keeps exactly the frames of the window, and keeps distinct frames distinct. */
  lemma {:induction false} RecentMembers(s: seq<Frame>, now: real)
    ensures forall f :: f in Recent(s, now) ==> f in s && now - f.ts < TimeWindow
    ensures forall f :: f in s && now - f.ts < TimeWindow ==> f in Recent(s, now)
    ensures |Recent(s, now)| <= |s|
    ensures Distinct(s) ==> Distinct(Recent(s, now))
  {
    if s != [] {
      RecentMembers(s[1..], now);
      assert s == [s[0]] + s[1..];
      if Distinct(s) {
        assert Distinct(s[1..]) by {
          forall i, j | 0 <= i < j < |s[1..]| ensures s[1..][i] != s[1..][j] {
            assert s[1..][i] == s[i + 1] && s[1..][j] == s[j + 1];
          }
        }
        var r := Recent(s, now);
        var t := Recent(s[1..], now);
        if now - s[0].ts < TimeWindow {
          assert r == [s[0]] + t;
          forall i, j | 0 <= i < j < |r| ensures r[i] != r[j] {
            if i == 0 {
              assert r[j] == t[j - 1] && r[j] in t;
              assert s[0] !in s[1..] by {
                forall k | 0 <= k < |s[1..]| ensures s[1..][k] != s[0] {
                  assert s[1..][k] == s[k + 1];
                }
              }
            } else {
              assert r[i] == t[i - 1] && r[j] == t[j - 1];
            }
          }
        } else {
          assert r == t;
        }
      }
    }
  }

  /** `r` is `s` with some elements left out, the rest in their order. */
  ghost predicate SubsequenceOf(r: seq<Frame>, s: seq<Frame>)
    decreases |s|
  {
    r == [] || (s != [] && ((r[0] == s[0] && SubsequenceOf(r[1..], s[1..])) || SubsequenceOf(r, s[1..])))
  }

  /** The window filter keeps the frames it keeps in their original order. */
  lemma {:induction false} RecentInOrder(s: seq<Frame>, now: real)
    ensures SubsequenceOf(Recent(s, now), s)
  {
    if s != [] {
      RecentInOrder(s[1..], now);
      var t := Recent(s[1..], now);
      if now - s[0].ts < TimeWindow {
        assert Recent(s, now) == [s[0]] + t;
        assert ([s[0]] + t)[1..] == t;
      } else {
        assert Recent(s, now) == t;
      }
    }
  }

  /** The last element of a list without repeats is not among the others. */
  lemma LastNotInDropLast(s: seq<Frame>)
    requires s != [] && Distinct(s)
    ensures s[|s| - 1] !in DropLast(s)
  {
    forall k | 0 <= k < |DropLast(s)| ensures DropLast(s)[k] != s[|s| - 1] {
      assert DropLast(s)[k] == s[k];
    }
  }

  ghost predicate NonDecreasing(s: seq<Frame>) {
    forall i, j :: 0 <= i < j < |s| ==> s[i].ts <= s[j].ts
  }

  /**
   * When frames arrive in timestamp order, the window is a suffix: `get`
   * returns the most recent frames, whatever their number.
   */
  lemma {:induction false} RecentIsSuffix(s: seq<Frame>, now: real)
    requires NonDecreasing(s)
    ensures exists k :: 0 <= k <= |s| && Recent(s, now) == s[k..]
  {
    if s == [] {
      assert Recent(s, now) == s[0..];
    } else if now - s[0].ts < TimeWindow {
      AllRecent(s, now);
      assert Recent(s, now) == s[0..];
    } else {
      var t := s[1..];
      assert NonDecreasing(t) by {
        forall i, j | 0 <= i < j < |t| ensures t[i].ts <= t[j].ts {
          assert t[i] == s[i + 1] && t[j] == s[j + 1];
        }
      }
      RecentIsSuffix(t, now);
      var k :| 0 <= k <= |t| && Recent(t, now) == t[k..];
      assert Recent(s, now) == s[k + 1..];
    }
  }

  lemma {:induction false} AllRecent(s: seq<Frame>, now: real)
    requires forall i :: 0 <= i < |s| ==> now - s[i].ts < TimeWindow
    ensures Recent(s, now) == s
  {
    if s != [] {
      AllRecent(s[1..], now);
      assert s == [s[0]] + s[1..];
    }
  }

  /** `Buffer`: `buffer` is the active segment, `bufferLast` the archived one. */
  class SlidingBuffer {
    const size: nat
    var buffer: seq<Frame>
    var bufferLast: seq<Frame>

    /** The active segment never holds more than `size + 1` frames; each frame is held once. */
    ghost predicate Valid()
      reads this
    {
      |buffer| <= size + 1 && Distinct(bufferLast + buffer)
    }

    constructor (size: nat)
      ensures Valid() && this.size == size
      ensures buffer == [] && bufferLast == []
    {
      this.size := size;
      buffer, bufferLast := [], [];
    }

    /** `add`: archives the active segment only when it already holds more than `size` frames. */
    method Add(item: Frame)
      requires Valid()
      requires item !in bufferLast + buffer
      modifies this
      ensures Valid()
      ensures |old(buffer)| > size ==> bufferLast == old(buffer) && buffer == [item]
      ensures |old(buffer)| <= size ==> bufferLast == old(bufferLast) && buffer == old(buffer) + [item]
    {
      if |buffer| > size {
        bufferLast := buffer;
        buffer := [];
        assert Distinct(bufferLast) by {
          var all := old(bufferLast) + bufferLast;
          forall i, j | 0 <= i < j < |bufferLast| ensures bufferLast[i] != bufferLast[j] {
            assert bufferLast[i] == all[|old(bufferLast)| + i];
            assert bufferLast[j] == all[|old(bufferLast)| + j];
          }
        }
      }
      assert item !in bufferLast + buffer;
      var all := bufferLast + buffer;
      buffer := buffer + [item];
      assert bufferLast + buffer == all + [item];
    }

    /**
     * `get`: the frames of `buffer_last + buffer`, less the most recently
     * added one, that are younger than the window at `now`, in order.
     */
    function Get(now: real): (r: seq<Frame>)
      reads this
      requires Valid()
      ensures forall f :: f in r ==> f in DropLast(bufferLast + buffer) && now - f.ts < TimeWindow
      ensures forall f :: f in DropLast(bufferLast + buffer) && now - f.ts < TimeWindow ==> f in r
      ensures SubsequenceOf(r, DropLast(bufferLast + buffer))
      ensures Distinct(r)
      ensures bufferLast + buffer != [] ==> (bufferLast + buffer)[|bufferLast + buffer| - 1] !in r
      ensures bufferLast + buffer == [] ==> r == []
    {
      var all := bufferLast + buffer;
      assert Distinct(DropLast(all)) by {
        if all != [] {
          forall i, j | 0 <= i < j < |DropLast(all)| ensures DropLast(all)[i] != DropLast(all)[j] {
            assert DropLast(all)[i] == all[i] && DropLast(all)[j] == all[j];
          }
        }
      }
      RecentMembers(DropLast(all), now);
      RecentInOrder(DropLast(all), now);
      if all != [] then
        LastNotInDropLast(all);
        Recent(DropLast(all), now)
      else
        Recent(DropLast(all), now)
    }

    /** `clear`: empties both segments. */
    method Clear()
      modifies this
      ensures Valid()
      ensures buffer == [] && bufferLast == []
    {
      buffer, bufferLast := [], [];
    }
  }

  /** Seven frames into a buffer of capacity 5: the first six are archived, the seventh is active. */
  method SevenFrames() returns (archived: nat, active: nat, visible: nat)
    ensures archived == 6 && active == 1 && visible == 6
  {
    var b := new SlidingBuffer(DefaultSize);
    var frames: seq<Frame> := [];
    var i := 0;
    while i < 7
      invariant 0 <= i <= 7 && |frames| == i
      invariant b.Valid() && b.size == DefaultSize
      invariant i <= 6 ==> b.bufferLast == [] && b.buffer == frames
      invariant i == 7 ==> b.bufferLast == frames[..6] && b.buffer == [frames[6]]
      invariant forall k :: 0 <= k < i ==> frames[k].ts == 0.0
    {
      var f := new Frame(0.0, Wrappers.None, Wrappers.None, Wrappers.None, Wrappers.None);
      b.Add(f);
      frames := frames + [f];
      i := i + 1;
    }
    archived, active := |b.bufferLast|, |b.buffer|;
    var all := b.bufferLast + b.buffer;
    assert DropLast(all) == frames[..6];
    AllRecent(frames[..6], 0.0);
    visible := |b.Get(0.0)|;
  }
}
