/**
 * Detection logs: the matched frames, cut into pages of at most twenty,
 * each page named after its first frame.
 */
module DetectionLogs {
  import opened Wrappers
  import opened Frames

  const MaxLogFrames: nat := 20

  /** One page of the detection log. */
  class DetectionLog {
    var frames: seq<Frame>

    constructor ()
      ensures frames == []
    {
      frames := [];
    }

    /** `add`: appends one frame. */
    method Add(frame: Frame)
      modifies this`frames
      ensures frames == old(frames) + [frame]
    {
      frames := frames + [frame];
    }

    /** `clear`: forgets every frame. */
    method Clear()
      modifies this`frames
      ensures frames == []
    {
      frames := [];
    }

    /** `id`: the id of the first frame, or nothing while the page is empty. */
    function Id(): (r: Option<FrameId>)
      reads this, frames`patterns
      ensures r.None? <==> frames == []
    {
      if frames == [] then None else Some(CreateId(frames[0]))
    }
  }

  /** The reference cut: consecutive pages of exactly twenty, the last one possibly shorter. */
  function Paginate(s: seq<Frame>): seq<seq<Frame>>
    decreases |s|
  {
    if s == [] then []
    else if |s| <= MaxLogFrames then [s]
    else [s[..MaxLogFrames]] + Paginate(s[MaxLogFrames..])
  }

  /** The frames of consecutive pages, joined. */
  function Flatten(pages: seq<seq<Frame>>): seq<Frame>
  {
    if pages == [] then [] else pages[0] + Flatten(pages[1..])
  }

  /** The shape of a detection log history: pages of one to twenty frames, all full but the last. */
  ghost predicate Paged(pages: seq<seq<Frame>>)
  {
    && (forall i :: 0 <= i < |pages| ==> 1 <= |pages[i]| <= MaxLogFrames)
    && (forall i :: 0 <= i < |pages| - 1 ==> |pages[i]| == MaxLogFrames)
  }

  lemma {:induction false} FlattenSnoc(pages: seq<seq<Frame>>, page: seq<Frame>)
    ensures Flatten(pages + [page]) == Flatten(pages) + page
    decreases |pages|
  {
    if pages == [] {
      assert Flatten([page]) == page + Flatten([]);
    } else {
      FlattenSnoc(pages[1..], page);
      assert (pages + [page])[1..] == pages[1..] + [page];
    }
  }

  /** Starting a new page with one frame, the way `add` does, keeps a history paged and appends the frame. */
  lemma OpenPageKeepsPaged(pages: seq<seq<Frame>>, x: Frame)
    requires Paged(pages) && (pages == [] || |pages[|pages| - 1]| >= MaxLogFrames)
    ensures Paged(pages + [[x]]) && Flatten(pages + [[x]]) == Flatten(pages) + [x]
  {
    FlattenSnoc(pages, [x]);
  }

  /** Lengthening a short last page by one frame keeps a history paged and appends the frame. */
  lemma ExtendPageKeepsPaged(pages: seq<seq<Frame>>, x: Frame)
    requires Paged(pages) && pages != [] && |pages[|pages| - 1]| < MaxLogFrames
    ensures var n := |pages|;
      Paged(pages[..n - 1] + [pages[n - 1] + [x]])
      && Flatten(pages[..n - 1] + [pages[n - 1] + [x]]) == Flatten(pages) + [x]
  {
    var n := |pages|;
    FlattenSnoc(pages[..n - 1], pages[n - 1] + [x]);
    FlattenSnoc(pages[..n - 1], pages[n - 1]);
    assert pages[..n - 1] + [pages[n - 1]] == pages;
  }

  /** A paged history is the cut of its own frames: the cut is the only paging there is. */
  lemma {:induction false} PagedIsPaginate(pages: seq<seq<Frame>>)
    requires Paged(pages)
    ensures Paginate(Flatten(pages)) == pages
    decreases |pages|
  {
    if pages == [] {
    } else if |pages| == 1 {
      assert pages[1..] == [];
      assert Flatten(pages) == pages[0] + Flatten([]) == pages[0];
      assert [pages[0]] == pages;
    } else {
      var s := Flatten(pages);
      PagedIsPaginate(pages[1..]);
      assert s == pages[0] + Flatten(pages[1..]);
      FlattenNonEmpty(pages[1..]);
      assert s[..MaxLogFrames] == pages[0];
      assert s[MaxLogFrames..] == Flatten(pages[1..]);
    }
  }

  lemma FlattenNonEmpty(pages: seq<seq<Frame>>)
    requires Paged(pages) && pages != []
    ensures |Flatten(pages)| >= |pages[0]| >= 1
  {
  }

  /** Every page of the cut holds between one and twenty frames, and only the last may be short. */
  lemma {:induction false} PaginateShape(s: seq<Frame>)
    ensures Flatten(Paginate(s)) == s
    ensures forall i :: 0 <= i < |Paginate(s)| ==> 1 <= |Paginate(s)[i]| <= MaxLogFrames
    ensures forall i :: 0 <= i < |Paginate(s)| - 1 ==> |Paginate(s)[i]| == MaxLogFrames
    ensures |Paginate(s)| == 0 <==> s == []
    decreases |s|
  {
    if s == [] || |s| <= MaxLogFrames {
    } else {
      var rest := s[MaxLogFrames..];
      PaginateShape(rest);
      assert s[..MaxLogFrames] + rest == s;
      assert Paginate(s)[1..] == Paginate(rest);
    }
  }

  /**
   * Appending a frame either opens a new page (nothing yet, or the last page
   * is full) or lengthens the last page; the earlier pages stay as they were.
   */
  lemma {:induction false} PaginateSnoc(s: seq<Frame>, x: Frame)
    ensures var p := Paginate(s);
      if p == [] || |p[|p| - 1]| >= MaxLogFrames then Paginate(s + [x]) == p + [[x]]
      else Paginate(s + [x]) == p[..|p| - 1] + [p[|p| - 1] + [x]]
    decreases |s|, 1
  {
    if s == [] {
      assert s + [x] == [x];
    } else if |s| < MaxLogFrames {
    } else if |s| == MaxLogFrames {
      assert (s + [x])[..MaxLogFrames] == s;
      assert (s + [x])[MaxLogFrames..] == [x];
    } else {
      PaginateSnocPastFirstPage(s, x);
    }
  }

  /** `PaginateSnoc` beyond the first page: the first page stays, and the rest is the same step one page on. */
  lemma {:induction false} PaginateSnocPastFirstPage(s: seq<Frame>, x: Frame)
    requires |s| > MaxLogFrames
    ensures var p := Paginate(s);
      if p == [] || |p[|p| - 1]| >= MaxLogFrames then Paginate(s + [x]) == p + [[x]]
      else Paginate(s + [x]) == p[..|p| - 1] + [p[|p| - 1] + [x]]
    decreases |s|, 0
  {
    var p := Paginate(s);
    var rest := s[MaxLogFrames..];
    assert (s + [x])[..MaxLogFrames] == s[..MaxLogFrames];
    assert (s + [x])[MaxLogFrames..] == rest + [x];
    assert Paginate(s + [x]) == [s[..MaxLogFrames]] + Paginate(rest + [x]);
    PaginateSnoc(rest, x);
    PaginateShape(rest);
    var q := Paginate(rest);
    assert p == [s[..MaxLogFrames]] + q && q != [];
    if |q[|q| - 1]| < MaxLogFrames {
      assert p[..|p| - 1] == [s[..MaxLogFrames]] + q[..|q| - 1];
    }
  }

  /** The frames of the given logs, log after log, in order. */
  function AllFrames(logs: seq<DetectionLog>): seq<Frame>
    reads logs
  {
    if logs == [] then [] else AllFrames(logs[..|logs| - 1]) + logs[|logs| - 1].frames
  }

  /** Every frame held by the given logs. */
  function FramesOf(logs: seq<DetectionLog>): (r: set<Frame>)
    reads logs
    ensures forall i, f :: 0 <= i < |logs| && f in logs[i].frames ==> f in r
  {
    set i, f | 0 <= i < |logs| && f in logs[i].frames :: f
  }

  /** The ids of the given logs, in order. */
  function IdsOf(logs: seq<DetectionLog>): (r: seq<Option<FrameId>>)
    reads logs, FramesOf(logs)`patterns
    ensures |r| == |logs|
    ensures forall i :: 0 <= i < |logs| ==> r[i] == logs[i].Id()
  {
    if logs == [] then [] else IdsOf(logs[..|logs| - 1]) + [logs[|logs| - 1].Id()]
  }

  ghost predicate DistinctLogs(s: seq<DetectionLog>)
  {
    forall i, j :: 0 <= i < j < |s| ==> s[i] != s[j]
  }

  class DetectionLogCollection {
    var collection: seq<DetectionLog>
    var current: DetectionLog?
    /** Every frame ever added since the last `clear`, in order. */
    ghost var added: seq<Frame>
    /** The frames of each log, in order. */
    ghost var pages: seq<seq<Frame>>

    ghost predicate Valid()
      reads this, collection
    {
      && (current == null <==> collection == [])
      && (current != null ==> collection[|collection| - 1] == current)
      && DistinctLogs(collection)
      && |pages| == |collection|
      && (forall i :: 0 <= i < |collection| ==> collection[i].frames == pages[i])
      && Paged(pages)
      && Flatten(pages) == added
    }

    constructor ()
      ensures Valid() && collection == [] && current == null && added == []
    {
      collection := [];
      current := null;
      added := [];
      pages := [];
    }

    /**
     * `add`: a new log is started when none is open or the open one is
     * full; the frame joins the open log and takes its id as `log_id`.
     */
    method Add(frame: Frame)
      requires Valid()
      modifies this, current, frame`logId
      ensures Valid()
      ensures added == old(added) + [frame]
      ensures old(current == null || |current.frames| >= MaxLogFrames) ==>
        && fresh(current) && collection == old(collection) + [current] && current.frames == [frame]
      ensures old(current != null && |current.frames| < MaxLogFrames) ==>
        && current == old(current) && collection == old(collection)
        && current.frames == old(current.frames) + [frame]
      ensures current != null && current.frames != [] && frame.logId == current.Id()
    {
      if current == null || |current.frames| >= MaxLogFrames {
        OpenLog(frame);
      } else {
        ExtendLog(frame);
      }
      frame.logId := current.Id();
    }

    /** The branch of `add` that starts a new log holding just `frame`. */
    method OpenLog(frame: Frame)
      requires Valid() && (current == null || |current.frames| >= MaxLogFrames)
      modifies this
      ensures Valid() && added == old(added) + [frame]
      ensures fresh(current) && collection == old(collection) + [current] && current.frames == [frame]
    {
      OpenPageKeepsPaged(pages, frame);
      var log := new DetectionLog();
      log.Add(frame);
      current := log;
      collection := collection + [log];
      pages := pages + [[frame]];
      added := added + [frame];
    }

    /** The branch of `add` that appends `frame` to the open log. */
    method ExtendLog(frame: Frame)
      requires Valid() && current != null && |current.frames| < MaxLogFrames
      modifies this`pages, this`added, current
      ensures Valid() && added == old(added) + [frame]
      ensures current == old(current) && collection == old(collection)
      ensures current.frames == old(current.frames) + [frame]
    {
      var n := |collection|;
      ExtendPageKeepsPaged(pages, frame);
      current.Add(frame);
      pages := pages[..n - 1] + [pages[n - 1] + [frame]];
      added := added + [frame];
    }

    /** `history`: the id of every log, oldest first. */
    function History(): (r: seq<Option<FrameId>>)
      reads this, collection, FramesOf(collection)`patterns
      ensures |r| == |collection|
      ensures forall i :: 0 <= i < |collection| ==> r[i] == collection[i].Id()
    {
      IdsOf(collection)
    }

    /** `current_log_frames`: the frames of the open log, or none. */
    function CurrentLogFrames(): seq<Frame>
      reads this, current
    {
      if current == null then [] else current.frames
    }

    /** `get_log_by_id`: the first log whose id matches, or null. */
    method GetLogById(logId: Option<FrameId>) returns (r: DetectionLog?)
      ensures r == null ==> forall i :: 0 <= i < |collection| ==> collection[i].Id() != logId
      ensures r != null ==> exists i :: (0 <= i < |collection| && collection[i] == r && r.Id() == logId
        && forall j :: 0 <= j < i ==> collection[j].Id() != logId)
    {
      var i := 0;
      while i < |collection|
        invariant 0 <= i <= |collection|
        invariant forall j :: 0 <= j < i ==> collection[j].Id() != logId
      {
        if collection[i].Id() == logId {
          return collection[i];
        }
        i := i + 1;
      }
      return null;
    }

    /** `clear`: forgets every log. */
    method Clear()
      modifies this
      ensures Valid() && collection == [] && current == null && added == []
    {
      collection := [];
      current := null;
      added := [];
      pages := [];
    }
  }

  /**
   * The logs are exactly the cut of every added frame into pages of twenty:
   * each log holds one to twenty frames and only the open one may be short.
   */
  lemma LogsArePagination(c: DetectionLogCollection)
    requires c.Valid()
    ensures |c.collection| == |Paginate(c.added)|
    ensures forall i :: 0 <= i < |c.collection| ==> c.collection[i].frames == Paginate(c.added)[i]
    ensures forall i :: 0 <= i < |c.collection| ==> 1 <= |c.collection[i].frames| <= MaxLogFrames
    ensures forall i :: 0 <= i < |c.collection| - 1 ==> |c.collection[i].frames| == MaxLogFrames
  {
    PagedIsPaginate(c.pages);
  }

  /** The open log holds the last page of the cut: the frames added since the last full page. */
  lemma CurrentLogIsLastPage(c: DetectionLogCollection)
    requires c.Valid()
    ensures c.added == [] ==> c.CurrentLogFrames() == []
    ensures c.added != [] ==>
      var p := Paginate(c.added);
      |p| > 0 && c.CurrentLogFrames() == p[|p| - 1]
  {
    LogsArePagination(c);
    PaginateShape(c.added);
  }

  /** Reading the logs in order, frame by frame, yields every added frame exactly once, in order. */
  lemma LogsHoldEveryFrame(c: DetectionLogCollection)
    requires c.Valid()
    ensures AllFrames(c.collection) == c.added
  {
    var n := |c.collection|;
    PrefixFlatten(c, n);
    assert c.collection[..n] == c.collection && c.pages[..n] == c.pages;
  }

  lemma {:induction false} PrefixFlatten(c: DetectionLogCollection, k: nat)
    requires c.Valid() && k <= |c.collection|
    ensures AllFrames(c.collection[..k]) == Flatten(c.pages[..k])
    decreases k
  {
    if k > 0 {
      PrefixFlatten(c, k - 1);
      assert c.collection[..k][..k - 1] == c.collection[..k - 1];
      assert c.pages[..k] == c.pages[..k - 1] + [c.pages[k - 1]];
      FlattenSnoc(c.pages[..k - 1], c.pages[k - 1]);
    }
  }
}
