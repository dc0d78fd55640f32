/**
 * The slideshow loop of `main.py`: scan, reconcile the play list, load through the cache, fade
 * in, draw the caption, hold while handling events, advance.
 *
 * Pictures are named by file name: every path is the image folder joined with a name, so
 * sorting paths, comparing path sets and keying the cache by path agree with doing so by name,
 * and `os.path.basename(path)` is the name. What the outside world supplies in one round is a
 * parameter: the scanned names, the order `random.shuffle` produced, the caption table read
 * from disk, what decoding the chosen file yields, and the event batches that
 * `pygame.event.get()` returned during the hold.
 */
module Playback {
  import opened Wrappers
  import opened Text
  import opened ImageLoad
  import opened Fade
  import opened Caption
  import opened LoadCache

  // ---------------------------------------------------------------------------------------
  // Events during the hold

  /** `pygame.K_ESCAPE` */
  const EscapeKey: int := 27

  datatype Event = Quit | KeyDown(key: int) | VideoResize(width: nat, height: nat) | OtherEvent

  /** A window close, or the Escape key. */
  predicate StopsShow(e: Event) {
    e.Quit? || (e.KeyDown? && e.key == EscapeKey)
  }

  /** What the hold changes: the `running` flag and the remembered screen size. */
  datatype HoldState = HoldState(running: bool, width: nat, height: nat)

  predicate NoStop(batch: seq<Event>) {
    forall i :: 0 <= i < |batch| ==> !StopsShow(batch[i])
  }

  /**
   * The `for event in pygame.event.get()` loop over one batch: resizes take effect in order
   * until the first stop event, which clears `running` and leaves the rest of the batch unread.
   */
  function HandleBatch(s: HoldState, batch: seq<Event>): (r: HoldState)
    ensures r.running <==> s.running && NoStop(batch)
    decreases |batch|
  {
    if batch == [] then s
    else if StopsShow(batch[0]) then s.(running := false)
    else
      var next := if batch[0].VideoResize? then s.(width := batch[0].width, height := batch[0].height) else s;
      HandleBatch(next, batch[1..])
  }

  /**
   * The `while time.time() - start_time < DISPLAY_TIME` loop, one batch per poll. A stop event
   * does not end the hold: the `break` only leaves the `for` loop.
   */
  function HandleHold(s: HoldState, polls: seq<seq<Event>>): (r: HoldState)
    ensures r.running <==> s.running && forall p :: 0 <= p < |polls| ==> NoStop(polls[p])
    decreases |polls|
  {
    if polls == [] then s else HandleHold(HandleBatch(s, polls[0]), polls[1..])
  }

  /** Events after a stop event in the same batch are discarded unread. */
  lemma {:induction false} EventsAfterStopIgnored(s: HoldState, before: seq<Event>, stop: Event, after: seq<Event>)
    requires StopsShow(stop)
    ensures HandleBatch(s, before + [stop] + after) == HandleBatch(s, before + [stop])
    decreases |before|
  {
    if before == [] {
      assert ([] + [stop] + after)[0] == stop && ([] + [stop])[0] == stop;
    } else {
      var b := before + [stop] + after;
      var c := before + [stop];
      assert b[0] == before[0] && c[0] == before[0];
      assert b[1..] == before[1..] + [stop] + after;
      assert c[1..] == before[1..] + [stop];
      if !StopsShow(before[0]) {
        var next := if before[0].VideoResize? then s.(width := before[0].width, height := before[0].height) else s;
        EventsAfterStopIgnored(next, before[1..], stop, after);
      }
    }
  }

  /** The screen size after a batch is that of its last resize before any stop event. */
  lemma {:induction false} LastResizeWins(s: HoldState, before: seq<Event>, w: nat, h: nat, after: seq<Event>)
    requires NoStop(before)
    requires forall i :: 0 <= i < |after| ==> !after[i].VideoResize?
    ensures var r := HandleBatch(s, before + [VideoResize(w, h)] + after);
            r.width == w && r.height == h
    decreases |before|
  {
    var b := before + [VideoResize(w, h)] + after;
    if before == [] {
      assert b[0] == VideoResize(w, h) && b[1..] == after;
      NoResizeKeepsSize(s.(width := w, height := h), after);
    } else {
      assert b[0] == before[0] && b[1..] == before[1..] + [VideoResize(w, h)] + after;
      var next := if before[0].VideoResize? then s.(width := before[0].width, height := before[0].height) else s;
      assert !StopsShow(before[0]);
      LastResizeWins(next, before[1..], w, h, after);
    }
  }

  /** A batch without resize events leaves the screen size alone. */
  lemma {:induction false} NoResizeKeepsSize(s: HoldState, batch: seq<Event>)
    requires forall i :: 0 <= i < |batch| ==> !batch[i].VideoResize?
    ensures HandleBatch(s, batch).width == s.width && HandleBatch(s, batch).height == s.height
    decreases |batch|
  {
    if batch != [] && !StopsShow(batch[0]) {
      NoResizeKeepsSize(s, batch[1..]);
    }
  }

  // ---------------------------------------------------------------------------------------
  // The play list

  /** What `random.shuffle` can return for a list of the names in `scan`. */
  predicate Arrangement(order: seq<string>, scan: set<string>) {
    Distinct(order) && Elements(order) == scan
  }

  lemma StrictlySortedDistinct(s: seq<string>)
    requires StrictlySorted(s)
    ensures Distinct(s)
  {
    forall i, j | 0 <= i < j < |s|
      ensures s[i] != s[j]
    {
      LexLessIrreflexive(s[i]);
    }
  }

  /** A list without duplicates is as long as its set of names. */
  lemma {:induction false} DistinctCard(a: seq<string>)
    requires Distinct(a)
    ensures |Elements(a)| == |a|
    decreases |a|
  {
    if a != [] {
      var init := a[..|a| - 1];
      assert Distinct(init);
      DistinctCard(init);
      assert Elements(a) == Elements(init) + {a[|a| - 1]};
      assert a[|a| - 1] !in Elements(init);
    }
  }

  /** The next picture: `(idx + 1) % len(image_files)`. */
  function Advance(i: int, n: int): (j: int)
    requires n > 0
    ensures 0 <= j < n
    ensures 0 <= i < n - 1 ==> j == i + 1
    ensures i == n - 1 ==> j == 0
  {
    (i + 1) % n
  }

  /** The index after `k` advances. */
  function AdvanceTimes(i: int, n: int, k: nat): int
    requires n > 0
    decreases k
  {
    if k == 0 then i else Advance(AdvanceTimes(i, n, k - 1), n)
  }

  /** From any position, `k` advances land on `(i + k) % n`. */
  lemma {:induction false} AdvanceTimesIs(i: int, n: int, k: nat)
    requires n > 0 && 0 <= i < n
    ensures AdvanceTimes(i, n, k) == (i + k) % n
    decreases k
  {
    if k == 0 {
      Arith.DivUnique(i, n, 0, i);
    } else {
      AdvanceTimesIs(i, n, k - 1);
      Arith.ModSucc(i + k - 1, n);
    }
  }

  /** After as many advances as there are pictures, the show is back where it started. */
  lemma FullRound(i: int, n: int)
    requires n > 0 && 0 <= i < n
    ensures AdvanceTimes(i, n, n) == i
  {
    AdvanceTimesIs(i, n, n);
    Arith.DivUnique(i + n, n, 1, i);
  }

  /** Every picture comes round within fewer advances than there are pictures. */
  lemma EveryPictureComesRound(i: int, n: int, j: int)
    requires n > 0 && 0 <= i < n && 0 <= j < n
    ensures 0 <= (j - i) % n < n && AdvanceTimes(i, n, (j - i) % n) == j
  {
    var k := (j - i) % n;
    AdvanceTimesIs(i, n, k);
    if j >= i {
      Arith.DivUnique(j - i, n, 0, j - i);
      Arith.DivUnique(j, n, 0, j);
    } else {
      Arith.DivUnique(j - i, n, -1, j - i + n);
      Arith.DivUnique(j + n, n, 1, j);
    }
  }

  // ---------------------------------------------------------------------------------------
  // One round of the loop

  /**
   * What one round did. `Idle`: the folder was empty. `Skipped`: the chosen picture did not
   * load. `Shown`: it faded in through `alphas`, with `caption` drawn as `blits`. `Aborted`:
   * the fade step was zero (or its divisor was), `range` or the division raised, and the
   * program ends.
   */
  datatype Cycle =
    | Idle
    | Skipped(name: string)
    | Shown(name: string, alphas: seq<int>, caption: string, blits: seq<LineBlit>)
    | Aborted(name: string)

  /** The picked position: kept if still in range, else the first picture. */
  function Picked(idx: int, n: int): (p: int)
    requires n > 0 && idx >= 0
    ensures 0 <= p < n
    ensures idx < n ==> p == idx
  {
    if idx >= n then 0 else idx
  }

  /**
   * The play list after reconciling `previous` with a non-empty scan: unchanged when the names are
   * the same, otherwise exactly the scanned names, sorted, or in the shuffled order.
   */
  predicate Reconciled(shuffle: bool, scan: set<string>, order: seq<string>, previous: seq<string>, files: seq<string>) {
    && Distinct(files)
    && Elements(files) == scan
    && (scan == Elements(previous) ==> files == previous)
    && (scan != Elements(previous) ==> if shuffle then files == order else StrictlySorted(files))
  }

  /** Without shuffling, the reconciled play list is determined by the scan alone. */
  lemma ReconciledUnique(scan: set<string>, old1: seq<string>, old2: seq<string>, f1: seq<string>, f2: seq<string>)
    requires Reconciled(false, scan, [], old1, f1) && Reconciled(false, scan, [], old2, f2)
    requires StrictlySorted(old1) && StrictlySorted(old2)
    ensures f1 == f2
  {
    StrictlySortedUnique(f1, f2);
  }

  /** The reconciled play list holds each scanned name exactly once. */
  lemma ReconciledLength(shuffle: bool, scan: set<string>, order: seq<string>, previous: seq<string>, files: seq<string>)
    requires Reconciled(shuffle, scan, order, previous, files)
    ensures |files| == |scan|
    ensures forall x :: x in scan ==> exists i :: 0 <= i < |files| && files[i] == x
  {
    DistinctCard(files);
  }

  /**
   * What the outside world supplies to one round. `window` is what `screen.get_size()` reports
   * when the picture is loaded: the resizable window can change size without the loop having
   * read the VIDEORESIZE event that updates `screen_width` and `screen_height`.
   */
  datatype Round = Round(scan: set<string>, order: seq<string>, descrFile: map<string, string>,
                         decoded: Option<Decoded>, window: Size, polls: seq<seq<Event>>)

  class Player {
    /** `SHUFFLE` */
    const shuffle: bool
    /** `int(255 / (FADE_DURATION * 30))`, `None` when the divisor is zero. */
    const fadeStep: Option<int>
    const font: Font
    const cache: Cache
    var imageFiles: seq<string>
    var idx: int
    var running: bool
    var screenW: nat
    var screenH: nat
    /** `IMG_DESCR` as last read from disk. */
    var descr: map<string, string>

    /** The index always points into the play list, which never holds a name twice. */
    predicate Valid()
      reads this, cache
    {
      && Distinct(imageFiles)
      && (imageFiles == [] ==> idx == 0)
      && (imageFiles != [] ==> 0 <= idx < |imageFiles|)
      && cache.Valid()
    }

    /**
     * Start-up: the first scan, sorted and then shuffled when `SHUFFLE` is set, the caption
     * table, the window size, an empty cache, and `idx = 0`.
     */
    constructor (shuffle: bool, fadeDuration: real, font: Font, scan: set<string>, order: seq<string>,
                 descrFile: map<string, string>, width: nat, height: nat)
      requires shuffle ==> Arrangement(order, scan)
      ensures Valid() && fresh(cache) && cache.entries == []
      ensures this.shuffle == shuffle && this.font == font
      ensures fadeStep == FadeStep(fadeDuration, FramesPerSecond)
      ensures Elements(imageFiles) == scan && (if shuffle then imageFiles == order else StrictlySorted(imageFiles))
      ensures idx == 0 && running && screenW == width && screenH == height && descr == descrFile
    {
      this.shuffle := shuffle;
      this.fadeStep := FadeStep(fadeDuration, FramesPerSecond);
      this.font := font;
      var c := new Cache();
      this.cache := c;
      var files: seq<string>;
      if shuffle {
        files := order;
      } else {
        files := SortNames(scan);
        StrictlySortedDistinct(files);
      }
      imageFiles := files;
      idx := 0;
      running := true;
      screenW := width;
      screenH := height;
      descr := descrFile;
    }

    /** The hold: every poll's batch handled in turn until the display time is over. */
    method Hold(polls: seq<seq<Event>>)
      modifies this
      ensures HoldState(running, screenW, screenH) == HandleHold(old(HoldState(running, screenW, screenH)), polls)
      ensures imageFiles == old(imageFiles) && idx == old(idx) && descr == old(descr)
    {
      var p := 0;
      while p < |polls|
        invariant 0 <= p <= |polls|
        invariant HandleHold(HoldState(running, screenW, screenH), polls[p..])
                  == HandleHold(old(HoldState(running, screenW, screenH)), polls)
        invariant imageFiles == old(imageFiles) && idx == old(idx) && descr == old(descr)
      {
        ghost var start := HoldState(running, screenW, screenH);
        var batch := polls[p];
        var j := 0;
        while j < |batch|
          invariant 0 <= j <= |batch|
          invariant HandleBatch(HoldState(running, screenW, screenH), batch[j..]) == HandleBatch(start, batch)
          invariant imageFiles == old(imageFiles) && idx == old(idx) && descr == old(descr)
        {
          var event := batch[j];
          if StopsShow(event) {
            running := false;
            break;
          } else if event.VideoResize? {
            screenW, screenH := event.width, event.height;
          }
          j := j + 1;
        }
        assert polls[p..][1..] == polls[p + 1..];
        p := p + 1;
      }
    }

    /**
     * The play-list refresh of the main loop: reread the caption table and, when the set of names changed, replace the
     * play list and send an index past its end back to 0.
     */
    method Reconcile(scan: set<string>, order: seq<string>, descrFile: map<string, string>)
      requires Valid() && scan != {}
      requires shuffle && scan != Elements(imageFiles) ==> Arrangement(order, scan)
      modifies this
      ensures Valid()
      ensures Reconciled(shuffle, scan, order, old(imageFiles), imageFiles)
      ensures |imageFiles| > 0 && idx == Picked(old(idx), |imageFiles|)
      ensures descr == descrFile
      ensures running == old(running) && screenW == old(screenW) && screenH == old(screenH)
    {
      descr := descrFile;
      if scan != Elements(imageFiles) {
        if shuffle {
          imageFiles := order;
        } else {
          imageFiles := SortNames(scan);
          StrictlySortedDistinct(imageFiles);
        }
        if idx >= |imageFiles| {
          idx := 0;
        }
      }
    }

    /**
     * The main loop for a picture that loaded: fade it in, draw its caption, hold, and move on.
     * A zero step, or a zero divisor in computing it, raises: the round is aborted and the
     * loop ends.
     */
    method Present(img: Surface, name: string, polls: seq<seq<Event>>) returns (cycle: Cycle)
      requires Valid() && imageFiles != []
      modifies this, img
      ensures Valid()
      ensures imageFiles == old(imageFiles) && descr == old(descr)
      ensures (cycle.Shown? || cycle.Aborted?) && cycle.name == name
      ensures cycle.Aborted? <==> fadeStep.None? || fadeStep.value == 0
      ensures cycle.Aborted? ==>
                && idx == old(idx) && !running && screenW == old(screenW) && screenH == old(screenH)
                && img.alpha == old(img.alpha)
      ensures cycle.Shown? ==>
                && fadeStep.Some? && fadeStep.value != 0
                && cycle.alphas == AlphaSchedule(fadeStep.value).value
                && img.alpha == None
                && cycle.caption == CaptionFor(descr, name)
                && CaptionDrawn(cycle.caption, font, old(screenW), old(screenH), cycle.blits)
                && HoldState(running, screenW, screenH)
                   == HandleHold(HoldState(old(running), old(screenW), old(screenH)), polls)
                && idx == Advance(old(idx), |imageFiles|)
    {
      if fadeStep.None? {
        running := false;
        return Aborted(name);
      }
      var frames := FadeIn(img, fadeStep.value);
      if frames.None? {
        running := false;
        return Aborted(name);
      }
      var caption := CaptionFor(descr, name);
      var blits := DrawCaption(caption, font, screenW, screenH);
      Hold(polls);
      idx := Advance(idx, |imageFiles|);
      cycle := Shown(name, frames.value, caption, blits);
    }

    /**
     * The body of one pass once the play list is not empty: `img = load_image(path)` for the
     * picture at `idx`, through the cache, then skip it (`None`) or present it. Cached surfaces
     * other than the one returned keep their state; the returned one keeps its alpha or has it
     * cleared.
     */
    method ShowCurrent(r: Round) returns (cycle: Cycle, loaded: Option<Surface>)
      requires Valid() && imageFiles != []
      modifies this, cache, cache.Surfaces()
      ensures Valid()
      ensures imageFiles == old(imageFiles) && descr == old(descr)
      ensures cache.Surfaces() <= old(cache.Surfaces()) + (if loaded.Some? then {loaded.value} else {})
      ensures loaded.Some? ==> loaded.value in old(cache.Surfaces()) || fresh(loaded.value)
      ensures unchanged(old(cache.Surfaces()) - (if loaded.Some? then {loaded.value} else {}))
      ensures loaded.Some? && loaded.value in old(cache.Surfaces()) ==>
                loaded.value.alpha == None || loaded.value.alpha == old(loaded.value.alpha)
      ensures !cycle.Idle? && cycle.name == old(imageFiles[idx])
      ensures (cache.entries, loaded) == Access(old(cache.entries), cycle.name, loaded)
      ensures cycle.Skipped? <==> loaded.None?
      ensures cycle.Shown? ==> loaded.Some? && loaded.value.alpha == None
      ensures !Cached(old(cache.entries), cycle.name) ==>
                && (loaded.Some? <==> LoadImage(r.decoded, r.window).Some?)
                && (loaded.Some? ==> loaded.value.size == LoadImage(r.decoded, r.window).value)
      ensures cycle.Skipped? ==>
                && idx == Advance(old(idx), |imageFiles|) && running == old(running)
                && screenW == old(screenW) && screenH == old(screenH)
      ensures cycle.Aborted? ==>
                && idx == old(idx) && !running && screenW == old(screenW) && screenH == old(screenH)
      ensures cycle.Shown? ==>
                && fadeStep.Some? && fadeStep.value != 0
                && cycle.caption == CaptionFor(descr, cycle.name)
                && CaptionDrawn(cycle.caption, font, old(screenW), old(screenH), cycle.blits)
                && cycle.alphas == AlphaSchedule(fadeStep.value).value
                && HoldState(running, screenW, screenH)
                   == HandleHold(HoldState(old(running), old(screenW), old(screenH)), r.polls)
                && idx == Advance(old(idx), |imageFiles|)
    {
      var name := imageFiles[idx];
      loaded := cache.Get(name, r.decoded, r.window);
      ghost var after := cache.Surfaces();
      if loaded.None? {
        idx := Advance(idx, |imageFiles|);
        return Skipped(name), loaded;
      }
      cycle := Present(loaded.value, name, r.polls);
      assert cache.Surfaces() == after;
    }

    /**
     * One pass of `while running:`. An empty folder changes nothing; the events polled
     * meanwhile are dropped. Otherwise the play list is reconciled and the picture at the
     * (possibly reset) index is shown or skipped.
     */
    method Step(r: Round) returns (cycle: Cycle, loaded: Option<Surface>)
      requires Valid()
      requires shuffle && r.scan != {} && r.scan != Elements(imageFiles) ==> Arrangement(r.order, r.scan)
      modifies this, cache, cache.Surfaces()
      ensures Valid()
      ensures cache.Surfaces() <= old(cache.Surfaces()) + (if loaded.Some? then {loaded.value} else {})
      ensures loaded.Some? ==> loaded.value in old(cache.Surfaces()) || fresh(loaded.value)
      ensures unchanged(old(cache.Surfaces()) - (if loaded.Some? then {loaded.value} else {}))
      ensures loaded.Some? && loaded.value in old(cache.Surfaces()) ==>
                loaded.value.alpha == None || loaded.value.alpha == old(loaded.value.alpha)
      ensures r.scan == {} ==>
                && cycle == Idle && loaded == None
                && imageFiles == old(imageFiles) && idx == old(idx) && running == old(running)
                && screenW == old(screenW) && screenH == old(screenH) && descr == old(descr)
                && cache.entries == old(cache.entries)
      ensures r.scan != {} ==>
                && descr == r.descrFile
                && Reconciled(shuffle, r.scan, r.order, old(imageFiles), imageFiles)
                && !cycle.Idle?
                && cycle.name == imageFiles[Picked(old(idx), |imageFiles|)]
      ensures r.scan != {} ==>
                && (cache.entries, loaded) == Access(old(cache.entries), cycle.name, loaded)
                && (cycle.Skipped? <==> loaded.None?)
                && (cycle.Shown? ==> loaded.Some? && loaded.value.alpha == None)
      ensures r.scan != {} && !Cached(old(cache.entries), cycle.name) ==>
                && (loaded.Some? <==> LoadImage(r.decoded, r.window).Some?)
                && (loaded.Some? ==> loaded.value.size == LoadImage(r.decoded, r.window).value)
      ensures r.scan != {} && cycle.Skipped? ==>
                && idx == Advance(Picked(old(idx), |imageFiles|), |imageFiles|) && running == old(running)
                && screenW == old(screenW) && screenH == old(screenH)
      ensures r.scan != {} && cycle.Aborted? ==>
                && idx == Picked(old(idx), |imageFiles|) && !running
                && screenW == old(screenW) && screenH == old(screenH)
      ensures r.scan != {} && cycle.Shown? ==>
                && fadeStep.Some? && fadeStep.value != 0
                && cycle.caption == CaptionFor(r.descrFile, cycle.name)
                && CaptionDrawn(cycle.caption, font, old(screenW), old(screenH), cycle.blits)
                && cycle.alphas == AlphaSchedule(fadeStep.value).value
                && HoldState(running, screenW, screenH)
                   == HandleHold(HoldState(old(running), old(screenW), old(screenH)), r.polls)
                && idx == Advance(Picked(old(idx), |imageFiles|), |imageFiles|)
    {
      if r.scan == {} {
        return Idle, None;
      }
      Reconcile(r.scan, r.order, r.descrFile);
      cycle, loaded := ShowCurrent(r);
    }

    /**
     * `while running:` over the rounds the world supplies. `flags[k]` is `running` after round
     * `k`: no round is taken when `running` starts cleared, every round but the last leaves it
     * set, and the rounds run out only when it was cleared or the supply ended.
     */
    method Run(rounds: seq<Round>) returns (cycles: seq<Cycle>, ghost flags: seq<bool>)
      requires Valid()
      requires shuffle ==> forall k :: 0 <= k < |rounds| ==> Arrangement(rounds[k].order, rounds[k].scan)
      modifies this, cache, cache.Surfaces()
      ensures Valid()
      ensures |cycles| <= |rounds| && |flags| == |cycles|
      ensures !old(running) ==> cycles == []
      ensures forall k :: 0 <= k < |cycles| - 1 ==> flags[k]
      ensures cycles != [] ==> running == flags[|cycles| - 1]
      ensures |cycles| < |rounds| ==> !running
      ensures old(running) ==> forall k :: 0 <= k < |cycles| - 1 ==> !cycles[k].Aborted?
      ensures forall s :: s in old(cache.Surfaces()) ==> s.alpha == old(s.alpha) || s.alpha == None
    {
      cycles := [];
      flags := [];
      var k := 0;
      while running && k < |rounds|
        invariant 0 <= k <= |rounds| && |cycles| == k && |flags| == k
        invariant Valid()
        invariant forall s :: s in cache.Surfaces() ==> s in old(cache.Surfaces()) || fresh(s)
        invariant k > 0 ==> old(running)
        invariant k == 0 ==> running == old(running)
        invariant forall i :: 0 <= i < k - 1 ==> flags[i]
        invariant k > 0 ==> running == flags[k - 1]
        invariant forall i :: 0 <= i < k - 1 ==> !cycles[i].Aborted?
        invariant k > 0 && cycles[k - 1].Aborted? ==> !running
        invariant forall s :: s in old(cache.Surfaces()) ==> s.alpha == old(s.alpha) || s.alpha == None
      {
        var c, _ := Step(rounds[k]);
        cycles := cycles + [c];
        flags := flags + [running];
        k := k + 1;
      }
    }
  }
}
