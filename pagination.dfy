/**
 * The paginated loader of the gallery view. Its state is the component's
 * `photos`, `page`, `loading`, `hasMore` and `cols`, plus the page value the
 * fetch effect last ran for: the effect depends on `page` alone, so it runs
 * once on mount and once more each time `page` takes a new value.
 *
 * Each event is one atomic step: the fetch effect starting, a page
 * response arriving, a page request failing, the last rendered item
 * entering the viewport, and a window resize.
 */
module Pagination {
  import opened Photos
  import opened GalleryLayout

  /** Photos requested per page. */
  const PER_PAGE: nat := 30

  /** What the fetch effect requests from the photo list endpoint. */
  datatype PageRequest = PageRequest(page: nat, perPage: nat)

  datatype Event =
    | FetchStart
    | FetchSuccess(data: seq<Photo>)
    | FetchFailure
    | SentinelIntersects
    | Resize(width: int)

  /**
   * `effectPage` is the value of `page` the fetch effect last ran for,
   * 0 before it has run (pages start at 1).
   */
  datatype GalleryState = GalleryState(
    photos: seq<Photo>,
    page: nat,
    loading: bool,
    hasMore: bool,
    cols: nat,
    effectPage: nat
  )

  /** The state when the gallery mounts, before its effects run. */
  function Initial(): (s: GalleryState)
    ensures !ObserverArmed(s) && Enabled(s, FetchStart)
    ensures Inv(s)
  {
    GalleryState([], 1, false, true, 3, 0)
  }

  /**
   * An intersection observer is watching the last item: the ref callback
   * installs one only when no page is loading, and the item exists only
   * when the window is not empty.
   */
  predicate ObserverArmed(s: GalleryState)
  {
    !s.loading && |s.photos| > 0
  }

  /** Which events can occur in a state. */
  predicate Enabled(s: GalleryState, e: Event)
  {
    match e
    case FetchStart => s.effectPage != s.page
    case FetchSuccess(_) => s.loading
    case FetchFailure => s.loading
    case SentinelIntersects => true
    case Resize(_) => true
  }

  /** One event. */
  function Step(s: GalleryState, e: Event): (r: GalleryState)
    ensures r.page == s.page || (e == SentinelIntersects && r.page == s.page + 1)
    ensures r.photos != s.photos ==> e.FetchSuccess?
    ensures r.hasMore != s.hasMore ==> e.FetchSuccess?
    ensures r.loading != s.loading ==> !e.SentinelIntersects? && !e.Resize?
    ensures r.effectPage != s.effectPage ==> e == FetchStart && r.effectPage == s.page
  {
    match e
    case FetchStart => s.(loading := true, effectPage := s.page)
    case FetchSuccess(data) => s.(photos := Window(s.photos, data), hasMore := |data| > 0, loading := false)
    case FetchFailure => s.(loading := false)
    case SentinelIntersects => if ObserverArmed(s) && s.hasMore then s.(page := s.page + 1) else s
    case Resize(width) => s.(cols := ColumnsForWidth(width))
  }

  /** The state after a sequence of events. */
  function Run(s: GalleryState, events: seq<Event>): GalleryState
    decreases |events|
  {
    if events == [] then s else Run(Step(s, events[0]), events[1..])
  }

  /** Every event of the sequence is enabled in the state it occurs in. */
  predicate EnabledRun(s: GalleryState, events: seq<Event>)
    decreases |events|
  {
    events == [] || (Enabled(s, events[0]) && EnabledRun(Step(s, events[0]), events[1..]))
  }

  /**
   * What holds in every reachable state: the window is bounded, the column
   * count is one of the breakpoint values, a page in flight is the current
   * page, and an exhausted gallery is idle with its effect already run.
   */
  ghost predicate Inv(s: GalleryState)
  {
    && |s.photos| <= PHOTOS_LIMIT
    && 1 <= s.cols <= 4
    && 1 <= s.page
    && s.effectPage <= s.page
    && (s.loading ==> s.effectPage == s.page)
    && (!s.hasMore ==> !s.loading && s.effectPage == s.page)
  }

  lemma InitialInv()
    ensures Inv(Initial())
  {
  }

  lemma StepInv(s: GalleryState, e: Event)
    requires Inv(s) && Enabled(s, e)
    ensures Inv(Step(s, e))
  {
  }

  /** Every state reached by enabled events from a valid state is valid. */
  lemma {:induction false} RunInv(s: GalleryState, events: seq<Event>)
    requires Inv(s) && EnabledRun(s, events)
    ensures Inv(Run(s, events))
    decreases |events|
  {
    if events != [] {
      StepInv(s, events[0]);
      RunInv(Step(s, events[0]), events[1..]);
    }
  }

  /** From mount on, the window never holds more than `PHOTOS_LIMIT` photos. */
  lemma WindowAlwaysBounded(events: seq<Event>)
    requires EnabledRun(Initial(), events)
    ensures |Run(Initial(), events).photos| <= PHOTOS_LIMIT
  {
    RunInv(Initial(), events);
  }

  /** At most one page fetch is in flight: the effect can start only when none is loading. */
  lemma SingleFetchInFlight(s: GalleryState)
    requires Inv(s) && Enabled(s, FetchStart)
    ensures !s.loading
    ensures Step(s, FetchStart).loading
  {
  }

  /** Pages are requested in strictly increasing order. */
  lemma RequestsIncrease(s: GalleryState)
    requires Inv(s) && Enabled(s, FetchStart)
    ensures Step(s, FetchStart).effectPage > s.effectPage
  {
  }

  /**
   * The page changes only on a sentinel intersection while the observer is
   * armed and more photos are expected, and then by exactly one.
   */
  lemma PageAdvancesOnlyWhenIdle(s: GalleryState, e: Event)
    ensures Step(s, e).page != s.page <==>
      e == SentinelIntersects && !s.loading && |s.photos| > 0 && s.hasMore
    ensures Step(s, e).page == s.page || Step(s, e).page == s.page + 1
  {
  }

  /** The page never goes back. */
  lemma {:induction false} PageMonotone(s: GalleryState, events: seq<Event>)
    ensures Run(s, events).page >= s.page
    decreases |events|
  {
    if events != [] {
      PageMonotone(Step(s, events[0]), events[1..]);
    }
  }

  /**
   * Once an empty page has been returned, nothing that can still happen
   * changes the page or the window, `hasMore` stays false, and no further
   * fetch is started.
   */
  lemma {:induction false} ExhaustionIsFinal(s: GalleryState, events: seq<Event>)
    requires Inv(s) && !s.hasMore && EnabledRun(s, events)
    ensures FetchStart !in events
    ensures Run(s, events).page == s.page
    ensures Run(s, events).photos == s.photos
    ensures !Run(s, events).hasMore
    decreases |events|
  {
    if events != [] {
      var e := events[0];
      assert e != FetchStart;
      assert !e.FetchSuccess?;
      StepInv(s, e);
      ExhaustionIsFinal(Step(s, e), events[1..]);
      assert events == [e] + events[1..];
    }
  }

  /** An empty page from the mount fetch exhausts the gallery for good. */
  lemma EmptyFirstPageExhausts(events: seq<Event>)
    requires EnabledRun(Step(Step(Initial(), FetchStart), FetchSuccess([])), events)
    ensures FetchStart !in events
    ensures Run(Step(Step(Initial(), FetchStart), FetchSuccess([])), events).page == 1
  {
    WindowEmptyPage<Photo>([]);
    ExhaustionIsFinal(Step(Step(Initial(), FetchStart), FetchSuccess([])), events);
  }

  /** The gallery component, its state held in fields that the event handlers update. */
  class PhotoGallery {
    var photos: seq<Photo>
    var page: nat
    var loading: bool
    var hasMore: bool
    var cols: nat
    var effectPage: nat

    function State(): GalleryState
      reads this
    {
      GalleryState(photos, page, loading, hasMore, cols, effectPage)
    }

    ghost predicate Valid()
      reads this
    {
      Inv(State())
    }

    constructor ()
      ensures State() == Initial() && Valid()
    {
      photos, page, loading, hasMore, cols, effectPage := [], 1, false, true, 3, 0;
    }

    /** The fetch effect starts: `loading` is set and the current page is requested. */
    method BeginFetch() returns (request: PageRequest)
      requires Valid() && effectPage != page
      modifies this
      ensures Valid() && State() == Step(old(State()), FetchStart)
      ensures request == PageRequest(page, PER_PAGE)
      ensures loading && !old(loading)
      ensures photos == old(photos) && page == old(page) && hasMore == old(hasMore)
    {
      loading := true;
      effectPage := page;
      request := PageRequest(page, PER_PAGE);
    }

    /** A page arrives: it is appended to the bounded window, and an empty page ends the paging. */
    method FetchSucceeded(data: seq<Photo>)
      requires Valid() && loading
      modifies this
      ensures Valid() && State() == Step(old(State()), FetchSuccess(data))
      ensures photos == Window(old(photos), data)
      ensures hasMore == (|data| > 0)
      ensures !loading && page == old(page)
    {
      photos := Window(photos, data);
      hasMore := |data| > 0;
      loading := false;
    }

    /** The request fails: only `loading` is reset; nothing is retried. */
    method FetchFailed()
      requires Valid() && loading
      modifies this
      ensures Valid() && State() == Step(old(State()), FetchFailure)
      ensures !loading
      ensures photos == old(photos) && page == old(page) && hasMore == old(hasMore)
    {
      loading := false;
    }

    /** The last item enters the viewport: the page advances if the observer is armed and more photos are expected. */
    method SentinelIntersected() returns (advanced: bool)
      requires Valid()
      modifies this
      ensures Valid() && State() == Step(old(State()), SentinelIntersects)
      ensures advanced <==> !old(loading) && |old(photos)| > 0 && old(hasMore)
      ensures page == old(page) + (if advanced then 1 else 0)
      ensures photos == old(photos) && loading == old(loading) && hasMore == old(hasMore)
    {
      advanced := !loading && |photos| > 0 && hasMore;
      if advanced {
        page := page + 1;
      }
    }

    /** The window is resized: the column count follows the breakpoints. */
    method HandleResize(width: int)
      requires Valid()
      modifies this
      ensures Valid() && State() == Step(old(State()), Resize(width))
      ensures cols == ColumnsForWidth(width)
      ensures photos == old(photos) && page == old(page) && loading == old(loading) && hasMore == old(hasMore)
    {
      cols := ColumnsForWidth(width);
    }

    /** The column index lists rendered for the current window. */
    function Columns(): (columns: seq<seq<nat>>)
      reads this
      requires Valid()
      ensures |columns| == cols
      ensures forall col, k :: 0 <= col < cols && 0 <= k < |columns[col]| ==> columns[col][k] < |photos|
    {
      ColumnsPartition(|photos|, cols);
      ColumnIndices(|photos|, cols)
    }
  }
}
