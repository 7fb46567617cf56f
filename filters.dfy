/**
 * The `series_index` Liquid filter: the previous and next entries around a post's key in
 * a named, ascending series of keys.
 */
module Filters {
  import opened Wrappers

  /** One series of the site's `post_series` data: its `entries` key, when present. */
  datatype Series = Series(entries: Option<seq<int>>)

  /** The site's `post_series` data, passed in instead of read from the render context. */
  type Registry = map<string, Series>

  /** What `series_index` produces. */
  datatype SeriesIndexResult =
    | NoSeries                                          // `nil`: unknown series or no `entries`
    | Neighbours(prev: Option<int>, next: Option<int>)  // the `{'prev', 'next'}` hash
    | NilIndex                                          // `bsearch_index` gave `nil`, so `idx.zero?` raises

  /** Every entry is at least as large as the ones before it. */
  predicate Ascending(e: seq<int>) {
    forall i, j | 0 <= i < j < |e| :: e[i] <= e[j]
  }

  /** Every entry is larger than the ones before it. */
  predicate StrictlyAscending(e: seq<int>) {
    forall i, j | 0 <= i < j < |e| :: e[i] < e[j]
  }

  /** The first index whose entry is `>= x`, or `None` when every entry is `< x`. */
  function LowerBound(e: seq<int>, x: int): (r: Option<nat>)
    ensures r.Some? ==> r.value < |e| && x <= e[r.value]
    ensures r.Some? ==> forall i | 0 <= i < r.value :: e[i] < x
    ensures r.None? ==> forall i | 0 <= i < |e| :: e[i] < x
  {
    if e == [] then None
    else if x <= e[0] then Some(0)
    else match LowerBound(e[1..], x)
      case None => None
      case Some(k) => Some(k + 1)
  }

  /**
   * Ruby's `e.bsearch_index { |v| v >= x }` in find-minimum mode: a binary search that
   * remembers whether any probe satisfied the block. On ascending entries it is the lower
   * bound; on any entries a found index holds an entry `>= x`, and `nil` means the last
   * entry was probed and is `< x`.
   */
  method BsearchIndex(e: seq<int>, x: int) returns (idx: Option<nat>)
    ensures idx.Some? ==> idx.value < |e| && x <= e[idx.value]
    ensures idx.None? ==> |e| == 0 || e[|e| - 1] < x
    ensures Ascending(e) ==> idx == LowerBound(e, x)
  {
    var low, high := 0, |e|;
    var satisfied := false;
    while low < high
      invariant 0 <= low <= high <= |e|
      invariant satisfied <==> high < |e|
      invariant high < |e| ==> x <= e[high]
      invariant low > 0 ==> e[low - 1] < x
      invariant Ascending(e) ==> forall i | 0 <= i < low :: e[i] < x
      invariant Ascending(e) ==> forall i | high <= i < |e| :: x <= e[i]
      decreases high - low
    {
      var mid := low + (high - low) / 2;
      if e[mid] >= x {
        satisfied := true;
        high := mid;
      } else {
        low := mid + 1;
      }
    }
    idx := if satisfied then Some(low) else None;
  }

  /** The `prev`/`next` selection: the entries on either side of `idx`, `nil` past either end. */
  function Navigate(e: seq<int>, idx: nat): (r: SeriesIndexResult)
    requires idx < |e|
    ensures r.Neighbours?
    ensures r.prev.None? <==> idx == 0
    ensures r.next.None? <==> idx == |e| - 1
    ensures r.prev.Some? ==> r.prev.value == e[idx - 1]
    ensures r.next.Some? ==> r.next.value == e[idx + 1]
  {
    Neighbours(if idx == 0 then None else Some(e[idx - 1]),
               if idx + 1 < |e| then Some(e[idx + 1]) else None)
  }

  /** The entries of `name`, when the series and its `entries` key are present. */
  function EntriesOf(registry: Registry, name: string): (r: Option<seq<int>>)
    ensures r.Some? <==> name in registry && registry[name].entries.Some?
    ensures r.Some? ==> r.value == registry[name].entries.value
  {
    if name in registry then registry[name].entries else None
  }

  /**
   * `r` is the navigation around index `k`, and the entry there is the first one
   * `>= input`.
   */
  ghost predicate NeighboursAt(e: seq<int>, input: int, k: nat, r: SeriesIndexResult) {
    SurroundsAt(e, input, k, r) && forall i | 0 <= i < k :: e[i] < input
  }

  /** `r` is the navigation around index `k`, whose entry is `>= input`. */
  ghost predicate SurroundsAt(e: seq<int>, input: int, k: nat, r: SeriesIndexResult) {
    k < |e| && input <= e[k] && r == Navigate(e, k)
  }

  /**
   * What `series_index` computes on ascending entries, with the lower bound taken as its
   * definition: `nil` without entries, an error when no entry is `>= input`, otherwise
   * the entries just before and just after the first entry `>= input`.
   */
  function ExpectedSeriesIndex(registry: Registry, name: string, input: int): (r: SeriesIndexResult)
    ensures r.NoSeries? <==> EntriesOf(registry, name).None?
    ensures r.NilIndex? <==>
      EntriesOf(registry, name).Some? && forall i | 0 <= i < |EntriesOf(registry, name).value| ::
        EntriesOf(registry, name).value[i] < input
    ensures r.Neighbours? ==> exists k :: NeighboursAt(EntriesOf(registry, name).value, input, k, r)
  {
    if EntriesOf(registry, name).None? then NoSeries
    else
      var e := EntriesOf(registry, name).value;
      var lb := LowerBound(e, input);
      if lb.None? then NilIndex
      else
        var k := lb.value;
        var r := Navigate(e, k);
        assert NeighboursAt(e, input, k, r);
        r
  }

  /**
   * `series_index(input, series_name)` over an explicit registry. It agrees with
   * `ExpectedSeriesIndex` whenever the series is ascending; on any series a result's
   * neighbours surround an entry `>= input`.
   */
  method SeriesIndex(registry: Registry, name: string, input: int) returns (r: SeriesIndexResult)
    ensures r.NoSeries? <==> EntriesOf(registry, name).None?
    ensures EntriesOf(registry, name).Some? && Ascending(EntriesOf(registry, name).value) ==>
      r == ExpectedSeriesIndex(registry, name, input)
    ensures r.NilIndex? ==>
      var e := EntriesOf(registry, name).value;
      |e| == 0 || e[|e| - 1] < input
    ensures r.Neighbours? ==> exists k :: SurroundsAt(EntriesOf(registry, name).value, input, k, r)
  {
    var entries := EntriesOf(registry, name);
    if entries.None? {
      return NoSeries;
    }
    var e := entries.value;
    var idx := BsearchIndex(e, input);
    if idx.None? {
      return NilIndex;
    }
    r := Navigate(e, idx.value);
    assert SurroundsAt(e, input, idx.value, r);
  }

  /**
   * A key of a strictly ascending series gets its own neighbours: the entries just
   * before and just after it, `nil` at either end.
   */
  lemma MemberNeighbours(registry: Registry, name: string, i: nat)
    requires EntriesOf(registry, name).Some?
    requires StrictlyAscending(EntriesOf(registry, name).value)
    requires i < |EntriesOf(registry, name).value|
    ensures var e := EntriesOf(registry, name).value;
      ExpectedSeriesIndex(registry, name, e[i]) ==
        Neighbours(if i == 0 then None else Some(e[i - 1]),
                   if i + 1 < |e| then Some(e[i + 1]) else None)
  {
    var e := EntriesOf(registry, name).value;
    assert LowerBound(e, e[i]).Some?;
  }

  /**
   * On ascending entries `prev` is the largest entry below `input`, and is `nil` exactly
   * when no entry is below `input`.
   */
  lemma PrevIsPredecessor(registry: Registry, name: string, input: int)
    requires EntriesOf(registry, name).Some?
    requires Ascending(EntriesOf(registry, name).value)
    requires ExpectedSeriesIndex(registry, name, input).Neighbours?
    ensures var e, r := EntriesOf(registry, name).value, ExpectedSeriesIndex(registry, name, input);
      (r.prev.None? <==> forall i | 0 <= i < |e| :: input <= e[i]) &&
      (r.prev.Some? ==> r.prev.value in e && r.prev.value < input &&
                        forall i | 0 <= i < |e| && e[i] < input :: e[i] <= r.prev.value)
  {
    var e := EntriesOf(registry, name).value;
    var k := LowerBound(e, input).value;
    var r := ExpectedSeriesIndex(registry, name, input);
    assert r == Navigate(e, k);
    forall i | 0 <= i < |e| && k <= i ensures input <= e[i] {
      assert e[k] <= e[i];
    }
    if k > 0 {
      assert r.prev == Some(e[k - 1]) && e[k - 1] < input;
      forall i | 0 <= i < |e| && e[i] < input ensures e[i] <= e[k - 1] {
        assert i < k;
      }
    }
  }

  /**
   * For a key that is not in a strictly ascending series, `next` skips the first entry
   * above the key: some entry lies strictly between `input` and `next`.
   */
  lemma NonMemberSkipsInsertionPoint(registry: Registry, name: string, input: int)
    requires EntriesOf(registry, name).Some?
    requires StrictlyAscending(EntriesOf(registry, name).value)
    requires input !in EntriesOf(registry, name).value
    requires ExpectedSeriesIndex(registry, name, input).Neighbours?
    requires ExpectedSeriesIndex(registry, name, input).next.Some?
    ensures var e, r := EntriesOf(registry, name).value, ExpectedSeriesIndex(registry, name, input);
      exists j | 0 <= j < |e| :: input < e[j] < r.next.value
  {
    var e := EntriesOf(registry, name).value;
    var k := LowerBound(e, input).value;
    assert input < e[k] < e[k + 1];
  }

  /** The series `[1, 3, 5, 7]` queried with its members. */
  lemma SeriesIndexMemberExamples()
    ensures var reg := map["s" := Series(Some([1, 3, 5, 7]))];
      ExpectedSeriesIndex(reg, "s", 3) == Neighbours(Some(1), Some(5)) &&
      ExpectedSeriesIndex(reg, "s", 1) == Neighbours(None, Some(3)) &&
      ExpectedSeriesIndex(reg, "s", 7) == Neighbours(Some(5), None)
  {
    var reg := map["s" := Series(Some([1, 3, 5, 7]))];
    assert StrictlyAscending([1, 3, 5, 7]);
    MemberNeighbours(reg, "s", 1);
    MemberNeighbours(reg, "s", 0);
    MemberNeighbours(reg, "s", 3);
  }

  /**
   * The series `[1, 3, 5, 7]` queried with the non-member 4 (whose `next` skips 5) and with
   * a key above every entry; and a series that is unknown or has no `entries`.
   */
  lemma SeriesIndexOtherExamples()
    ensures var reg := map["s" := Series(Some([1, 3, 5, 7]))];
      ExpectedSeriesIndex(reg, "s", 4) == Neighbours(Some(3), Some(7)) &&
      ExpectedSeriesIndex(reg, "s", 8) == NilIndex &&
      ExpectedSeriesIndex(map["s" := Series(None)], "s", 3) == NoSeries &&
      ExpectedSeriesIndex(map[], "s", 3) == NoSeries
  {
    var e := [1, 3, 5, 7];
    assert LowerBound(e, 4) == Some(2);
    assert LowerBound(e, 8) == None;
  }
}
