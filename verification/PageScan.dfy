/** Reading a paged source to a hit (ScanPagesWithOptions in list.go) or to the end
    (allZones and allRecords in catalogops/dns.go, one loop over two record types).
    The source serves windows of a fixed list; a fetch at some offset may fail. */
module PageScan {
  import opened Basics
  import opened Paging

  const DEFAULT_PAGE_SIZE := 10
  const LARGE_PAGE_SIZE := 100

  datatype Fetched<T> = Page(items: seq<T>) | FetchFailed

  function Fetch<T>(items: seq<T>, fails: nat -> bool, start: nat, limit: nat): Fetched<T> {
    if fails(start) then FetchFailed else Page(Window(items, start, limit))
  }

  /** Where page `k` begins. */
  function Offset(k: nat, size: nat): nat {
    if k == 0 then 0 else Offset(k - 1, size) + size
  }

  lemma {:induction false} OffsetMonotone(j: nat, k: nat, size: nat)
    requires j <= k
    ensures Offset(j, size) <= Offset(k, size)
    ensures j < k ==> Offset(j, size) + size <= Offset(k, size)
  {
    if j == k {
    } else {
      OffsetMonotone(j, k - 1, size);
    }
  }

  // ---- scanning to a hit ----

  datatype Verdict = Hit | Miss | Broken(error: nat)

  datatype ScanResult<T> = Found(item: T) | NotFound | PredicateFailed(error: nat) | ListFailed

  /** The first item at or after `i` the predicate does not let pass, or the end. */
  function StopAt<T>(items: seq<T>, pred: T -> Verdict, i: nat): (stop: nat)
    requires i <= |items|
    ensures i <= stop <= |items|
    decreases |items| - i
  {
    if i == |items| || pred(items[i]) != Miss then i else StopAt(items, pred, i + 1)
  }

  /** Everything before the stop passes, and what stands there does not. */
  lemma {:induction false} StopMeaning<T>(items: seq<T>, pred: T -> Verdict, i: nat)
    requires i <= |items|
    ensures var stop := StopAt(items, pred, i);
            && (forall j :: i <= j < stop ==> pred(items[j]) == Miss)
            && (stop < |items| ==> pred(items[stop]) != Miss)
    decreases |items| - i
  {
    if i < |items| && pred(items[i]) == Miss {
      StopMeaning(items, pred, i + 1);
    }
  }

  /** What a scan that ends at `stop` answers. */
  function Answer<T>(items: seq<T>, pred: T -> Verdict, stop: nat): ScanResult<T> {
    if stop >= |items| then NotFound
    else
      match pred(items[stop])
      case Hit => Found(items[stop])
      case Broken(e) => PredicateFailed(e)
      case Miss => NotFound
  }

  /** One left-to-right scan of the whole list. */
  function PlainScan<T>(items: seq<T>, pred: T -> Verdict): ScanResult<T> {
    Answer(items, pred, StopAt(items, pred, 0))
  }

  /** The plain scan in full: the first item that does not pass decides, by a hit on that item
      or by its error; without one nothing is found. */
  lemma PlainScanExactly<T>(items: seq<T>, pred: T -> Verdict, x: T, error: nat)
    ensures PlainScan(items, pred) == Found(x) <==>
              exists i :: 0 <= i < |items| && FirstThatStops(items, pred, i) && pred(items[i]) == Hit && items[i] == x
    ensures PlainScan(items, pred) == PredicateFailed(error) <==>
              exists i :: 0 <= i < |items| && FirstThatStops(items, pred, i) && pred(items[i]) == Broken(error)
    ensures PlainScan(items, pred) == NotFound <==> forall i :: 0 <= i < |items| ==> pred(items[i]) == Miss
    ensures PlainScan(items, pred) != ListFailed
  {
    StopMeaning(items, pred, 0);
    var stop := StopAt(items, pred, 0);
    assert forall i :: 0 <= i < |items| && FirstThatStops(items, pred, i) ==> i == stop;
    assert stop < |items| ==> FirstThatStops(items, pred, stop);
  }

  predicate FirstThatStops<T>(items: seq<T>, pred: T -> Verdict, i: nat)
    requires i < |items|
  {
    pred(items[i]) != Miss && forall j :: 0 <= j < i ==> pred(items[j]) == Miss
  }

  function EffectivePageSize(pageSize: int): nat {
    if pageSize <= 0 then DEFAULT_PAGE_SIZE else pageSize
  }

  /** Some page that begins no later than `stop` cannot be fetched. */
  ghost predicate SomeFetchFails(fails: nat -> bool, size: nat, stop: nat) {
    exists k: nat :: Offset(k, size) <= stop && fails(Offset(k, size))
  }

  ghost predicate FirstFailure(fails: nat -> bool, size: nat, k: nat) {
    fails(Offset(k, size)) && forall j: nat :: j < k ==> !fails(Offset(j, size))
  }

  /** The answer of a scan and how many items, from the first on, it asked about. */
  datatype Scan<T> = Scan(result: ScanResult<T>, asked: nat)

  /** Scanning page by page from `start` on. */
  function PagedScan<T>(items: seq<T>, fails: nat -> bool, pred: T -> Verdict, size: nat, start: nat): (s: Scan<T>)
    requires size > 0 && start <= |items|
    ensures s.asked <= |items|
    decreases |items| - start
  {
    var stop, end := StopAt(items, pred, start), Min(|items|, start + size);
    if fails(start) then Scan(ListFailed, start)
    else if stop < end then Scan(Answer(items, pred, stop), stop + 1)
    else if end < start + size then Scan(NotFound, |items|)
    else PagedScan(items, fails, pred, size, end)
  }

  /** The loop: fetch, ask about the items of the page in order, go on after a full page.
      `asked` records the questions. */
  method ScanPagesWithOptions<T>(items: seq<T>, fails: nat -> bool, pred: T -> Verdict, pageSize: int)
    returns (r: ScanResult<T>, ghost asked: seq<T>)
    ensures r == PagedScan(items, fails, pred, EffectivePageSize(pageSize), 0).result
    ensures asked == items[..PagedScan(items, fails, pred, EffectivePageSize(pageSize), 0).asked]
  {
    var size := if pageSize <= 0 then DEFAULT_PAGE_SIZE else pageSize;
    var start := 0;
    asked := [];
    ghost var whole := PagedScan(items, fails, pred, size, 0);
    while true
      invariant start <= |items| && asked == items[..start]
      invariant PagedScan(items, fails, pred, size, start) == whole
      decreases |items| - start
    {
      var fetched := Fetch(items, fails, start, size);
      if fetched.FetchFailed? {
        return ListFailed, asked;
      }
      var page := fetched.items;
      var answer;
      ghost var questions;
      answer, questions := AskPage(items, fails, pred, size, start, page);
      PrefixGrows(items, start, size, questions);
      asked := asked + questions;
      if answer.Some? {
        return answer.value, asked;
      }
      start := start + |page|;
    }
  }

  lemma WindowInside<T>(items: seq<T>, start: nat, limit: nat)
    requires start <= |items|
    ensures var page := Window(items, start, limit);
            start + |page| == Min(|items|, start + limit) && page == items[start..start + |page|]
  {
  }

  lemma PrefixGrows<T>(items: seq<T>, start: nat, limit: nat, questions: seq<T>)
    requires start <= |items| && questions <= Window(items, start, limit)
    ensures start + |questions| <= |items| && items[..start] + questions == items[..start + |questions|]
  {
  }

  /** The inner loop: asks about the items of one fetched page until one is not let pass;
      a short page without such an item ends the scan. */
  method AskPage<T>(items: seq<T>, fails: nat -> bool, pred: T -> Verdict, size: nat, start: nat, page: seq<T>)
    returns (answer: Option<ScanResult<T>>, ghost questions: seq<T>)
    requires size > 0 && start <= |items| && !fails(start) && page == Window(items, start, size)
    ensures questions <= page
    ensures answer.Some? ==> PagedScan(items, fails, pred, size, start) == Scan(answer.value, start + |questions|)
    ensures answer.None? ==>
              && |page| == size && questions == page && start + size <= |items|
              && PagedScan(items, fails, pred, size, start) == PagedScan(items, fails, pred, size, start + size)
  {
    WindowInside(items, start, size);
    questions := [];
    for i := 0 to |page|
      invariant questions == page[..i]
      invariant start + i <= StopAt(items, pred, start)
      invariant StopAt(items, pred, start + i) == StopAt(items, pred, start)
    {
      var item := page[i];
      assert item == items[start + i];
      questions := questions + [item];
      var verdict := pred(item);
      if verdict.Broken? {
        return Some(PredicateFailed(verdict.error)), questions;
      }
      if verdict.Hit? {
        return Some(Found(item)), questions;
      }
    }
    if |page| < size {
      return Some(NotFound), questions;
    }
    return None, questions;
  }

  /** Skipping over items that pass does not move the stop. */
  lemma StopFromLater<T>(items: seq<T>, pred: T -> Verdict, i: nat, j: nat)
    requires i <= |items| && i <= j <= StopAt(items, pred, i)
    ensures StopAt(items, pred, j) == StopAt(items, pred, i)
    decreases j - i
  {
    if i == j {
    } else {
      StopFromLater(items, pred, i + 1, j);
    }
  }

  /** From page `k` on, with nothing found and nothing failed before it. */
  lemma {:induction false} PagedFrom<T>(items: seq<T>, fails: nat -> bool, pred: T -> Verdict, size: nat, k: nat)
    requires size > 0 && Offset(k, size) <= |items|
    requires Offset(k, size) <= StopAt(items, pred, 0)
    requires forall j: nat :: j < k ==> !fails(Offset(j, size))
    ensures var s, stop := PagedScan(items, fails, pred, size, Offset(k, size)), StopAt(items, pred, 0);
            if SomeFetchFails(fails, size, stop) then
              && s.result == ListFailed
              && exists m: nat ::
                   FirstFailure(fails, size, m) && Offset(m, size) <= stop && s.asked == Offset(m, size)
            else
              s == Scan(PlainScan(items, pred), Min(|items|, stop + 1))
    decreases |items| - Offset(k, size)
  {
    var start, stop := Offset(k, size), StopAt(items, pred, 0);
    StopFromLater(items, pred, 0, start);
    StopMeaning(items, pred, 0);
    if fails(start) {
      assert FirstFailure(fails, size, k);
    } else if stop < start + size {
      NoFetchFails(fails, size, k, stop);
    } else {
      assert Offset(k + 1, size) == start + size;
      PagedFrom(items, fails, pred, size, k + 1);
    }
  }

  /** The paged scan answers as the plain one and asks about the same items, in order
      and once each, unless a page it needs cannot be fetched; then it has asked about
      the items before the first such page. */
  lemma PagedScanRefinesPlain<T>(items: seq<T>, fails: nat -> bool, pred: T -> Verdict, pageSize: int)
    ensures var size, stop := if pageSize <= 0 then 10 else pageSize, StopAt(items, pred, 0);
            var s := PagedScan(items, fails, pred, size, 0);
            if SomeFetchFails(fails, size, stop) then
              && s.result == ListFailed
              && exists k: nat ::
                   FirstFailure(fails, size, k) && Offset(k, size) <= stop && s.asked == Offset(k, size)
            else
              s == Scan(PlainScan(items, pred), Min(|items|, stop + 1))
  {
    PagedFrom(items, fails, pred, EffectivePageSize(pageSize), 0);
  }

  lemma NoFetchFails(fails: nat -> bool, size: nat, k: nat, stop: nat)
    requires forall j: nat :: j <= k ==> !fails(Offset(j, size))
    requires stop < Offset(k, size) + size
    ensures !SomeFetchFails(fails, size, stop)
  {
    forall j: nat | Offset(j, size) <= stop ensures !fails(Offset(j, size)) {
      if j > k {
        OffsetMonotone(k, j, size);
      }
    }
  }

  // ---- reading everything ----

  /** Where page `k` of the full-scan size begins. */
  function PageStart(k: nat): nat {
    k * LARGE_PAGE_SIZE
  }

  /** Calls until the loop stops on `n` items when the backend reports `total`: a
      short page ends it, and so does a positive total once reached. */
  function CallsNeeded(n: nat, total: int): nat {
    if total <= 0 then n / LARGE_PAGE_SIZE + 1
    else Min(CeilDiv(total, LARGE_PAGE_SIZE), n / LARGE_PAGE_SIZE + 1)
  }

  /** The part of a list the pages up to there cover. */
  function Listed<T>(items: seq<T>, total: int): seq<T> {
    items[..Min(|items|, PageStart(CallsNeeded(|items|, total)))]
  }

  /** The total the backend reports is not short of the list by a page or more. */
  predicate TotalReaches(total: int, n: nat) {
    total <= 0 || n <= PageStart(CeilDiv(total, LARGE_PAGE_SIZE))
  }

  lemma ReadOn(n: nat, total: int, calls: nat)
    ensures calls < CallsNeeded(n, total) <==>
              calls == 0 || (PageStart(calls) <= n && (total <= 0 || PageStart(calls) < total))
  {
  }

  /** allZones / allRecords: every page until the loop stops. `calls` counts fetches. */
  method CollectAll<T>(items: seq<T>, fails: nat -> bool, total: int)
    returns (all: Option<seq<T>>, ghost calls: nat)
    ensures calls <= CallsNeeded(|items|, total)
    ensures all.Some? <==> forall k: nat :: k < CallsNeeded(|items|, total) ==> !fails(PageStart(k))
    ensures all.Some? ==> calls == CallsNeeded(|items|, total) && all.value == Listed(items, total)
  {
    var pageSize := LARGE_PAGE_SIZE;
    var read: seq<T> := [];
    var start := 0;
    calls := 0;
    while true
      invariant start == PageStart(calls) <= |items|
      invariant read == items[..start]
      invariant calls < CallsNeeded(|items|, total)
      invariant forall k: nat :: k < calls ==> !fails(PageStart(k))
      decreases |items| - start
    {
      ReadOn(|items|, total, calls + 1);
      var fetched := Fetch(items, fails, start, pageSize);
      if fetched.FetchFailed? {
        return None, calls;
      }
      var page := fetched.items;
      calls := calls + 1;
      read := read + page;
      assert read == items[..Min(|items|, start + pageSize)];
      if |page| == 0 || |page| < pageSize || (total > 0 && |read| >= total) {
        return Some(read), calls;
      }
      start := start + pageSize;
    }
  }

  /** The whole list comes back exactly when the pages read cover it: always when the
      total is unknown, and for a positive total when it is not short by a page. */
  lemma CompleteExactly<T>(items: seq<T>, total: int)
    ensures Listed(items, total) == items <==> TotalReaches(total, |items|)
  {
    var needed := CallsNeeded(|items|, total);
    assert Listed(items, total) == items <==> |items| <= PageStart(needed);
  }

  /** An honest total needs ceil(n/size) calls, an unreported one floor(n/size)+1, and
      both return everything. */
  lemma HonestTotalIsComplete<T>(items: seq<T>, total: int)
    requires total == |items| || total == 0
    ensures var needed := CallsNeeded(|items|, total);
            && Listed(items, total) == items
            && needed == (if total == 0 then |items| / 100 + 1 else (|items| + 99) / 100)
            && forall k: nat :: PageStart(k) == 100 * k
  {
    CompleteExactly(items, total);
  }
}
