/** The page arithmetic shared by the job list and the applied-jobs list:
    ten jobs per page, the visible slice, the previous/next flags, and the
    window of numbered page buttons. */
module Paging {
  import opened Common

  /** `jobsPerPage`. */
  const PageSize: nat := 10

  /** `Math.ceil(n / jobsPerPage)`: the fewest pages that hold `n` jobs. */
  function TotalPages(n: nat): (t: nat)
    ensures t * PageSize >= n
    ensures t > 0 ==> (t - 1) * PageSize < n
  {
    (n + PageSize - 1) / PageSize
  }

  /** How `Array.prototype.slice` reads one bound: a negative bound counts
      back from the end, and the result is clamped to `[0, len]`. */
  function SliceBound(len: nat, k: int): (b: nat)
    ensures b <= len
  {
    if k < 0 then Max(len + k, 0) else Min(k, len)
  }

  /** `s.slice(start, end)`. */
  function JsSlice<T>(s: seq<T>, start: int, end: int): seq<T> {
    var a := SliceBound(|s|, start);
    var b := SliceBound(|s|, end);
    if a < b then s[a..b] else []
  }

  /** The jobs shown on page `c`: `items.slice((c - 1) * 10, c * 10)`.
      Page 0 is empty; a negative page would count back from the end, which
      no control of either view can reach. */
  function PageSlice<T>(items: seq<T>, c: int): (r: seq<T>)
    ensures |r| <= PageSize
    ensures c >= 1 ==> r == items[Min((c - 1) * PageSize, |items|)..Min(c * PageSize, |items|)]
    ensures c >= 1 && c > TotalPages(|items|) ==> r == []
    ensures 1 <= c <= TotalPages(|items|) ==> r != []
    ensures c == 0 ==> r == []
  {
    JsSlice(items, (c - 1) * PageSize, c * PageSize)
  }

  /** Pages `1..k` laid end to end. */
  function Pages<T>(items: seq<T>, k: nat): seq<T> {
    if k == 0 then [] else Pages(items, k - 1) + PageSlice(items, k)
  }

  /** The first `k` pages are exactly the first `10k` jobs. */
  lemma {:induction false} PagesCover<T>(items: seq<T>, k: nat)
    ensures Pages(items, k) == items[..Min(k * PageSize, |items|)]
  {
    if k > 0 {
      PagesCover(items, k - 1);
      var a := Min((k - 1) * PageSize, |items|);
      var b := Min(k * PageSize, |items|);
      assert items[..a] + items[a..b] == items[..b];
    }
  }

  /** Paging neither loses nor repeats a job: all pages together are the list. */
  lemma PagesRoundTrip<T>(items: seq<T>)
    ensures Pages(items, TotalPages(|items|)) == items
  {
    PagesCover(items, TotalPages(|items|));
  }

  /** Job `j` is shown on page `j / 10 + 1`, at position `j % 10`. */
  lemma PageOfItem<T>(items: seq<T>, j: int)
    requires 0 <= j < |items|
    ensures 1 <= j / PageSize + 1 <= TotalPages(|items|)
    ensures j % PageSize < |PageSlice(items, j / PageSize + 1)|
    ensures PageSlice(items, j / PageSize + 1)[j % PageSize] == items[j]
  {
    var c := j / PageSize + 1;
    assert (c - 1) * PageSize + j % PageSize == j;
  }

  /** `prevPage`: a "Previous" button is shown. */
  predicate HasPrev(c: int) {
    c > 1
  }

  /** `nextPage`: a "Next" button is shown. */
  predicate HasNext(c: int, n: nat) {
    c < TotalPages(n)
  }

  /** "Next" is shown exactly when some job lies beyond page `c`, that is
      exactly when page `c + 1` is not empty. */
  lemma NextMeansMoreJobs<T>(items: seq<T>, c: int)
    requires c >= 0
    ensures HasNext(c, |items|) <==> c * PageSize < |items|
    ensures HasNext(c, |items|) <==> PageSlice(items, c + 1) != []
  {
  }

  /** On an existing page, "Previous" is shown exactly when the page before
      it is a full page of ten jobs. */
  lemma PrevMeansFullPageBefore<T>(items: seq<T>, c: int)
    requires 1 <= c <= TotalPages(|items|)
    ensures HasPrev(c) <==> |PageSlice(items, c - 1)| == PageSize
  {
  }

  /** The page numbers that get a button, `startPage..endPage` inclusive. */
  datatype Window = Window(first: int, last: int) {

    function Count(): nat {
      if last < first then 0 else last - first + 1
    }

    predicate Contains(i: int) {
      first <= i <= last
    }
  }

  /** `for (let i = startPage; i <= endPage; i++)`: the button labels in order. */
  function Labels(w: Window): (r: seq<int>)
    ensures |r| == w.Count()
    ensures forall k :: 0 <= k < |r| ==> r[k] == w.first + k
    decreases w.last - w.first
  {
    if w.last < w.first then [] else Labels(Window(w.first, w.last - 1)) + [w.last]
  }

  /** A label appears among the buttons exactly when it lies in the window. */
  lemma LabelsMembership(w: Window, i: int)
    ensures i in Labels(w) <==> w.Contains(i)
  {
    if w.Contains(i) {
      assert Labels(w)[i - w.first] == i;
    }
  }

  /** A page button: its number, and whether `currentPage === i` holds for it. */
  datatype Button = Button(page: int, active: bool)

  /** What one render of either list page shows: the jobs of the current
      page, the "Previous"/"Next" flags and the numbered buttons. */
  datatype PageView<T> = PageView(jobs: seq<T>, prev: bool, next: bool, buttons: seq<Button>)

  /** The four-way choice of `startPage`/`endPage` for a budget of `m`
      buttons, `total` pages and current page `c`. */
  function SelectWindow(total: nat, m: nat, c: int): (w: Window)
    ensures total <= m ==> w == Window(1, total)
    ensures m >= 1 ==> 1 <= w.first && w.last <= total
    ensures w.Count() == Min(m, total)
    ensures m >= 1 && 1 <= c <= total ==> w.Contains(c)
    ensures total > m && c <= m / 2 ==> w.first == 1
    ensures total > m && m / 2 < c && c + m / 2 >= total ==> w.last == total
    ensures total > m && m / 2 < c && c + m / 2 < total ==> w.first == c - m / 2
  {
    var half := m / 2;
    if total <= m then Window(1, total)
    else if c <= half then Window(1, m)
    else if c + half >= total then Window(total - m + 1, total)
    else Window(c - half, c - half + m - 1)
  }

  /** 250 jobs, ten buttons, page 15: the centred window is pages 10 to 19. */
  lemma CentredExample()
    ensures TotalPages(250) == 25
    ensures Labels(SelectWindow(TotalPages(250), 10, 15)) == [10, 11, 12, 13, 14, 15, 16, 17, 18, 19]
  {
    assert TotalPages(250) == 25;
    var w := SelectWindow(25, 10, 15);
    assert w == Window(10, 19);
    var r := Labels(w);
    var expected := [10, 11, 12, 13, 14, 15, 16, 17, 18, 19];
    assert |r| == |expected|;
    forall k | 0 <= k < 10
      ensures r[k] == expected[k]
    {
    }
  }

  /** A page the controls of either view can lead to: `1..totalPage`, or
      page 1 when there are no jobs at all. */
  predicate Reachable(c: int, n: nat) {
    1 <= c <= Max(1, TotalPages(n))
  }
}
