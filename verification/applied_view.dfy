/** The applied-jobs page (`frontend/src/JobApplied.js`): ten applications
    per page, a number of page buttons derived from the window width, and
    descriptions shortened only when they are long. */
module AppliedView {
  import opened Common
  import opened Paging
  import Text

  /** `pageButtonWidth`, in pixels. */
  const ButtonWidth: nat := 42

  /** `currentPage` starts as the boolean `true`; every later value is a number.
      Arithmetic and comparisons read `true` as 1; strict equality does not. */
  datatype CurrentPage = InitialTrue | Page(n: int) {

    function Numeric(): int {
      if InitialTrue? then 1 else n
    }
  }

  /** `maxPageButtons = Math.floor(windowWidth / pageButtonWidth)`. */
  function MaxButtons(width: nat): nat {
    width / ButtonWidth
  }

  /** `startPage..endPage` for `n` applications. */
  function PageWindow(n: nat, cur: CurrentPage, width: nat): Window {
    SelectWindow(TotalPages(n), MaxButtons(width), cur.Numeric())
  }

  /** `currentPage === i`, the test that marks a button active. */
  predicate IsActive(cur: CurrentPage, i: int) {
    cur == Page(i)
  }

  function ButtonsFor(w: Window, cur: CurrentPage): (r: seq<Button>)
    ensures |r| == w.Count()
    ensures forall k :: 0 <= k < |r| ==> r[k].page == w.first + k
    ensures forall k :: 0 <= k < |r| ==> (r[k].active <==> IsActive(cur, r[k].page))
  {
    var labels := Labels(w);
    seq(|labels|, k requires 0 <= k < |labels| => Button(labels[k], IsActive(cur, labels[k])))
  }

  /** One render of the applied-jobs page. */
  function Render<T>(items: seq<T>, cur: CurrentPage, width: nat): (v: PageView<T>)
    ensures |v.jobs| <= PageSize
    ensures cur.Numeric() >= 1 ==> v.jobs == items[Min((cur.Numeric() - 1) * PageSize, |items|)..Min(cur.Numeric() * PageSize, |items|)]
    ensures v.prev <==> cur.Numeric() > 1
    ensures v.next <==> cur.Numeric() * PageSize < |items|
    ensures |v.buttons| == Min(MaxButtons(width), TotalPages(|items|))
    ensures forall k :: 0 <= k < |v.buttons| ==> 1 <= v.buttons[k].page <= TotalPages(|items|)
    ensures forall k :: 0 <= k < |v.buttons| ==> v.buttons[k].page == PageWindow(|items|, cur, width).first + k
    ensures forall k :: 0 <= k < |v.buttons| ==> (v.buttons[k].active <==> IsActive(cur, v.buttons[k].page))
  {
    var c := cur.Numeric();
    PageView(
      PageSlice(items, c),
      HasPrev(c),
      HasNext(c, |items|),
      ButtonsFor(PageWindow(|items|, cur, width), cur))
  }

  /** Exactly one button of the bar is marked active. */
  predicate ExactlyOneActive(bs: seq<Button>) {
    exists k :: 0 <= k < |bs| && bs[k].active && forall j :: 0 <= j < |bs| && bs[j].active ==> j == k
  }

  /** A window holding page `c` marks exactly one button when the current page is the number `c`. */
  lemma OneActiveInWindow(w: Window, c: int)
    requires w.Contains(c)
    ensures ExactlyOneActive(ButtonsFor(w, Page(c)))
  {
    var bs := ButtonsFor(w, Page(c));
    var k := c - w.first;
    assert bs[k].page == c;
    forall j | 0 <= j < |bs| && bs[j].active
      ensures j == k
    {
      assert IsActive(Page(c), bs[j].page);
    }
  }

  /** On a numeric page `c` within `1..totalPage`, with room for at least one
      button, the current page has a button and it is the only active one. */
  lemma OneActiveOnNumericPage<T>(items: seq<T>, c: int, width: nat)
    requires 1 <= c <= TotalPages(|items|)
    requires width >= ButtonWidth
    ensures ExactlyOneActive(Render(items, Page(c), width).buttons)
  {
    var w := PageWindow(|items|, Page(c), width);
    assert MaxButtons(width) >= 1;
    assert w.Contains(c);
    OneActiveInWindow(w, c);
  }

  /** A bar with no buttons at all when the window is narrower than one
      button, whatever the number of applications and the page. */
  lemma NarrowWindowNoButtons<T>(items: seq<T>, cur: CurrentPage, width: nat)
    requires width < ButtonWidth
    ensures Render(items, cur, width).buttons == []
  {
    assert MaxButtons(width) == 0;
  }

  /** The number of buttons is the button budget, capped by the page count;
      when every page fits, the buttons are exactly pages `1..totalPage`. */
  lemma ButtonBudget<T>(items: seq<T>, cur: CurrentPage, width: nat)
    ensures |Render(items, cur, width).buttons| == Min(MaxButtons(width), TotalPages(|items|))
    ensures TotalPages(|items|) <= MaxButtons(width) ==>
      forall k :: 0 <= k < |Render(items, cur, width).buttons| ==> Render(items, cur, width).buttons[k].page == k + 1
  {
  }

  /** The initial `true` is read as page 1 everywhere except the active
      test: it shows the same jobs, flags and labels as page 1. */
  lemma InitialReadsAsPageOne<T>(items: seq<T>, width: nat)
    ensures Render(items, InitialTrue, width).jobs == Render(items, Page(1), width).jobs
    ensures Render(items, InitialTrue, width).prev == Render(items, Page(1), width).prev == false
    ensures Render(items, InitialTrue, width).next == Render(items, Page(1), width).next
    ensures |Render(items, InitialTrue, width).buttons| == |Render(items, Page(1), width).buttons|
    ensures forall k :: 0 <= k < |Render(items, InitialTrue, width).buttons| ==>
      Render(items, InitialTrue, width).buttons[k].page == Render(items, Page(1), width).buttons[k].page
  {
  }

  /** As written, the first render marks no button active, even when a
      button for page 1 is shown. */
  lemma InitialMarksNothing<T>(items: seq<T>, width: nat)
    ensures forall k :: 0 <= k < |Render(items, InitialTrue, width).buttons| ==>
      !Render(items, InitialTrue, width).buttons[k].active
  {
  }

  /** The evidently intended initial page: the number 1. */
  const IntendedInitial: CurrentPage := Page(1)

  /** Starting from page 1 instead, the first render marks exactly one
      button as soon as there is an application and room for a button. */
  lemma IntendedInitialMarksPageOne<T>(items: seq<T>, width: nat)
    requires |items| >= 1
    requires width >= ButtonWidth
    ensures ExactlyOneActive(Render(items, IntendedInitial, width).buttons)
  {
    OneActiveOnNumericPage(items, 1, width);
  }

  /** The controls of the pagination bar. */
  datatype Control = PrevButton | NextButton | PageButton(i: int)

  /** The control is on screen. */
  predicate Offered<T>(items: seq<T>, cur: CurrentPage, width: nat, ctl: Control) {
    var v := Render(items, cur, width);
    match ctl
    case PrevButton => v.prev
    case NextButton => v.next
    case PageButton(i) => exists k :: 0 <= k < |v.buttons| && v.buttons[k].page == i
  }

  /** `setCurrentPage(currentPage - 1)`, `setCurrentPage(currentPage + 1)`, `paginate(i)`. */
  function Press(cur: CurrentPage, ctl: Control): (r: CurrentPage)
    ensures r.Page?
    ensures ctl.PrevButton? ==> r.n == cur.Numeric() - 1
    ensures ctl.NextButton? ==> r.n == cur.Numeric() + 1
    ensures ctl.PageButton? ==> r.n == ctl.i
  {
    match ctl
    case PrevButton => Page(cur.Numeric() - 1)
    case NextButton => Page(cur.Numeric() + 1)
    case PageButton(i) => Page(i)
  }

  /** No control on screen leads outside `1..totalPage`, so the missing
      clamping of `paginate` is never exercised. */
  lemma ControlsStayInRange<T>(items: seq<T>, cur: CurrentPage, width: nat, ctl: Control)
    requires Reachable(cur.Numeric(), |items|)
    requires Offered(items, cur, width, ctl)
    ensures Reachable(Press(cur, ctl).Numeric(), |items|)
  {
    if ctl.PageButton? {
      var v := Render(items, cur, width);
      var k :| 0 <= k < |v.buttons| && v.buttons[k].page == ctl.i;
      assert MaxButtons(width) >= 1;
    }
  }

  /** Only a description longer than 350 characters is shortened, and then
      to its first 150 characters and an ellipsis. */
  function Description(d: string): (r: string)
    ensures |d| <= 350 ==> r == d
    ensures |d| > 350 ==> |r| == 153 && r[..150] == d[..150] && r[150..] == "..."
  {
    Text.Shorten(d, 350, 150)
  }
}
