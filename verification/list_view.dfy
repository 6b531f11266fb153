/** The job list page (`frontend/src/JobList.js`): a location filter applied
    on demand to the fetched list, ten jobs per page, a fixed budget of ten
    page buttons, and descriptions cut at 150 characters. */
module ListView {
  import opened Common
  import opened Paging
  import opened Rows
  import Text
  import AppliedView

  /** The filter option that keeps every job. */
  const All := "ALL"

  /** Text that admits a job under every other filter option. */
  const Remote := "Remote"

  /** `maxPageButtons`. */
  const MaxPageButtons: nat := 10

  /** The test a job must pass under a filter option other than `ALL`:
      its location contains the option or contains `Remote` (case-sensitive). */
  predicate Admits(choice: string, job: JobRow) {
    Text.Includes(job.location, choice) || Text.Includes(job.location, Remote)
  }

  /** `jobs.filter(job => ...)`. */
  function FilterJobs(jobs: seq<JobRow>, choice: string): (r: seq<JobRow>)
    ensures |r| <= |jobs|
    ensures forall j :: j in r <==> j in jobs && Admits(choice, j)
    ensures forall j :: multiset(r)[j] == if Admits(choice, j) then multiset(jobs)[j] else 0
    decreases |jobs|
  {
    if |jobs| == 0 then []
    else
      assert jobs == [jobs[0]] + jobs[1..];
      (if Admits(choice, jobs[0]) then [jobs[0]] else []) + FilterJobs(jobs[1..], choice)
  }

  /** `idx` lists, in increasing order, the positions in `b` of the elements of `a`. */
  ghost predicate EmbeddingOf<T>(idx: seq<int>, a: seq<T>, b: seq<T>) {
    && |idx| == |a|
    && (forall k :: 0 <= k < |a| ==> 0 <= idx[k] < |b| && b[idx[k]] == a[k])
    && (forall k, l :: 0 <= k < l < |a| ==> idx[k] < idx[l])
  }

  /** `a` is `b` with some elements left out and the rest in their order. */
  ghost predicate SubsequenceOf<T>(a: seq<T>, b: seq<T>) {
    exists idx :: EmbeddingOf(idx, a, b)
  }

  /** An embedding into the tail of `b` is, moved by one, an embedding into `b`. */
  lemma EmbeddingSkip<T>(idx: seq<int>, a: seq<T>, b: seq<T>)
    requires |b| >= 1
    requires EmbeddingOf(idx, a, b[1..])
    ensures EmbeddingOf(Shifted(idx), a, b)
  {
  }

  /** An embedding into the tail of `b`, moved by one, extends to `[b[0]] + a`. */
  lemma EmbeddingKeep<T>(idx: seq<int>, a: seq<T>, b: seq<T>)
    requires |b| >= 1
    requires EmbeddingOf(idx, a, b[1..])
    ensures EmbeddingOf([0] + Shifted(idx), [b[0]] + a, b)
  {
    var idx' := [0] + Shifted(idx);
    var a' := [b[0]] + a;
    forall k | 0 <= k < |a'|
      ensures 0 <= idx'[k] < |b| && b[idx'[k]] == a'[k]
    {
      if k > 0 {
        assert idx'[k] == idx[k - 1] + 1;
        assert a'[k] == a[k - 1];
      }
    }
    forall k, l | 0 <= k < l < |a'|
      ensures idx'[k] < idx'[l]
    {
      if k > 0 {
        assert idx'[k] == idx[k - 1] + 1;
      }
      assert idx'[l] == idx[l - 1] + 1;
    }
  }

  function Shifted(idx: seq<int>): (r: seq<int>)
    ensures |r| == |idx|
    ensures forall k :: 0 <= k < |idx| ==> r[k] == idx[k] + 1
  {
    seq(|idx|, k requires 0 <= k < |idx| => idx[k] + 1)
  }

  /** Filtering keeps the jobs it keeps in their original order. */
  lemma {:induction false} FilterIsOrderedSubsequence(jobs: seq<JobRow>, choice: string)
    ensures SubsequenceOf(FilterJobs(jobs, choice), jobs)
    decreases |jobs|
  {
    if |jobs| == 0 {
      assert EmbeddingOf([], FilterJobs(jobs, choice), jobs);
    } else {
      var rest := FilterJobs(jobs[1..], choice);
      FilterIsOrderedSubsequence(jobs[1..], choice);
      var idx :| EmbeddingOf(idx, rest, jobs[1..]);
      if Admits(choice, jobs[0]) {
        assert FilterJobs(jobs, choice) == [jobs[0]] + rest;
        EmbeddingKeep(idx, rest, jobs);
      } else {
        assert FilterJobs(jobs, choice) == rest;
        EmbeddingSkip(idx, rest, jobs);
      }
    }
  }

  /** Filtering a filtered list again changes nothing. */
  lemma {:induction false} FilterIdempotent(jobs: seq<JobRow>, choice: string)
    ensures FilterJobs(FilterJobs(jobs, choice), choice) == FilterJobs(jobs, choice)
    decreases |jobs|
  {
    if |jobs| > 0 {
      var rest := FilterJobs(jobs[1..], choice);
      FilterIdempotent(jobs[1..], choice);
      if Admits(choice, jobs[0]) {
        var r := [jobs[0]] + rest;
        assert FilterJobs(jobs, choice) == r;
        assert r[1..] == rest;
        assert FilterJobs(r, choice) == [jobs[0]] + FilterJobs(rest, choice);
      } else {
        assert FilterJobs(jobs, choice) == [] + rest;
        assert [] + rest == rest;
      }
    }
  }

  /** `locationFilter === 'ALL' ? jobs : jobs.filter(...)`. */
  function ApplyFilter(jobs: seq<JobRow>, choice: string): (r: seq<JobRow>)
    ensures choice == All ==> r == jobs
    ensures choice != All ==> forall j :: j in r <==> j in jobs && Admits(choice, j)
    ensures choice != All ==> forall j :: multiset(r)[j] == if Admits(choice, j) then multiset(jobs)[j] else 0
  {
    if choice == All then jobs else FilterJobs(jobs, choice)
  }

  /** Any filter result is an ordered sub-list of the fetched list, and
      filtering it once more with the same option changes nothing. */
  lemma ApplyFilterShape(jobs: seq<JobRow>, choice: string)
    ensures SubsequenceOf(ApplyFilter(jobs, choice), jobs)
    ensures ApplyFilter(ApplyFilter(jobs, choice), choice) == ApplyFilter(jobs, choice)
  {
    if choice == All {
      var idx := seq(|jobs|, k requires 0 <= k < |jobs| => k);
      assert EmbeddingOf(idx, jobs, jobs);
    } else {
      FilterIsOrderedSubsequence(jobs, choice);
      FilterIdempotent(jobs, choice);
    }
  }

  /** The state of the page once the jobs are fetched: the full list, the
      list on show, the option in the drop-down, and the current page. */
  datatype ListState = ListState(jobs: seq<JobRow>, filtered: seq<JobRow>, choice: string, page: int)

  /** The state before the fetch resolves: no jobs, option `ALL`, page 1. */
  const Initial := ListState([], [], All, 1)

  /** `setJobs(data); setFilteredJobs(data)`: the fetched list replaces both
      lists. The drop-down and the Apply button are on screen while loading,
      so the option may already have changed; it is kept, as is the page. */
  function Loaded(st: ListState, data: seq<JobRow>): (r: ListState)
    ensures r.jobs == data && r.filtered == data
    ensures r.choice == st.choice && r.page == st.page
  {
    st.(jobs := data, filtered := data)
  }

  /** The user's actions on the page. */
  datatype Event = Choose(option: string) | ApplyClick | PrevClick | NextClick | PageClick(i: int)

  /** The effect of one action. Choosing an option alone changes nothing on show. */
  function Step(st: ListState, e: Event): (r: ListState)
    ensures r.jobs == st.jobs
    ensures e.Choose? ==> r.filtered == st.filtered && r.page == st.page && r.choice == e.option
    ensures e.ApplyClick? ==> r.page == 1 && r.choice == st.choice && r.filtered == ApplyFilter(st.jobs, st.choice)
    ensures !e.ApplyClick? ==> r.filtered == st.filtered
    ensures !e.Choose? ==> r.choice == st.choice
    ensures e.PrevClick? ==> r.page == st.page - 1
    ensures e.NextClick? ==> r.page == st.page + 1
    ensures e.PageClick? ==> r.page == e.i
  {
    match e
    case Choose(o) => st.(choice := o)
    case ApplyClick => st.(filtered := ApplyFilter(st.jobs, st.choice), page := 1)
    case PrevClick => st.(page := st.page - 1)
    case NextClick => st.(page := st.page + 1)
    case PageClick(i) => st.(page := i)
  }

  /** Applying a filter recomputes it from the full list and returns to page 1:
      nothing else changes, and applying it again changes nothing more. */
  lemma ApplyResetsAndRepeats(st: ListState)
    ensures Step(st, ApplyClick).page == 1
    ensures Step(st, ApplyClick).jobs == st.jobs && Step(st, ApplyClick).choice == st.choice
    ensures st.choice == All ==> Step(st, ApplyClick).filtered == st.jobs
    ensures Step(Step(st, ApplyClick), ApplyClick) == Step(st, ApplyClick)
  {
  }

  /** The result of a filter does not depend on the filters applied before it. */
  lemma FilterForgetsHistory(st: ListState, first: string, second: string)
    ensures Step(Step(Step(Step(st, Choose(first)), ApplyClick), Choose(second)), ApplyClick)
         == Step(Step(st, Choose(second)), ApplyClick)
  {
  }

  /** `startPage..endPage` as written for the job list. */
  function ListWindow(total: nat, c: int): (w: Window)
    ensures 1 <= w.first && w.last <= total
    ensures 1 <= c <= total ==> w.Contains(c)
    ensures total <= MaxPageButtons ==> w == Window(1, total)
    ensures total > MaxPageButtons && c <= 5 ==> w == Window(1, 10)
    ensures total > MaxPageButtons && c > 5 && c + 5 >= total ==> w == Window(total - 9, total)
    ensures total > MaxPageButtons && 5 < c && c + 5 < total ==> w == Window(c - 5, c + 5)
    ensures w.Count() == if total > MaxPageButtons && 5 < c && c + 5 < total then 11 else Min(10, total)
  {
    if total <= MaxPageButtons then Window(1, total)
    else
      var halfMax := MaxPageButtons / 2;
      if c <= halfMax then Window(1, MaxPageButtons)
      else if c + halfMax >= total then Window(total - MaxPageButtons + 1, total)
      else Window(c - halfMax, c + halfMax)
  }

  /** The list's window starts where a ten-button budget window would start
      and ends at the same page, except in the middle case, where it runs
      one page further. */
  lemma ListWindowVersusBudget(total: nat, c: int)
    ensures ListWindow(total, c).first == SelectWindow(total, MaxPageButtons, c).first
    ensures ListWindow(total, c).last ==
      SelectWindow(total, MaxPageButtons, c).last + (if total > MaxPageButtons && 5 < c && c + 5 < total then 1 else 0)
  {
  }

  /** The evidently intended window: exactly the ten-button budget. */
  function IntendedListWindow(total: nat, c: int): (w: Window)
    ensures w.Count() == Min(MaxPageButtons, total)
    ensures 1 <= w.first && w.last <= total
    ensures 1 <= c <= total ==> w.Contains(c)
  {
    SelectWindow(total, MaxPageButtons, c)
  }

  /** 250 jobs on page 15: eleven buttons, 10 to 20, where ten were meant. */
  lemma ElevenButtonsExample()
    ensures ListWindow(TotalPages(250), 15) == Window(10, 20)
    ensures ListWindow(TotalPages(250), 15).Count() == 11
    ensures IntendedListWindow(TotalPages(250), 15) == Window(10, 19)
  {
    assert TotalPages(250) == 25;
  }

  /** What the list page shows. */
  function Render(st: ListState): (v: PageView<JobRow>)
    ensures st.page >= 1 ==> v.jobs == st.filtered[Min((st.page - 1) * PageSize, |st.filtered|)..Min(st.page * PageSize, |st.filtered|)]
    ensures v.prev <==> st.page > 1
    ensures v.next <==> st.page * PageSize < |st.filtered|
    ensures |v.buttons| == ListWindow(TotalPages(|st.filtered|), st.page).Count()
    ensures forall k :: 0 <= k < |v.buttons| ==>
      v.buttons[k].page == ListWindow(TotalPages(|st.filtered|), st.page).first + k
    ensures forall k :: 0 <= k < |v.buttons| ==> (v.buttons[k].active <==> v.buttons[k].page == st.page)
  {
    var labels := Labels(ListWindow(TotalPages(|st.filtered|), st.page));
    PageView(
      PageSlice(st.filtered, st.page),
      HasPrev(st.page),
      HasNext(st.page, |st.filtered|),
      seq(|labels|, k requires 0 <= k < |labels| => Button(labels[k], labels[k] == st.page)))
  }

  /** On any page within `1..totalPage` exactly one button is active. */
  lemma OneActiveButton(st: ListState)
    requires 1 <= st.page <= TotalPages(|st.filtered|)
    ensures exists k :: 0 <= k < |Render(st).buttons| && Render(st).buttons[k].active
    ensures forall k, l ::
      (0 <= k < |Render(st).buttons| && 0 <= l < |Render(st).buttons|
       && Render(st).buttons[k].active && Render(st).buttons[l].active) ==> k == l
  {
    var w := ListWindow(TotalPages(|st.filtered|), st.page);
    assert Render(st).buttons[st.page - w.first].active;
  }

  /** The action is available on screen. */
  predicate Offered(st: ListState, e: Event) {
    var v := Render(st);
    match e
    case Choose(_) => true
    case ApplyClick => true
    case PrevClick => v.prev
    case NextClick => v.next
    case PageClick(i) => exists k :: 0 <= k < |v.buttons| && v.buttons[k].page == i
  }

  /** What every state reached through the page's controls satisfies: the
      list on show is an ordered sub-list of the fetched one, and the
      current page lies within `1..totalPage` (or is 1 on an empty list). */
  ghost predicate Valid(st: ListState) {
    SubsequenceOf(st.filtered, st.jobs) && Reachable(st.page, |st.filtered|)
  }

  /** Before the fetch resolves only the drop-down and Apply are on screen,
      neither of which leaves page 1; so the fetch lands on a page-1 state,
      whatever option was chosen, and the result is valid. */
  lemma LoadedIsValid(st: ListState, data: seq<JobRow>)
    requires st.page == 1
    ensures Valid(Loaded(st, data))
  {
    var idx := seq(|data|, k requires 0 <= k < |data| => k);
    assert EmbeddingOf(idx, data, data);
  }

  /** The first fetch from the initial state: the list on show is the
      whole fetched list, valid, under `ALL`, with its first ten jobs on page 1. */
  lemma FirstFetch(data: seq<JobRow>)
    ensures Valid(Loaded(Initial, data))
    ensures Loaded(Initial, data).choice == All && Loaded(Initial, data).filtered == data
    ensures Render(Loaded(Initial, data)).jobs == data[..Min(PageSize, |data|)]
    ensures !Render(Loaded(Initial, data)).prev
  {
    LoadedIsValid(Initial, data);
  }

  /** The actions available while loading keep the page at 1. */
  lemma LoadingKeepsPageOne(st: ListState, o: string)
    requires st.page == 1
    ensures Step(st, Choose(o)).page == 1 && Step(st, ApplyClick).page == 1
  {
  }

  /** Every available action keeps the state valid. */
  lemma StepKeepsValid(st: ListState, e: Event)
    requires Valid(st)
    requires Offered(st, e)
    ensures Valid(Step(st, e))
  {
    match e
    case ApplyClick =>
      ApplyFilterShape(st.jobs, st.choice);
    case PageClick(i) =>
      var v := Render(st);
      var k :| 0 <= k < |v.buttons| && v.buttons[k].page == i;
    case _ =>
  }

  /** A description longer than 150 characters shows its first 150 and an ellipsis. */
  function Description(d: string): (r: string)
    ensures |d| <= 150 ==> r == d
    ensures |d| > 150 ==> |r| == 153 && r[..150] == d[..150] && r[150..] == "..."
  {
    Text.Shorten(d, 150, 150)
  }

  /** The two lists shorten descriptions alike, except that only this one
      shortens descriptions of 151 to 350 characters. */
  lemma DescriptionsCompared(d: string)
    ensures 150 < |d| <= 350 ==> AppliedView.Description(d) == d && Description(d) == d[..150] + "..."
    ensures 153 < |d| <= 350 ==> Description(d) != AppliedView.Description(d)
    ensures !(150 < |d| <= 350) ==> Description(d) == AppliedView.Description(d)
  {
    if 150 < |d| <= 350 {
      assert |Description(d)| == 153;
    }
  }
}
