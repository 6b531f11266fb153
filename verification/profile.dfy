/** The applicant profile form (`frontend/src/UserInfo.js`): its initial
    state, the single change handler shared by every input, and the button
    that adds a work-experience entry. */
module Profile {
  import opened Common

  datatype WorkEntry = WorkEntry(title: string, company: string, startTime: string, endTime: string, responsibilities: string)

  /** The entry `{ title: '', company: '', startTime: '', endTime: '', responsibilities: '' }`. */
  const BlankEntry := WorkEntry("", "", "", "", "")

  datatype Urls = Urls(linkedIn: string, github: string)

  datatype Preferences = Preferences(jobTitlePreferred: seq<string>, jobLocationPreferred: seq<string>)

  /** The form state. `linkedIn` and `github` are the top-level keys the URL
      inputs create; they are absent from the initial state. */
  datatype UserInfo = UserInfo(
    name: string,
    address: string,
    phoneNumber: string,
    workEmail: string,
    education: string,
    workExperience: seq<WorkEntry>,
    urls: Urls,
    jobPreferences: Preferences,
    linkedIn: Option<string>,
    github: Option<string>)

  /** The `useState` initial value. */
  const Initial := UserInfo(
    "", "", "", "", "",
    [BlankEntry],
    Urls("", ""),
    Preferences(["", "", "", ""], ["", "", "", ""]),
    None, None)

  /** The initial state: one blank work entry, four blank preferred titles
      and locations, blank URLs, and no top-level `linkedIn`/`github`. */
  lemma InitialShape()
    ensures Initial.workExperience == [BlankEntry]
    ensures |Initial.jobPreferences.jobTitlePreferred| == 4 && |Initial.jobPreferences.jobLocationPreferred| == 4
    ensures forall k :: 0 <= k < 4 ==> Initial.jobPreferences.jobTitlePreferred[k] == "" && Initial.jobPreferences.jobLocationPreferred[k] == ""
    ensures Initial.urls == Urls("", "") && Initial.linkedIn.None? && Initial.github.None?
  {
  }

  /** The `name` attributes of the work-experience inputs. */
  datatype WorkField = Title | Company | StartTime | EndTime | Responsibilities

  /** The `name` attributes of the preference inputs. */
  datatype PrefList = JobTitlePreferred | JobLocationPreferred

  /** The `name` attributes of the inputs handled by the default branch. */
  datatype TopKey = Name | Address | PhoneNumber | WorkEmail | Education | LinkedIn | GitHub

  function FieldOf(w: WorkEntry, f: WorkField): string {
    match f
    case Title => w.title
    case Company => w.company
    case StartTime => w.startTime
    case EndTime => w.endTime
    case Responsibilities => w.responsibilities
  }

  /** `entry[name] = value`. */
  function SetField(w: WorkEntry, f: WorkField, v: string): (r: WorkEntry)
    ensures FieldOf(r, f) == v
    ensures forall g :: g != f ==> FieldOf(r, g) == FieldOf(w, g)
  {
    match f
    case Title => w.(title := v)
    case Company => w.(company := v)
    case StartTime => w.(startTime := v)
    case EndTime => w.(endTime := v)
    case Responsibilities => w.(responsibilities := v)
  }

  function ListOf(p: Preferences, l: PrefList): seq<string> {
    match l
    case JobTitlePreferred => p.jobTitlePreferred
    case JobLocationPreferred => p.jobLocationPreferred
  }

  /** The value the default branch reads and writes for `key`. */
  function TopValue(u: UserInfo, key: TopKey): Option<string> {
    match key
    case Name => Some(u.name)
    case Address => Some(u.address)
    case PhoneNumber => Some(u.phoneNumber)
    case WorkEmail => Some(u.workEmail)
    case Education => Some(u.education)
    case LinkedIn => u.linkedIn
    case GitHub => u.github
  }

  /** The `workExperience` branch: only the named field of entry `i` changes. */
  function EditWork(u: UserInfo, i: int, f: WorkField, v: string): (r: UserInfo)
    requires 0 <= i < |u.workExperience|
    ensures |r.workExperience| == |u.workExperience|
    ensures FieldOf(r.workExperience[i], f) == v
    ensures forall g :: g != f ==> FieldOf(r.workExperience[i], g) == FieldOf(u.workExperience[i], g)
    ensures forall j :: 0 <= j < |u.workExperience| && j != i ==> r.workExperience[j] == u.workExperience[j]
    ensures r.(workExperience := u.workExperience) == u
  {
    u.(workExperience := u.workExperience[i := SetField(u.workExperience[i], f, v)])
  }

  /** The `jobPreferences` branch: only position `i` of the named list changes. */
  function EditPref(u: UserInfo, i: int, l: PrefList, v: string): (r: UserInfo)
    requires 0 <= i < |ListOf(u.jobPreferences, l)|
    ensures |ListOf(r.jobPreferences, l)| == |ListOf(u.jobPreferences, l)|
    ensures ListOf(r.jobPreferences, l)[i] == v
    ensures forall j :: 0 <= j < |ListOf(u.jobPreferences, l)| && j != i ==>
      ListOf(r.jobPreferences, l)[j] == ListOf(u.jobPreferences, l)[j]
    ensures forall m :: m != l ==> ListOf(r.jobPreferences, m) == ListOf(u.jobPreferences, m)
    ensures r.(jobPreferences := u.jobPreferences) == u
  {
    var p := u.jobPreferences;
    match l
    case JobTitlePreferred => u.(jobPreferences := p.(jobTitlePreferred := p.jobTitlePreferred[i := v]))
    case JobLocationPreferred => u.(jobPreferences := p.(jobLocationPreferred := p.jobLocationPreferred[i := v]))
  }

  /** The default branch, `{ ...userInfo, [name]: value }`: only the top-level
      key named by the input changes. */
  function EditTop(u: UserInfo, key: TopKey, v: string): (r: UserInfo)
    ensures TopValue(r, key) == Some(v)
    ensures forall k :: k != key ==> TopValue(r, k) == TopValue(u, k)
    ensures r.workExperience == u.workExperience && r.urls == u.urls && r.jobPreferences == u.jobPreferences
  {
    match key
    case Name => u.(name := v)
    case Address => u.(address := v)
    case PhoneNumber => u.(phoneNumber := v)
    case WorkEmail => u.(workEmail := v)
    case Education => u.(education := v)
    case LinkedIn => u.(linkedIn := Some(v))
    case GitHub => u.(github := Some(v))
  }

  /** The URL inputs go through the default branch: they fill the top-level
      `linkedIn`/`github` keys, and the `urls` record the inputs display
      stays as it was. */
  lemma UrlInputsMissUrls(u: UserInfo, v: string, w: string)
    ensures EditTop(EditTop(u, LinkedIn, v), GitHub, w).urls == u.urls
    ensures EditTop(EditTop(u, LinkedIn, v), GitHub, w).linkedIn == Some(v)
    ensures EditTop(EditTop(u, LinkedIn, v), GitHub, w).github == Some(w)
    ensures EditTop(EditTop(Initial, LinkedIn, v), GitHub, w).urls == Urls("", "")
  {
  }

  /** `addWorkExperience`: one blank entry more at the end, nothing else changes. */
  function AddWorkExperience(u: UserInfo): (r: UserInfo)
    ensures |r.workExperience| == |u.workExperience| + 1
    ensures r.workExperience[..|u.workExperience|] == u.workExperience
    ensures r.workExperience[|u.workExperience|] == BlankEntry
    ensures r.(workExperience := u.workExperience) == u
  {
    u.(workExperience := u.workExperience + [BlankEntry])
  }

  /** A change from one rendered input, or a press of "Add Work Experience". */
  datatype Event =
    | WorkEdit(index: int, field: WorkField, value: string)
    | PrefEdit(index: int, list: PrefList, value: string)
    | TopEdit(key: TopKey, value: string)
    | AddWork

  /** The event comes from an input that is rendered for `u`: indices are
      those of the lists the form maps over. */
  predicate Rendered(u: UserInfo, e: Event) {
    match e
    case WorkEdit(i, _, _) => 0 <= i < |u.workExperience|
    case PrefEdit(i, l, _) => 0 <= i < |ListOf(u.jobPreferences, l)|
    case _ => true
  }

  /** `handleInputChange` and `addWorkExperience`. */
  function Step(u: UserInfo, e: Event): (r: UserInfo)
    requires Rendered(u, e)
    ensures |r.jobPreferences.jobTitlePreferred| == |u.jobPreferences.jobTitlePreferred|
    ensures |r.jobPreferences.jobLocationPreferred| == |u.jobPreferences.jobLocationPreferred|
    ensures r.urls == u.urls
    ensures |r.workExperience| == |u.workExperience| + (if e.AddWork? then 1 else 0)
    ensures e.WorkEdit? ==> FieldOf(r.workExperience[e.index], e.field) == e.value
    ensures e.PrefEdit? ==> ListOf(r.jobPreferences, e.list)[e.index] == e.value
    ensures e.TopEdit? ==> TopValue(r, e.key) == Some(e.value)
  {
    match e
    case WorkEdit(i, f, v) => EditWork(u, i, f, v)
    case PrefEdit(i, l, v) => EditPref(u, i, l, v)
    case TopEdit(k, v) => EditTop(u, k, v)
    case AddWork => AddWorkExperience(u)
  }

  /** A session of events; `None` when an event names an input that is not
      rendered at that point. */
  function Run(u: UserInfo, events: seq<Event>): (r: Option<UserInfo>)
    ensures |events| == 0 ==> r == Some(u)
    ensures |events| > 0 && !Rendered(u, events[0]) ==> r.None?
    ensures (forall k :: 0 <= k < |events| ==> events[k].TopEdit? || events[k].AddWork?) ==> r.Some?
    decreases |events|
  {
    if |events| == 0 then Some(u)
    else if !Rendered(u, events[0]) then None
    else Run(Step(u, events[0]), events[1..])
  }

  /** A session stops at the first event, at any position, whose input is
      not rendered at that point, whatever follows it. */
  lemma {:induction false} RunStopsAtUnrendered(u: UserInfo, before: seq<Event>, e: Event, after: seq<Event>)
    requires Run(u, before).Some?
    requires !Rendered(Run(u, before).value, e)
    ensures Run(u, before + [e] + after).None?
    decreases |before|
  {
    if |before| == 0 {
      assert before + [e] + after == [e] + after;
    } else {
      assert (before + [e] + after)[1..] == before[1..] + [e] + after;
      RunStopsAtUnrendered(Step(u, before[0]), before[1..], e, after);
    }
  }

  function CountAdds(events: seq<Event>): nat
    decreases |events|
  {
    if |events| == 0 then 0 else (if events[0].AddWork? then 1 else 0) + CountAdds(events[1..])
  }

  /** Over any session: both preference lists keep their length, the `urls`
      record never changes, and each "Add" press adds exactly one entry. */
  lemma {:induction false} RunKeepsShape(u: UserInfo, events: seq<Event>)
    requires Run(u, events).Some?
    ensures |Run(u, events).value.jobPreferences.jobTitlePreferred| == |u.jobPreferences.jobTitlePreferred|
    ensures |Run(u, events).value.jobPreferences.jobLocationPreferred| == |u.jobPreferences.jobLocationPreferred|
    ensures Run(u, events).value.urls == u.urls
    ensures |Run(u, events).value.workExperience| == |u.workExperience| + CountAdds(events)
    decreases |events|
  {
    if |events| > 0 {
      var e := events[0];
      var u' := Step(u, e);
      RunKeepsShape(u', events[1..]);
      match e
      case PrefEdit(i, l, v) =>
        assert ListOf(u'.jobPreferences, JobTitlePreferred) == u'.jobPreferences.jobTitlePreferred;
        assert ListOf(u'.jobPreferences, JobLocationPreferred) == u'.jobPreferences.jobLocationPreferred;
      case _ =>
    }
  }

  /** From the initial form, the preference lists always hold four entries
      and the `urls` record stays blank. */
  lemma SessionsFromInitial(events: seq<Event>)
    requires Run(Initial, events).Some?
    ensures |Run(Initial, events).value.jobPreferences.jobTitlePreferred| == 4
    ensures |Run(Initial, events).value.jobPreferences.jobLocationPreferred| == 4
    ensures Run(Initial, events).value.urls == Urls("", "")
    ensures |Run(Initial, events).value.workExperience| == 1 + CountAdds(events)
  {
    RunKeepsShape(Initial, events);
  }
}
