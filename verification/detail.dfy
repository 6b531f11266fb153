/** The job detail page (`frontend/src/JobDetail.js`): reading a map point
    out of the location text, the map centre, the body posted to mark a job
    applied, and the status shown on the button. */
module Detail {
  import opened Common
  import opened Rows

  /** The literal part `POINT\(` of the pattern. */
  const Opening := "POINT("

  /** The characters `.` refuses in a JavaScript regular expression. */
  predicate IsLineTerminator(c: char) {
    c == '\n' || c == '\r' || c == '\U{2028}' || c == '\U{2029}'
  }

  /** The characters `\s` accepts in a JavaScript regular expression. */
  predicate IsSpace(c: char) {
    || c == ' ' || c == '\t' || c == '\n' || c == '\U{B}' || c == '\U{C}' || c == '\r'
    || c == '\U{A0}' || c == '\U{1680}' || ('\U{2000}' <= c <= '\U{200A}')
    || c == '\U{2028}' || c == '\U{2029}' || c == '\U{202F}' || c == '\U{205F}'
    || c == '\U{3000}' || c == '\U{FEFF}'
  }

  /** `s[a..b]` holds no line terminator, so `.` accepts each of its characters. */
  predicate NoBreak(s: string, a: int, b: int) {
    0 <= a <= b <= |s| && forall j :: a <= j < b ==> !IsLineTerminator(s[j])
  }

  /** `(.+)\)` matched with the group `s[i+1..k]` and the parenthesis at `k`. */
  predicate GroupTwoAt(s: string, i: int, k: int) {
    0 <= i && i + 1 < k < |s| && NoBreak(s, i + 1, k) && s[k] == ')'
  }

  /** `/POINT\((.+)\s(.+)\)/` matched starting at `p`, with the first group
      `s[p+6..i]`, the whitespace at `i` and the second group `s[i+1..k]`. */
  predicate MatchAt(s: string, p: int, i: int, k: int) {
    && 0 <= p && p + 6 < i < |s|
    && s[p..p + 6] == Opening
    && NoBreak(s, p + 6, i)
    && IsSpace(s[i])
    && GroupTwoAt(s, i, k)
  }

  /** No match starts before `p`. */
  ghost predicate NoMatchBefore(s: string, p: int) {
    forall q, i, k :: 0 <= q < p ==> !MatchAt(s, q, i, k)
  }

  /** Among the matches at `p`, `(i, k)` is the one backtracking reports:
      the first group as long as possible, then the second as long as possible. */
  ghost predicate Greediest(s: string, p: int, i: int, k: int) {
    forall i', k' :: MatchAt(s, p, i', k') ==> i' < i || (i' == i && k' <= k)
  }

  /** The match `String.prototype.match` returns: the leftmost start, then
      the greedy choice of both groups. */
  ghost predicate JsMatch(s: string, p: int, i: int, k: int) {
    MatchAt(s, p, i, k) && NoMatchBefore(s, p) && Greediest(s, p, i, k)
  }

  /** The first line terminator at or after `a`, or the end of `s`. */
  function LineEnd(s: string, a: nat): (e: nat)
    requires a <= |s|
    ensures a <= e <= |s| && NoBreak(s, a, e)
    ensures e < |s| ==> IsLineTerminator(s[e])
    decreases |s| - a
  {
    if a == |s| || IsLineTerminator(s[a]) then a else LineEnd(s, a + 1)
  }

  /** A text without line terminators stays without them on a shorter range. */
  lemma NoBreakWithin(s: string, a: int, b: int, c: int)
    requires NoBreak(s, a, c)
    requires a <= b <= c
    ensures NoBreak(s, a, b)
  {
  }

  /** The range from `a` is free of line terminators exactly up to its line end. */
  lemma NoBreakUpToLineEnd(s: string, a: nat, b: int)
    requires a <= b <= |s|
    ensures NoBreak(s, a, b) <==> b <= LineEnd(s, a)
  {
    var e := LineEnd(s, a);
    if b <= e {
      NoBreakWithin(s, a, b, e);
    }
    if b > e {
      assert !IsLineTerminator(s[e]) ==> !NoBreak(s, a, b);
    }
  }

  /** `NoBreakUpToLineEnd` for every end point at once. */
  lemma NoBreakSpan(s: string, a: nat)
    requires a <= |s|
    ensures forall b :: a <= b <= |s| ==> (NoBreak(s, a, b) <==> b <= LineEnd(s, a))
  {
    forall b | a <= b <= |s|
      ensures NoBreak(s, a, b) <==> b <= LineEnd(s, a)
    {
      NoBreakUpToLineEnd(s, a, b);
    }
  }

  /** The last `)` strictly between `lo` and `hi`. */
  function LastClose(s: string, lo: nat, hi: nat): (r: Option<nat>)
    requires hi <= |s|
    ensures r.Some? ==> lo < r.value < hi && s[r.value] == ')'
    ensures r.Some? ==> forall k :: r.value < k < hi ==> s[k] != ')'
    ensures r.None? ==> forall k :: lo < k < hi ==> s[k] != ')'
    decreases hi
  {
    if hi <= lo + 1 then None
    else if s[hi - 1] == ')' then Some(hi - 1)
    else LastClose(s, lo, hi - 1)
  }

  /** The greedy second group after whitespace at `i`: the last `)` before
      the end of that line. */
  function CloseFor(s: string, i: nat): (r: Option<nat>)
    requires i < |s|
    ensures r.Some? ==> GroupTwoAt(s, i, r.value)
    ensures r.Some? ==> forall k :: GroupTwoAt(s, i, k) ==> k <= r.value
    ensures r.None? ==> forall k :: !GroupTwoAt(s, i, k)
  {
    var e := LineEnd(s, i + 1);
    var r := LastClose(s, i + 1, e);
    forall k | i + 1 < k < |s|
      ensures GroupTwoAt(s, i, k) <==> k < e && s[k] == ')'
    {
      NoBreakUpToLineEnd(s, i + 1, k);
    }
    r
  }

  /** The greedy whitespace position among `(lo, hi]`, with its greedy `)`. */
  function LastSplit(s: string, lo: nat, hi: int): (r: Option<(nat, nat)>)
    requires hi < |s|
    ensures r.Some? ==> lo < r.value.0 <= hi && IsSpace(s[r.value.0]) && GroupTwoAt(s, r.value.0, r.value.1)
    ensures r.Some? ==> forall k :: GroupTwoAt(s, r.value.0, k) ==> k <= r.value.1
    ensures r.Some? ==> forall i, k :: r.value.0 < i <= hi && IsSpace(s[i]) ==> !GroupTwoAt(s, i, k)
    ensures r.None? ==> forall i, k :: lo < i <= hi && IsSpace(s[i]) ==> !GroupTwoAt(s, i, k)
    decreases hi - lo
  {
    if hi <= lo then None
    else if IsSpace(s[hi]) && CloseFor(s, hi).Some? then Some((hi, CloseFor(s, hi).value))
    else LastSplit(s, lo, hi - 1)
  }

  /** The match backtracking finds when it starts at `p`, if any. */
  function MatchFrom(s: string, p: nat): (r: Option<(nat, nat)>)
    ensures r.Some? ==> MatchAt(s, p, r.value.0, r.value.1) && Greediest(s, p, r.value.0, r.value.1)
    ensures r.None? ==> forall i, k :: !MatchAt(s, p, i, k)
  {
    if p + 6 <= |s| && s[p..p + 6] == Opening then
      var e := LineEnd(s, p + 6);
      var hi := Min(e, |s| - 1);
      NoBreakSpan(s, p + 6);
      LastSplit(s, p + 6, hi)
    else
      None
  }

  /** The leftmost match starting at or after `p`. */
  function FirstMatch(s: string, p: nat): (r: Option<(nat, nat, nat)>)
    requires p <= |s|
    ensures r.Some? ==> p <= r.value.0 && MatchAt(s, r.value.0, r.value.1, r.value.2)
    ensures r.Some? ==> Greediest(s, r.value.0, r.value.1, r.value.2)
    ensures r.Some? ==> forall q, i, k :: p <= q < r.value.0 ==> !MatchAt(s, q, i, k)
    ensures r.None? ==> forall q, i, k :: p <= q ==> !MatchAt(s, q, i, k)
    decreases |s| - p
  {
    if p == |s| then None
    else
      match MatchFrom(s, p)
      case Some(m) => Some((p, m.0, m.1))
      case None => FirstMatch(s, p + 1)
  }

  /** A map point as the two captured tokens, longitude first. */
  datatype Coords = Coords(lng: string, lat: string)

  /** `parseLocation`: nothing for an absent or empty text or one without a
      match; otherwise longitude from the first group and latitude from the
      second, wherever in the text the match is. */
  function ParseLocation(loc: Option<string>): (r: Option<Coords>)
    ensures loc.None? || loc.value == "" ==> r.None?
    ensures loc.Some? && (forall p, i, k :: !MatchAt(loc.value, p, i, k)) ==> r.None?
    ensures loc.Some? && loc.value != "" && (exists p, i, k :: MatchAt(loc.value, p, i, k)) ==> r.Some?
    ensures r.Some? ==> exists p, i, k ::
      JsMatch(loc.value, p, i, k) && r.value == Coords(loc.value[p + 6..i], loc.value[i + 1..k])
  {
    if loc.None? || loc.value == "" then None
    else
      var s := loc.value;
      match FirstMatch(s, 0)
      case None => None
      case Some(m) =>
        assert JsMatch(s, m.0, m.1, m.2);
        Some(Coords(s[m.0 + 6..m.1], s[m.1 + 1..m.2]))
  }

  /** `POINT(a b)` with two tokens free of whitespace reads as longitude `a`
      and latitude `b`. */
  lemma ParsePlainPoint(a: string, b: string)
    requires |a| >= 1 && |b| >= 1
    requires forall j :: 0 <= j < |a| ==> !IsSpace(a[j])
    requires forall j :: 0 <= j < |b| ==> !IsSpace(b[j])
    ensures ParseLocation(Some(Opening + a + " " + b + ")")) == Some(Coords(a, b))
  {
    var s := Opening + a + " " + b + ")";
    var i0 := 6 + |a|;
    var k0 := |s| - 1;
    assert s[..6] == Opening && s[6..i0] == a && s[i0] == ' ' && s[i0 + 1..k0] == b && s[k0] == ')';
    assert NoBreak(s, 6, i0) by {
      forall j | 6 <= j < i0 ensures !IsLineTerminator(s[j]) {
        assert s[j] == a[j - 6];
      }
    }
    assert NoBreak(s, i0 + 1, k0) by {
      forall j | i0 + 1 <= j < k0 ensures !IsLineTerminator(s[j]) {
        assert s[j] == b[j - i0 - 1];
      }
    }
    assert MatchAt(s, 0, i0, k0);
    forall j | 0 <= j < |s| && j != i0
      ensures !IsSpace(s[j])
    {
      if j < 6 {
        assert s[j] == Opening[j];
      } else if j < i0 {
        assert s[j] == a[j - 6];
      } else if i0 < j < k0 {
        assert s[j] == b[j - i0 - 1];
      }
    }
    var r := ParseLocation(Some(s));
    var p, i, k :| JsMatch(s, p, i, k) && r.value == Coords(s[p + 6..i], s[i + 1..k]);
    assert p == 0;
    assert i == i0;
    assert k == k0;
  }

  /** The fixed map centre `{ lat: 38.624691, lng: -90.184776 }`, as text. */
  const DefaultCenter := Coords("-90.184776", "38.624691")

  /** `job ? parseLocation(job.job_location) : null`. */
  function LocationOf(job: Option<JobRow>): (r: Option<Coords>)
    ensures job.None? ==> r.None?
    ensures r.Some? ==> exists p, i, k :: MatchAt(job.value.location, p, i, k)
    ensures job.Some? && job.value.location != "" && (exists p, i, k :: MatchAt(job.value.location, p, i, k)) ==> r.Some?
    ensures job.Some? && r.Some? ==>
      exists p, i, k ::
        && JsMatch(job.value.location, p, i, k)
        && r.value == Coords(job.value.location[p + 6..i], job.value.location[i + 1..k])
  {
    if job.None? then None else ParseLocation(Some(job.value.location))
  }

  /** `location || defaultCenter`. */
  function Center(loc: Option<Coords>): (c: Coords)
    ensures loc.Some? ==> c == loc.value
    ensures loc.None? ==> c == DefaultCenter
  {
    loc.GetOr(DefaultCenter)
  }

  /** The map centres on the fixed default when the job is not loaded or
      its location holds no point. */
  lemma CenterWithoutPoint(job: Option<JobRow>)
    requires job.Some? ==> forall p, i, k :: !MatchAt(job.value.location, p, i, k)
    ensures Center(LocationOf(job)) == DefaultCenter
  {
  }

  /** The map centres on the job's own point when its location is `POINT(a b)`. */
  lemma CenterOnPlainPoint(job: JobRow, a: string, b: string)
    requires job.location == Opening + a + " " + b + ")"
    requires |a| >= 1 && |b| >= 1
    requires forall j :: 0 <= j < |a| ==> !IsSpace(a[j])
    requires forall j :: 0 <= j < |b| ==> !IsSpace(b[j])
    ensures Center(LocationOf(Some(job))) == Coords(a, b)
  {
    ParsePlainPoint(a, b);
  }

  /** The text shown when the salary is missing. */
  const NotProvided := "Not provided"

  /** The body of `handleMarkAsApplied`'s request. */
  function ApplicationFor(job: JobRow): (a: JobApplication)
    ensures a.jobId == job.id
    ensures a.jobLink == job.link && a.companyName == job.companyName && a.companyLocation == job.location
    ensures a.jobType == job.jobType && a.jobDescription == job.description
    ensures job.salary.Falsy() ==> a.salary == Words(NotProvided)
    ensures !job.salary.Falsy() ==> a.salary == job.salary
    ensures !a.salary.Falsy()
  {
    JobApplication(
      job.id,
      job.link,
      job.companyName,
      job.location,
      if job.salary.Falsy() then Words(NotProvided) else job.salary,
      job.jobType,
      job.description)
  }

  /** `applicationStatus`. */
  datatype Status = NotApplied | Applied | FailedToMark {

    function Caption(): string {
      match this
      case NotApplied => "Not Applied"
      case Applied => "Applied"
      case FailedToMark => "Failed to mark as applied"
    }
  }

  /** How the request ended for the page: a reply whose `success` field is
      read, or an exception (a non-2xx status or a network error). */
  datatype PostResult = Replied(success: bool) | Threw

  /** The new status and the request sent, if any. */
  datatype MarkOutcome = MarkOutcome(status: Status, sent: Option<JobApplication>)

  /** `handleMarkAsApplied`, with the network round trip as `post`. */
  function MarkAsApplied(job: Option<JobRow>, status: Status, post: JobApplication -> PostResult): (o: MarkOutcome)
    ensures job.None? ==> o == MarkOutcome(status, None)
    ensures job.Some? ==> o.sent == Some(ApplicationFor(job.value))
    ensures job.Some? ==> (o.status == Applied <==> post(ApplicationFor(job.value)) == Replied(true))
    ensures job.Some? ==> (o.status == FailedToMark <==> post(ApplicationFor(job.value)) != Replied(true))
  {
    if job.None? then MarkOutcome(status, None)
    else
      var body := ApplicationFor(job.value);
      match post(body)
      case Replied(ok) => MarkOutcome(if ok then Applied else FailedToMark, Some(body))
      case Threw => MarkOutcome(FailedToMark, Some(body))
  }

  /** The page does not consult the status before posting: a job already
      shown as applied is posted again, with the same body. */
  lemma RepostsWhenApplied(job: JobRow, post: JobApplication -> PostResult)
    ensures MarkAsApplied(Some(job), Applied, post).sent == MarkAsApplied(Some(job), NotApplied, post).sent != None
  {
  }
}
