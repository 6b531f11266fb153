/** The detail page talking to the server: the page opened at `/jobs/<jk>`
    loads the job with key `jk`, and its "Mark as Applied" button posts to
    `/mark-applied`. The server's reply reaches the page the way axios
    delivers it: a 200 body is read, any other status throws. */
module Interplay {
  import opened Common
  import opened Rows
  import opened Auth
  import Detail
  import Server

  /** What the page's `try` block sees of a `/mark-applied` reply. */
  function Received(reply: Server.Reply<Server.MarkReply>): (p: Detail.PostResult)
    ensures reply.Ok? <==> p.Replied?
    ensures reply.Ok? ==> p.success == reply.body.success
  {
    match reply
    case Ok(body) => Detail.Replied(body.success)
    case Status(_, _) => Detail.Threw
  }

  /** The page's post, answered by the server holding `db`: it succeeds
      exactly when the token is accepted and the insert works, and every
      failure reaches the page as an exception. */
  function Post(db: Server.Db, header: Option<string>, verify: string -> Option<Claims>,
                now: int, fault: bool): (post: JobApplication -> Detail.PostResult)
    ensures forall a :: post(a) == Detail.Replied(true) <==> Authenticate(header, verify).Admitted? && !fault
    ensures forall a :: post(a) == Detail.Replied(true) || post(a) == Detail.Threw
  {
    a => Received(Server.MarkApplied(db, header, verify, a, now, fault).0)
  }

  /** The job the page at `/jobs/<jk>` shows, if the server finds it. */
  function Opened(db: Server.Db, header: Option<string>, verify: string -> Option<Claims>, jk: string): (job: Option<JobRow>)
    ensures job.Some? ==> job.value in db.jobs && job.value.jk == jk
    ensures job.None? ==> Server.JobByKey(db, header, verify, jk, false).Status?
  {
    match Server.JobByKey(db, header, verify, jk, false)
    case Ok(j) => Some(j)
    case Status(_, _) => None
  }

  /** With a valid token and a working database, marking an opened job
      shows "Applied" and appends exactly one ledger row, keyed by the job's
      internal `id`, while the job table is untouched. */
  lemma MarkFromDetailPage(db: Server.Db, header: Option<string>, verify: string -> Option<Claims>,
                           jk: string, now: int)
    requires Authenticate(header, verify).Admitted?
    requires Opened(db, header, verify, jk).Some?
    ensures var job := Opened(db, header, verify, jk).value;
      && Detail.MarkAsApplied(Some(job), Detail.NotApplied, Post(db, header, verify, now, false)).status == Detail.Applied
      && var db' := Server.MarkApplied(db, header, verify, Detail.ApplicationFor(job), now, false).1;
      && |db'.ledger| == |db.ledger| + 1
      && db'.ledger[|db.ledger|].jobKey == job.id
      && db'.jobs == db.jobs
  {
  }

  /** Without a usable token, or when the insert fails, the page shows
      "Failed to mark as applied" and the ledger stays as it was. */
  lemma MarkFailsVisibly(db: Server.Db, header: Option<string>, verify: string -> Option<Claims>,
                         job: JobRow, now: int, fault: bool)
    requires !Authenticate(header, verify).Admitted? || fault
    ensures Detail.MarkAsApplied(Some(job), Detail.NotApplied, Post(db, header, verify, now, fault)).status == Detail.FailedToMark
    ensures Detail.MarkAsApplied(Some(job), Detail.NotApplied, Post(db, header, verify, now, fault)).status.Caption() == "Failed to mark as applied"
    ensures Server.MarkApplied(db, header, verify, Detail.ApplicationFor(job), now, fault).1 == db
  {
  }

  /** As written, the page posts the job's `id` while `/is-applied/:job_jk`
      looks rows up by the public key: after marking a job whose `id`
      differs from its key, the job still reads as not applied. */
  lemma MarkedJobStillNotApplied(db: Server.Db, header: Option<string>, verify: string -> Option<Claims>,
                                 jk: string, now: int)
    requires Authenticate(header, verify).Admitted?
    requires Opened(db, header, verify, jk).Some?
    requires Opened(db, header, verify, jk).value.id != jk
    requires forall row :: row in db.ledger ==> row.jobKey != jk
    ensures var db' := Server.MarkApplied(db, header, verify, Detail.ApplicationFor(Opened(db, header, verify, jk).value), now, false).1;
      Server.IsApplied(db', header, verify, jk, false) == Server.Ok(false)
  {
    var job := Opened(db, header, verify, jk).value;
    var db' := Server.MarkApplied(db, header, verify, Detail.ApplicationFor(job), now, false).1;
    assert db'.ledger == db.ledger + [Server.LedgerRow(Detail.ApplicationFor(job), now)];
  }

  /** The application the page evidently means to post: the same fields,
      keyed by the job's public key. */
  function IntendedApplicationFor(job: JobRow): (a: JobApplication)
    ensures a.jobId == job.jk
    ensures a.(jobId := job.id) == Detail.ApplicationFor(job)
  {
    Detail.ApplicationFor(job).(jobId := job.jk)
  }

  /** The detail page's mark with the intended application. */
  function IntendedMark(job: Option<JobRow>, status: Detail.Status, post: JobApplication -> Detail.PostResult): (o: Detail.MarkOutcome)
    ensures job.None? ==> o == Detail.MarkOutcome(status, None)
    ensures job.Some? ==> o.sent == Some(IntendedApplicationFor(job.value))
    ensures job.Some? ==> (o.status == Detail.Applied <==> post(IntendedApplicationFor(job.value)) == Detail.Replied(true))
    ensures job.Some? ==> (o.status == Detail.FailedToMark <==> post(IntendedApplicationFor(job.value)) != Detail.Replied(true))
  {
    match job
    case None => Detail.MarkOutcome(status, None)
    case Some(j) =>
      var a := IntendedApplicationFor(j);
      if post(a) == Detail.Replied(true) then Detail.MarkOutcome(Detail.Applied, Some(a))
      else Detail.MarkOutcome(Detail.FailedToMark, Some(a))
  }

  /** With the intended key, a valid token and a working database, the page
      shows "Applied" and the server afterwards reports the job as applied. */
  lemma IntendedMarkIsVisible(db: Server.Db, header: Option<string>, verify: string -> Option<Claims>,
                              jk: string, now: int)
    requires Authenticate(header, verify).Admitted?
    requires Opened(db, header, verify, jk).Some?
    ensures var job := Opened(db, header, verify, jk).value;
      && IntendedMark(Some(job), Detail.NotApplied, Post(db, header, verify, now, false)).status == Detail.Applied
      && var db' := Server.MarkApplied(db, header, verify, IntendedApplicationFor(job), now, false).1;
      Server.IsApplied(db', header, verify, jk, false) == Server.Ok(true)
  {
    var job := Opened(db, header, verify, jk).value;
    Server.IsAppliedAfterMark(db, header, verify, IntendedApplicationFor(job), now, jk);
  }
}
