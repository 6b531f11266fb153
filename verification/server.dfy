/** The REST endpoints of `server/server.js` over an immutable picture of
    the database: the `users` table, the `processed_job` table and the
    `applied_jobs` ledger. Password hashing, token signing and verification
    are parameters; `fault` stands for a failing database query. */
module Server {
  import opened Common
  import opened Rows
  import opened Auth

  datatype User = User(id: string, username: string, passwordHash: string)

  datatype Db = Db(users: seq<User>, jobs: seq<JobRow>, ledger: seq<AppliedRow>)

  /** A reply: status 200 with a JSON body, or another status with a message. */
  datatype Reply<T> = Ok(body: T) | Status(code: int, message: string)

  /** `res.sendStatus(401)` / `res.sendStatus(403)`. */
  function Denied<T>(v: Verdict): (r: Reply<T>)
    requires !v.Admitted?
    ensures r.Status? && r.code == v.StatusCode()
  {
    if v.NoToken? then Status(401, "Unauthorized") else Status(403, "Forbidden")
  }

  // ---------------------------------------------------------------- login

  /** The one message for every refused login. */
  const BadCredentials := "Username or password incorrect"

  /** `expiresIn: '1h'`, in seconds. */
  const TokenLifetime: nat := 3600

  /** The arguments of `jwt.sign`: the claims and the lifetime. */
  datatype SignRequest = SignRequest(claims: Claims, expiresInSeconds: nat)

  /** `findUserByUsername`: the first user row with that name. */
  function FindUser(users: seq<User>, username: string): (r: Option<User>)
    ensures r.Some? ==> r.value in users && r.value.username == username
    ensures r.None? <==> forall u :: u in users ==> u.username != username
    decreases |users|
  {
    if |users| == 0 then None
    else if users[0].username == username then Some(users[0])
    else FindUser(users[1..], username)
  }

  /** A user added at the end is found only if no earlier user has the name. */
  lemma {:induction false} FindUserAppend(users: seq<User>, x: User, username: string)
    ensures FindUser(users + [x], username) ==
      if FindUser(users, username).Some? then FindUser(users, username)
      else if x.username == username then Some(x) else None
    decreases |users|
  {
    if |users| > 0 {
      assert (users + [x])[1..] == users[1..] + [x];
      FindUserAppend(users[1..], x, username);
    } else {
      assert users + [x] == [x];
    }
  }

  /** `POST /login`, with `bcrypt.compare` as `compare` and `jwt.sign` as `sign`. */
  function Login(db: Db, username: string, password: string,
                 compare: (string, string) -> bool, sign: SignRequest -> string, fault: bool): (r: Reply<string>)
    ensures fault ==> r == Status(500, "Internal server error")
    ensures !fault && FindUser(db.users, username).None? ==> r == Status(401, BadCredentials)
    ensures r.Ok? <==> !fault && FindUser(db.users, username).Some?
                         && compare(password, FindUser(db.users, username).value.passwordHash)
    ensures !fault && !r.Ok? ==> r == Status(401, BadCredentials)
    ensures r.Ok? ==> r.body == sign(SignRequest(Claims(FindUser(db.users, username).value.id, username), TokenLifetime))
  {
    if fault then Status(500, "Internal server error")
    else
      match FindUser(db.users, username)
      case None => Status(401, BadCredentials)
      case Some(u) =>
        if !compare(password, u.passwordHash) then Status(401, BadCredentials)
        else Ok(sign(SignRequest(Claims(u.id, u.username), TokenLifetime)))
  }

  /** An unknown name and a wrong password get the very same reply, so a
      caller cannot tell which check failed. */
  lemma LoginHidesWhichCheckFailed(db: Db, unknown: string, known: string, password: string, wrong: string,
                                   compare: (string, string) -> bool, sign: SignRequest -> string)
    requires FindUser(db.users, unknown).None?
    requires FindUser(db.users, known).Some? && !compare(wrong, FindUser(db.users, known).value.passwordHash)
    ensures Login(db, unknown, password, compare, sign, false) == Login(db, known, wrong, compare, sign, false)
  {
  }

  // ------------------------------------------------------------- register

  /** `POST /register`, with `bcrypt.hash` as `hash` and the new row id as `newId`.
      A failing insert (such as a rejected duplicate name) is a `fault`. */
  function Register(db: Db, username: string, password: string,
                    hash: string -> string, newId: string, fault: bool): (r: (Reply<Claims>, Db))
    ensures fault ==> r == (Status(500, "Server error"), db)
    ensures !fault ==> r.0 == Ok(Claims(newId, username))
    ensures !fault ==> r.1.users == db.users + [User(newId, username, hash(password))]
    ensures r.1.jobs == db.jobs && r.1.ledger == db.ledger
  {
    if fault then (Status(500, "Server error"), db)
    else (Ok(Claims(newId, username)), db.(users := db.users + [User(newId, username, hash(password))]))
  }

  /** A new user can log in with the password they registered with, given
      that a password always matches its own hash, and the token names them. */
  lemma RegisterThenLogin(db: Db, username: string, password: string, hash: string -> string, newId: string,
                          compare: (string, string) -> bool, sign: SignRequest -> string)
    requires FindUser(db.users, username).None?
    requires compare(password, hash(password))
    ensures Login(Register(db, username, password, hash, newId, false).1, username, password, compare, sign, false)
         == Ok(sign(SignRequest(Claims(newId, username), TokenLifetime)))
  {
    FindUserAppend(db.users, User(newId, username, hash(password)), username);
  }

  /** If a second row with a taken name were stored, logins would still be
      checked against the first row only. */
  lemma FirstRegistrationWins(db: Db, username: string, password: string, hash: string -> string, newId: string,
                              attempt: string, compare: (string, string) -> bool, sign: SignRequest -> string)
    requires FindUser(db.users, username).Some?
    ensures Login(Register(db, username, password, hash, newId, false).1, username, attempt, compare, sign, false)
         == Login(db, username, attempt, compare, sign, false)
  {
    FindUserAppend(db.users, User(newId, username, hash(password)), username);
  }

  // --------------------------------------------------------- mark-applied

  /** The ledger row `INSERT ... VALUES ($1, ..., $7, NOW())` creates: the
      posted `jobId` goes into the `job_jk` column. */
  function LedgerRow(body: JobApplication, now: int): (row: AppliedRow)
    ensures row.jobKey == body.jobId && row.appliedAt == now
    ensures row.jobLink == body.jobLink && row.companyName == body.companyName
    ensures row.companyLocation == body.companyLocation && row.salary == body.salary
    ensures row.jobType == body.jobType && row.jobDescription == body.jobDescription
  {
    AppliedRow(body.jobId, body.jobLink, body.companyName, body.companyLocation,
               body.salary, body.jobType, body.jobDescription, now)
  }

  /** `{ success, message, job }`. */
  datatype MarkReply = MarkReply(success: bool, message: string, job: AppliedRow)

  /** `POST /mark-applied`: one insert into the ledger, nothing else. */
  function MarkApplied(db: Db, header: Option<string>, verify: string -> Option<Claims>,
                       body: JobApplication, now: int, fault: bool): (r: (Reply<MarkReply>, Db))
    ensures !Authenticate(header, verify).Admitted? ==> r == (Denied(Authenticate(header, verify)), db)
    ensures Authenticate(header, verify).Admitted? && fault ==> r == (Status(500, "Database operation failed."), db)
    ensures Authenticate(header, verify).Admitted? && !fault ==>
      r.1.ledger == db.ledger + [LedgerRow(body, now)]
      && r.0 == Ok(MarkReply(true, "Job marked as applied.", LedgerRow(body, now)))
    ensures r.1.jobs == db.jobs && r.1.users == db.users
    ensures r.1.ledger[..|db.ledger|] == db.ledger
  {
    var v := Authenticate(header, verify);
    if !v.Admitted? then (Denied(v), db)
    else if fault then (Status(500, "Database operation failed."), db)
    else
      var row := LedgerRow(body, now);
      (Ok(MarkReply(true, "Job marked as applied.", row)), db.(ledger := db.ledger + [row]))
  }

  /** Posting the same body twice stores two rows with the same key: there
      is no duplicate check and no flag on the job. */
  lemma MarkAppliedTwice(db: Db, header: Option<string>, verify: string -> Option<Claims>,
                         body: JobApplication, t1: int, t2: int)
    requires Authenticate(header, verify).Admitted?
    ensures var db2 := MarkApplied(MarkApplied(db, header, verify, body, t1, false).1, header, verify, body, t2, false).1;
      |db2.ledger| == |db.ledger| + 2
      && db2.ledger[|db.ledger|].jobKey == db2.ledger[|db.ledger| + 1].jobKey == body.jobId
      && db2.jobs == db.jobs
  {
  }

  // ----------------------------------------------------------- is-applied

  /** Some ledger row carries the key `jk`. */
  function LedgerHas(ledger: seq<AppliedRow>, jk: string): (b: bool)
    ensures b <==> exists row :: row in ledger && row.jobKey == jk
    decreases |ledger|
  {
    if |ledger| == 0 then false
    else ledger[0].jobKey == jk || LedgerHas(ledger[1..], jk)
  }

  /** `GET /is-applied/:job_jk`: whether some ledger row has that key. */
  function IsApplied(db: Db, header: Option<string>, verify: string -> Option<Claims>,
                     jk: string, fault: bool): (r: Reply<bool>)
    ensures !Authenticate(header, verify).Admitted? ==> r == Denied(Authenticate(header, verify))
    ensures Authenticate(header, verify).Admitted? && fault ==> r == Status(500, "Internal Server Error")
    ensures Authenticate(header, verify).Admitted? && !fault ==>
      r.Ok? && (r.body <==> exists row :: row in db.ledger && row.jobKey == jk)
  {
    var v := Authenticate(header, verify);
    if !v.Admitted? then Denied(v)
    else if fault then Status(500, "Internal Server Error")
    else Ok(LedgerHas(db.ledger, jk))
  }

  /** After a successful mark, its key reads as applied, every other key
      reads as before, and a key once applied stays applied. */
  lemma IsAppliedAfterMark(db: Db, header: Option<string>, verify: string -> Option<Claims>,
                           body: JobApplication, now: int, jk: string)
    requires Authenticate(header, verify).Admitted?
    ensures var db' := MarkApplied(db, header, verify, body, now, false).1;
      && IsApplied(db', header, verify, body.jobId, false) == Ok(true)
      && (jk != body.jobId ==> IsApplied(db', header, verify, jk, false) == IsApplied(db, header, verify, jk, false))
      && (IsApplied(db, header, verify, jk, false) == Ok(true) ==> IsApplied(db', header, verify, jk, false) == Ok(true))
  {
    var db' := MarkApplied(db, header, verify, body, now, false).1;
    assert LedgerRow(body, now) in db'.ledger;
    forall row | row in db'.ledger && row.jobKey == jk && jk != body.jobId
      ensures row in db.ledger
    {
    }
  }

  // --------------------------------------------------------- job listings

  /** Most recently scraped first. */
  ghost predicate NewestFirst(s: seq<JobRow>) {
    forall i, j :: 0 <= i < j < |s| ==> s[i].scrapTime >= s[j].scrapTime
  }

  function Insert(x: JobRow, s: seq<JobRow>): (r: seq<JobRow>)
    requires NewestFirst(s)
    ensures NewestFirst(r)
    ensures multiset(r) == multiset(s) + multiset{x}
    ensures forall k :: 0 <= k < |r| ==> r[k] == x || r[k] in s
    decreases |s|
  {
    if |s| == 0 then [x]
    else if x.scrapTime >= s[0].scrapTime then [x] + s
    else
      assert s == [s[0]] + s[1..];
      [s[0]] + Insert(x, s[1..])
  }

  /** `ORDER BY scrap_time DESC`; rows with equal times keep table order. */
  function NewestFirstOrder(jobs: seq<JobRow>): (r: seq<JobRow>)
    ensures NewestFirst(r)
    ensures multiset(r) == multiset(jobs)
    decreases |jobs|
  {
    if |jobs| == 0 then []
    else
      assert jobs == [jobs[0]] + jobs[1..];
      Insert(jobs[0], NewestFirstOrder(jobs[1..]))
  }

  /** `GET /job-listings`: every job row, newest first; no row is dropped for
      being applied to or for its location. */
  function JobListings(db: Db, header: Option<string>, verify: string -> Option<Claims>, fault: bool): (r: Reply<seq<JobRow>>)
    ensures !Authenticate(header, verify).Admitted? ==> r == Denied(Authenticate(header, verify))
    ensures Authenticate(header, verify).Admitted? && fault ==> r == Status(500, "Internal Server Error")
    ensures Authenticate(header, verify).Admitted? && !fault ==>
      r.Ok? && NewestFirst(r.body) && multiset(r.body) == multiset(db.jobs)
  {
    var v := Authenticate(header, verify);
    if !v.Admitted? then Denied(v)
    else if fault then Status(500, "Internal Server Error")
    else Ok(NewestFirstOrder(db.jobs))
  }

  /** The first job row with public key `jk`. */
  function FindJob(jobs: seq<JobRow>, jk: string): (r: Option<JobRow>)
    ensures r.Some? ==> r.value in jobs && r.value.jk == jk
    ensures r.None? <==> forall j :: j in jobs ==> j.jk != jk
    decreases |jobs|
  {
    if |jobs| == 0 then None
    else if jobs[0].jk == jk then Some(jobs[0])
    else FindJob(jobs[1..], jk)
  }

  /** `GET /job-listings/:job_jk`: the row with that key, or 404. */
  function JobByKey(db: Db, header: Option<string>, verify: string -> Option<Claims>,
                    jk: string, fault: bool): (r: Reply<JobRow>)
    ensures !Authenticate(header, verify).Admitted? ==> r == Denied(Authenticate(header, verify))
    ensures Authenticate(header, verify).Admitted? && fault ==> r == Status(500, "Internal Server Error")
    ensures Authenticate(header, verify).Admitted? && !fault && r.Ok? ==> r.body in db.jobs && r.body.jk == jk
    ensures Authenticate(header, verify).Admitted? && !fault ==>
      (r == Status(404, "Job not found.") <==> forall j :: j in db.jobs ==> j.jk != jk)
    ensures Authenticate(header, verify).Admitted? && !fault ==> r.Ok? || r == Status(404, "Job not found.")
  {
    var v := Authenticate(header, verify);
    if !v.Admitted? then Denied(v)
    else if fault then Status(500, "Internal Server Error")
    else
      match FindJob(db.jobs, jk)
      case None => Status(404, "Job not found.")
      case Some(j) => Ok(j)
  }
}
