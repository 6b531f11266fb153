/** The records exchanged between the database, the server and the browser.
    Identifiers are kept in the textual form in which the database holds and
    compares them; timestamps are integers. */
module Rows {

  /** A salary cell: absent (SQL NULL / JavaScript `undefined`), a number, or text. */
  datatype Salary = NoSalary | Amount(n: int) | Words(s: string) {

    /** JavaScript truthiness: `null`, `0` and `''` are falsy. */
    predicate Falsy() {
      NoSalary? || (Amount? && n == 0) || (Words? && s == "")
    }
  }

  /** A row of the `processed_job` table. `id` is the internal row id,
      `jk` the public job key used in URLs; the two are independent. */
  datatype JobRow = JobRow(
    id: string,
    jk: string,
    title: string,
    companyName: string,
    location: string,
    link: string,
    salary: Salary,
    jobType: string,
    description: string,
    postDate: int,
    scrapTime: int)

  /** The JSON body the job detail page posts to `/mark-applied`. */
  datatype JobApplication = JobApplication(
    jobId: string,
    jobLink: string,
    companyName: string,
    companyLocation: string,
    salary: Salary,
    jobType: string,
    jobDescription: string)

  /** A row of the `applied_jobs` ledger. Its key column is `job_jk`. */
  datatype AppliedRow = AppliedRow(
    jobKey: string,
    jobLink: string,
    companyName: string,
    companyLocation: string,
    salary: Salary,
    jobType: string,
    jobDescription: string,
    appliedAt: int)
}
