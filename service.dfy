/** The enrollment service: it checks that the user and the course exist through
    the two lookup SDKs, then persists a pending enrollment; listing, counting and
    status updates go straight to the repository.

    Each SDK transport is reduced to what its `Get` reports for an id (`Pass`, or
    the error it returns). The ghost `calls` trace records the collaborator calls
    in the order the service makes them. */
module Service {
  import opened Options
  import opened Errors
  import opened Domain
  import opened Repository

  /** A call the service makes to a collaborator. */
  datatype Call = GetUser(userId: string) | GetCourse(courseId: string) | Persist(record: Enrollment)

  /** The status every new enrollment starts with: pending. */
  const Pending: string := "P"

  class EnrollmentService {
    /** `userTrans.Get`: whether the user exists, or the error the SDK reports. */
    const users: string -> Outcome
    /** `courseTrans.Get`, likewise for courses. */
    const courses: string -> Outcome
    const repo: Repo
    /** The collaborator calls made so far, oldest first. */
    ghost var calls: seq<Call>

    constructor (users: string -> Outcome, courses: string -> Outcome, repo: Repo)
      ensures this.users == users && this.courses == courses && this.repo == repo
      ensures calls == []
    {
      this.users := users;
      this.courses := courses;
      this.repo := repo;
      calls := [];
    }

    /** Looks up the user, then the course, then stores a pending enrollment.
        The first failure is returned unchanged and nothing after it is called. */
    method Create(userId: string, courseId: string, dbError: Option<string>) returns (r: Result<Record>)
      requires repo.Valid()
      modifies this, repo
      ensures repo.Valid()
      // a failing user lookup ends the call: no course lookup, no write
      ensures users(userId).Fail? ==>
        && r == Failure(users(userId).error)
        && calls == old(calls) + [GetUser(userId)]
        && unchanged(repo)
      // a failing course lookup ends the call: no write
      ensures users(userId).Pass? && courses(courseId).Fail? ==>
        && r == Failure(courses(courseId).error)
        && calls == old(calls) + [GetUser(userId), GetCourse(courseId)]
        && unchanged(repo)
      // both exist: the repository receives a pending record without an id
      ensures users(userId).Pass? && courses(courseId).Pass? ==>
        calls == old(calls) + [GetUser(userId), GetCourse(courseId), Persist(Enrollment("", userId, courseId, Pending))]
      ensures users(userId).Pass? && courses(courseId).Pass? && dbError.Some? ==>
        r == Failure(Unexpected(dbError.value)) && unchanged(repo)
      // stored: the caller gets the record with the id the repository assigned
      ensures users(userId).Pass? && courses(courseId).Pass? && dbError.None? ==>
        && r.Success? && fresh(r.value)
        && r.value.userId == userId && r.value.courseId == courseId && r.value.status == Pending
        && r.value.id != "" && r.value.id !in IdsOf(old(repo.rows))
        && repo.rows == old(repo.rows) + [Row(r.value.Value(), old(repo.clock))]
        && repo.clock == old(repo.clock) + 1
    {
      var enroll := new Record(userId, courseId, Pending);

      calls := calls + [GetUser(userId)];
      var userOutcome := users(userId);
      if userOutcome.Fail? {
        return Failure(userOutcome.error);
      }

      calls := calls + [GetCourse(courseId)];
      var courseOutcome := courses(courseId);
      if courseOutcome.Fail? {
        return Failure(courseOutcome.error);
      }

      calls := calls + [Persist(enroll.Value())];
      var stored := repo.Create(enroll, dbError);
      if stored.Fail? {
        return Failure(stored.error);
      }
      r := Success(enroll);
    }

    /** The repository's page, or its error, unchanged. */
    function GetAll(f: Filters, offset: nat, limit: nat, dbError: Option<string>): (r: Result<seq<Row>>)
      reads repo
      requires repo.Valid() && limit >= 1
      ensures r == repo.GetAll(f, offset, limit, dbError)
    {
      match repo.GetAll(f, offset, limit, dbError)
      case Failure(e) => Failure(e)
      case Success(enrollments) => Success(enrollments)
    }

    /** The repository's update, with the same id and status, and its outcome unchanged. */
    method Update(id: string, status: string, dbError: Option<string>) returns (r: Outcome)
      requires repo.Valid()
      modifies repo
      ensures repo.Valid() && repo.clock == old(repo.clock)
      ensures r == UpdateOutcome(old(repo.rows), id, dbError)
      ensures repo.rows == AfterUpdate(old(repo.rows), id, status, dbError)
    {
      r := repo.Update(id, status, dbError);
      if r.Fail? {
        return Fail(r.error);
      }
      r := Pass;
    }

    /** The repository's count, or its error, unchanged. */
    function Count(f: Filters, dbError: Option<string>): (r: Result<nat>)
      reads repo
      requires repo.Valid()
      ensures r == repo.Count(f, dbError)
    {
      repo.Count(f, dbError)
    }
  }

  /** A lookup for which every id exists. */
  function Exists(id: string): Outcome {
    Pass
  }

  /** Creating an enrollment on an empty table when both lookups find their ids
      stores exactly one pending row. */
  method CreateOnEmptyTable(svc: EnrollmentService, userId: string, courseId: string) returns (row: Row)
    requires svc.users == Exists && svc.courses == Exists
    requires svc.repo.Valid() && svc.repo.rows == [] && svc.repo.clock == 0
    modifies svc, svc.repo
    ensures svc.repo.Valid() && svc.repo.rows == [row]
    ensures row == Row(Enrollment(row.enrollment.id, userId, courseId, Pending), 0)
    ensures row.enrollment.id != ""
  {
    var r := svc.Create(userId, courseId, None);
    row := Row(r.value.Value(), 0);
  }

  /** Listing a table that holds one matching row returns that row. */
  method ListOnlyRow(svc: EnrollmentService, row: Row, f: Filters) returns (listed: seq<Row>)
    requires svc.repo.Valid() && svc.repo.rows == [row] && Matches(f, row.enrollment)
    ensures listed == [row]
  {
    OnlyRowListed(row, f, 10);
    listed := svc.GetAll(f, 0, 10, None).value;
  }

  /** Updating the status of the only row of a table. */
  method UpdateOnlyRowVia(svc: EnrollmentService, row: Row, status: string)
    requires svc.repo.Valid() && svc.repo.rows == [row]
    modifies svc.repo
    ensures svc.repo.Valid()
    ensures svc.repo.rows == [Row(row.enrollment.(status := status), row.createdAt)]
  {
    var u := svc.Update(row.enrollment.id, status, None);
    UpdateOnlyRow(row, status);
  }

  /** The create-list-update-list flow against a fresh table, with both lookups
      succeeding: the new enrollment is listed once as pending, and after a status
      update to "A" it is listed once as active. */
  method CreateListUpdateList() returns (created: Enrollment, before: seq<Row>, after: seq<Row>)
    ensures created.userId == "11" && created.courseId == "22" && created.status == "P" && created.id != ""
    ensures before == [Row(created, 0)]
    ensures after == [Row(created.(status := "A"), 0)]
  {
    var repo := new Repo([], 0);
    var svc := new EnrollmentService(Exists, Exists, repo);
    var f := Filters("11", "22");

    var row := CreateOnEmptyTable(svc, "11", "22");
    created := row.enrollment;
    before := ListOnlyRow(svc, row, f);

    UpdateOnlyRowVia(svc, row, "A");
    after := ListOnlyRow(svc, Row(created.(status := "A"), 0), f);
  }
}
