/** The error values of the enrollment package and the wrappers that carry them.

    Go returns `(value, error)` pairs; here a `Result` carries either the value or the
    error, and an `Outcome` is an `error` return that may be nil (`Pass`). */
module Errors {

  /** Every error value that reaches a caller of the repository or the service.
      The first four are declared by the package itself; the last two stand for
      errors made elsewhere that the package passes on unchanged. */
  datatype Error =
    | UserIdRequired                      // ErrUserIDRequired
    | CourseIdRequired                    // ErrCourseIDRequired
    | StatusRequired                      // ErrStatusRequired
    | NotFound(enrollmentId: string)      // ErrNotFound{EnrollmentsID}
    | UpstreamNotFound(message: string)   // the user/course SDKs' own ErrNotFound{Message}
    | Unexpected(message: string)         // any other error value (driver errors, errors.New)

  datatype Result<T> = Success(value: T) | Failure(error: Error)

  datatype Outcome = Pass | Fail(error: Error)

  predicate IsSentinel(e: Error) {
    e.UserIdRequired? || e.CourseIdRequired? || e.StatusRequired?
  }

  const NotFoundPrefix: string := "enrollment '"
  const NotFoundSuffix: string := "' doesn't exist"

  /** What `err.Error()` returns for each error value. */
  function Message(e: Error): string {
    match e
    case UserIdRequired => "user id is required"
    case CourseIdRequired => "course id is required"
    case StatusRequired => "status is required"
    case NotFound(id) => NotFoundPrefix + id + NotFoundSuffix
    case UpstreamNotFound(m) => m
    case Unexpected(m) => m
  }

  /** The three sentinels carry fixed texts. */
  lemma SentinelMessages()
    ensures Message(UserIdRequired) == "user id is required"
    ensures Message(CourseIdRequired) == "course id is required"
    ensures Message(StatusRequired) == "status is required"
  {
  }

  /** The not-found message wraps the id between a fixed prefix and a fixed suffix. */
  lemma NotFoundMessageShape(id: string)
    ensures |Message(NotFound(id))| == |id| + 27
    ensures Message(NotFound(id))[..12] == "enrollment '"
    ensures Message(NotFound(id))[12..12 + |id|] == id
    ensures Message(NotFound(id))[12 + |id|..] == "' doesn't exist"
  {
    var m := Message(NotFound(id));
    assert |NotFoundPrefix| == 12 && |NotFoundSuffix| == 15;
    assert m == NotFoundPrefix + (id + NotFoundSuffix);
    assert m[..12] == NotFoundPrefix;
    assert m[12..] == id + NotFoundSuffix;
    assert m[12..][..|id|] == id;
    assert m[12..][|id|..] == NotFoundSuffix;
  }

  /** For id "20" the message is the text the endpoint test expects. */
  lemma NotFoundMessageExample()
    ensures Message(NotFound("20")) == "enrollment '20' doesn't exist"
  {
    assert NotFoundPrefix + "20" + NotFoundSuffix == "enrollment '20' doesn't exist";
  }

  /** The not-found message determines the id: equal messages iff equal ids. */
  lemma {:induction false} NotFoundMessageInjective(a: string, b: string)
    ensures Message(NotFound(a)) == Message(NotFound(b)) <==> a == b
  {
    if Message(NotFound(a)) == Message(NotFound(b)) {
      NotFoundMessageShape(a);
      NotFoundMessageShape(b);
      assert |a| == |b|;
    }
  }

  /** A not-found message never reads like one of the three sentinels,
      since it always starts with "enrollment '". */
  lemma NotFoundNeverSentinel(id: string, e: Error)
    requires IsSentinel(e)
    ensures Message(NotFound(id)) != Message(e)
  {
    NotFoundMessageShape(id);
    assert Message(NotFound(id))[0] == 'e';
  }
}
