/** The enrollment record of the shared domain package, as the enrollment package uses it. */
module Domain {

  /** The value of one enrollment: its id, the user and course it links, and its status. */
  datatype Enrollment = Enrollment(id: string, userId: string, courseId: string, status: string)

  /** A `*domain.Enrollment`: the service builds one and the repository writes the
      assigned id back into it, so it is an object whose `id` field changes in place. */
  class Record {
    var id: string
    var userId: string
    var courseId: string
    var status: string

    /** A composite literal that leaves `ID` at its zero value. */
    constructor (userId: string, courseId: string, status: string)
      ensures this.id == "" && this.userId == userId && this.courseId == courseId
      ensures this.status == status
    {
      this.id := "";
      this.userId := userId;
      this.courseId := courseId;
      this.status := status;
    }

    function Value(): Enrollment
      reads this
    {
      Enrollment(id, userId, courseId, status)
    }
  }
}
