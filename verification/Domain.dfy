/** The domain entities. Times are integers (nanoseconds on one time line). */
module Domain {
  import opened Basics

  const ADMIN := "admin"
  const MEMBER := "member"

  predicate ValidRole(role: string) {
    role == ADMIN || role == MEMBER
  }

  datatype CurrentUser = CurrentUser(id: int, email: string, role: string) {
    predicate IsAdmin() { role == ADMIN }
  }

  datatype User = User(id: int, email: string, role: string, isEnabled: bool)

  datatype SubRequest = SubRequest(
    id: int,
    showId: int,
    postedBy: int,
    takenBy: Option<int>,
    startTime: int,
    endTime: int,
    notes: seq<byte>,
    createdAt: int,
    updatedAt: int)

  datatype Show = Show(id: string, title: string)
}
