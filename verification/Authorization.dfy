/** The built-in authorization rules and the resources they are asked about. */
module Authorization {
  import opened Basics
  import opened Domain

  const ADMIN_ACCESS := "admin:access"
  const USER_LIST := "user:list"
  const USER_CREATE := "user:create"
  const USER_UPDATE := "user:update"
  const SUBREQUEST_DELETE := "subrequest:delete"
  const SUBREQUEST_TAKE := "subrequest:take"
  const SUBREQUEST_UNTAKE := "subrequest:untake"

  const ADMIN_TYPE := "admin"
  const USER_TYPE := "user"
  const SUBREQUEST_TYPE := "subrequest"

  datatype Resource = Resource(
    kind: string,
    ownerUserId: int,
    takerUserId: int,
    hasTaker: bool,
    targetUserId: int,
    disableTarget: bool,
    subRequestOpen: bool)

  function BlankResource(kind: string): Resource {
    Resource(kind, 0, 0, false, 0, false, false)
  }

  function AdminResource(): Resource {
    BlankResource(ADMIN_TYPE)
  }

  function UserResource(targetUserId: int, disableTarget: bool): Resource {
    BlankResource(USER_TYPE).(targetUserId := targetUserId, disableTarget := disableTarget)
  }

  function SubRequestResource(sr: SubRequest): Resource {
    var base := BlankResource(SUBREQUEST_TYPE).(ownerUserId := sr.postedBy);
    match sr.takenBy
    case None => base.(subRequestOpen := true)
    case Some(taker) => base.(takerUserId := taker, hasTaker := true)
  }

  predicate Allowed(user: CurrentUser, action: string, resource: Resource) {
    if action == ADMIN_ACCESS || action == USER_LIST || action == USER_CREATE then
      user.IsAdmin()
    else if action == USER_UPDATE then
      user.IsAdmin() && (!resource.disableTarget || user.id != resource.targetUserId)
    else if action == SUBREQUEST_DELETE then
      resource.ownerUserId == user.id || user.IsAdmin()
    else if action == SUBREQUEST_TAKE then
      resource.subRequestOpen && resource.ownerUserId != user.id
    else if action == SUBREQUEST_UNTAKE then
      resource.hasTaker && resource.takerUserId == user.id
    else
      false
  }

  // What the rules say about a stored request, in the request's own terms.
  predicate MayDelete(user: CurrentUser, sr: SubRequest) {
    Allowed(user, SUBREQUEST_DELETE, SubRequestResource(sr))
  }

  predicate MayTake(user: CurrentUser, sr: SubRequest) {
    Allowed(user, SUBREQUEST_TAKE, SubRequestResource(sr))
  }

  predicate MayUntake(user: CurrentUser, sr: SubRequest) {
    Allowed(user, SUBREQUEST_UNTAKE, SubRequestResource(sr))
  }

  const ACTIONS := {ADMIN_ACCESS, USER_LIST, USER_CREATE, USER_UPDATE, SUBREQUEST_DELETE, SUBREQUEST_TAKE,
                    SUBREQUEST_UNTAKE}

  /** The rules in the terms of the users and requests they are about. */
  lemma RulesOnEntities(user: CurrentUser, sr: SubRequest, target: int, disable: bool)
    ensures MayDelete(user, sr) <==> sr.postedBy == user.id || user.role == "admin"
    ensures MayTake(user, sr) <==> sr.takenBy.None? && sr.postedBy != user.id
    ensures MayUntake(user, sr) <==> sr.takenBy == Some(user.id)
    ensures Allowed(user, USER_UPDATE, UserResource(target, disable)) <==>
              user.role == "admin" && !(disable && target == user.id)
    ensures forall action | action in {ADMIN_ACCESS, USER_LIST, USER_CREATE} ::
              Allowed(user, action, AdminResource()) <==> user.role == "admin"
  {
  }

  /** Nobody may do what no rule is about. */
  lemma UnknownActionIsRefused(user: CurrentUser, action: string, resource: Resource)
    requires action !in ACTIONS
    ensures !Allowed(user, action, resource)
  {
  }
}
