/** The admission check on updates and deletions of Secrets and ConfigMaps. */
module Webhook {
  import opened Objects

  const OPERATOR_ACCOUNT := "system:serviceaccount:config-sync-system:config-sync-operator"

  datatype User = User(username: string, groups: seq<string>)

  datatype Operation = CREATE | UPDATE | DELETE

  /** None stands for an object that cannot be decoded. */
  datatype Request = Request(user: User, operation: Operation, newObject: Option<Object>, oldObject: Option<Object>)

  datatype Response = Allowed | Denied | Errored

  predicate IsExempt(user: User) {
    user.username == OPERATOR_ACCOUNT || "system:masters" in user.groups
  }

  /** An update is judged by the new object alone, a deletion by the old one. */
  function Handle(req: Request): Response {
    if IsExempt(req.user) || req.operation == CREATE then Allowed
    else
      match (if req.operation == DELETE then req.oldObject else req.newObject)
      case None => Errored
      case Some(o) => if BothLabelled(o) then Denied else Allowed
  }
}
