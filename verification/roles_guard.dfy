/** Role-based authorisation: any one of the required roles suffices. */
module RolesGuard {
  import opened Wrappers
  import opened Exceptions
  import opened AuthUser

  const USER_NOT_FOUND := "User not found in request"
  const INSUFFICIENT_ROLE := "Insufficient role"

  /** `roles.some((role) => required.includes(role))`. */
  function HasAnyRole(roles: seq<string>, required: seq<string>): (r: bool)
    ensures r <==> exists i :: 0 <= i < |roles| && roles[i] in required
    decreases |roles|
  {
    if |roles| == 0 then false
    else if roles[0] in required then true
    else
      var r := HasAnyRole(roles[1..], required);
      assert forall i :: 1 <= i < |roles| ==> roles[1..][i - 1] == roles[i];
      r
  }

  /**
   * `RolesGuard.canActivate`: no requirement (absent or empty) lets anyone
   * through, even without a user; otherwise a user must be attached and hold
   * at least one required role, compared exactly.
   */
  function CanActivate(required: Option<seq<string>>, user: Option<Identity>): (r: Outcome<Exception>)
    ensures (required.None? || |required.value| == 0) ==> r == Pass
    ensures required.Some? && |required.value| > 0 && user.None? ==> r == Fail(Forbidden(USER_NOT_FOUND))
    ensures required.Some? && |required.value| > 0 && user.Some? ==>
      && (r == Pass <==> exists i :: 0 <= i < |user.value.roles| && user.value.roles[i] in required.value)
      && (r != Pass ==> r == Fail(Forbidden(INSUFFICIENT_ROLE)))
  {
    if required.None? || |required.value| == 0 then Pass
    else if user.None? then Fail(Forbidden(USER_NOT_FOUND))
    else if HasAnyRole(user.value.roles, required.value) then Pass
    else Fail(Forbidden(INSUFFICIENT_ROLE))
  }

  /** Two role lists are alike when they hold the same roles, whatever the order or repetition. */
  ghost predicate SameRoles(a: seq<string>, b: seq<string>) {
    forall x :: x in a <==> x in b
  }

  /** The decision depends only on which roles appear on each side. */
  lemma DecisionDependsOnlyOnMembership(required: seq<string>, required': seq<string>, user: Identity, roles': seq<string>)
    requires SameRoles(required, required') && SameRoles(user.roles, roles')
    ensures CanActivate(Some(required), Some(user)) == CanActivate(Some(required'), Some(user.(roles := roles')))
  {
    assert |required| == 0 <==> |required'| == 0 by {
      if |required| > 0 { assert required[0] in required'; }
      if |required'| > 0 { assert required'[0] in required; }
    }
    if HasAnyRole(user.roles, required) {
      var i :| 0 <= i < |user.roles| && user.roles[i] in required;
      assert user.roles[i] in roles';
      var j :| 0 <= j < |roles'| && roles'[j] == user.roles[i];
      assert roles'[j] in required';
    }
    if HasAnyRole(roles', required') {
      var j :| 0 <= j < |roles'| && roles'[j] in required';
      assert roles'[j] in user.roles;
      var i :| 0 <= i < |user.roles| && user.roles[i] == roles'[j];
      assert user.roles[i] in required;
    }
  }

  /** A single required role admits exactly the users who hold it. */
  lemma SingleRoleRequirement(role: string, user: Identity)
    ensures CanActivate(Some([role]), Some(user)) == Pass <==> role in user.roles
  {
    if role in user.roles {
      var i :| 0 <= i < |user.roles| && user.roles[i] == role;
    }
  }
}
