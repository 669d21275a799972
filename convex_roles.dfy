/**
 * The host application's role utilities: its own copy of the level table,
 * `getEffectiveRole`, the `canEdit`/`isAdmin`/`canDelete` predicates and `getMaxRole`.
 */
module ConvexRoles {
  import opened Roles

  /** The host's `ROLE_HIERARCHY` record. */
  function HierarchyLevel(r: Role): (n: nat)
  {
    match r
    case Admin => 3
    case Editor => 2
    case Viewer => 1
  }

  /** Both level tables give every role the same level. */
  lemma HierarchyAgreesWithLevel(r: Role)
    ensures HierarchyLevel(r) == Level(r)
  {
  }

  /** The `switch` at the end of `getEffectiveRole`: 3 is admin, 2 editor, anything else viewer. */
  function RoleOfLevel(n: int): Role
  {
    if n == 3 then Admin else if n == 2 then Editor else Viewer
  }

  /** `getEffectiveRole`: the lower of the two roles, computed through their levels. */
  function EffectiveRole(userRole: Role, accessLevel: Role): (r: Role)
    ensures r == userRole || r == accessLevel
    ensures HasRole(userRole, r) && HasRole(accessLevel, r)
    ensures r == MinRole(userRole, accessLevel)
  {
    var userLevel := HierarchyLevel(userRole);
    var accessLevelValue := HierarchyLevel(accessLevel);
    var effectiveLevel := if userLevel <= accessLevelValue then userLevel else accessLevelValue;
    RoleOfLevel(effectiveLevel)
  }

  /** `canEdit`: true exactly for the roles that reach editor. */
  predicate CanEdit(role: Role)
    ensures CanEdit(role) <==> HasRole(role, Editor)
  {
    role == Editor || role == Admin
  }

  /** `isAdmin`: true exactly for the role that reaches admin. */
  predicate IsAdmin(role: Role)
    ensures IsAdmin(role) <==> HasRole(role, Admin)
  {
    role == Admin
  }

  /** `canDelete`: the same rule as `isAdmin`. */
  predicate CanDelete(role: Role)
    ensures CanDelete(role) <==> HasRole(role, Admin)
    ensures CanDelete(role) == IsAdmin(role)
  {
    role == Admin
  }

  /** What the `getMaxRole` loop leaves in `maxRole` after the roles, in order: it starts at viewer and moves to a strictly higher role. */
  function MaxOfRoles(roles: seq<Role>): (m: Role)
    ensures forall i :: 0 <= i < |roles| ==> HasRole(m, roles[i])
    ensures m == Viewer || m in roles
  {
    if roles == [] then Viewer
    else
      var m' := MaxOfRoles(roles[..|roles| - 1]);
      assert forall i :: 0 <= i < |roles| - 1 ==> roles[..|roles| - 1][i] == roles[i];
      MaxRole(m', roles[|roles| - 1])
  }

  /** An upper bound of the roles that is viewer or one of them is determined by the roles alone. */
  lemma UpperBoundInRolesUnique(roles: seq<Role>, m1: Role, m2: Role)
    requires forall i :: 0 <= i < |roles| ==> HasRole(m1, roles[i])
    requires forall i :: 0 <= i < |roles| ==> HasRole(m2, roles[i])
    requires m1 == Viewer || m1 in roles
    requires m2 == Viewer || m2 in roles
    ensures m1 == m2
  {
    if m1 in roles {
      var i :| 0 <= i < |roles| && roles[i] == m1;
      assert HasRole(m2, m1);
    }
    if m2 in roles {
      var j :| 0 <= j < |roles| && roles[j] == m2;
      assert HasRole(m1, m2);
    }
    HasRoleTotalAntisymmetric(m1, m2);
  }

  /** The result of `getMaxRole` does not depend on the order of the list. */
  lemma MaxOfRolesOrderIndependent(a: seq<Role>, b: seq<Role>)
    requires multiset(a) == multiset(b)
    ensures MaxOfRoles(a) == MaxOfRoles(b)
  {
    var ma, mb := MaxOfRoles(a), MaxOfRoles(b);
    forall i | 0 <= i < |b| ensures HasRole(ma, b[i]) {
      assert b[i] in multiset(b);
      assert b[i] in a;
    }
    assert ma == Viewer || ma in b by {
      if ma != Viewer {
        assert ma in multiset(a);
      }
    }
    UpperBoundInRolesUnique(b, ma, mb);
  }

  /** `getMaxRole`: viewer for an empty list, otherwise the highest role in it. */
  method GetMaxRole(roles: seq<Role>) returns (maxRole: Role)
    ensures forall i :: 0 <= i < |roles| ==> HasRole(maxRole, roles[i])
    ensures roles == [] ==> maxRole == Viewer
    ensures roles != [] ==> maxRole in roles
    ensures maxRole == MaxOfRoles(roles)
  {
    maxRole := Viewer;
    for i := 0 to |roles|
      invariant maxRole == MaxOfRoles(roles[..i])
    {
      assert roles[..i + 1][..i] == roles[..i];
      if Level(roles[i]) > Level(maxRole) {
        maxRole := roles[i];
      }
    }
    assert roles[..|roles|] == roles;
    if roles != [] && maxRole == Viewer {
      assert HasRole(Viewer, roles[0]);
    }
  }
}
