/**
 * The three workspace roles and their level table (ROLE_HIERARCHY), with the
 * comparison `hasRole` and the meet `getMinRole` built on it.
 */
module Roles {

  /** `UserRole`: exactly the keys of the level table. */
  datatype Role = Viewer | Editor | Admin

  /** The level table: viewer 1, editor 2, admin 3. */
  function Level(r: Role): (n: nat)
    ensures 1 <= n <= 3
  {
    match r
    case Viewer => 1
    case Editor => 2
    case Admin => 3
  }

  /** Distinct roles have distinct levels, so levels order the roles totally and strictly. */
  lemma LevelInjective(a: Role, b: Role)
    ensures Level(a) == Level(b) <==> a == b
    ensures a != b ==> Level(a) < Level(b) || Level(b) < Level(a)
  {
  }

  /** `hasRole(userRole, requiredRole)`: the held level reaches the required one. */
  predicate HasRole(have: Role, required: Role)
  {
    Level(have) >= Level(required)
  }

  lemma HasRoleReflexive(r: Role)
    ensures HasRole(r, r)
  {
  }

  lemma HasRoleTransitive(a: Role, b: Role, c: Role)
    requires HasRole(a, b) && HasRole(b, c)
    ensures HasRole(a, c)
  {
  }

  /** Any two roles are comparable, and mutual comparability means equality. */
  lemma HasRoleTotalAntisymmetric(a: Role, b: Role)
    ensures HasRole(a, b) || HasRole(b, a)
    ensures HasRole(a, b) && HasRole(b, a) ==> a == b
  {
  }

  /** admin satisfies every requirement, viewer only the viewer requirement, editor viewer and editor. */
  lemma HasRoleTable(r: Role)
    ensures HasRole(Admin, r)
    ensures HasRole(Viewer, r) <==> r == Viewer
    ensures HasRole(Editor, r) <==> r != Admin
    ensures HasRole(r, Viewer)
  {
  }

  /** `getMinRole`: the first argument when its level is not above the second's, else the second. */
  function MinRole(a: Role, b: Role): (m: Role)
    ensures m == a || m == b
    ensures Level(m) <= Level(a) && Level(m) <= Level(b)
    ensures HasRole(a, m) && HasRole(b, m)
  {
    if Level(a) <= Level(b) then a else b
  }

  /** The meet is the greatest lower bound: any role both arguments satisfy, the meet satisfies. */
  lemma MinRoleGreatestLowerBound(a: Role, b: Role, c: Role)
    requires HasRole(a, c) && HasRole(b, c)
    ensures HasRole(MinRole(a, b), c)
  {
  }

  lemma MinRoleCommutative(a: Role, b: Role)
    ensures MinRole(a, b) == MinRole(b, a)
  {
    LevelInjective(a, b);
  }

  lemma MinRoleIdempotent(r: Role)
    ensures MinRole(r, r) == r
  {
  }

  /** admin is the identity of the meet and viewer absorbs it. */
  lemma MinRoleIdentityAbsorbing(r: Role)
    ensures MinRole(Admin, r) == r && MinRole(r, Admin) == r
    ensures MinRole(Viewer, r) == Viewer && MinRole(r, Viewer) == Viewer
  {
  }

  /** The join of two roles, used to state what `getMaxRole` computes. */
  function MaxRole(a: Role, b: Role): (m: Role)
    ensures m == a || m == b
    ensures HasRole(m, a) && HasRole(m, b)
  {
    if Level(b) > Level(a) then b else a
  }
}
