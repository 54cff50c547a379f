/** The four roles of an organization member and their ranking. */
module Roles {
  import opened Wrappers

  datatype Role = Owner | Admin | Agent | Viewer

  /** The string value each role carries in storage and on the wire. */
  function RoleName(r: Role): string {
    match r
    case Owner => "owner"
    case Admin => "admin"
    case Agent => "agent"
    case Viewer => "viewer"
  }

  /** The role a stored string names, if any. */
  function ParseRole(s: string): (r: Option<Role>)
    ensures r.Some? ==> RoleName(r.value) == s
  {
    if s == "owner" then Some(Owner)
    else if s == "admin" then Some(Admin)
    else if s == "agent" then Some(Agent)
    else if s == "viewer" then Some(Viewer)
    else None
  }

  /** The ranking table: viewer 0, agent 1, admin 2, owner 3. */
  function Rank(r: Role): nat {
    match r
    case Viewer => 0
    case Agent => 1
    case Admin => 2
    case Owner => 3
  }

  /** The user's role ranks at least as high as the required one. */
  predicate IsRoleHigherOrEqual(userRole: Role, requiredRole: Role) {
    Rank(userRole) >= Rank(requiredRole)
  }

  /** Only owners and admins may invite. */
  predicate CanInvite(r: Role) {
    r == Owner || r == Admin
  }

  /** A string names a role that an invitation may grant: never "owner". */
  predicate IsValidInvitationRole(s: string) {
    s == "admin" || s == "agent" || s == "viewer"
  }

  lemma RoleNamesAreDistinct(r1: Role, r2: Role)
    ensures RoleName(r1) == RoleName(r2) <==> r1 == r2
  {
    if r1 != r2 {
      assert RoleName(r1)[0] != RoleName(r2)[0] || |RoleName(r1)| != |RoleName(r2)|
        || RoleName(r1)[1] != RoleName(r2)[1];
    }
  }

  /** Every role's name parses back to the role. */
  lemma ParseRoleName(r: Role)
    ensures ParseRole(RoleName(r)) == Some(r)
  {
    RoleNamesAreDistinct(r, Owner);
    RoleNamesAreDistinct(r, Admin);
    RoleNamesAreDistinct(r, Agent);
  }

  lemma HigherOrEqualIsReflexive(r: Role)
    ensures IsRoleHigherOrEqual(r, r)
  {
  }

  lemma HigherOrEqualIsTransitive(a: Role, b: Role, c: Role)
    requires IsRoleHigherOrEqual(a, b) && IsRoleHigherOrEqual(b, c)
    ensures IsRoleHigherOrEqual(a, c)
  {
  }

  lemma HigherOrEqualIsTotal(a: Role, b: Role)
    ensures IsRoleHigherOrEqual(a, b) || IsRoleHigherOrEqual(b, a)
  {
  }

  lemma HigherOrEqualIsAntisymmetric(a: Role, b: Role)
    requires IsRoleHigherOrEqual(a, b) && IsRoleHigherOrEqual(b, a)
    ensures a == b
  {
  }

  /** Owner is the top of the order and viewer the bottom. */
  lemma OwnerTopViewerBottom(r: Role)
    ensures IsRoleHigherOrEqual(Owner, r) && IsRoleHigherOrEqual(r, Viewer)
    ensures IsRoleHigherOrEqual(r, Owner) <==> r == Owner
  {
  }

  /** The right to invite is exactly the rank of admin or above. */
  lemma CanInviteIsAdminOrAbove(r: Role)
    ensures CanInvite(r) <==> IsRoleHigherOrEqual(r, Admin)
  {
  }

  /** The invitable role strings are the names of the roles other than owner, and nothing else. */
  lemma ValidInvitationRoles(s: string)
    ensures IsValidInvitationRole(s) <==> ParseRole(s).Some? && ParseRole(s).value != Owner
    ensures !IsValidInvitationRole("owner")
  {
    if IsValidInvitationRole(s) {
      if s == "admin" {
        ParseRoleName(Admin);
      } else if s == "agent" {
        ParseRoleName(Agent);
      } else {
        ParseRoleName(Viewer);
      }
    }
    ParseRoleName(Owner);
  }
}
