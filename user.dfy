/** A member of an organization: its entity record and its role predicates. */
module Users {
  import opened Wrappers
  import opened Roles

  /** A user as the domain sees it. Timestamps are milliseconds since the epoch. */
  datatype User = User(
    id: string,
    email: string,
    passwordHash: Option<string>,
    name: string,
    role: Role,
    organizationId: string,
    emailVerified: Option<bool>,
    emailVerificationToken: Option<string>,
    lastLoginAt: Option<int>,
    createdAt: int,
    updatedAt: int)
  {
    predicate IsOwner() {
      RoleName(role) == "owner"
    }

    predicate IsAdmin() {
      RoleName(role) == "admin"
    }

    predicate CanInvite() {
      RoleName(role) == "owner" || RoleName(role) == "admin"
    }

    /** Compares positions in the list of role names from lowest to highest. */
    predicate HasRoleOrHigher(required: Role) {
      IndexOf(RoleOrder, RoleName(role)) >= IndexOf(RoleOrder, RoleName(required))
    }
  }

  /** The role names from lowest to highest, as `hasRoleOrHigher` lists them. */
  const RoleOrder: seq<string> := ["viewer", "agent", "admin", "owner"]

  /** `Array.prototype.indexOf`: the first position of `x` in `s`, or -1. */
  function IndexOf(s: seq<string>, x: string): (i: int)
    ensures -1 <= i < |s|
    ensures i >= 0 ==> s[i] == x && forall j :: 0 <= j < i ==> s[j] != x
    ensures i == -1 ==> x !in s
  {
    if s == [] then -1
    else if s[0] == x then 0
    else
      var k := IndexOf(s[1..], x);
      if k == -1 then -1 else k + 1
  }

  /** The fields `User.create` accepts. `None` is an absent property, `Some(None)` an explicit null. */
  datatype UserInit = UserInit(
    id: string,
    email: string,
    passwordHash: Option<string>,
    name: string,
    role: Role,
    organizationId: string,
    emailVerified: Option<Option<bool>>,
    emailVerificationToken: Option<Option<string>>,
    lastLoginAt: Option<Option<int>>,
    createdAt: int,
    updatedAt: int)

  /** `User.create`: the three optional fields default to null. */
  function Create(data: UserInit): User {
    User(data.id, data.email, data.passwordHash, data.name, data.role, data.organizationId,
         data.emailVerified.GetOr(None), data.emailVerificationToken.GetOr(None),
         data.lastLoginAt.GetOr(None), data.createdAt, data.updatedAt)
  }

  /** The complete field set of a user, as every repository read passes it to `create`. */
  function InitOf(u: User): UserInit {
    UserInit(u.id, u.email, u.passwordHash, u.name, u.role, u.organizationId,
             Some(u.emailVerified), Some(u.emailVerificationToken), Some(u.lastLoginAt),
             u.createdAt, u.updatedAt)
  }

  /** Absent and null optional fields both become null; every other value is copied. */
  lemma CreateDefaults(data: UserInit)
    ensures var u := Create(data);
      && (data.emailVerified.None? || data.emailVerified.value.None? <==> u.emailVerified.None?)
      && (data.emailVerified.Some? ==> u.emailVerified == data.emailVerified.value)
      && (data.emailVerificationToken.None? || data.emailVerificationToken.value.None? <==> u.emailVerificationToken.None?)
      && (data.emailVerificationToken.Some? ==> u.emailVerificationToken == data.emailVerificationToken.value)
      && (data.lastLoginAt.None? || data.lastLoginAt.value.None? <==> u.lastLoginAt.None?)
      && (data.lastLoginAt.Some? ==> u.lastLoginAt == data.lastLoginAt.value)
      && u.id == data.id && u.email == data.email && u.passwordHash == data.passwordHash
      && u.name == data.name && u.role == data.role && u.organizationId == data.organizationId
      && u.createdAt == data.createdAt && u.updatedAt == data.updatedAt
  {
  }

  /** Re-creating a user from all of its own fields gives the same user. */
  lemma CreateOfInitOf(u: User)
    ensures Create(InitOf(u)) == u
  {
  }

  /** The role names are at the positions the ranking table gives them. */
  lemma IndexOfRoleName(r: Role)
    ensures IndexOf(RoleOrder, RoleName(r)) == Rank(r)
  {
    RoleNamesAreDistinct(r, Viewer);
    RoleNamesAreDistinct(r, Agent);
    RoleNamesAreDistinct(r, Admin);
    RoleNamesAreDistinct(r, Owner);
    assert RoleOrder[0] == RoleName(Viewer) && RoleOrder[1] == RoleName(Agent);
    assert RoleOrder[2] == RoleName(Admin) && RoleOrder[3] == RoleName(Owner);
  }

  /** `hasRoleOrHigher` agrees with the ranking table. */
  lemma HasRoleOrHigherAgrees(u: User, required: Role)
    ensures u.HasRoleOrHigher(required) <==> IsRoleHigherOrEqual(u.role, required)
  {
    IndexOfRoleName(u.role);
    IndexOfRoleName(required);
  }

  /** Every user has at least viewer rank, and only owners have owner rank. */
  lemma HasRoleOrHigherBounds(u: User)
    ensures u.HasRoleOrHigher(Viewer)
    ensures u.HasRoleOrHigher(Owner) <==> u.IsOwner()
  {
    HasRoleOrHigherAgrees(u, Viewer);
    HasRoleOrHigherAgrees(u, Owner);
    RoleNamesAreDistinct(u.role, Owner);
  }

  /** `isOwner` and `isAdmin` test the exact role, and no user is both. */
  lemma OwnerAndAdminAreExact(u: User)
    ensures u.IsOwner() <==> u.role == Owner
    ensures u.IsAdmin() <==> u.role == Admin
    ensures !(u.IsOwner() && u.IsAdmin())
  {
    RoleNamesAreDistinct(u.role, Owner);
    RoleNamesAreDistinct(u.role, Admin);
  }

  /** A user may invite exactly when the role is owner or admin, that is, of admin rank or above. */
  lemma CanInviteIsAdminRank(u: User)
    ensures u.CanInvite() <==> u.role == Owner || u.role == Admin
    ensures u.CanInvite() <==> u.HasRoleOrHigher(Admin)
    ensures u.CanInvite() <==> Roles.CanInvite(u.role)
  {
    OwnerAndAdminAreExact(u);
    HasRoleOrHigherAgrees(u, Admin);
  }
}
