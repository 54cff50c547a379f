/** The `users` table and the queries the user repository runs against it. The table has no column for
    `emailVerified` or `emailVerificationToken`: values given for them are not stored, and every row reads
    them back as null. */
module UserStore {
  import opened Wrappers
  import opened Tables
  import opened Roles
  import opened Users

  function IdOf(u: User): string { u.id }
  function EmailOf(u: User): string { u.email }

  function HasId(id: string): User -> bool {
    (u: User) => u.id == id
  }

  function NotId(id: string): User -> bool {
    (u: User) => u.id != id
  }

  function HasEmail(email: string): User -> bool {
    (u: User) => u.email == email
  }

  function InOrganization(organizationId: string): User -> bool {
    (u: User) => u.organizationId == organizationId
  }

  /** A row of `users`: the two e-mail verification fields have no column and are always null. */
  predicate IsStoredRow(u: User) {
    u.emailVerified.None? && u.emailVerificationToken.None?
  }

  /** What `create` is given: every field but the generated id and timestamps. */
  datatype NewUser = NewUser(
    email: string,
    passwordHash: Option<string>,
    name: string,
    role: Role,
    organizationId: string,
    emailVerified: Option<bool>,
    emailVerificationToken: Option<string>,
    lastLoginAt: Option<int>)

  /** The argument of `update`; `None` is a property left undefined, `Some(None)` an explicit null. */
  datatype UserPatch = UserPatch(
    email: Option<string>,
    passwordHash: Option<Option<string>>,
    name: Option<string>,
    role: Option<Role>,
    organizationId: Option<string>,
    emailVerified: Option<Option<bool>>,
    emailVerificationToken: Option<Option<string>>,
    lastLoginAt: Option<Option<int>>,
    updatedAt: Option<int>)

  /** The row an `update` writes: each defined property that has a column replaces it, and `updatedAt`
      becomes `now`. */
  function Patched(u: User, patch: UserPatch, now: int): User {
    u.(email := patch.email.GetOr(u.email), passwordHash := patch.passwordHash.GetOr(u.passwordHash),
       name := patch.name.GetOr(u.name), role := patch.role.GetOr(u.role),
       organizationId := patch.organizationId.GetOr(u.organizationId),
       lastLoginAt := patch.lastLoginAt.GetOr(u.lastLoginAt), updatedAt := now)
  }

  /** Only the defined, stored properties change, the organization included; id and creation time never
      do; the verification fields and the patch's own `updatedAt` have no effect, so a stored row stays one. */
  lemma PatchedChangesOnlyStoredFields(u: User, patch: UserPatch, now: int)
    ensures var p := Patched(u, patch, now);
      && p.id == u.id && p.createdAt == u.createdAt && p.updatedAt == now
      && (patch.email.None? ==> p.email == u.email) && (patch.email.Some? ==> p.email == patch.email.value)
      && (patch.passwordHash.None? ==> p.passwordHash == u.passwordHash)
      && (patch.passwordHash.Some? ==> p.passwordHash == patch.passwordHash.value)
      && (patch.name.None? ==> p.name == u.name) && (patch.name.Some? ==> p.name == patch.name.value)
      && (patch.role.None? ==> p.role == u.role) && (patch.role.Some? ==> p.role == patch.role.value)
      && (patch.organizationId.Some? ==> p.organizationId == patch.organizationId.value)
      && (patch.organizationId.None? ==> p.organizationId == u.organizationId)
      && (patch.lastLoginAt.None? ==> p.lastLoginAt == u.lastLoginAt)
      && (patch.lastLoginAt.Some? ==> p.lastLoginAt == patch.lastLoginAt.value)
      && p.emailVerified == u.emailVerified && p.emailVerificationToken == u.emailVerificationToken
      && Patched(u, patch.(emailVerified := None, emailVerificationToken := None, updatedAt := None), now) == p
      && (IsStoredRow(u) ==> IsStoredRow(p))
  {
  }

  /** The row `updateLastLoginAt` writes. */
  function LoggedIn(u: User, now: int): User {
    u.(lastLoginAt := Some(now), updatedAt := now)
  }

  /** Recording a login is an update that sets only `lastLoginAt`. */
  lemma LoggedInIsPatch(u: User, now: int)
    ensures LoggedIn(u, now) == Patched(u, UserPatch(None, None, None, None, None, None, None, Some(Some(now)), None), now)
    ensures LoggedIn(u, now).role == u.role && LoggedIn(u, now).email == u.email
  {
  }

  class UserRepository {
    /** The rows of `users`, in insertion order. */
    var rows: seq<User>

    /** Primary key on `id`; `email` is unique; the verification fields are never stored. */
    ghost predicate Valid()
      reads this
    {
      UniqueBy(rows, IdOf) && UniqueBy(rows, EmailOf) && forall i :: 0 <= i < |rows| ==> IsStoredRow(rows[i])
    }

    constructor ()
      ensures Valid() && rows == []
    {
      rows := [];
    }

    /** `findById`: the user with this id, or null. */
    function FindById(id: string): (r: Option<User>)
      reads this
      ensures r.Some? ==> r.value in rows && r.value.id == id
      ensures r.None? <==> forall i :: 0 <= i < |rows| ==> rows[i].id != id
    {
      FirstWhere(rows, HasId(id))
    }

    /** `findByEmail`: the user with this address, or null. */
    function FindByEmail(email: string): (r: Option<User>)
      reads this
      ensures r.Some? ==> r.value in rows && r.value.email == email
      ensures r.None? <==> forall i :: 0 <= i < |rows| ==> rows[i].email != email
    {
      FirstWhere(rows, HasEmail(email))
    }

    /** `findByOrganizationId`: the organization's members, in table order. */
    function FindByOrganizationId(organizationId: string): (r: seq<User>)
      reads this
      ensures forall i :: 0 <= i < |r| ==> r[i] in rows && r[i].organizationId == organizationId
    {
      Filter(rows, InOrganization(organizationId))
    }

    /** `exists`: some user has this address. */
    predicate Exists(email: string)
      reads this
      ensures Exists(email) <==> exists i :: 0 <= i < |rows| && rows[i].email == email
    {
      FirstWhere(rows, HasEmail(email)).Some?
    }

    /** `exists` answers yes exactly when `findByEmail` finds someone. */
    lemma ExistsIffFound(email: string)
      ensures Exists(email) <==> FindByEmail(email).Some?
    {
    }

    /** Every member of the organization is listed by `findByOrganizationId`. */
    lemma FindByOrganizationIdIsComplete(i: nat)
      requires i < |rows|
      ensures rows[i] in FindByOrganizationId(rows[i].organizationId)
    {
      FilterSelects(rows, InOrganization(rows[i].organizationId), rows[i]);
    }

    /** Every row is found by its own id and its own address, and reads back no verification state. */
    lemma FindsEveryRow(i: nat)
      requires Valid() && i < |rows|
      ensures FindById(rows[i].id) == Some(rows[i]) && FindByEmail(rows[i].email) == Some(rows[i])
      ensures FindById(rows[i].id).value.emailVerified.None?
    {
      FirstWhereSole(rows, HasId(rows[i].id), i);
      FirstWhereSole(rows, HasEmail(rows[i].email), i);
    }

    /** `create`: insert a row with a generated `id` and both timestamps set to `now`; the verification
        fields are dropped. A taken id or address is a unique violation and inserts nothing. */
    method Create(data: NewUser, id: string, now: int) returns (r: Result<User, StoreError>)
      requires Valid()
      modifies this
      ensures Valid()
      ensures r.Failure? <==> old(FindById(id)).Some? || old(Exists(data.email))
      ensures r.Failure? ==> r.error == Conflict && rows == old(rows)
      ensures r.Success? ==>
        && r.value == User(id, data.email, data.passwordHash, data.name, data.role, data.organizationId,
                           None, None, data.lastLoginAt, now, now)
        && rows == old(rows) + [r.value]
        && FindByEmail(data.email) == Some(r.value)
    {
      if FindById(id).Some? || Exists(data.email) {
        return Failure(Conflict);
      }
      var row := User(id, data.email, data.passwordHash, data.name, data.role, data.organizationId,
                      None, None, data.lastLoginAt, now, now);
      AppendUnique(rows, row, IdOf);
      AppendUnique(rows, row, EmailOf);
      FirstWhereAppend(rows, row, HasEmail(data.email));
      var before := rows;
      rows := rows + [row];
      assert forall i :: 0 <= i < |rows| ==> IsStoredRow(rows[i]) by {
        forall i | 0 <= i < |rows| ensures IsStoredRow(rows[i]) {
          if i < |before| {
            assert rows[i] == before[i];
          }
        }
      }
      r := Success(row);
    }

    /** Another user than the one with `id` already has `email`. */
    predicate EmailTakenByOther(email: string, id: string)
      reads this
    {
      exists i :: 0 <= i < |rows| && rows[i].email == email && rows[i].id != id
    }

    /** `update`: set the defined properties and `updatedAt` on the user with this id. No such user is
        `NotFound`; an address another user has is a unique violation. */
    method Update(id: string, patch: UserPatch, now: int) returns (r: Result<User, StoreError>)
      requires Valid()
      modifies this
      ensures Valid()
      ensures r == Failure(NotFound) <==> old(FindById(id)).None?
      ensures r == Failure(Conflict) <==>
        old(FindById(id)).Some? && patch.email.Some? && old(EmailTakenByOther(patch.email.value, id))
      ensures r.Failure? ==> rows == old(rows)
      ensures r.Success? ==>
        && r.value == Patched(old(FindById(id)).value, patch, now)
        && |rows| == |old(rows)|
        && forall i :: 0 <= i < |rows| ==>
             rows[i] == if old(rows[i]).id == id then r.value else old(rows[i])
    {
      var found := FindById(id);
      if found.None? {
        return Failure(NotFound);
      }
      if patch.email.Some? && EmailTakenByOther(patch.email.value, id) {
        return Failure(Conflict);
      }
      var updated := Patched(found.value, patch, now);
      var k :| 0 <= k < |rows| && rows[k] == found.value;
      UniqueOthers(rows, k, IdOf);
      UniqueOthers(rows, k, EmailOf);
      UpdateUnique(rows, k, updated, IdOf);
      UpdateUnique(rows, k, updated, EmailOf);
      PatchedChangesOnlyStoredFields(found.value, patch, now);
      rows := rows[k := updated];
      r := Success(updated);
    }

    /** `delete`: remove the user with this id, if there is one. */
    method Delete(id: string)
      requires Valid()
      modifies this
      ensures Valid()
      ensures FindById(id).None?
      ensures old(FindById(id)).None? ==> rows == old(rows)
      ensures forall i :: 0 <= i < |old(rows)| && old(rows[i]).id == id ==>
                rows == old(rows[..i]) + old(rows[i + 1..])
    {
      var before := rows;
      rows := Filter(before, NotId(id));
      FilterUniqueBy(before, NotId(id), IdOf);
      FilterUniqueBy(before, NotId(id), EmailOf);
      if FirstWhere(before, HasId(id)).None? {
        FilterKeepsAll(before, NotId(id));
      }
      forall i | 0 <= i < |before| && before[i].id == id ensures rows == before[..i] + before[i + 1..] {
        FilterByUniqueKey(before, i, IdOf, NotId(id));
      }
    }

    /** `updateLastLoginAt`: set `lastLoginAt` and `updatedAt` to `now` on this user only. */
    method UpdateLastLoginAt(userId: string, now: int)
      requires Valid()
      modifies this
      ensures Valid()
      ensures |rows| == |old(rows)|
      ensures forall i :: 0 <= i < |rows| ==>
        rows[i] == if old(rows[i]).id == userId then LoggedIn(old(rows[i]), now) else old(rows[i])
      ensures old(FindById(userId)).None? ==> rows == old(rows)
    {
      var found := FindById(userId);
      if found.Some? {
        var before := rows;
        var k :| 0 <= k < |before| && before[k] == found.value;
        var updated := LoggedIn(before[k], now);
        UniqueOthers(before, k, IdOf);
        UniqueOthers(before, k, EmailOf);
        UpdateUnique(before, k, updated, IdOf);
        UpdateUnique(before, k, updated, EmailOf);
        rows := before[k := updated];
      }
    }
  }
}
