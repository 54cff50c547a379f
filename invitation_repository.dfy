/** The `invitations` table and the queries the invitation repository runs against it. */
module InvitationStore {
  import opened Wrappers
  import opened Tables
  import opened Invitations

  function IdOf(i: Invitation): string { i.id }
  function TokenOf(i: Invitation): string { i.token }

  function HasToken(token: string): Invitation -> bool {
    (i: Invitation) => i.token == token
  }

  function NotId(id: string): Invitation -> bool {
    (i: Invitation) => i.id != id
  }

  /** `email = e AND organization_id = o AND accepted_at IS NULL`. */
  function OpenFor(email: string, organizationId: string): Invitation -> bool {
    (i: Invitation) => i.email == email && i.organizationId == organizationId && i.acceptedAt.None?
  }

  /** `organization_id = o AND accepted_at IS NULL`. */
  function OpenIn(organizationId: string): Invitation -> bool {
    (i: Invitation) => i.organizationId == organizationId && i.acceptedAt.None?
  }

  /** The condition `deleteExpired` keeps: not `expires_at < now AND accepted_at IS NULL`. */
  function NotLapsed(now: int): Invitation -> bool {
    (i: Invitation) => !(i.expiresAt < now && i.acceptedAt.None?)
  }

  /** The row `markAsAccepted` writes: `acceptedAt` becomes `now`, whatever it was before. */
  function Accepted(i: Invitation, now: int): Invitation {
    i.(acceptedAt := Some(now))
  }

  /** An accepted row is never pending again, and accepting it a second time only moves the acceptance time. */
  lemma AcceptedIsFinal(i: Invitation, now: int, later: int)
    ensures Accepted(i, now).IsAccepted() && !Accepted(i, now).CanBeAccepted(later)
    ensures Accepted(Accepted(i, now), later) == Accepted(i, later)
    ensures Accepted(i, now).token == i.token && Accepted(i, now).id == i.id
  {
  }

  /** What `deleteExpired` keeps: every accepted row, and every unaccepted row that is still pending. */
  lemma KeptIffAcceptedOrPending(now: int, i: Invitation)
    ensures NotLapsed(now)(i) <==> i.IsAccepted() || i.IsPending(now)
  {
  }

  /** What `create` inserts: every column but the generated id and creation time. */
  datatype NewInvitation = NewInvitation(
    email: string,
    organizationId: string,
    role: InvitationRole,
    token: string,
    invitedBy: Option<string>,
    expiresAt: int,
    acceptedAt: Option<int>)

  class InvitationRepository {
    /** The rows of `invitations`, in insertion order. */
    var rows: seq<Invitation>

    /** Primary key on `id`; `token` is unique. */
    ghost predicate Valid()
      reads this
    {
      UniqueBy(rows, IdOf) && UniqueBy(rows, TokenOf)
    }

    constructor ()
      ensures Valid() && rows == []
    {
      rows := [];
    }

    /** `findByToken`: the invitation carrying this token, or null. */
    function FindByToken(token: string): (r: Option<Invitation>)
      reads this
      ensures r.Some? ==> r.value in rows && r.value.token == token
      ensures r.None? <==> forall i :: 0 <= i < |rows| ==> rows[i].token != token
    {
      FirstWhere(rows, HasToken(token))
    }

    /** `findByEmail`: an unaccepted invitation of this address to this organization, or null. Expiry is
        not looked at. */
    function FindByEmail(email: string, organizationId: string): (r: Option<Invitation>)
      reads this
      ensures r.Some? ==>
        r.value in rows && r.value.email == email && r.value.organizationId == organizationId
        && r.value.acceptedAt.None?
      ensures r.None? <==> forall i :: 0 <= i < |rows| ==>
        !(rows[i].email == email && rows[i].organizationId == organizationId && rows[i].acceptedAt.None?)
    {
      FirstWhere(rows, OpenFor(email, organizationId))
    }

    /** `findPendingByOrganizationId`: the organization's unaccepted invitations, in table order. */
    function FindPendingByOrganizationId(organizationId: string): (r: seq<Invitation>)
      reads this
      ensures forall i :: 0 <= i < |r| ==>
        r[i] in rows && r[i].organizationId == organizationId && r[i].acceptedAt.None?
    {
      Filter(rows, OpenIn(organizationId))
    }

    /** Every row is found by its own token. */
    lemma FindsEveryToken(i: nat)
      requires Valid() && i < |rows|
      ensures FindByToken(rows[i].token) == Some(rows[i])
    {
      FirstWhereSole(rows, HasToken(rows[i].token), i);
    }

    /** An unaccepted invitation still blocks a new one for the same address after it has expired. */
    lemma FindByEmailIgnoresExpiry(i: nat, now: int)
      requires i < |rows| && rows[i].acceptedAt.None? && rows[i].IsExpired(now)
      ensures FindByEmail(rows[i].email, rows[i].organizationId).Some?
    {
      var found := FindByEmail(rows[i].email, rows[i].organizationId);
      assert OpenFor(rows[i].email, rows[i].organizationId)(rows[i]);
    }

    /** The "pending" list holds every unaccepted invitation of the organization, expired ones included,
        so it is wider than the entity's `isPending`. */
    lemma PendingListIncludesExpired(i: nat, now: int)
      requires i < |rows| && rows[i].acceptedAt.None?
      ensures rows[i] in FindPendingByOrganizationId(rows[i].organizationId)
      ensures rows[i].IsExpired(now) ==> !rows[i].IsPending(now)
    {
      FilterSelects(rows, OpenIn(rows[i].organizationId), rows[i]);
    }

    /** `create`: insert a row with a generated `id` and `createdAt` set to `now`. A taken id or token
        is a unique violation and inserts nothing. */
    method Create(data: NewInvitation, id: string, now: int) returns (r: Result<Invitation, StoreError>)
      requires Valid()
      modifies this
      ensures Valid()
      ensures r.Failure? <==>
        (exists i :: 0 <= i < |old(rows)| && old(rows)[i].id == id) || old(FindByToken(data.token)).Some?
      ensures r.Failure? ==> r.error == Conflict && rows == old(rows)
      ensures r.Success? ==>
        && r.value == Invitation(id, data.email, data.organizationId, data.role, data.token, data.invitedBy,
                                 data.expiresAt, data.acceptedAt, now)
        && rows == old(rows) + [r.value]
        && FindByToken(data.token) == Some(r.value)
    {
      if FirstWhere(rows, (i: Invitation) => i.id == id).Some? || FindByToken(data.token).Some? {
        return Failure(Conflict);
      }
      var row := Invitation(id, data.email, data.organizationId, data.role, data.token, data.invitedBy,
                            data.expiresAt, data.acceptedAt, now);
      AppendUnique(rows, row, IdOf);
      AppendUnique(rows, row, TokenOf);
      FirstWhereAppend(rows, row, HasToken(data.token));
      rows := rows + [row];
      r := Success(row);
    }

    /** `markAsAccepted`: set `acceptedAt` to `now` on the row with this token, without looking at an
        earlier acceptance or at expiry. No matching row leaves the table as it was. */
    method MarkAsAccepted(token: string, now: int)
      requires Valid()
      modifies this
      ensures Valid()
      ensures |rows| == |old(rows)|
      ensures forall i :: 0 <= i < |rows| ==>
        rows[i] == if old(rows[i]).token == token then Accepted(old(rows[i]), now) else old(rows[i])
      ensures old(FindByToken(token)).None? ==> rows == old(rows)
      ensures old(FindByToken(token)).Some? ==> FindByToken(token) == Some(Accepted(old(FindByToken(token)).value, now))
    {
      var found := FindByToken(token);
      if found.Some? {
        var before := rows;
        var k :| 0 <= k < |before| && before[k] == found.value;
        var updated := Accepted(before[k], now);
        UniqueOthers(before, k, IdOf);
        UniqueOthers(before, k, TokenOf);
        UpdateUnique(before, k, updated, IdOf);
        UpdateUnique(before, k, updated, TokenOf);
        rows := before[k := updated];
        FirstWhereSole(rows, HasToken(token), k);
      }
    }

    /** `delete`: remove the row with this id, if there is one. */
    method Delete(id: string)
      requires Valid()
      modifies this
      ensures Valid()
      ensures forall i :: 0 <= i < |rows| ==> rows[i].id != id
      ensures (forall i :: 0 <= i < |old(rows)| ==> old(rows[i]).id != id) ==> rows == old(rows)
      ensures forall i :: 0 <= i < |old(rows)| && old(rows[i]).id == id ==>
                rows == old(rows[..i]) + old(rows[i + 1..])
    {
      var before := rows;
      rows := Filter(before, NotId(id));
      FilterUniqueBy(before, NotId(id), IdOf);
      FilterUniqueBy(before, NotId(id), TokenOf);
      if forall i :: 0 <= i < |before| ==> before[i].id != id {
        FilterKeepsAll(before, NotId(id));
      }
      forall i | 0 <= i < |before| && before[i].id == id ensures rows == before[..i] + before[i + 1..] {
        FilterByUniqueKey(before, i, IdOf, NotId(id));
      }
    }

    /** `deleteExpired`: remove every unaccepted invitation whose `expiresAt` is before `now`. Accepted
        rows all stay, and every unaccepted row that stays is still pending. */
    method DeleteExpired(now: int)
      requires Valid()
      modifies this
      ensures Valid()
      ensures rows == Filter(old(rows), NotLapsed(now))
      ensures forall i :: 0 <= i < |old(rows)| ==>
                (old(rows[i]).IsAccepted() || old(rows[i]).IsPending(now) ==> old(rows[i]) in rows)
      ensures forall i :: 0 <= i < |rows| ==> rows[i].IsAccepted() || rows[i].IsPending(now)
      ensures Filter(rows, NotLapsed(now)) == rows
    {
      var before := rows;
      rows := Filter(before, NotLapsed(now));
      FilterUniqueBy(before, NotLapsed(now), IdOf);
      FilterUniqueBy(before, NotLapsed(now), TokenOf);
      forall i | 0 <= i < |before| && (before[i].IsAccepted() || before[i].IsPending(now)) ensures before[i] in rows {
        KeptIffAcceptedOrPending(now, before[i]);
        FilterSelects(before, NotLapsed(now), before[i]);
      }
      FilterIdempotent(before, NotLapsed(now));
    }
  }
}
