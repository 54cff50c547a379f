/** An invitation to join an organization, and its lifecycle: pending, then accepted or expired. */
module Invitations {
  import opened Wrappers
  import opened Roles

  /** An invitation never grants the owner role. */
  type InvitationRole = r: Role | r != Owner witness Viewer

  datatype Invitation = Invitation(
    id: string,
    email: string,
    organizationId: string,
    role: InvitationRole,
    token: string,
    invitedBy: Option<string>,
    expiresAt: int,
    acceptedAt: Option<int>,
    createdAt: int)
  {
    /** Expired strictly after `expiresAt`; the instant itself still counts as live. */
    predicate IsExpired(now: int) {
      now > expiresAt
    }

    predicate IsAccepted() {
      acceptedAt.Some?
    }

    predicate IsPending(now: int) {
      !IsAccepted() && !IsExpired(now)
    }

    predicate CanBeAccepted(now: int) {
      IsPending(now)
    }
  }

  /** The fields `Invitation.create` accepts; `None` is an absent property and `Some(None)` an explicit null. */
  datatype InvitationInit = InvitationInit(
    id: string,
    email: string,
    organizationId: string,
    role: InvitationRole,
    token: string,
    invitedBy: Option<Option<string>>,
    expiresAt: int,
    acceptedAt: Option<Option<int>>,
    createdAt: int)

  /** `Invitation.create`: inviter and acceptance time default to null. */
  function Create(data: InvitationInit): Invitation {
    Invitation(data.id, data.email, data.organizationId, data.role, data.token,
               data.invitedBy.GetOr(None), data.expiresAt, data.acceptedAt.GetOr(None), data.createdAt)
  }

  function InitOf(i: Invitation): InvitationInit {
    InvitationInit(i.id, i.email, i.organizationId, i.role, i.token, Some(i.invitedBy),
                   i.expiresAt, Some(i.acceptedAt), i.createdAt)
  }

  /** A freshly created invitation without an acceptance time is pending exactly until it expires. */
  lemma CreateDefaults(data: InvitationInit, now: int)
    ensures var inv := Create(data);
      && (data.invitedBy.None? ==> inv.invitedBy.None?)
      && (data.invitedBy.Some? ==> inv.invitedBy == data.invitedBy.value)
      && (data.acceptedAt.None? ==> !inv.IsAccepted())
      && (data.acceptedAt.Some? ==> inv.acceptedAt == data.acceptedAt.value)
      && (data.acceptedAt.GetOr(None).None? ==> (inv.IsPending(now) <==> now <= data.expiresAt))
      && inv.role != Owner && RoleName(inv.role) != "owner"
  {
  }

  lemma CreateOfInitOf(i: Invitation)
    ensures Create(InitOf(i)) == i
  {
  }

  /** Pending means neither accepted nor past its expiry, and an accepted invitation can never be accepted again. */
  lemma PendingIffLiveAndUnaccepted(i: Invitation, now: int)
    ensures i.CanBeAccepted(now) <==> i.acceptedAt.None? && now <= i.expiresAt
    ensures i.IsAccepted() ==> !i.CanBeAccepted(now)
  {
  }

  /** Once expired, an invitation stays expired and never becomes pending again. */
  lemma ExpiryIsMonotone(i: Invitation, now: int, later: int)
    requires now <= later
    ensures i.IsExpired(now) ==> i.IsExpired(later)
    ensures i.IsPending(later) ==> i.IsPending(now)
  {
  }

  /** The role of an invitation, by its name, is one that `isValidInvitationRole` accepts. */
  lemma InvitationRoleIsValid(i: Invitation)
    ensures IsValidInvitationRole(RoleName(i.role))
  {
    ValidInvitationRoles(RoleName(i.role));
    ParseRoleName(i.role);
  }
}
