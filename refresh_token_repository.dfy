/** The `refresh_tokens` table and the queries the refresh-token repository runs against it. */
module RefreshTokenStore {
  import opened Wrappers
  import opened Tables
  import opened RefreshTokens

  function IdOf(t: RefreshToken): string { t.id }
  function TokenOf(t: RefreshToken): string { t.token }

  function HasToken(token: string): RefreshToken -> bool {
    (t: RefreshToken) => t.token == token
  }

  function NotToken(token: string): RefreshToken -> bool {
    (t: RefreshToken) => t.token != token
  }

  function OfUser(userId: string): RefreshToken -> bool {
    (t: RefreshToken) => t.userId == userId
  }

  function NotOfUser(userId: string): RefreshToken -> bool {
    (t: RefreshToken) => t.userId != userId
  }

  function NotId(id: string): RefreshToken -> bool {
    (t: RefreshToken) => t.id != id
  }

  /** The condition `deleteExpired` keeps: not `expiresAt < now`. */
  function NotExpiredBefore(now: int): RefreshToken -> bool {
    (t: RefreshToken) => !(t.expiresAt < now)
  }

  /** The rows `deleteExpired` keeps are exactly the tokens `isValid` accepts: both treat the expiry instant
      itself as still live. */
  lemma KeptIffValid(now: int, t: RefreshToken)
    ensures NotExpiredBefore(now)(t) <==> t.IsValid(now)
  {
  }

  /** The token with the earliest `createdAt` in `s`; among equals, the first in table order. */
  function Oldest(s: seq<RefreshToken>): (r: Option<RefreshToken>)
    ensures r.None? <==> s == []
    ensures r.Some? ==> r.value in s
    ensures r.Some? ==> forall i :: 0 <= i < |s| ==> r.value.createdAt <= s[i].createdAt
  {
    if s == [] then None
    else
      match Oldest(s[1..])
      case None => Some(s[0])
      case Some(o) => if s[0].createdAt <= o.createdAt then Some(s[0]) else Some(o)
  }

  /** What `create` inserts: every column but the generated id and creation time. */
  datatype NewRefreshToken = NewRefreshToken(
    userId: string,
    token: string,
    expiresAt: int,
    ipAddress: Option<string>,
    userAgent: Option<string>)

  /** Deleting one row by its unique id keeps the table's constraints, lowers its owner's count by one
      and leaves every other user's tokens as they were. */
  lemma RemoveOne(before: seq<RefreshToken>, i: nat)
    requires UniqueBy(before, IdOf) && UniqueBy(before, TokenOf) && i < |before|
    ensures var after := Filter(before, NotId(before[i].id));
      && after == before[..i] + before[i + 1..]
      && UniqueBy(after, IdOf) && UniqueBy(after, TokenOf)
      && |Filter(after, OfUser(before[i].userId))| == |Filter(before, OfUser(before[i].userId))| - 1
      && forall other :: other != before[i].userId ==> Filter(after, OfUser(other)) == Filter(before, OfUser(other))
  {
    var keep := NotId(before[i].id);
    FilterUniqueBy(before, keep, IdOf);
    FilterUniqueBy(before, keep, TokenOf);
    FilterByUniqueKey(before, i, IdOf, keep);
    FilterWithout(before, i, OfUser(before[i].userId));
    forall other | other != before[i].userId
      ensures Filter(Filter(before, keep), OfUser(other)) == Filter(before, OfUser(other))
    {
      OthersKeep(before, i, other);
      FilterNarrow(before, keep, OfUser(other));
    }
  }

  /** A row of another user never carries the removed row's id. */
  lemma OthersKeep(before: seq<RefreshToken>, i: nat, other: string)
    requires UniqueBy(before, IdOf) && i < |before| && other != before[i].userId
    ensures forall j :: 0 <= j < |before| && OfUser(other)(before[j]) ==> NotId(before[i].id)(before[j])
  {
    forall j | 0 <= j < |before| && OfUser(other)(before[j]) ensures NotId(before[i].id)(before[j]) {
      if j < i {
        assert IdOf(before[j]) != IdOf(before[i]);
      } else if j > i {
        assert IdOf(before[i]) != IdOf(before[j]);
      }
    }
  }

  class RefreshTokenRepository {
    /** The rows of `refresh_tokens`, in insertion order. */
    var rows: seq<RefreshToken>

    /** Primary key on `id`; `token` is unique. */
    ghost predicate Valid()
      reads this
    {
      UniqueBy(rows, IdOf) && UniqueBy(rows, TokenOf)
    }

    constructor ()
      ensures Valid() && rows == []
    {
      rows := [];
    }

    /** `findByToken`: the row carrying this token, or null. */
    function FindByToken(token: string): (r: Option<RefreshToken>)
      reads this
      ensures r.Some? ==> r.value in rows && r.value.token == token
      ensures r.None? <==> forall i :: 0 <= i < |rows| ==> rows[i].token != token
    {
      FirstWhere(rows, HasToken(token))
    }

    /** `findByUserId`: the user's tokens in table order. */
    function FindByUserId(userId: string): (r: seq<RefreshToken>)
      reads this
      ensures forall i :: 0 <= i < |r| ==> r[i] in rows && r[i].userId == userId
    {
      Filter(rows, OfUser(userId))
    }

    /** `countByUserId`: how many tokens the user holds. */
    function CountByUserId(userId: string): (n: nat)
      reads this
      ensures n <= |rows|
      ensures n == 0 <==> forall i :: 0 <= i < |rows| ==> rows[i].userId != userId
    {
      FilterEmptyIff(rows, OfUser(userId));
      |FindByUserId(userId)|
    }

    /** The token `deleteOldestByUserId` removes: the user's token created first. */
    function OldestByUserId(userId: string): (r: Option<RefreshToken>)
      reads this
      ensures r.None? <==> CountByUserId(userId) == 0
      ensures r.Some? ==> r.value in rows && r.value.userId == userId
      ensures r.Some? ==> forall i :: 0 <= i < |rows| && rows[i].userId == userId ==>
                            r.value.createdAt <= rows[i].createdAt
    {
      var mine := FindByUserId(userId);
      var r := Oldest(mine);
      assert r.Some? ==> forall i :: 0 <= i < |rows| && rows[i].userId == userId ==>
                           r.value.createdAt <= rows[i].createdAt by {
        if r.Some? {
          forall i | 0 <= i < |rows| && rows[i].userId == userId ensures r.value.createdAt <= rows[i].createdAt {
            FilterSelects(rows, OfUser(userId), rows[i]);
          }
        }
      }
      assert r.Some? ==> r.value in mine;
      r
    }

    /** Every token the user holds is among `findByUserId`'s results. */
    lemma FindByUserIdIsComplete(userId: string, i: nat)
      requires i < |rows| && rows[i].userId == userId
      ensures rows[i] in FindByUserId(userId)
    {
      FilterSelects(rows, OfUser(userId), rows[i]);
    }

    /** Every row is found by its own token. */
    lemma FindsEveryToken(i: nat)
      requires Valid() && i < |rows|
      ensures FindByToken(rows[i].token) == Some(rows[i])
    {
      FirstWhereSole(rows, HasToken(rows[i].token), i);
    }

    /** `create`: insert a row with a generated `id` and `createdAt` set to `now`. A taken id or token
        is a unique violation and inserts nothing. */
    method Create(data: NewRefreshToken, id: string, now: int) returns (r: Result<RefreshToken, StoreError>)
      requires Valid()
      modifies this
      ensures Valid()
      ensures r.Failure? <==>
        (exists i :: 0 <= i < |old(rows)| && old(rows)[i].id == id) || old(FindByToken(data.token)).Some?
      ensures r.Failure? ==> r.error == Conflict && rows == old(rows)
      ensures r.Success? ==>
        && r.value == RefreshToken(id, data.userId, data.token, data.expiresAt, data.ipAddress, data.userAgent, now)
        && rows == old(rows) + [r.value]
        && FindByToken(data.token) == Some(r.value)
        && CountByUserId(data.userId) == old(CountByUserId(data.userId)) + 1
    {
      if FirstWhere(rows, (t: RefreshToken) => t.id == id).Some? || FindByToken(data.token).Some? {
        return Failure(Conflict);
      }
      var row := RefreshToken(id, data.userId, data.token, data.expiresAt, data.ipAddress, data.userAgent, now);
      AppendUnique(rows, row, IdOf);
      AppendUnique(rows, row, TokenOf);
      FilterAppend(rows, row, OfUser(data.userId));
      FirstWhereAppend(rows, row, HasToken(data.token));
      rows := rows + [row];
      r := Success(row);
    }

    /** `delete`: remove the row carrying this token, if there is one. */
    method Delete(token: string)
      requires Valid()
      modifies this
      ensures Valid()
      ensures FindByToken(token).None?
      ensures old(FindByToken(token)).None? ==> rows == old(rows)
      ensures forall i :: 0 <= i < |old(rows)| && old(rows[i]).token == token ==>
                rows == old(rows[..i]) + old(rows[i + 1..])
    {
      var before := rows;
      rows := Filter(before, NotToken(token));
      FilterUniqueBy(before, NotToken(token), IdOf);
      FilterUniqueBy(before, NotToken(token), TokenOf);
      if FirstWhere(before, HasToken(token)).None? {
        FilterKeepsAll(before, NotToken(token));
      }
      forall i | 0 <= i < |before| && before[i].token == token ensures rows == before[..i] + before[i + 1..] {
        FilterByUniqueKey(before, i, TokenOf, NotToken(token));
      }
    }

    /** `deleteByUserId`: remove every token of the user; the other users' rows stay, in order. */
    method DeleteByUserId(userId: string)
      requires Valid()
      modifies this
      ensures Valid()
      ensures rows == Filter(old(rows), NotOfUser(userId))
      ensures CountByUserId(userId) == 0
    {
      var before := rows;
      rows := Filter(before, NotOfUser(userId));
      FilterUniqueBy(before, NotOfUser(userId), IdOf);
      FilterUniqueBy(before, NotOfUser(userId), TokenOf);
    }

    /** `deleteExpired`: remove every token whose `expiresAt` is before `now`. What is left is exactly the
        tokens that are valid at `now`, and running it again removes nothing more. */
    method DeleteExpired(now: int)
      requires Valid()
      modifies this
      ensures Valid()
      ensures rows == Filter(old(rows), NotExpiredBefore(now))
      ensures forall i :: 0 <= i < |rows| ==> rows[i].IsValid(now)
      ensures forall i :: 0 <= i < |old(rows)| && old(rows[i]).IsValid(now) ==> old(rows[i]) in rows
      ensures Filter(rows, NotExpiredBefore(now)) == rows
    {
      var before := rows;
      rows := Filter(before, NotExpiredBefore(now));
      FilterUniqueBy(before, NotExpiredBefore(now), IdOf);
      FilterUniqueBy(before, NotExpiredBefore(now), TokenOf);
      forall i | 0 <= i < |before| && before[i].IsValid(now) ensures before[i] in rows {
        FilterSelects(before, NotExpiredBefore(now), before[i]);
      }
      FilterIdempotent(before, NotExpiredBefore(now));
    }

    /** `deleteOldestByUserId`: remove the user's token created first, if the user has one. The user's
        count drops by one and no other user's tokens change. */
    method DeleteOldestByUserId(userId: string)
      requires Valid()
      modifies this
      ensures Valid()
      ensures old(OldestByUserId(userId)).None? ==> rows == old(rows)
      ensures old(OldestByUserId(userId)).Some? ==>
        && CountByUserId(userId) == old(CountByUserId(userId)) - 1
        && exists i :: 0 <= i < |old(rows)| && old(rows)[i] == old(OldestByUserId(userId)).value
                       && rows == old(rows)[..i] + old(rows)[i + 1..]
      ensures forall other :: other != userId ==> FindByUserId(other) == old(FindByUserId(other))
    {
      var oldest := OldestByUserId(userId);
      if oldest.Some? {
        var before := rows;
        var i :| 0 <= i < |before| && before[i] == oldest.value;
        RemoveOne(before, i);
        rows := Filter(before, NotId(oldest.value.id));
      }
    }
  }
}
