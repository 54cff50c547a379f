/** The `organizations` table and the queries the organization repository runs against it. */
module OrganizationStore {
  import opened Wrappers
  import opened Tables
  import opened JsText
  import opened Organizations

  function IdOf(o: Organization): string { o.id }
  function SlugOf(o: Organization): Option<string> { o.slug }

  function HasId(id: string): Organization -> bool {
    (o: Organization) => o.id == id
  }

  function NotId(id: string): Organization -> bool {
    (o: Organization) => o.id != id
  }

  function HasSlug(slug: string): Organization -> bool {
    (o: Organization) => o.slug == Some(slug)
  }

  /** What `create` inserts: every column but the generated id and timestamps. */
  datatype NewOrganization = NewOrganization(
    name: string,
    slug: Option<string>,
    dataRetentionDays: int,
    retentionEnabled: bool,
    settings: Settings)

  /** The argument of `update`; `None` is a property left undefined. A given `updatedAt` is not used. */
  datatype OrganizationPatch = OrganizationPatch(
    name: Option<string>,
    slug: Option<Option<string>>,
    dataRetentionDays: Option<int>,
    retentionEnabled: Option<bool>,
    settings: Option<Settings>,
    updatedAt: Option<int>)

  /** The row an `update` writes: each defined property replaces its column, and `updatedAt` becomes `now`. */
  function Patched(o: Organization, patch: OrganizationPatch, now: int): Organization {
    o.(name := patch.name.GetOr(o.name), slug := patch.slug.GetOr(o.slug),
       dataRetentionDays := patch.dataRetentionDays.GetOr(o.dataRetentionDays),
       retentionEnabled := patch.retentionEnabled.GetOr(o.retentionEnabled),
       settings := patch.settings.GetOr(o.settings), updatedAt := now)
  }

  /** Only the defined properties change; id and creation time never do; the patch's own `updatedAt` is ignored. */
  lemma PatchedChangesOnlyDefinedFields(o: Organization, patch: OrganizationPatch, now: int)
    ensures var p := Patched(o, patch, now);
      && p.id == o.id && p.createdAt == o.createdAt && p.updatedAt == now
      && (patch.name.None? ==> p.name == o.name) && (patch.name.Some? ==> p.name == patch.name.value)
      && (patch.slug.None? ==> p.slug == o.slug) && (patch.slug.Some? ==> p.slug == patch.slug.value)
      && (patch.dataRetentionDays.None? ==> p.dataRetentionDays == o.dataRetentionDays)
      && (patch.dataRetentionDays.Some? ==> p.dataRetentionDays == patch.dataRetentionDays.value)
      && (patch.retentionEnabled.None? ==> p.retentionEnabled == o.retentionEnabled)
      && (patch.retentionEnabled.Some? ==> p.retentionEnabled == patch.retentionEnabled.value)
      && (patch.settings.None? ==> p.settings == o.settings)
      && (patch.settings.Some? ==> p.settings == patch.settings.value)
      && Patched(o, patch.(updatedAt := None), now) == p
  {
  }

  /** Applying the same patch twice at the same instant is applying it once. */
  lemma PatchedIsIdempotent(o: Organization, patch: OrganizationPatch, now: int)
    ensures Patched(Patched(o, patch, now), patch, now) == Patched(o, patch, now)
  {
  }

  class OrganizationRepository {
    /** The rows of `organizations`, in insertion order. */
    var rows: seq<Organization>

    /** Primary key on `id`; `slug` is unique where it is not null. */
    ghost predicate Valid()
      reads this
    {
      UniqueBy(rows, IdOf) && UniqueWhenPresent(rows, SlugOf)
    }

    constructor ()
      ensures Valid() && rows == []
    {
      rows := [];
    }

    /** `findById`: the organization with this id, or null. */
    function FindById(id: string): (r: Option<Organization>)
      reads this
      ensures r.Some? ==> r.value in rows && r.value.id == id
      ensures r.None? <==> forall i :: 0 <= i < |rows| ==> rows[i].id != id
    {
      FirstWhere(rows, HasId(id))
    }

    /** `findBySlug`: the organization with this slug, or null. */
    function FindBySlug(slug: string): (r: Option<Organization>)
      reads this
      ensures r.Some? ==> r.value in rows && r.value.slug == Some(slug)
      ensures r.None? <==> forall i :: 0 <= i < |rows| ==> rows[i].slug != Some(slug)
    {
      FirstWhere(rows, HasSlug(slug))
    }

    /** `slugExists`: some row carries this slug. */
    predicate SlugExists(slug: string)
      reads this
      ensures SlugExists(slug) <==> exists i :: 0 <= i < |rows| && rows[i].slug == Some(slug)
    {
      FirstWhere(rows, HasSlug(slug)).Some?
    }

    /** Another row than the one with `id` already carries `slug`. */
    predicate SlugTakenByOther(slug: string, id: string)
      reads this
    {
      exists i :: 0 <= i < |rows| && rows[i].slug == Some(slug) && rows[i].id != id
    }

    /** Every row is found by its own id and, where it has one, its own slug. */
    lemma FindsEveryRow(i: nat)
      requires Valid() && i < |rows|
      ensures FindById(rows[i].id) == Some(rows[i])
      ensures rows[i].slug.Some? ==> FindBySlug(rows[i].slug.value) == Some(rows[i])
    {
      FirstWhereSole(rows, HasId(rows[i].id), i);
      if rows[i].slug.Some? {
        FirstWhereSole(rows, HasSlug(rows[i].slug.value), i);
      }
    }

    /** `slugExists` answers yes exactly when `findBySlug` finds something. */
    lemma SlugExistsIffFound(slug: string)
      ensures SlugExists(slug) <==> FindBySlug(slug).Some?
    {
    }

    /** `create`: insert a row with generated `id` and both timestamps set to `now`. A taken id or slug
        is a unique violation and inserts nothing. */
    method Create(data: NewOrganization, id: string, now: int) returns (r: Result<Organization, StoreError>)
      requires Valid()
      modifies this
      ensures Valid()
      ensures r.Failure? <==> old(FindById(id)).Some? || (data.slug.Some? && old(SlugExists(data.slug.value)))
      ensures r.Failure? ==> r.error == Conflict && rows == old(rows)
      ensures r.Success? ==>
        && r.value == Organization(id, data.name, data.slug, data.dataRetentionDays, data.retentionEnabled,
                                   data.settings, now, now)
        && rows == old(rows) + [r.value]
        && FindById(id) == Some(r.value)
    {
      if FindById(id).Some? || (data.slug.Some? && SlugExists(data.slug.value)) {
        return Failure(Conflict);
      }
      var row := Organization(id, data.name, data.slug, data.dataRetentionDays, data.retentionEnabled,
                              data.settings, now, now);
      AppendUnique(rows, row, IdOf);
      AppendUniqueWhenPresent(rows, row, SlugOf);
      FirstWhereAppend(rows, row, HasId(id));
      rows := rows + [row];
      r := Success(row);
    }

    /** `update`: set the defined properties and `updatedAt` on the row with this id. No such row is
        `NotFound`; a slug another row carries is a unique violation. */
    method Update(id: string, patch: OrganizationPatch, now: int) returns (r: Result<Organization, StoreError>)
      requires Valid()
      modifies this
      ensures Valid()
      ensures r == Failure(NotFound) <==> old(FindById(id)).None?
      ensures r == Failure(Conflict) <==>
        old(FindById(id)).Some? && patch.slug.Some? && patch.slug.value.Some?
        && old(SlugTakenByOther(patch.slug.value.value, id))
      ensures r.Failure? ==> rows == old(rows)
      ensures r.Success? ==>
        && r.value == Patched(old(FindById(id)).value, patch, now)
        && |rows| == |old(rows)|
        && forall i :: 0 <= i < |rows| ==>
             rows[i] == if old(rows[i]).id == id then r.value else old(rows[i])
    {
      var found := FindById(id);
      if found.None? {
        return Failure(NotFound);
      }
      if patch.slug.Some? && patch.slug.value.Some? && SlugTakenByOther(patch.slug.value.value, id) {
        return Failure(Conflict);
      }
      var updated := Patched(found.value, patch, now);
      var k :| 0 <= k < |rows| && rows[k] == found.value;
      UniqueOthers(rows, k, IdOf);
      if updated.slug.Some? && patch.slug.None? {
        UniqueOthersWhenPresent(rows, k, SlugOf);
      }
      UpdateUnique(rows, k, updated, IdOf);
      UpdateUniqueWhenPresent(rows, k, updated, SlugOf);
      rows := rows[k := updated];
      r := Success(updated);
    }

    /** `delete`: remove the row with this id, if there is one. */
    method Delete(id: string)
      requires Valid()
      modifies this
      ensures Valid()
      ensures FindById(id).None?
      ensures old(FindById(id)).None? ==> rows == old(rows)
      ensures forall i :: 0 <= i < |old(rows)| && old(rows[i]).id == id ==>
                rows == old(rows[..i]) + old(rows[i + 1..])
    {
      var before := rows;
      rows := Filter(before, NotId(id));
      FilterUniqueBy(before, NotId(id), IdOf);
      FilterUniqueWhenPresent(before, NotId(id), SlugOf);
      if FirstWhere(before, HasId(id)).None? {
        FilterKeepsAll(before, NotId(id));
      }
      forall i | 0 <= i < |before| && before[i].id == id ensures rows == before[..i] + before[i + 1..] {
        FilterByUniqueKey(before, i, IdOf, NotId(id));
      }
    }

    /** `findAvailableSlug`: the base slug if it is free, otherwise `${base}-${n}` for the least free
        `n` from 2 to 99, otherwise `${base}-${now}`, where `now` is the current time in milliseconds.
        It only reads the table, and `probes` counts the `slugExists` calls it makes. */
    method FindAvailableSlug(base: string, now: int) returns (slug: string, ghost probes: nat)
      ensures probes <= 99
      ensures !SlugExists(base) ==> slug == base
      ensures SlugExists(base) && (exists n :: 2 <= n < 100 && !SlugExists(Suffixed(base, n))) ==>
        exists n :: 2 <= n < 100 && slug == Suffixed(base, n) && !SlugExists(slug)
                    && forall m :: 2 <= m < n ==> SlugExists(Suffixed(base, m))
      ensures SlugExists(base) && (forall n :: 2 <= n < 100 ==> SlugExists(Suffixed(base, n))) ==>
        slug == Suffixed(base, now)
    {
      probes := 1;
      if !SlugExists(base) {
        return base, probes;
      }
      var suffix := 2;
      while suffix < 100
        invariant 2 <= suffix <= 100
        invariant probes == suffix - 1
        invariant forall m :: 2 <= m < suffix ==> SlugExists(Suffixed(base, m))
      {
        var candidate := Suffixed(base, suffix);
        probes := probes + 1;
        if !SlugExists(candidate) {
          return candidate, probes;
        }
        suffix := suffix + 1;
      }
      slug := Suffixed(base, now);
    }
  }
}
