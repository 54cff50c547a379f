/** A worked `findAvailableSlug` run: with "acme" and "acme-2" to "acme-5" taken, the first free
    candidate is "acme-6". */
module OrganizationStoreExamples {
  import opened Wrappers
  import opened Tables
  import opened JsText
  import opened Organizations
  import opened OrganizationStore

  /** An organization with default settings whose name is its slug. */
  function Named(id: string, slug: string): Organization {
    Organization(id, slug, Some(slug), 730, true, map[], 0, 0)
  }

  function AcmeRows(): seq<Organization> {
    [Named("1", "acme"), Named("2", "acme-2"), Named("3", "acme-3"), Named("4", "acme-4"), Named("5", "acme-5")]
  }

  lemma SuffixedSmall()
    ensures Suffixed("acme", 2) == "acme-2" && Suffixed("acme", 3) == "acme-3" && Suffixed("acme", 4) == "acme-4"
    ensures Suffixed("acme", 5) == "acme-5" && Suffixed("acme", 6) == "acme-6"
  {
  }

  /** "acme" and "acme-2" to "acme-5" are taken. */
  lemma AcmeTaken(k: int)
    requires k == 1 || 2 <= k < 6
    ensures FirstWhere(AcmeRows(), HasSlug(if k == 1 then "acme" else Suffixed("acme", k))).Some?
  {
    SuffixedSmall();
    var rows := AcmeRows();
    assert rows[k - 1].slug == Some(if k == 1 then "acme" else Suffixed("acme", k));
  }

  /** "acme-6" is free. */
  lemma AcmeSixFree()
    ensures FirstWhere(AcmeRows(), HasSlug(Suffixed("acme", 6))).None?
  {
    SuffixedSmall();
    var rows := AcmeRows();
    forall i | 0 <= i < |rows| ensures rows[i].slug != Some("acme-6") {
      var t := rows[i].slug.value;
      assert |t| == 4 || t[5] != '6';
    }
  }

  /** The least free suffix is 6. */
  lemma LeastFreeIsSix(n: int)
    requires 2 <= n < 100 && FirstWhere(AcmeRows(), HasSlug(Suffixed("acme", n))).None?
    requires forall m :: 2 <= m < n ==> FirstWhere(AcmeRows(), HasSlug(Suffixed("acme", m))).Some?
    ensures n == 6
  {
    if n < 6 {
      AcmeTaken(n);
    } else if n > 6 {
      AcmeSixFree();
    }
  }

  method AcmeExample() returns (slug: string)
    ensures slug == "acme-6"
  {
    var repo := new OrganizationRepository();
    repo.rows := AcmeRows();
    AcmeTaken(1);
    ghost var probes;
    slug, probes := repo.FindAvailableSlug("acme", 0);
    AcmeSixFree();
    var n :| 2 <= n < 100 && slug == Suffixed("acme", n) && !repo.SlugExists(slug)
             && forall m :: 2 <= m < n ==> repo.SlugExists(Suffixed("acme", m));
    LeastFreeIsSix(n);
    SuffixedSmall();
  }
}
