/** A worked `generateSlug` example, "Caf\U{00E9} D\U{00E9}j\U{00E0} Vu!" to "cafe-deja-vu", one pipeline
    stage at a time: each concrete step is its own small lemma and the pieces are glued by the
    concatenation lemmas. */
module SlugExamples {
  import opened Tables
  import opened Organizations
  import opened JsText
  lemma RemoveAccentsConcat3(a: string, b: string, c: string)
    ensures RemoveAccents(a + b + c) == RemoveAccents(a) + RemoveAccents(b) + RemoveAccents(c)
  {
    RemoveAccentsConcat(a + b, c);
    RemoveAccentsConcat(a, b);
  }
  /** Accent removal of three consecutive pieces, each already known. */
  lemma RemoveAccentsPieces(a: string, b: string, c: string, ra: string, rb: string, rc: string)
    requires RemoveAccents(a) == ra && RemoveAccents(b) == rb && RemoveAccents(c) == rc
    ensures RemoveAccents(a + b + c) == ra + rb + rc
  {
    RemoveAccentsConcat3(a, b, c);
  }
  lemma LowerOfCaf() ensures ToLowerCase("Caf") == "caf" {
    assert ToLowerCase("Caf")[0] == 'c';
  }
  lemma LowerOfSpaceD() ensures ToLowerCase(" D") == " d" {
    assert ToLowerCase(" D")[1] == 'd';
  }
  lemma LowerOfJ() ensures ToLowerCase("j") == "j" {}
  lemma LowerOfSpaceVu() ensures ToLowerCase(" Vu!") == " vu!" {
    assert ToLowerCase(" Vu!")[1] == 'v';
  }
  lemma LowerCaf() ensures RemoveAccents("Caf") == "caf" { RemoveAccentsOfUnaccented("Caf"); LowerOfCaf(); }
  lemma LowerSpaceD() ensures RemoveAccents(" D") == " d" { RemoveAccentsOfUnaccented(" D"); LowerOfSpaceD(); }
  lemma LowerJ() ensures RemoveAccents("j") == "j" { RemoveAccentsOfUnaccented("j"); LowerOfJ(); }
  lemma LowerSpaceVu() ensures RemoveAccents(" Vu!") == " vu!" { RemoveAccentsOfUnaccented(" Vu!"); LowerOfSpaceVu(); }
  lemma DecomposeE() ensures Decompose("\U{00E9}") == "e\U{0301}" {
    assert "\U{00E9}"[1..] == [];
  }
  lemma DecomposeA() ensures Decompose("\U{00E0}") == "a\U{0300}" {
    assert "\U{00E0}"[1..] == [];
  }
  lemma DropMarkE() ensures Filter("e\U{0301}", IsNotCombiningMark) == "e" {
    assert "e\U{0301}"[1..] == "\U{0301}";
    assert "\U{0301}"[1..] == [];
  }
  lemma DropMarkA() ensures Filter("a\U{0300}", IsNotCombiningMark) == "a" {
    assert "a\U{0300}"[1..] == "\U{0300}";
    assert "\U{0300}"[1..] == [];
  }
  lemma UnaccentE() ensures RemoveAccents("\U{00E9}") == "e" {
    assert ToLowerCase("\U{00E9}") == "\U{00E9}";
    DecomposeE(); DropMarkE();
  }
  lemma UnaccentA() ensures RemoveAccents("\U{00E0}") == "a" {
    assert ToLowerCase("\U{00E0}") == "\U{00E0}";
    DecomposeA(); DropMarkA();
  }
  lemma GlueCafeD() ensures "Caf" + "\U{00E9}" + " D" == "Caf\U{00E9} D" && "caf" + "e" + " d" == "cafe d" {}
  lemma GlueEja() ensures "\U{00E9}" + "j" + "\U{00E0}" == "\U{00E9}j\U{00E0}" && "e" + "j" + "a" == "eja" {}
  lemma GlueName() ensures "Caf\U{00E9} D" + "\U{00E9}j\U{00E0}" + " Vu!" == "Caf\U{00E9} D\U{00E9}j\U{00E0} Vu!" {}
  lemma GlueUnaccented() ensures "cafe d" + "eja" + " vu!" == "cafe deja vu!" {}
  lemma UnaccentCafeD() ensures RemoveAccents("Caf\U{00E9} D") == "cafe d" {
    LowerCaf(); LowerSpaceD(); UnaccentE(); GlueCafeD();
    RemoveAccentsPieces("Caf", "\U{00E9}", " D", "caf", "e", " d");
  }
  lemma UnaccentEja() ensures RemoveAccents("\U{00E9}j\U{00E0}") == "eja" {
    UnaccentE(); LowerJ(); UnaccentA(); GlueEja();
    RemoveAccentsPieces("\U{00E9}", "j", "\U{00E0}", "e", "j", "a");
  }
  lemma UnaccentName() ensures RemoveAccents("Caf\U{00E9} D\U{00E9}j\U{00E0} Vu!") == "cafe deja vu!" {
    UnaccentCafeD(); UnaccentEja(); LowerSpaceVu(); GlueName(); GlueUnaccented();
    RemoveAccentsPieces("Caf\U{00E9} D", "\U{00E9}j\U{00E0}", " Vu!", "cafe d", "eja", " vu!");
  }
  lemma KeepCafe() ensures KeepSlugChars("cafe") == "cafe" {}
  lemma KeepSpaceDeja() ensures KeepSlugChars(" deja") == " deja" {}
  lemma GlueCafeDeja() ensures "cafe" + " deja" == "cafe deja" {}
  lemma KeepCafeDeja() ensures KeepSlugChars("cafe deja") == "cafe deja" {
    KeepCafe(); KeepSpaceDeja(); GlueCafeDeja();
    FilterConcat("cafe", " deja", IsSlugCharOrSpace);
  }
  lemma KeepVu() ensures KeepSlugChars(" vu!") == " vu" {}
  lemma GlueKept() ensures "cafe deja" + " vu!" == "cafe deja vu!" && "cafe deja" + " vu" == "cafe deja vu" {}
  lemma KeepName() ensures KeepSlugChars("cafe deja vu!") == "cafe deja vu" {
    KeepCafeDeja(); KeepVu(); GlueKept();
    FilterConcat("cafe deja", " vu!", IsSlugCharOrSpace);
  }
  lemma TrimName() ensures Trim("cafe deja vu") == "cafe deja vu" {}
  lemma SubstituteName() ensures Substitute("cafe deja vu", IsWhiteSpace, '-') == "cafe-deja-vu" {
    var r, t := Substitute("cafe deja vu", IsWhiteSpace, '-'), "cafe-deja-vu";
    assert |r| == |t|;
    forall i | 0 <= i < |t| ensures r[i] == t[i] {
      assert r[i] == if IsWhiteSpace("cafe deja vu"[i]) then '-' else "cafe deja vu"[i];
    }
  }
  lemma SpacesAreSingle()
    ensures var s := "cafe deja vu"; forall i :: 0 <= i < |s| - 1 ==> !(IsWhiteSpace(s[i]) && IsWhiteSpace(s[i + 1]))
  {
  }
  lemma ReplaceSpacesName() ensures ReplaceRuns("cafe deja vu", IsWhiteSpace, '-') == "cafe-deja-vu" {
    SpacesAreSingle(); SubstituteName();
    ReplaceRunsOfSingles("cafe deja vu", IsWhiteSpace, '-');
  }
  lemma HyphenateName() ensures Hyphenate("cafe deja vu") == "cafe-deja-vu" {
    TrimName(); ReplaceSpacesName();
  }
  lemma CollapseName() ensures CollapseHyphens("cafe-deja-vu") == "cafe-deja-vu" {
    ReplaceRunsKeeps("cafe-deja-vu", IsHyphen, '-');
  }
  /** Lowercased, accents dropped, the `!` removed, and each space turned into a hyphen. */
  lemma CafeDejaVu() ensures GenerateSlug("Caf\U{00E9} D\U{00E9}j\U{00E0} Vu!") == "cafe-deja-vu" {
    UnaccentName(); KeepName(); HyphenateName(); CollapseName();
  }
}
