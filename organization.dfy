/** The tenant root: the organization record, its factory defaults and the slug derived from its name. */
module Organizations {
  import opened Wrappers
  import opened Tables
  import opened JsText

  /** The free-form settings object; its JSON values are kept as their text. */
  type Settings = map<string, string>

  datatype Organization = Organization(
    id: string,
    name: string,
    slug: Option<string>,
    dataRetentionDays: int,
    retentionEnabled: bool,
    settings: Settings,
    createdAt: int,
    updatedAt: int)

  const DefaultRetentionDays: int := 730

  /** The fields `Organization.create` accepts; `None` is an absent property and `Some(None)` an explicit null. */
  datatype OrganizationInit = OrganizationInit(
    id: string,
    name: string,
    slug: Option<Option<string>>,
    dataRetentionDays: Option<int>,
    retentionEnabled: Option<bool>,
    settings: Option<Settings>,
    createdAt: int,
    updatedAt: int)

  /** `Organization.create`: slug defaults to null, retention to 730 days and enabled, settings to empty. */
  function Create(data: OrganizationInit): Organization {
    Organization(data.id, data.name, data.slug.GetOr(None),
                 data.dataRetentionDays.GetOr(DefaultRetentionDays),
                 data.retentionEnabled.GetOr(true), data.settings.GetOr(map[]),
                 data.createdAt, data.updatedAt)
  }

  function InitOf(o: Organization): OrganizationInit {
    OrganizationInit(o.id, o.name, Some(o.slug), Some(o.dataRetentionDays), Some(o.retentionEnabled),
                     Some(o.settings), o.createdAt, o.updatedAt)
  }

  /** Defaults fill only fields that are missing: a given 0, false or empty map is kept. */
  lemma CreateDefaults(data: OrganizationInit)
    ensures var o := Create(data);
      && (data.slug.None? || data.slug.value.None? <==> o.slug.None?)
      && (data.slug.Some? ==> o.slug == data.slug.value)
      && o.dataRetentionDays == (if data.dataRetentionDays.Some? then data.dataRetentionDays.value else 730)
      && o.retentionEnabled == (data.retentionEnabled.None? || data.retentionEnabled.value)
      && o.settings == (if data.settings.Some? then data.settings.value else map[])
      && o.id == data.id && o.name == data.name
      && o.createdAt == data.createdAt && o.updatedAt == data.updatedAt
  {
  }

  /** Re-creating an organization from all of its own fields gives the same organization. */
  lemma CreateOfInitOf(o: Organization)
    ensures Create(InitOf(o)) == o
  {
  }

  // ---------------------------------------------------------------------------
  // Slugs

  predicate IsSlugChar(c: char) {
    'a' <= c <= 'z' || '0' <= c <= '9' || c == '-'
  }

  predicate AllSlugChars(s: string) {
    forall i :: 0 <= i < |s| ==> IsSlugChar(s[i])
  }

  predicate NoDoubleHyphen(s: string) {
    forall i :: 0 <= i < |s| - 1 ==> !(s[i] == '-' && s[i + 1] == '-')
  }

  /** What `generateSlug` produces: only `[a-z0-9-]`, and never two hyphens in a row. */
  predicate IsSlug(s: string) {
    AllSlugChars(s) && NoDoubleHyphen(s)
  }

  /** `toLowerCase` on one character, for ASCII and the Latin-1 capitals. */
  function LowerChar(c: char): char {
    if 'A' <= c <= 'Z' || ('\U{00C0}' <= c <= '\U{00DE}' && c != '\U{00D7}') then (c as int + 32) as char
    else c
  }

  function ToLowerCase(s: string): string {
    seq(|s|, i requires 0 <= i < |s| => LowerChar(s[i]))
  }

  /** Canonical decomposition (NFD) of the accented small letters of Latin-1: the base letter, then its
      combining mark; `None` for every other character. */
  function Latin1Decomposition(c: char): Option<string> {
    match c
    case '\U{00E0}' => Some("a\U{0300}")
    case '\U{00E1}' => Some("a\U{0301}")
    case '\U{00E2}' => Some("a\U{0302}")
    case '\U{00E3}' => Some("a\U{0303}")
    case '\U{00E4}' => Some("a\U{0308}")
    case '\U{00E5}' => Some("a\U{030A}")
    case '\U{00E7}' => Some("c\U{0327}")
    case '\U{00E8}' => Some("e\U{0300}")
    case '\U{00E9}' => Some("e\U{0301}")
    case '\U{00EA}' => Some("e\U{0302}")
    case '\U{00EB}' => Some("e\U{0308}")
    case '\U{00EC}' => Some("i\U{0300}")
    case '\U{00ED}' => Some("i\U{0301}")
    case '\U{00EE}' => Some("i\U{0302}")
    case '\U{00EF}' => Some("i\U{0308}")
    case '\U{00F1}' => Some("n\U{0303}")
    case '\U{00F2}' => Some("o\U{0300}")
    case '\U{00F3}' => Some("o\U{0301}")
    case '\U{00F4}' => Some("o\U{0302}")
    case '\U{00F5}' => Some("o\U{0303}")
    case '\U{00F6}' => Some("o\U{0308}")
    case '\U{00F9}' => Some("u\U{0300}")
    case '\U{00FA}' => Some("u\U{0301}")
    case '\U{00FB}' => Some("u\U{0302}")
    case '\U{00FC}' => Some("u\U{0308}")
    case '\U{00FD}' => Some("y\U{0301}")
    case '\U{00FF}' => Some("y\U{0308}")
    case _ => None
  }

  function DecomposeChar(c: char): string {
    if c < '\U{00E0}' then [c]
    else match Latin1Decomposition(c)
      case Some(d) => d
      case None => [c]
  }

  /** `normalize('NFD')`. */
  function Decompose(s: string): string {
    if s == [] then [] else DecomposeChar(s[0]) + Decompose(s[1..])
  }

  /** Outside the range of combining diacritical marks U+0300 to U+036F. */
  predicate IsNotCombiningMark(c: char) {
    !('\U{0300}' <= c <= '\U{036F}')
  }

  /** Survives `/[^a-z0-9\s-]/g`. */
  predicate IsSlugCharOrSpace(c: char) {
    IsSlugChar(c) || IsWhiteSpace(c)
  }

  predicate IsHyphen(c: char) {
    c == '-'
  }

  /** `s` without its trailing white space. */
  function TrimEnd(s: string): (r: string)
    ensures |r| <= |s| && r == s[..|r|]
    ensures forall i :: |r| <= i < |s| ==> IsWhiteSpace(s[i])
    ensures r != [] ==> !IsWhiteSpace(r[|r| - 1])
  {
    if s != [] && IsWhiteSpace(s[|s| - 1]) then TrimEnd(s[..|s| - 1]) else s
  }

  /** `String.prototype.trim`. */
  function Trim(s: string): (r: string)
    ensures forall c :: c in r ==> c in s
  {
    var t := TrimStart(s);
    assert forall c :: c in t ==> c in s by {
      forall c | c in t ensures c in s {
        var k :| 0 <= k < |t| && t[k] == c;
        TrimStartIsSuffix(s, k);
      }
    }
    TrimEnd(t)
  }

  lemma {:induction false} TrimStartIsSuffix(s: string, k: nat)
    requires k < |TrimStart(s)|
    ensures TrimStart(s)[k] in s
  {
    if s != [] && IsWhiteSpace(s[0]) {
      TrimStartIsSuffix(s[1..], k);
    }
  }

  /** `s` without its leading characters that satisfy `p`. */
  function DropWhile(s: string, p: char -> bool): (r: string)
    ensures |r| <= |s|
    ensures r != [] ==> !p(r[0])
    ensures forall c :: c in r ==> c in s
  {
    if s != [] && p(s[0]) then DropWhile(s[1..], p) else s
  }

  /** `s.replace(/x+/g, [c])` where `p` says which characters are `x`: every maximal run of them becomes one `c`. */
  function ReplaceRuns(s: string, p: char -> bool, c: char): (r: string)
    ensures r == [] <==> s == []
    ensures r != [] ==> r[0] == (if p(s[0]) then c else s[0])
    ensures forall i :: 0 <= i < |r| ==> r[i] == c || (r[i] in s && !p(r[i]))
    ensures p(c) ==> NoRepeat(r, c)
    decreases |s|
  {
    if s == [] then []
    else if p(s[0]) then [c] + ReplaceRuns(DropWhile(s, p), p, c)
    else [s[0]] + ReplaceRuns(s[1..], p, c)
  }

  predicate AllWhiteSpace(s: string) {
    forall i :: 0 <= i < |s| ==> IsWhiteSpace(s[i])
  }

  /** `trimEnd` removes trailing white space and nothing else. */
  lemma {:induction false} TrimEndDropsWhiteSpace(s: string)
    ensures var r := TrimEnd(s); r == s[..|r|] && AllWhiteSpace(s[|r|..])
  {
    if s != [] && IsWhiteSpace(s[|s| - 1]) {
      var t := s[..|s| - 1];
      TrimEndDropsWhiteSpace(t);
      var r := TrimEnd(t);
      assert s[|r|..] == t[|r|..] + [s[|s| - 1]];
    }
  }

  /** `trimStart` removes leading white space and nothing else. */
  lemma {:induction false} TrimStartDropsWhiteSpace(s: string)
    ensures var r := TrimStart(s); r == s[|s| - |r|..] && AllWhiteSpace(s[..|s| - |r|])
  {
    if s != [] && IsWhiteSpace(s[0]) {
      TrimStartDropsWhiteSpace(s[1..]);
      var r := TrimStart(s[1..]);
      assert s[1..][|s| - 1 - |r|..] == s[|s| - |r|..];
      assert s[..|s| - |r|] == [s[0]] + s[1..][..|s| - 1 - |r|];
    }
  }

  /** `trim` leaves the slice of `s` between its leading and its trailing white space: `s` is that slice with
      white space only before and after it. */
  lemma TrimIsSlice(s: string)
    ensures exists pre, post :: s == pre + Trim(s) + post && AllWhiteSpace(pre) && AllWhiteSpace(post)
  {
    var t := TrimStart(s);
    TrimStartDropsWhiteSpace(s);
    TrimEndDropsWhiteSpace(t);
    WhiteSpaceAround(s, t, TrimEnd(t));
  }

  lemma WhiteSpaceAround(s: string, t: string, r: string)
    requires |t| <= |s| && t == s[|s| - |t|..] && AllWhiteSpace(s[..|s| - |t|])
    requires |r| <= |t| && r == t[..|r|] && AllWhiteSpace(t[|r|..])
    ensures exists pre, post :: s == pre + r + post && AllWhiteSpace(pre) && AllWhiteSpace(post)
  {
    var pre, post := s[..|s| - |t|], t[|r|..];
    assert s == pre + t;
    assert t == r + post;
    assert s == pre + r + post;
  }

  /** What `trim` leaves neither starts nor ends with white space. */
  lemma TrimEndsAreNotWhiteSpace(s: string)
    ensures var r := Trim(s); r != [] ==> !IsWhiteSpace(r[0]) && !IsWhiteSpace(r[|r| - 1])
  {
    var t := TrimStart(s);
    var r := TrimEnd(t);
    assert Trim(s) == r;
    if r != [] {
      assert r[0] == t[0];
    }
  }

  /** `dropWhile` removes a leading run of `p` characters and nothing else. */
  lemma {:induction false} DropWhileDropsRun(s: string, p: char -> bool)
    ensures var r := DropWhile(s, p); r == s[|s| - |r|..] && forall i :: 0 <= i < |s| - |r| ==> p(s[i])
  {
    if s != [] && p(s[0]) {
      DropWhileDropsRun(s[1..], p);
      var r := DropWhile(s[1..], p);
      assert s[1..][|s| - 1 - |r|..] == s[|s| - |r|..];
      forall i | 0 <= i < |s| - |r| ensures p(s[i]) {
        if i > 0 {
          assert s[i] == s[1..][i - 1];
        }
      }
    }
  }

  /** The characters `ReplaceRuns(s, p, c)` neither removes nor writes. */
  function Outside(p: char -> bool, c: char): char -> bool {
    (x: char) => !p(x) && x != c
  }

  /** Replacing the runs keeps every character that is neither in the class nor the replacement, in order. */
  lemma {:induction false} ReplaceRunsKeepsOthers(s: string, p: char -> bool, c: char)
    ensures Filter(ReplaceRuns(s, p, c), Outside(p, c)) == Filter(s, Outside(p, c))
    decreases |s|
  {
    if s == [] {
    } else if p(s[0]) {
      var d := DropWhile(s, p);
      DropWhileDropsRun(s, p);
      ReplaceRunsKeepsOthers(d, p, c);
      var run := s[..|s| - |d|];
      assert s == run + d;
      FilterConcat(run, d, Outside(p, c));
      FilterEmptyIff(run, Outside(p, c));
      assert ReplaceRuns(s, p, c) == [c] + ReplaceRuns(d, p, c);
      assert !Outside(p, c)(c);
      assert ([c] + ReplaceRuns(d, p, c))[1..] == ReplaceRuns(d, p, c);
    } else {
      ReplaceRunsKeepsOthers(s[1..], p, c);
      assert ReplaceRuns(s, p, c) == [s[0]] + ReplaceRuns(s[1..], p, c);
      assert ([s[0]] + ReplaceRuns(s[1..], p, c))[1..] == ReplaceRuns(s[1..], p, c);
    }
  }

  predicate NoRepeat(s: string, c: char) {
    forall i :: 0 <= i < |s| - 1 ==> !(s[i] == c && s[i + 1] == c)
  }

  /** Lowercase, decompose, and drop the combining marks that decomposition split off. */
  function RemoveAccents(name: string): string {
    Filter(Decompose(ToLowerCase(name)), IsNotCombiningMark)
  }

  /** Drop every character outside `[a-z0-9\s-]`. */
  function KeepSlugChars(s: string): (r: string)
    ensures forall i :: 0 <= i < |r| ==> IsSlugCharOrSpace(r[i])
  {
    Filter(s, IsSlugCharOrSpace)
  }

  /** Trim, then turn each white-space run into one hyphen. */
  function Hyphenate(s: string): (r: string)
    requires forall i :: 0 <= i < |s| ==> IsSlugCharOrSpace(s[i])
    ensures AllSlugChars(r)
  {
    var trimmed := Trim(s);
    var r := ReplaceRuns(trimmed, IsWhiteSpace, '-');
    assert forall i :: 0 <= i < |r| ==> IsSlugChar(r[i]) by {
      forall i | 0 <= i < |r| ensures IsSlugChar(r[i]) {
        if r[i] != '-' {
          assert r[i] in trimmed && !IsWhiteSpace(r[i]);
          var k :| 0 <= k < |s| && s[k] == r[i];
          assert IsSlugCharOrSpace(s[k]);
        }
      }
    }
    r
  }

  /** Turn each run of hyphens into one hyphen. */
  function CollapseHyphens(s: string): (r: string)
    requires AllSlugChars(s)
    ensures IsSlug(r)
  {
    ReplaceRuns(s, IsHyphen, '-')
  }

  /** `Organization.generateSlug`: lowercase, decompose, drop the accents, drop every character outside
      `[a-z0-9\s-]`, trim, turn each white-space run into a hyphen, then each hyphen run into one hyphen. */
  function GenerateSlug(name: string): (slug: string)
    ensures IsSlug(slug)
  {
    CollapseHyphens(Hyphenate(KeepSlugChars(RemoveAccents(name))))
  }

  // Each step leaves a slug unchanged.

  lemma {:induction false} DecomposeKeepsSlug(s: string)
    requires AllSlugChars(s)
    ensures Decompose(s) == s
  {
    if s != [] {
      DecomposeKeepsSlug(s[1..]);
      assert IsSlugChar(s[0]);
    }
  }

  /** NFD leaves every character below the accented small letters as it is. */
  lemma {:induction false} DecomposeKeepsUnaccented(s: string)
    requires forall i :: 0 <= i < |s| ==> s[i] < '\U{00E0}'
    ensures Decompose(s) == s
  {
    if s != [] {
      DecomposeKeepsUnaccented(s[1..]);
      assert s[0] < '\U{00E0}';
    }
  }

  /** Below the Latin-1 letters, accent removal is only lowercasing. */
  lemma RemoveAccentsOfUnaccented(s: string)
    requires forall i :: 0 <= i < |s| ==> s[i] < '\U{00C0}'
    ensures RemoveAccents(s) == ToLowerCase(s)
  {
    var lower := ToLowerCase(s);
    forall i | 0 <= i < |lower| ensures lower[i] < '\U{00E0}' {
      assert lower[i] == LowerChar(s[i]);
    }
    DecomposeKeepsUnaccented(lower);
    FilterKeepsAll(lower, IsNotCombiningMark);
  }

  /** `s` with every character that satisfies `p` replaced by `c`. */
  function Substitute(s: string, p: char -> bool, c: char): (r: string)
    ensures |r| == |s|
  {
    seq(|s|, i requires 0 <= i < |s| => if p(s[i]) then c else s[i])
  }

  /** Where no two characters in a row satisfy `p`, every run has length one and is simply replaced. */
  lemma {:induction false} ReplaceRunsOfSingles(s: string, p: char -> bool, c: char)
    requires forall i :: 0 <= i < |s| - 1 ==> !(p(s[i]) && p(s[i + 1]))
    ensures ReplaceRuns(s, p, c) == Substitute(s, p, c)
  {
    if s != [] {
      if p(s[0]) {
        assert DropWhile(s, p) == s[1..] by {
          if |s| > 1 {
            assert !p(s[1]);
          }
        }
      }
      ReplaceRunsOfSingles(s[1..], p, c);
      assert Substitute(s, p, c) == [Substitute(s, p, c)[0]] + Substitute(s[1..], p, c);
    }
  }

  lemma ReplaceRunsKeeps(s: string, p: char -> bool, c: char)
    requires forall i :: 0 <= i < |s| && p(s[i]) ==> s[i] == c
    requires forall i :: 0 <= i < |s| - 1 ==> !(p(s[i]) && p(s[i + 1]))
    ensures ReplaceRuns(s, p, c) == s
  {
    ReplaceRunsOfSingles(s, p, c);
  }

  lemma LowerCaseKeepsSlug(s: string)
    requires AllSlugChars(s)
    ensures ToLowerCase(s) == s
  {
    assert forall i :: 0 <= i < |s| ==> ToLowerCase(s)[i] == s[i] by {
      forall i | 0 <= i < |s| ensures ToLowerCase(s)[i] == s[i] {
        assert IsSlugChar(s[i]);
      }
    }
  }

  lemma TrimKeepsSlug(s: string)
    requires AllSlugChars(s)
    ensures Trim(s) == s
  {
    if s != [] {
      assert IsSlugChar(s[0]) && IsSlugChar(s[|s| - 1]);
    }
    assert TrimStart(s) == s;
  }

  /** A slug is its own slug; in particular leading and trailing hyphens are kept. */
  lemma SlugIsFixpoint(s: string)
    requires IsSlug(s)
    ensures GenerateSlug(s) == s
  {
    assert RemoveAccents(s) == s by {
      LowerCaseKeepsSlug(s);
      DecomposeKeepsSlug(s);
      FilterKeepsAll(s, IsNotCombiningMark);
    }
    assert KeepSlugChars(s) == s by {
      FilterKeepsAll(s, IsSlugCharOrSpace);
    }
    assert Hyphenate(s) == s by {
      TrimKeepsSlug(s);
      ReplaceRunsKeeps(s, IsWhiteSpace, '-');
    }
    assert CollapseHyphens(s) == s by {
      ReplaceRunsKeeps(s, IsHyphen, '-');
    }
  }

  /** `generateSlug` is idempotent. */
  lemma GenerateSlugIdempotent(name: string)
    ensures GenerateSlug(GenerateSlug(name)) == GenerateSlug(name)
  {
    SlugIsFixpoint(GenerateSlug(name));
  }

  /** `${base}-${k}`. */
  function Suffixed(base: string, k: int): string {
    base + "-" + IntToDecimal(k)
  }

  /** `Organization.generateUniqueSlug`: a suffix of 0, or none, leaves the slug bare. */
  function GenerateUniqueSlug(name: string, suffix: Option<int>): string {
    var base := GenerateSlug(name);
    if suffix.Some? && suffix.value != 0 then Suffixed(base, suffix.value) else base
  }

  /** A suffixed slug is the base, a hyphen, and text that `parseInt` reads back as the suffix. */
  lemma SuffixedParsesBack(base: string, k: int)
    ensures var r := Suffixed(base, k);
      r[..|base| + 1] == base + "-" && ParseInt(r[|base| + 1..]) == Integer(k)
  {
    var r := Suffixed(base, k);
    assert r[..|base| + 1] == base + "-";
    assert r[|base| + 1..] == IntToDecimal(k);
    ParseIntOfDecimal(k);
  }

  /** A slug with a non-negative suffix is still made of slug characters. */
  lemma SuffixedIsSlugChars(base: string, k: nat)
    requires AllSlugChars(base)
    ensures AllSlugChars(Suffixed(base, k))
  {
    var digits := NatToDecimal(k);
    var r := base + "-" + digits;
    forall i | 0 <= i < |r| ensures IsSlugChar(r[i]) {
      if i > |base| {
        assert r[i] == digits[i - |base| - 1];
      } else if i < |base| {
        assert r[i] == base[i];
      }
    }
  }

  /** `suffix ?` is false for an absent or zero suffix, which leaves the slug bare. */
  lemma UniqueSlugWithoutSuffix(name: string, suffix: Option<int>)
    ensures suffix.None? || suffix.value == 0 <==> GenerateUniqueSlug(name, suffix) == GenerateSlug(name)
  {
    var base := GenerateSlug(name);
    if suffix.Some? && suffix.value != 0 {
      assert |Suffixed(base, suffix.value)| > |base|;
    }
  }

  /** Any non-zero suffix, negative ones included, is appended after a hyphen and reads back as itself. */
  lemma UniqueSlugParsesBack(name: string, k: int)
    requires k != 0
    ensures var base, r := GenerateSlug(name), GenerateUniqueSlug(name, Some(k));
      r[..|base| + 1] == base + "-" && ParseInt(r[|base| + 1..]) == Integer(k)
  {
    SuffixedParsesBack(GenerateSlug(name), k);
  }

  /** A positive suffix keeps the slug within `[a-z0-9-]`. */
  lemma UniqueSlugIsSlugChars(name: string, k: int)
    requires k > 0
    ensures AllSlugChars(GenerateUniqueSlug(name, Some(k)))
  {
    SuffixedIsSlugChars(GenerateSlug(name), k);
  }

  /** The text of a negative suffix starts with a minus sign, right after the joining hyphen. */
  lemma SuffixedOfNegative(base: string, k: int)
    requires k < 0
    ensures var r := Suffixed(base, k); r[..|base| + 2] == base + "--" && !NoDoubleHyphen(r)
  {
    var r := Suffixed(base, k);
    assert r == base + "-" + ("-" + NatToDecimal(-k));
    assert r[|base|] == '-' && r[|base| + 1] == '-';
    assert r[..|base| + 2] == base + "--";
  }

  /** A negative suffix puts its minus sign right after the joining hyphen: the slug then holds `--`. */
  lemma UniqueSlugOfNegativeSuffix(name: string, k: int)
    requires k < 0
    ensures var base, r := GenerateSlug(name), GenerateUniqueSlug(name, Some(k));
      r[..|base| + 2] == base + "--" && !NoDoubleHyphen(r)
  {
    SuffixedOfNegative(GenerateSlug(name), k);
  }

  lemma {:induction false} DecomposeConcat(a: string, b: string)
    ensures Decompose(a + b) == Decompose(a) + Decompose(b)
  {
    if a == [] {
      assert a + b == b;
    } else {
      assert (a + b)[1..] == a[1..] + b;
      DecomposeConcat(a[1..], b);
    }
  }

  /** Accent removal works character by character. */
  lemma RemoveAccentsConcat(a: string, b: string)
    ensures RemoveAccents(a + b) == RemoveAccents(a) + RemoveAccents(b)
  {
    assert ToLowerCase(a + b) == ToLowerCase(a) + ToLowerCase(b);
    DecomposeConcat(ToLowerCase(a), ToLowerCase(b));
    FilterConcat(Decompose(ToLowerCase(a)), Decompose(ToLowerCase(b)), IsNotCombiningMark);
  }

  /** Every decomposition in the table is a plain letter followed by one combining mark. */
  lemma Latin1DecompositionShape(c: char)
    requires Latin1Decomposition(c).Some?
    ensures var d := Latin1Decomposition(c).value;
      |d| == 2 && 'a' <= d[0] <= 'z' && !IsNotCombiningMark(d[1])
  {
  }

  /** An accented Latin-1 letter, small or capital, loses its accent: only its lowercase base letter is left. */
  lemma RemoveAccentsOfLetter(c: char)
    requires Latin1Decomposition(LowerChar(c)).Some?
    ensures RemoveAccents([c]) == [Latin1Decomposition(LowerChar(c)).value[0]]
  {
    var l := LowerChar(c);
    Latin1DecompositionShape(l);
    assert ToLowerCase([c]) == [l];
    assert Decompose([l]) == Latin1Decomposition(l).value by {
      assert [l][1..] == [];
    }
  }

  /** Characters outside the table and outside the combining marks are only lowercased. */
  lemma RemoveAccentsOfOther(c: char)
    requires Latin1Decomposition(LowerChar(c)).None? && IsNotCombiningMark(LowerChar(c))
    ensures RemoveAccents([c]) == [LowerChar(c)]
  {
    var l := LowerChar(c);
    assert ToLowerCase([c]) == [l];
    assert Decompose([l]) == [l] by {
      assert [l][1..] == [];
    }
  }

  lemma ExampleLeadingHyphenKept()
    ensures GenerateSlug("-acme") == "-acme"
  {
    SlugIsFixpoint("-acme");
  }
}
