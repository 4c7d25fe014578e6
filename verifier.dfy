/**
 * The citation verifier: cleaning of a DOI string, mapping of the Crossref
 * lookup outcome to a verification record, author formatting and year
 * extraction. The HTTP lookup itself is a parameter (`lookup`): it is given
 * the cleaned DOI and answers with a status code and the decoded work record,
 * or with a transport failure and its message.
 */
module CitationVerifier {
  import opened Wrappers
  import opened PyStrings

  const DoiOrgPrefix: String := "https://doi.org/"
  const DxDoiOrgPrefix: String := "http://dx.doi.org/"
  const Unknown: String := "Unknown"
  const EtAl: String := "et al."
  const AuthorSeparator: String := ", "
  /** The 404 message, written in two pieces so that its leading characters are cheap to read. */
  const NotFoundError: String := "DOI not found in Crossref database - " + "likely hallucinated"
  const HttpErrorPrefix: String := "HTTP "
  const HttpErrorSuffix: String := ": Unable to verify"
  const NetworkErrorPrefix: String := "Network error: "

  // ---------------------------------------------------------------------------
  // Data model: the parts of a Crossref work record that the verifier reads
  // ---------------------------------------------------------------------------

  /** An entry of the work's `author` list; `None` is an absent key. */
  datatype Author = Author(given: Option<String>, family: Option<String>)

  /**
   * A date object such as `published-print`. `dateParts` is its `date-parts`
   * key; `hasOtherKeys` records whether it holds any other key, which decides
   * whether the object is empty (falsy) in Python.
   */
  datatype DateField = DateField(dateParts: Option<seq<seq<int>>>, hasOtherKeys: bool) {
    predicate IsEmpty() {
      dateParts.None? && !hasOtherKeys
    }
  }

  /** The `message` object of a Crossref works response; `None` is an absent (or null) key. */
  datatype Work = Work(
    title: Option<seq<String>>,
    containerTitle: Option<seq<String>>,
    publisher: Option<String>,
    author: Option<seq<Author>>,
    publishedPrint: Option<DateField>,
    publishedOnline: Option<DateField>)

  /** What the single registry lookup produced. */
  datatype LookupOutcome =
    | Response(status: int, work: Work)
    | TransportFailure(message: String)

  /** The record `verify_doi` returns: `verified` is `Success?`. */
  datatype VerificationResult =
    | Success(doi: String, title: String, authors: String, journal: String,
              publisher: String, year: String, url: String)
    | Failure(doi: String, error: String)
  {
    predicate Verified() {
      Success?
    }
  }

  // ---------------------------------------------------------------------------
  // DOI cleaning
  // ---------------------------------------------------------------------------

  /** Trim, then remove every `https://doi.org/`, then every `http://dx.doi.org/`. */
  function CleanDoi(raw: String): (doi: String)
    ensures |doi| <= |raw|
  {
    var stripped := Strip(raw);
    var withoutHttps := ReplaceAll(stripped, DoiOrgPrefix, "");
    ReplaceAll(withoutHttps, DxDoiOrgPrefix, "")
  }

  /** Cleaning in its three steps: the stripped input, then each removal. */
  lemma {:induction false} CleanSteps(raw: String, stripped: String, withoutHttps: String)
    requires Strip(raw) == stripped
    requires ReplaceAll(stripped, DoiOrgPrefix, "") == withoutHttps
    ensures CleanDoi(raw) == ReplaceAll(withoutHttps, DxDoiOrgPrefix, "")
  {
  }

  /** A bare identifier: trimmed, and containing neither URL prefix. */
  predicate Bare(d: String) {
    Trimmed(d) && NoOccurrence(d, DoiOrgPrefix) && NoOccurrence(d, DxDoiOrgPrefix)
  }

  /** The form `http://dx.doi.org/` + d holds no occurrence of `https://doi.org/` inside the prefix. */
  lemma {:induction false} DxPrefixHidesNoHttpsPrefix(d: String)
    ensures forall i :: 0 <= i < |DxDoiOrgPrefix| ==> !StartsWith((DxDoiOrgPrefix + d)[i..], DoiOrgPrefix)
  {
    var s := DxDoiOrgPrefix + d;
    forall i | 0 <= i < |DxDoiOrgPrefix| ensures !StartsWith(s[i..], DoiOrgPrefix) {
      if i == 0 {
        assert s[i..][4] == ':';
      } else {
        assert s[i..][0] == DxDoiOrgPrefix[i] != 'h';
      }
    }
  }

  /**
   * Every form the cleaning is meant for -- a bare identifier, optionally
   * preceded by one of the two URL prefixes, optionally padded with
   * whitespace -- cleans to the bare identifier.
   */
  lemma {:induction false} CleanRecognisedForms(w1: String, prefix: String, d: String, w2: String)
    requires AllWhitespace(w1) && AllWhitespace(w2)
    requires prefix == [] || prefix == DoiOrgPrefix || prefix == DxDoiOrgPrefix
    requires Bare(d)
    ensures CleanDoi(w1 + prefix + d + w2) == d
  {
    var core := prefix + d;
    assert Trimmed(core) by {
      if prefix != [] {
        assert core[0] == 'h';
        if d != [] { assert core[|core| - 1] == d[|d| - 1]; } else { assert core[|core| - 1] == '/'; }
      } else {
        assert core == d;
      }
    }
    assert w1 + prefix + d + w2 == w1 + core + w2;
    StripPadded(w1, core, w2);
    if prefix == [] {
      assert core == d;
      ReplaceAllNoOccurrence(d, DoiOrgPrefix, "");
      ReplaceAllNoOccurrence(d, DxDoiOrgPrefix, "");
    } else if prefix == DoiOrgPrefix {
      ReplaceAllAtMatch(d, DoiOrgPrefix, "");
      ReplaceAllNoOccurrence(d, DoiOrgPrefix, "");
      assert ReplaceAll(core, DoiOrgPrefix, "") == d;
      ReplaceAllNoOccurrence(d, DxDoiOrgPrefix, "");
    } else {
      DxPrefixHidesNoHttpsPrefix(d);
      ReplaceAllSkip(DxDoiOrgPrefix, d, DoiOrgPrefix, "");
      ReplaceAllNoOccurrence(d, DoiOrgPrefix, "");
      ReplaceAllAtMatch(d, DxDoiOrgPrefix, "");
      ReplaceAllNoOccurrence(d, DxDoiOrgPrefix, "");
    }
  }

  /** Cleaning is idempotent on every input whose cleaned form is bare. */
  lemma {:induction false} CleanIdempotentWhenBare(raw: String)
    requires Bare(CleanDoi(raw))
    ensures CleanDoi(CleanDoi(raw)) == CleanDoi(raw)
  {
    CleanKeepsBare(CleanDoi(raw));
  }

  /** A bare identifier is left as it is. */
  lemma {:induction false} CleanKeepsBare(d: String)
    requires Bare(d)
    ensures CleanDoi(d) == d
  {
    assert Strip(d) == d by {
      Unpadded(d);
      StripPadded([], d, []);
    }
    ReplaceAllNoOccurrence(d, DoiOrgPrefix, "");
    ReplaceAllNoOccurrence(d, DxDoiOrgPrefix, "");
    CleanSteps(d, d, d);
  }

  /** No occurrence of `pat` starts inside `x` when `x` holds no `h` past its first character and `x + t` differs from `pat` at index `k`. */
  lemma {:induction false} NoMatchInsideUrlPrefix(x: String, t: String, pat: String, k: nat)
    requires |pat| > k && pat[0] == 'h'
    requires forall i :: 0 < i < |x| ==> x[i] != 'h'
    requires |x| > 0 ==> |x + t| <= k || (x + t)[k] != pat[k]
    ensures forall i :: 0 <= i < |x| ==> !StartsWith((x + t)[i..], pat)
  {
    forall i | 0 <= i < |x| ensures !StartsWith((x + t)[i..], pat) {
      var u := (x + t)[i..];
      if i == 0 {
        assert u == x + t;
      } else {
        assert u[0] == x[i];
      }
    }
  }

  /** `https://doi.` is copied when an `h` follows it: its only `h` is its first character, and index 12 is then not `o`. */
  lemma {:induction false} SkipDoiDot(t: String)
    requires |t| > 0 && t[0] == 'h'
    ensures ReplaceAll("https://doi." + t, DoiOrgPrefix, "") == "https://doi." + ReplaceAll(t, DoiOrgPrefix, "")
  {
    NoMatchInsideUrlPrefix("https://doi.", t, DoiOrgPrefix, 12);
    ReplaceAllSkip("https://doi.", t, DoiOrgPrefix, "");
  }

  /** `org/` holds no `h`, so it is copied. */
  lemma {:induction false} SkipOrg(d: String)
    requires NoOccurrence(d, DoiOrgPrefix)
    ensures ReplaceAll("org/" + d, DoiOrgPrefix, "") == "org/" + d
  {
    NoMatchInsideUrlPrefix("org/", d, DoiOrgPrefix, 0);
    ReplaceAllSkip("org/", d, DoiOrgPrefix, "");
    ReplaceAllNoOccurrence(d, DoiOrgPrefix, "");
  }

  /** The input of the counterexample below, before the identifier. */
  const NestedPrefix: String := "https://doi." + DoiOrgPrefix + "org/"

  /** `https://doi.https://doi.org/org/` with `d` after it loses only the inner `https://doi.org/`. */
  lemma {:induction false} RemoveInnerHttpsPrefix(d: String)
    requires NoOccurrence(d, DoiOrgPrefix)
    ensures ReplaceAll(NestedPrefix + d, DoiOrgPrefix, "") == DoiOrgPrefix + d
  {
    var u := "org/" + d;
    var t := DoiOrgPrefix + u;
    assert NestedPrefix + d == "https://doi." + t by {
      Assoc("https://doi." + DoiOrgPrefix, "org/", d);
      Assoc("https://doi.", DoiOrgPrefix, u);
    }
    assert ReplaceAll("https://doi." + t, DoiOrgPrefix, "") == "https://doi." + ReplaceAll(t, DoiOrgPrefix, "") by {
      SkipDoiDot(t);
    }
    assert ReplaceAll(t, DoiOrgPrefix, "") == "" + ReplaceAll(u, DoiOrgPrefix, "") by {
      ReplaceAllAtMatch(u, DoiOrgPrefix, "");
    }
    assert ReplaceAll(u, DoiOrgPrefix, "") == u by {
      SkipOrg(d);
    }
    assert "https://doi." + ("" + u) == DoiOrgPrefix + d by {
      assert "" + u == u;
      Assoc("https://doi.", "org/", d);
      assert "https://doi." + "org/" == DoiOrgPrefix;
    }
  }

  /** In `https://doi.org/` followed by `d`, the prefix `http://dx.doi.org/` does not occur. */
  lemma {:induction false} KeepHttpsPrefix(d: String)
    requires NoOccurrence(d, DxDoiOrgPrefix)
    ensures ReplaceAll(DoiOrgPrefix + d, DxDoiOrgPrefix, "") == DoiOrgPrefix + d
  {
    // Index 4 of https://doi.org/ is s, not a colon.
    NoMatchInsideUrlPrefix(DoiOrgPrefix, d, DxDoiOrgPrefix, 4);
    ReplaceAllSkip(DoiOrgPrefix, d, DxDoiOrgPrefix, "");
    ReplaceAllNoOccurrence(d, DxDoiOrgPrefix, "");
  }

  /** A URL-like `u` (first `h`, last `/`) followed by a trimmed `d` is left alone by `strip()`. */
  lemma {:induction false} StripKeepsUrl(u: String, d: String)
    requires |u| > 0 && u[0] == 'h' && u[|u| - 1] == '/'
    requires Trimmed(d)
    ensures Strip(u + d) == u + d
  {
    var s := u + d;
    assert Trimmed(s) by {
      assert s[0] == 'h';
      if d != [] { assert s[|s| - 1] == d[|d| - 1]; } else { assert s[|s| - 1] == '/'; }
    }
    Unpadded(s);
    StripPadded([], s, []);
  }

  /**
   * Cleaning is not idempotent in general: removing an inner occurrence of
   * `https://doi.org/` can join the text around it into a new one, so
   * `https://doi.https://doi.org/org/` followed by a bare identifier cleans
   * to `https://doi.org/` followed by it, and cleaning that removes the prefix.
   */
  lemma {:induction false} CleanNotIdempotent(d: String)
    requires Bare(d)
    ensures CleanDoi(NestedPrefix + d) == DoiOrgPrefix + d
    ensures CleanDoi(CleanDoi(NestedPrefix + d)) == d
  {
    assert CleanDoi(NestedPrefix + d) == DoiOrgPrefix + d by {
      StripKeepsUrl(NestedPrefix, d);
      RemoveInnerHttpsPrefix(d);
      KeepHttpsPrefix(d);
      CleanSteps(NestedPrefix + d, NestedPrefix + d, DoiOrgPrefix + d);
    }
    EmptyEnds(DoiOrgPrefix, d);
    CleanRecognisedForms([], DoiOrgPrefix, d, []);
  }

  // ---------------------------------------------------------------------------
  // Author formatting
  // ---------------------------------------------------------------------------

  function Min(a: int, b: int): (r: int)
    ensures r <= a && r <= b && (r == a || r == b)
  {
    if a < b then a else b
  }

  /** The `family` value of an author, `""` when the key is absent. */
  function FamilyOf(a: Author): (r: String) {
    a.family.GetOr("")
  }

  /** The name an author entry contributes: only one with a non-empty family name does. */
  function NamePart(a: Author): (r: Option<String>)
    ensures r.Some? <==> FamilyOf(a) != []
    ensures r.Some? ==> Trimmed(r.value)
  {
    var family := FamilyOf(a);
    if family != [] then Some(Strip(a.given.GetOr("") + " " + family)) else None
  }

  /** The name an entry contributes, as a list of zero or one names. */
  function NameOf(a: Author): (r: seq<String>) {
    var name := NamePart(a);
    if name.Some? then [name.value] else []
  }

  /** The names that the entries of `authors` contribute, in order. */
  function CollectNames(authors: seq<Author>): (r: seq<String>)
    decreases |authors|
  {
    if |authors| == 0 then [] else CollectNames(authors[..|authors| - 1]) + NameOf(authors[|authors| - 1])
  }

  /** The parts that get joined: names from the first three entries, then the marker for longer lists. */
  function AuthorParts(authors: seq<Author>): (r: seq<String>) {
    CollectNames(authors[..Min(3, |authors|)]) + (if |authors| > 3 then [EtAl] else [])
  }

  /** The formatted author string that `_extract_authors` returns. */
  function FormatAuthors(authors: seq<Author>): (r: String) {
    if |authors| == 0 then Unknown
    else
      var parts := AuthorParts(authors);
      if parts == [] then Unknown else Join(parts, AuthorSeparator)
  }

  /** `_extract_authors`: loops over the first three entries, appending the names it keeps. */
  method ExtractAuthors(authors: seq<Author>) returns (formatted: String)
    ensures formatted == FormatAuthors(authors)
  {
    if |authors| == 0 {
      return Unknown;
    }
    var names: seq<String> := [];
    // authors[:3]
    for i := 0 to Min(3, |authors|)
      invariant names == CollectNames(authors[..i])
    {
      var author := authors[i];
      var given := author.given.GetOr("");
      var family := author.family.GetOr("");
      CollectNamesStep(authors, i);
      if family != [] {
        assert NameOf(author) == [Strip(given + " " + family)];
        names := names + [Strip(given + " " + family)];
      } else {
        assert NameOf(author) == [];
      }
    }
    if |authors| > 3 {
      names := names + [EtAl];
    }
    assert names == AuthorParts(authors);
    if names != [] {
      formatted := Join(names, AuthorSeparator);
    } else {
      formatted := Unknown;
    }
  }

  lemma DropLastOfAppend<T>(xs: seq<T>, ys: seq<T>)
    requires |ys| > 0
    ensures (xs + ys)[..|xs + ys| - 1] == xs + ys[..|ys| - 1]
    ensures (xs + ys)[|xs + ys| - 1] == ys[|ys| - 1]
  {
  }

  lemma SplitAt<T>(xs: seq<T>, k: nat)
    requires k <= |xs|
    ensures xs[..k] + xs[k..] == xs
  {
  }

  /** One more entry adds its name, if it has one, at the end. */
  lemma {:induction false} CollectNamesStep(authors: seq<Author>, i: nat)
    requires i < |authors|
    ensures CollectNames(authors[..i + 1]) == CollectNames(authors[..i]) + NameOf(authors[i])
  {
    assert authors[..i + 1][..i] == authors[..i];
  }

  lemma {:induction false} CollectNamesLength(authors: seq<Author>)
    ensures |CollectNames(authors)| <= |authors|
    decreases |authors|
  {
    if |authors| > 0 {
      CollectNamesLength(authors[..|authors| - 1]);
    }
  }

  lemma {:induction false} CollectNamesAppend(xs: seq<Author>, ys: seq<Author>)
    ensures CollectNames(xs + ys) == CollectNames(xs) + CollectNames(ys)
    decreases |ys|
  {
    if ys == [] {
      assert xs + ys == xs;
    } else {
      DropLastOfAppend(xs, ys);
      CollectNamesAppend(xs, ys[..|ys| - 1]);
      Assoc(CollectNames(xs), CollectNames(ys[..|ys| - 1]), NameOf(ys[|ys| - 1]));
    }
  }

  /** No name is collected exactly when every entry lacks a non-empty family name. */
  lemma {:induction false} CollectNamesEmptyIff(authors: seq<Author>)
    ensures CollectNames(authors) == [] <==> NoFamilyNames(authors)
    decreases |authors|
  {
    if |authors| > 0 {
      var front, last := authors[..|authors| - 1], authors[|authors| - 1];
      CollectNamesEmptyIff(front);
      assert NameOf(last) == [] <==> FamilyOf(last) == [];
      NoFamilyNamesSnoc(authors);
    }
  }

  /** Every entry's family name is missing or empty. */
  predicate NoFamilyNames(authors: seq<Author>) {
    forall j :: 0 <= j < |authors| ==> FamilyOf(authors[j]) == []
  }

  lemma {:induction false} NoFamilyNamesSnoc(authors: seq<Author>)
    requires |authors| > 0
    ensures NoFamilyNames(authors) <==>
      NoFamilyNames(authors[..|authors| - 1]) && FamilyOf(authors[|authors| - 1]) == []
  {
    var front := authors[..|authors| - 1];
    assert forall j :: 0 <= j < |front| ==> front[j] == authors[j];
  }

  /** An entry without a (non-empty) family name contributes nothing, wherever it stands. */
  lemma {:induction false} NamelessAuthorSkipped(xs: seq<Author>, k: nat, a: Author)
    requires k <= |xs|
    requires FamilyOf(a) == []
    ensures CollectNames(xs[..k] + [a] + xs[k..]) == CollectNames(xs)
  {
    var pre, post := xs[..k], xs[k..];
    assert CollectNames([a]) == [] by {
      assert [a][..0] == [];
    }
    assert CollectNames(pre + [a]) == CollectNames(pre) by {
      CollectNamesAppend(pre, [a]);
    }
    assert CollectNames(pre + [a] + post) == CollectNames(pre) + CollectNames(post) by {
      CollectNamesAppend(pre + [a], post);
    }
    assert CollectNames(xs) == CollectNames(pre) + CollectNames(post) by {
      CollectNamesAppend(pre, post);
      SplitAt(xs, k);
    }
  }

  /** At most four parts: up to three names and the marker. */
  lemma {:induction false} AuthorPartsBound(authors: seq<Author>)
    ensures |AuthorParts(authors)| <= 4
  {
    CollectNamesLength(authors[..Min(3, |authors|)]);
  }

  /** Only the first three entries, and whether there are more, decide the result. */
  lemma OnlyFirstThreeMatter(a: seq<Author>, b: seq<Author>)
    requires a[..Min(3, |a|)] == b[..Min(3, |b|)]
    requires |a| > 3 <==> |b| > 3
    ensures FormatAuthors(a) == FormatAuthors(b)
  {
  }

  /**
   * The marker for a list of more than three entries: the result ends with
   * `, et al.`, or is exactly `et al.` when none of the first three has a
   * family name.
   */
  lemma {:induction false} EtAlMarker(authors: seq<Author>)
    requires |authors| > 3
    ensures CollectNames(authors[..3]) == [] ==> FormatAuthors(authors) == EtAl
    ensures CollectNames(authors[..3]) != [] ==>
      EndsWith(FormatAuthors(authors), AuthorSeparator + EtAl)
  {
    var names := CollectNames(authors[..3]);
    assert AuthorParts(authors) == names + [EtAl];
    if names == [] {
      assert AuthorParts(authors) == [EtAl];
    } else {
      JoinSnoc(names, EtAl, AuthorSeparator);
      var front := Join(names, AuthorSeparator);
      Assoc(front, AuthorSeparator, EtAl);
      EndsWithConcat(front, AuthorSeparator + EtAl);
    }
  }

  /** A list of three or fewer entries gets no marker: only its names are joined. */
  lemma {:induction false} NoMarkerForShortLists(authors: seq<Author>)
    requires |authors| <= 3
    ensures AuthorParts(authors) == CollectNames(authors)
  {
    assert authors[..|authors|] == authors;
  }

  /** A join of two or more parts holds the separator, so it cannot be `Unknown`. */
  lemma {:induction false} JoinOfSeveralNotUnknown(parts: seq<String>)
    requires |parts| >= 2
    ensures Join(parts, AuthorSeparator) != Unknown
  {
    var j := Join(parts, AuthorSeparator);
    assert j == parts[0] + AuthorSeparator + Join(parts[1..], AuthorSeparator);
    assert j[|parts[0]|] == ',';
    forall i | 0 <= i < |Unknown| ensures Unknown[i] != ',' {
    }
  }

  /**
   * `Unknown` comes back exactly when there was nothing to join, or when the
   * only part was itself the name `Unknown`; otherwise the result is the
   * `, `-join of the parts in their original order.
   */
  lemma {:induction false} FormatAuthorsUnknownIff(authors: seq<Author>)
    ensures FormatAuthors(authors) == Unknown <==>
      AuthorParts(authors) == [] || AuthorParts(authors) == [Unknown]
    ensures AuthorParts(authors) != [] ==> FormatAuthors(authors) == Join(AuthorParts(authors), AuthorSeparator)
  {
    var parts := AuthorParts(authors);
    if |authors| == 0 {
      assert authors[..0] == [];
    }
    if |parts| >= 2 {
      JoinOfSeveralNotUnknown(parts);
    }
  }

  /** Without a given name, the name is the family name (the leading space is stripped). */
  lemma {:induction false} FamilyOnlyName(f: String)
    requires f != [] && Trimmed(f)
    ensures NamePart(Author(None, Some(f))) == Some(f)
  {
    assert "" + " " + f == [' '] + f + [];
    StripPadded([' '], f, []);
  }

  /** An entry with both names contributes the given name, one space, then the family name. */
  lemma {:induction false} GivenFamilyName(g: String, f: String)
    requires g != [] && f != [] && Trimmed(g) && Trimmed(f)
    ensures NamePart(Author(Some(g), Some(f))) == Some(g + " " + f)
  {
    var n := g + " " + f;
    assert Trimmed(n) by {
      assert n[0] == g[0];
      assert n[|n| - 1] == f[|f| - 1];
    }
    Unpadded(n);
    StripPadded([], n, []);
  }

  /** A single entry with only a (non-blank, already trimmed) family name is reported as that name. */
  lemma {:induction false} SingleFamilyName(f: String)
    requires f != [] && Trimmed(f)
    ensures AuthorParts([Author(None, Some(f))]) == [f]
    ensures FormatAuthors([Author(None, Some(f))]) == f
  {
    var a := [Author(None, Some(f))];
    FamilyOnlyName(f);
    assert CollectNames(a) == [f] by {
      assert a[..0] == [];
    }
    assert AuthorParts(a) == [f] by {
      assert a[..Min(3, |a|)] == a;
    }
    assert Join([f], AuthorSeparator) == f;
  }

  /**
   * The placeholder is ambiguous: an author whose family name is literally
   * `Unknown` gives the same string as an empty author list.
   */
  lemma UnknownIsAmbiguous()
    ensures AuthorParts([Author(None, Some(Unknown))]) == [Unknown]
    ensures FormatAuthors([Author(None, Some(Unknown))]) == FormatAuthors([])
  {
    SingleFamilyName(Unknown);
  }

  // ---------------------------------------------------------------------------
  // Year extraction
  // ---------------------------------------------------------------------------

  /** The date object that year extraction reads: `published-print or published-online`. */
  function ChooseDate(w: Work): (r: Option<DateField>)
    ensures r == w.publishedPrint || r == w.publishedOnline
    ensures (r.Some? && !r.value.IsEmpty()) <==>
      (w.publishedPrint.Some? && !w.publishedPrint.value.IsEmpty()) ||
      (w.publishedOnline.Some? && !w.publishedOnline.value.IsEmpty())
  {
    if w.publishedPrint.Some? && !w.publishedPrint.value.IsEmpty() then w.publishedPrint
    else w.publishedOnline
  }

  /** The date object carries a first element of a first `date-parts` list. */
  predicate HasYear(date: Option<DateField>) {
    && date.Some?
    && date.value.dateParts.Some?
    && |date.value.dateParts.value| > 0
    && |date.value.dateParts.value[0]| > 0
  }

  function YearOf(date: Option<DateField>): (year: int)
    requires HasYear(date)
  {
    date.value.dateParts.value[0][0]
  }

  /**
   * `_extract_year`: `Unknown` for an absent or empty object, a missing
   * `date-parts` key, or an index failure; otherwise `str` of the first element
   * of the first list, which reads back as that year.
   */
  function ExtractYear(date: Option<DateField>): (year: String)
    ensures year == Unknown <==> !HasYear(date)
    ensures HasYear(date) ==> year == IntToDecimal(YearOf(date))
    ensures HasYear(date) ==> IsIntLiteral(year) && ParseInt(year) == YearOf(date)
  {
    if date.None? || date.value.IsEmpty() || date.value.dateParts.None? then Unknown
    else
      var parts := date.value.dateParts.value;
      if |parts| == 0 || |parts[0]| == 0 then Unknown
      else
        var year := IntToDecimal(parts[0][0]);
        IntDecimalRoundTrip(parts[0][0]);
        assert Unknown[0] == 'U';
        year
  }

  /**
   * A non-empty `published-print` is preferred, even when it has no usable
   * date and `published-online` has one; otherwise `published-online` decides.
   */
  lemma YearPreference(w: Work)
    ensures w.publishedPrint.Some? && !w.publishedPrint.value.IsEmpty() ==>
      ExtractYear(ChooseDate(w)) == ExtractYear(w.publishedPrint)
    ensures (w.publishedPrint.None? || w.publishedPrint.value.IsEmpty()) ==>
      ExtractYear(ChooseDate(w)) == ExtractYear(w.publishedOnline)
    ensures HasYear(w.publishedPrint) ==> ParseInt(ExtractYear(ChooseDate(w))) == YearOf(w.publishedPrint)
    ensures !HasYear(w.publishedPrint) && !HasYear(w.publishedOnline) ==> ExtractYear(ChooseDate(w)) == Unknown
  {
  }

  // ---------------------------------------------------------------------------
  // Response mapping
  // ---------------------------------------------------------------------------

  /** `work.get(key)[0]` when the list is present and non-empty, else `Unknown`. */
  function FirstOrUnknown(xs: Option<seq<String>>): (r: String)
    ensures xs.Some? && |xs.value| > 0 ==> r == xs.value[0]
    ensures r == Unknown || (xs.Some? && r in xs.value)
  {
    if xs.Some? && |xs.value| > 0 then xs.value[0] else Unknown
  }

  /** The success record built from a status-200 work record. */
  function Metadata(doi: String, w: Work): (r: VerificationResult)
    ensures r.Success? && r.doi == doi && r.url == DoiOrgPrefix + doi
    ensures w.title.Some? && |w.title.value| > 0 ==> r.title == w.title.value[0]
    ensures w.title.None? || w.title.value == [] ==> r.title == Unknown
    ensures w.containerTitle.Some? && |w.containerTitle.value| > 0 ==> r.journal == w.containerTitle.value[0]
    ensures w.containerTitle.None? || w.containerTitle.value == [] ==> r.journal == Unknown
    ensures w.publisher.Some? ==> r.publisher == w.publisher.value
    ensures w.publisher.None? ==> r.publisher == Unknown
    ensures w.author.None? || w.author.value == [] ==> r.authors == Unknown
    ensures w.author.Some? ==> r.authors == FormatAuthors(w.author.value)
    ensures r.year == ExtractYear(ChooseDate(w))
    ensures r.year == Unknown <==> !HasYear(ChooseDate(w))
  {
    Success(
      doi := doi,
      title := FirstOrUnknown(w.title),
      authors := FormatAuthors(w.author.GetOr([])),
      journal := FirstOrUnknown(w.containerTitle),
      publisher := w.publisher.GetOr(Unknown),
      year := ExtractYear(ChooseDate(w)),
      url := DoiOrgPrefix + doi)
  }

  /** The branches of `verify_doi` after the lookup. */
  function MapResponse(doi: String, outcome: LookupOutcome): (r: VerificationResult)
    ensures r.doi == doi
    ensures r.Success? <==> outcome.Response? && outcome.status == 200
    ensures outcome.Response? && outcome.status == 200 ==> r == Metadata(doi, outcome.work)
    ensures outcome.Response? && outcome.status == 404 ==> r.error == NotFoundError
    ensures outcome.Response? && outcome.status != 200 && outcome.status != 404 ==>
      r.error == HttpErrorPrefix + IntToDecimal(outcome.status) + HttpErrorSuffix
    ensures outcome.TransportFailure? ==> r.error == NetworkErrorPrefix + outcome.message
  {
    match outcome
    case Response(status, work) =>
      if status == 200 then Metadata(doi, work)
      else if status == 404 then Failure(doi, NotFoundError)
      else Failure(doi, HttpErrorPrefix + IntToDecimal(status) + HttpErrorSuffix)
    case TransportFailure(message) =>
      Failure(doi, NetworkErrorPrefix + message)
  }

  /** `verify_doi`: clean the DOI, look it up, map the outcome. */
  function VerifyDoi(raw: String, lookup: String -> LookupOutcome): (r: VerificationResult)
    ensures r.doi == CleanDoi(raw)
    ensures r.Verified() <==> lookup(CleanDoi(raw)).Response? && lookup(CleanDoi(raw)).status == 200
  {
    var doi := CleanDoi(raw);
    MapResponse(doi, lookup(doi))
  }

  /** Inputs that clean to the same DOI are looked up and reported identically. */
  lemma VerifyDependsOnCleanedDoi(raw1: String, raw2: String, lookup: String -> LookupOutcome)
    requires CleanDoi(raw1) == CleanDoi(raw2)
    ensures VerifyDoi(raw1, lookup) == VerifyDoi(raw2, lookup)
  {
  }

  /** The class of a lookup outcome, as the result record is meant to report it. */
  datatype OutcomeClass = Found | NotFound | HttpStatus(code: int) | Transport(message: String)

  function ClassOf(outcome: LookupOutcome): (c: OutcomeClass) {
    match outcome
    case Response(status, _) =>
      if status == 200 then Found else if status == 404 then NotFound else HttpStatus(status)
    case TransportFailure(message) => Transport(message)
  }

  /** Read a result record back: which kind of outcome produced it, with its status or message. */
  function Diagnose(r: VerificationResult): (c: Option<OutcomeClass>) {
    match r
    case Success(_, _, _, _, _, _, _) => Some(Found)
    case Failure(_, e) =>
      if e == NotFoundError then Some(NotFound)
      else if |HttpErrorPrefix| + |HttpErrorSuffix| <= |e| && StartsWith(e, HttpErrorPrefix)
           && EndsWith(e, HttpErrorSuffix)
           && IsIntLiteral(e[|HttpErrorPrefix|..|e| - |HttpErrorSuffix|])
      then Some(HttpStatus(ParseInt(e[|HttpErrorPrefix|..|e| - |HttpErrorSuffix|])))
      else if StartsWith(e, NetworkErrorPrefix) then Some(Transport(e[|NetworkErrorPrefix|..]))
      else None
  }

  /** The pieces of `a + b + c` can be cut back out of it. */
  lemma Pieces3<T>(a: seq<T>, b: seq<T>, c: seq<T>)
    ensures (a + b + c)[..|a|] == a
    ensures (a + b + c)[|a + b + c| - |c|..] == c
    ensures (a + b + c)[|a|..|a + b + c| - |c|] == b
  {
  }

  /** The pieces of `a + b` can be cut back out of it. */
  lemma Pieces2<T>(a: seq<T>, b: seq<T>)
    ensures (a + b)[..|a|] == a
    ensures (a + b)[|a|..] == b
  {
  }

  /** The error for any other status is read back as that status. */
  lemma {:induction false} DiagnoseHttpError(doi: String, status: int)
    ensures Diagnose(Failure(doi, HttpErrorPrefix + IntToDecimal(status) + HttpErrorSuffix)) == Some(HttpStatus(status))
  {
    var digits := IntToDecimal(status);
    var e := HttpErrorPrefix + digits + HttpErrorSuffix;
    assert e[0] == 'H' && NotFoundError[0] == 'D';
    Pieces3(HttpErrorPrefix, digits, HttpErrorSuffix);
    IntDecimalRoundTrip(status);
  }

  /** The error for a transport failure is read back as its message. */
  lemma {:induction false} DiagnoseNetworkError(doi: String, message: String)
    ensures Diagnose(Failure(doi, NetworkErrorPrefix + message)) == Some(Transport(message))
  {
    var e := NetworkErrorPrefix + message;
    assert e[0] == 'N' && NotFoundError[0] == 'D' && HttpErrorPrefix[0] == 'H';
    Pieces2(NetworkErrorPrefix, message);
  }

  /**
   * The record determines the outcome class: success, not found, the exact
   * HTTP status, or the transport failure's message can all be read back.
   */
  lemma DiagnoseRecoversOutcome(doi: String, outcome: LookupOutcome)
    ensures Diagnose(MapResponse(doi, outcome)) == Some(ClassOf(outcome))
  {
    match outcome
    case Response(status, _) =>
      if status != 200 && status != 404 {
        DiagnoseHttpError(doi, status);
      }
    case TransportFailure(message) =>
      DiagnoseNetworkError(doi, message);
  }

  /** Outcomes of different classes (two different statuses, say) give different records. */
  lemma DistinctOutcomesDistinctResults(doi: String, o1: LookupOutcome, o2: LookupOutcome)
    requires ClassOf(o1) != ClassOf(o2)
    ensures MapResponse(doi, o1) != MapResponse(doi, o2)
  {
    DiagnoseRecoversOutcome(doi, o1);
    DiagnoseRecoversOutcome(doi, o2);
  }

  /** A not-found answer is flagged as a likely hallucination. */
  lemma NotFoundFlagsHallucination(doi: String, w: Work)
    ensures !MapResponse(doi, Response(404, w)).Verified()
    ensures Contains(MapResponse(doi, Response(404, w)).error, "hallucinated")
  {
    assert StartsWith(NotFoundError[44..], "hallucinated");
  }

  /** Any other status appears, in decimal, in the error. */
  lemma HttpErrorNamesStatus(doi: String, status: int, w: Work)
    requires status != 200 && status != 404
    ensures Contains(MapResponse(doi, Response(status, w)).error, IntToDecimal(status))
  {
    var e := HttpErrorPrefix + IntToDecimal(status) + HttpErrorSuffix;
    assert e[|HttpErrorPrefix|..][..|IntToDecimal(status)|] == IntToDecimal(status);
  }

  // ---------------------------------------------------------------------------
  // The record as the dictionary the source returns
  // ---------------------------------------------------------------------------

  datatype JsonValue = JBool(b: bool) | JString(s: String)

  const SuccessKeys: set<String> := {"verified", "doi", "title", "authors", "journal", "publisher", "year", "url"}
  const FailureKeys: set<String> := {"verified", "doi", "error"}

  /** The dictionary literal of each branch of `verify_doi`. */
  function AsDict(r: VerificationResult): (m: map<String, JsonValue>)
    ensures "verified" in m && m["verified"] == JBool(r.Verified())
    ensures "doi" in m && m["doi"] == JString(r.doi)
    ensures r.Failure? ==> "error" in m && m["error"] == JString(r.error)
    ensures r.Success? ==> "url" in m && m["url"] == JString(r.url)
    ensures r.Success? ==> "title" in m && m["title"] == JString(r.title)
    ensures r.Success? ==> "authors" in m && m["authors"] == JString(r.authors)
    ensures r.Success? ==> "journal" in m && m["journal"] == JString(r.journal)
    ensures r.Success? ==> "publisher" in m && m["publisher"] == JString(r.publisher)
    ensures r.Success? ==> "year" in m && m["year"] == JString(r.year)
  {
    match r
    case Success(doi, title, authors, journal, publisher, year, url) =>
      map["verified" := JBool(true), "doi" := JString(doi), "title" := JString(title),
          "authors" := JString(authors), "journal" := JString(journal),
          "publisher" := JString(publisher), "year" := JString(year), "url" := JString(url)]
    case Failure(doi, error) =>
      map["verified" := JBool(false), "doi" := JString(doi), "error" := JString(error)]
  }

  /**
   * Every record carries `verified` and its `doi`; a verified one has the
   * metadata keys and no `error`, an unverified one `error` and no metadata.
   */
  lemma RecordShape(r: VerificationResult)
    ensures AsDict(r).Keys == (if r.Verified() then SuccessKeys else FailureKeys)
    ensures "verified" in AsDict(r) && AsDict(r)["verified"] == JBool(r.Verified())
    ensures "doi" in AsDict(r) && AsDict(r)["doi"] == JString(r.doi)
    ensures "error" in AsDict(r) <==> !r.Verified()
    ensures "url" in AsDict(r) <==> r.Verified()
  {
    if r.Verified() {
      assert "error" !in SuccessKeys;
    } else {
      assert "url" !in FailureKeys;
    }
  }
}
