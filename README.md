# Citation verifier model

A Dafny model of `CitationVerifier` from `llm-citation-verifier`, the part of
the tool that decides whether a DOI cited by a language model exists in the
Crossref registry. The model covers four pieces:

- **DOI cleaning.** `strip()`, then every `https://doi.org/` is removed,
  then every `http://dx.doi.org/`.
- **Outcome mapping.** The one registry lookup becomes a verification record:
  - status 200 gives a verified record with metadata;
  - 404 gives "likely hallucinated";
  - any other status gives `HTTP <n>: Unable to verify`;
  - a transport failure gives `Network error: <message>`.
- **Author formatting** (`_extract_authors`). This is an imperative method
  with the source's loop over the first three entries. A specification
  function (`FormatAuthors`) describes its result.
- **Year extraction** (`_extract_year`). It reads the first element of the
  first `date-parts` list, or returns `Unknown`.

Files:

- `wrappers.dfy` holds `Option`. An absent key of a JSON object is `None`.
- `python_strings.dfy` holds the Python string built-ins the verifier uses,
  written out with their properties: `strip` with Python's whitespace set,
  `replace` for every occurrence, `join`, and `str(int)`. The verifier does
  not call `split` or `int(str)`: they serve, with `join`, as the references
  that pin `replace` and `str(int)`.
- `verifier.dfy` is the verifier itself.
- `verifier_tests.dfy` restates the unit tests of `tests/test_verifier.py` over
  an arbitrary registry.

The lookup is a parameter `lookup: String -> LookupOutcome`. It is applied to
the cleaned DOI and returns either a response (status code and decoded `message`
object) or a transport failure with its message.

Two behaviours of the code are worth knowing:

- **Cleaning is not idempotent.** It removes every occurrence of each
  prefix, not one leading occurrence. `CleanNotIdempotent` gives an input
  that one cleaning turns into a new `https://doi.org/` URL, which a second
  cleaning then removes. `CleanIdempotentWhenBare` proves idempotence for all
  inputs whose cleaned form is bare.
- **Only status 200 counts as success.** Every status other than 200 and 404
  gets `HTTP <n>: Unable to verify`, including other 2xx codes such as 201
  and 204. `MapResponse` states this.

## Model

| member | source | states |
|---|---|---|
| PyStrings.Strip | src/llm_citation_verifier/verifier.py:16 | `strip()` leaves no whitespace at either end and its result is no longer than its input |
| PyStrings.LStrip | src/llm_citation_verifier/verifier.py:16 | the result is a suffix of the input, everything removed is whitespace, and it does not begin with whitespace |
| PyStrings.RStrip | src/llm_citation_verifier/verifier.py:16 | the result is a prefix of the input, everything removed is whitespace, and it does not end with whitespace |
| PyStrings.StripPadded | src/llm_citation_verifier/verifier.py:16 | whitespace around a trimmed string is exactly what `strip()` removes |
| PyStrings.StripIdempotent | src/llm_citation_verifier/verifier.py:16 | stripping twice is stripping once |
| PyStrings.SplitOn | src/llm_citation_verifier/verifier.py:17-18 | `split` yields at least one piece, the first being a prefix of the input |
| PyStrings.ReplaceIsJoinOfSplit | src/llm_citation_verifier/verifier.py:17-18 | the left-to-right replacement equals `rep.join(s.split(pat))`, an identity that Python's `replace` satisfies |
| PyStrings.SplitJoinRoundTrip | src/llm_citation_verifier/verifier.py:17-18 | joining the pieces of a split with the separator gives back the input |
| PyStrings.SplitPiecesFree | src/llm_citation_verifier/verifier.py:17-18 | no piece of a split contains the separator |
| PyStrings.ReplaceAllNoOccurrence | src/llm_citation_verifier/verifier.py:17-18 | a string without the pattern is left unchanged |
| PyStrings.ReplaceAllSkip | src/llm_citation_verifier/verifier.py:17-18 | a leading part in which no occurrence starts is copied unchanged |
| PyStrings.ReplaceAll | src/llm_citation_verifier/verifier.py:17-18 | `replace` scans left to right, replacing non-overlapping occurrences; a replacement no longer than the pattern, such as the empty string used here, never lengthens the string |
| PyStrings.Join | src/llm_citation_verifier/verifier.py:78 | `", ".join` of a non-empty list begins with its first part and ends with its last |
| PyStrings.JoinSnoc | src/llm_citation_verifier/verifier.py:78 | joining one more part appends the separator and that part |
| PyStrings.IntToDecimal | src/llm_citation_verifier/verifier.py:85 | `str` of an integer is in canonical form: a minus sign exactly for negative numbers, then digits with no leading zero, and `0` is exactly `"0"` |
| PyStrings.NatDecimalRoundTrip | src/llm_citation_verifier/verifier.py:85 | the decimal digits of a natural number parse back to it |
| PyStrings.IntDecimalRoundTrip | src/llm_citation_verifier/verifier.py:85 | `int(str(i)) == i` for every integer |
| PyStrings.IntToDecimalInjective | src/llm_citation_verifier/verifier.py:58 | different integers have different decimal forms, so the HTTP error names its status unambiguously |
| CitationVerifier.CleanDoi | src/llm_citation_verifier/verifier.py:15-19 | cleaning never lengthens the DOI |
| CitationVerifier.CleanRecognisedForms | src/llm_citation_verifier/verifier.py:15-19 | a bare identifier, with or without either URL prefix and surrounding whitespace, cleans to the identifier |
| CitationVerifier.CleanKeepsBare | src/llm_citation_verifier/verifier.py:15-19 | a bare identifier is left as it is |
| CitationVerifier.CleanIdempotentWhenBare | src/llm_citation_verifier/verifier.py:15-19 | cleaning an already cleaned DOI changes nothing when the cleaned DOI is bare |
| CitationVerifier.DxPrefixHidesNoHttpsPrefix | src/llm_citation_verifier/verifier.py:17-18 | no `https://doi.org/` starts inside the `http://dx.doi.org/` prefix, so the first removal leaves it intact |
| CitationVerifier.RemoveInnerHttpsPrefix | src/llm_citation_verifier/verifier.py:17 | in `https://doi.https://doi.org/org/` followed by an identifier, the first removal deletes only the inner URL and leaves a new `https://doi.org/` |
| CitationVerifier.KeepHttpsPrefix | src/llm_citation_verifier/verifier.py:18 | the `http://dx.doi.org/` removal leaves `https://doi.org/` plus an identifier unchanged |
| CitationVerifier.CleanNotIdempotent | src/llm_citation_verifier/verifier.py:15-19 | for every bare identifier there is an input whose cleaning is not a fixed point: one cleaning leaves `https://doi.org/` in front, a second removes it |
| CitationVerifier.ExtractAuthors | src/llm_citation_verifier/verifier.py:64-78 | the loop over the first three entries, the marker and the join produce exactly `FormatAuthors` |
| CitationVerifier.NamePart | src/llm_citation_verifier/verifier.py:70-73 | an entry contributes a name if and only if its family name is non-empty; the name is trimmed |
| CitationVerifier.CollectNamesLength | src/llm_citation_verifier/verifier.py:69-73 | no more names than entries are collected |
| CitationVerifier.CollectNamesAppend | src/llm_citation_verifier/verifier.py:69-73 | the names of two consecutive runs of entries are the names of each run, in order |
| CitationVerifier.CollectNamesEmptyIff | src/llm_citation_verifier/verifier.py:72 | no name is collected if and only if every entry's family name is missing or empty |
| CitationVerifier.NamelessAuthorSkipped | src/llm_citation_verifier/verifier.py:72 | inserting an entry without a family name anywhere does not change the collected names |
| CitationVerifier.AuthorPartsBound | src/llm_citation_verifier/verifier.py:69-76 | at most four parts are joined: three names and the marker |
| CitationVerifier.OnlyFirstThreeMatter | src/llm_citation_verifier/verifier.py:69-76 | lists that agree on their first three entries and on being longer than three format identically |
| CitationVerifier.EtAlMarker | src/llm_citation_verifier/verifier.py:75-78 | a list of more than three entries ends with `, et al.`, or is exactly `et al.` when none of the first three has a family name |
| CitationVerifier.NoMarkerForShortLists | src/llm_citation_verifier/verifier.py:75-76 | a list of at most three entries gets no marker |
| CitationVerifier.JoinOfSeveralNotUnknown | src/llm_citation_verifier/verifier.py:78 | a join of two or more parts contains `, ` and so is never `Unknown` |
| CitationVerifier.FormatAuthorsUnknownIff | src/llm_citation_verifier/verifier.py:64-78 | the result is `Unknown` if and only if there was nothing to join or the only part was the name `Unknown`; otherwise it is the `, `-join of the parts |
| CitationVerifier.FamilyOnlyName | src/llm_citation_verifier/verifier.py:70-73 | an entry without a given name contributes its family name, the leading space stripped |
| CitationVerifier.GivenFamilyName | src/llm_citation_verifier/verifier.py:70-73 | an entry with trimmed, non-empty given and family names contributes the given name, one space, then the family name |
| CitationVerifier.SingleFamilyName | src/llm_citation_verifier/verifier.py:64-78 | a one-entry list with only a trimmed family name formats as that name |
| CitationVerifier.UnknownIsAmbiguous | src/llm_citation_verifier/verifier.py:65-66 | an author whose family name is `Unknown` formats the same as an empty author list |
| CitationVerifier.ExtractYear | src/llm_citation_verifier/verifier.py:80-87 | the result is `Unknown` exactly when the date object lacks a first element of a first `date-parts` list; otherwise it is `str` of that element, which reads back as the element |
| CitationVerifier.ChooseDate | src/llm_citation_verifier/verifier.py:44 | `published-print or published-online` is one of the two objects, and it is non-empty if and only if one of them is |
| CitationVerifier.YearPreference | src/llm_citation_verifier/verifier.py:43-45 | a non-empty `published-print` decides the year even when it has no usable date; otherwise `published-online` decides; with no usable date in either the year is `Unknown` |
| CitationVerifier.FirstOrUnknown | src/llm_citation_verifier/verifier.py:35-41 | the first element of a present, non-empty list; otherwise `Unknown`; the result is always `Unknown` or an element of the list |
| CitationVerifier.Metadata | src/llm_citation_verifier/verifier.py:32-47 | the verified record: first title and journal or `Unknown`, publisher as given or `Unknown` when absent, the formatted authors, the year extracted from the chosen date object, and the `https://doi.org/` URL |
| CitationVerifier.MapResponse | src/llm_citation_verifier/verifier.py:25-62 | verified if and only if the status is 200; the exact error string for 404, for any other status and for a transport failure; the DOI is always the one looked up |
| CitationVerifier.VerifyDoi | src/llm_citation_verifier/verifier.py:13-62 | the record's DOI is the cleaned input, and it is verified if and only if the lookup of the cleaned DOI answers 200 |
| CitationVerifier.VerifyDependsOnCleanedDoi | src/llm_citation_verifier/verifier.py:15-23 | inputs that clean to the same DOI give the same record |
| CitationVerifier.DiagnoseRecoversOutcome | src/llm_citation_verifier/verifier.py:25-62 | the record determines the outcome: found, not found, the exact HTTP status, or the transport failure's message can be read back from it |
| CitationVerifier.DiagnoseHttpError | src/llm_citation_verifier/verifier.py:54-59 | the `HTTP <n>: Unable to verify` error is read back as status `n` |
| CitationVerifier.DiagnoseNetworkError | src/llm_citation_verifier/verifier.py:61-62 | the `Network error: ` error is read back as the failure's message |
| CitationVerifier.DistinctOutcomesDistinctResults | src/llm_citation_verifier/verifier.py:48-62 | outcomes of different classes (two different statuses, say) give different records |
| CitationVerifier.NotFoundFlagsHallucination | src/llm_citation_verifier/verifier.py:48-53 | a 404 gives an unverified record whose error contains `hallucinated` |
| CitationVerifier.HttpErrorNamesStatus | src/llm_citation_verifier/verifier.py:54-59 | any status other than 200 and 404 appears in decimal in the error |
| CitationVerifier.AsDict | src/llm_citation_verifier/verifier.py:32-62 | the dictionary carries `verified` and `doi` with the record's values, `error` for an unverified record, and for a verified one `title`, `authors`, `journal`, `publisher`, `year` and `url`, each with the record's value |
| CitationVerifier.RecordShape | src/llm_citation_verifier/verifier.py:32-62 | every record has `verified` and `doi`; a verified one has exactly the eight metadata keys, including `url`, and no `error`; an unverified one has exactly `verified`, `doi` and `error` |
| VerifierTests.CleaningTestForms | tests/test_verifier.py:59-69 | the `https://doi.org/`, `http://dx.doi.org/` and bare spellings of any bare identifier clean to it |
| VerifierTests.CleaningTestPadded | tests/test_verifier.py:63 | the identifier padded with two spaces on each side cleans to it |
| VerifierTests.DoiUrlCleaning | tests/test_verifier.py:59-69 | the four inputs of the cleaning test all clean to `10.1038/nature12373` |
| VerifierTests.DoiUrlCleaningSameRecord | tests/test_verifier.py:66-69 | whatever the registry answers, the four inputs give the same record |
| VerifierTests.ValidDoiVerification | tests/test_verifier.py:25-32 | when the registry answers 200 for `10.1038/nature12373`, the record is verified, carries that DOI and has the metadata keys |
| VerifierTests.InvalidDoiVerification | tests/test_verifier.py:44-49 | when the registry answers 404 for `10.1234/fake.doi.2024`, the record is unverified, carries that DOI and an error containing `hallucinated` |
| VerifierTests.NetworkErrorHandling | tests/test_verifier.py:76-79 | when the lookup for `10.///invalid///doi` does not answer 200, the record is unverified and has an `error`; a transport failure is reported with the `Network error: ` prefix |

## Left out

- The HTTP request itself is not modelled. This covers `requests.get`, the
  base URL, the `User-Agent` header, the 10-second timeout and the URL built
  from the DOI. It is I/O, so it is the `lookup` parameter.
- Decoding of the JSON body is not modelled. `LookupOutcome.Response` already
  carries the decoded `message` object. A body that does not decode makes
  `response.json()` (`verifier.py:26`) raise `requests.exceptions.JSONDecodeError`,
  which is a `RequestException` in requests 2.27 and later. The source then
  returns `Network error: <message>` (`:61-62`) even though the status was 200.
  In the model this case is a `TransportFailure` carrying that message.
- A status-200 body without a `message` key is not modelled. The source would
  raise `KeyError`, which its `except` does not catch.
- JSON `null` values are read as absent keys. For `title` and
  `container-title` this matches the source, since `None` is falsy and
  gives `Unknown` (`verifier.py:35-41`). The source differs in four places:
  - `"publisher": null` gives `None`, not `Unknown` (`:42`);
  - `"given": null` gives the name `None <family>` (`:70`, `:73`);
  - a date of `[[null]]` gives the year `None` (`:85`);
  - a `published-print` of `{"date-parts": null}` is a non-empty object, so
    the source chooses it (`:44`), `None[0]` raises `TypeError` and the year is
    `Unknown` (`:84-87`). The model reads that object as empty, so
    `ChooseDate` falls back to `published-online` and can give its year.
- Date elements are integers in the model. `str()` would accept any element.
  The `TypeError` path is not modelled: a `date-parts` value or first entry
  that cannot be indexed, such as `[2020]`, gives `Unknown` in the source
  (`:84-87`).
- The exception message that becomes `Network error: <message>` is an input
  string. How `requests` phrases its exceptions is not modelled.
- The package's `__init__.py` is not part of this model. It holds the
  plugin's tool registration and its `json.dumps` serialisation.
- Tests that depend on live registry data are not modelled: a non-empty
  title, the journal being `Nature`, a non-`Unknown` author string and a
  year after 2000 (tests at `tests/test_verifier.py:33`, `:34`, `:82-90`
  and `:92-100`). The model has no
  registry data, so only what holds for every answer is stated.
- The lookup is a fixed function of the cleaned DOI. The source makes a new
  network call on every `verify_doi`, and two calls for the same DOI can be
  answered differently. So `VerifyDependsOnCleanedDoi` and
  `DoiUrlCleaningSameRecord`, which say that inputs cleaning to the same DOI
  give the same record, hold only for answers that do not change between
  calls.
- PyStrings.ReplaceAll: requires a non-empty pattern. Python's `replace` with
  an empty pattern inserts the replacement between characters, but the
  verifier only ever replaces the two non-empty URL prefixes.
- PyStrings.IsWhitespace: this is the fixed set of characters for which
  Python's `str.isspace` holds. No Unicode database is consulted.
