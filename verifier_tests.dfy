/**
 * The unit tests of the verifier, restated over an arbitrary lookup: each
 * lemma assumes what the registry answers for the test's DOI and proves what
 * the test asserts about the record.
 */
module VerifierTests {
  import opened Wrappers
  import opened PyStrings
  import opened CitationVerifier

  const ValidDoi: String := "10.1038/nature12373"
  const FakeDoi: String := "10.1234/fake.doi.2024"
  const MalformedDoi: String := "10.///invalid///doi"

  /** An identifier without an `h` and with non-blank ends is bare. */
  lemma {:induction false} BareWithoutH(d: String)
    requires Trimmed(d)
    requires forall i :: 0 <= i < |d| ==> d[i] != 'h'
    ensures Bare(d)
  {
    NoOccurrenceOfAbsentHead(d, DoiOrgPrefix);
    NoOccurrenceOfAbsentHead(d, DxDoiOrgPrefix);
  }

  const Padding: String := "  "

  /** The three unpadded spellings that the cleaning test feeds in, for any bare identifier. */
  lemma {:induction false} CleaningTestForms(d: String)
    requires Bare(d)
    ensures CleanDoi(DoiOrgPrefix + d) == d
    ensures CleanDoi(DxDoiOrgPrefix + d) == d
    ensures CleanDoi(d) == d
  {
    assert CleanDoi(DoiOrgPrefix + d) == d by {
      EmptyEnds(DoiOrgPrefix, d);
      CleanRecognisedForms([], DoiOrgPrefix, d, []);
    }
    assert CleanDoi(DxDoiOrgPrefix + d) == d by {
      EmptyEnds(DxDoiOrgPrefix, d);
      CleanRecognisedForms([], DxDoiOrgPrefix, d, []);
    }
    CleanKeepsBare(d);
  }

  /** The padded spelling of the cleaning test, for any bare identifier. */
  lemma {:induction false} CleaningTestPadded(d: String)
    requires Bare(d)
    ensures CleanDoi(Padding + d + Padding) == d
  {
    EmptyMiddle(Padding, d, Padding);
    assert AllWhitespace(Padding) by {
      assert Padding[0] == ' ' && Padding[1] == ' ';
    }
    CleanRecognisedForms(Padding, [], d, Padding);
  }

  /** The four spellings of the cleaning test all clean to the bare DOI. */
  lemma DoiUrlCleaning()
    ensures CleanDoi(DoiOrgPrefix + ValidDoi) == ValidDoi
    ensures CleanDoi(DxDoiOrgPrefix + ValidDoi) == ValidDoi
    ensures CleanDoi(ValidDoi) == ValidDoi
    ensures CleanDoi(Padding + ValidDoi + Padding) == ValidDoi
  {
    BareWithoutH(ValidDoi);
    CleaningTestForms(ValidDoi);
    CleaningTestPadded(ValidDoi);
  }

  /** Whatever the registry answers, the four spellings give the same record. */
  lemma DoiUrlCleaningSameRecord(lookup: String -> LookupOutcome)
    ensures VerifyDoi(DoiOrgPrefix + ValidDoi, lookup) == VerifyDoi(ValidDoi, lookup)
    ensures VerifyDoi(DxDoiOrgPrefix + ValidDoi, lookup) == VerifyDoi(ValidDoi, lookup)
    ensures VerifyDoi(Padding + ValidDoi + Padding, lookup) == VerifyDoi(ValidDoi, lookup)
  {
    DoiUrlCleaning();
  }

  /** A registry record for the valid DOI yields a verified record for it, with the metadata keys. */
  lemma ValidDoiVerification(lookup: String -> LookupOutcome)
    requires lookup(ValidDoi).Response? && lookup(ValidDoi).status == 200
    ensures VerifyDoi(ValidDoi, lookup).Verified()
    ensures VerifyDoi(ValidDoi, lookup).doi == ValidDoi
    ensures AsDict(VerifyDoi(ValidDoi, lookup)).Keys == SuccessKeys
  {
    DoiUrlCleaning();
    RecordShape(VerifyDoi(ValidDoi, lookup));
  }

  /** A not-found answer for the fabricated DOI is flagged as hallucinated. */
  lemma InvalidDoiVerification(lookup: String -> LookupOutcome)
    requires lookup(FakeDoi).Response? && lookup(FakeDoi).status == 404
    ensures !VerifyDoi(FakeDoi, lookup).Verified()
    ensures VerifyDoi(FakeDoi, lookup).doi == FakeDoi
    ensures "error" in AsDict(VerifyDoi(FakeDoi, lookup))
    ensures Contains(VerifyDoi(FakeDoi, lookup).error, "hallucinated")
  {
    BareWithoutH(FakeDoi);
    CleanKeepsBare(FakeDoi);
    NotFoundFlagsHallucination(FakeDoi, lookup(FakeDoi).work);
    RecordShape(VerifyDoi(FakeDoi, lookup));
  }

  /**
   * The malformed DOI is not verified whatever goes wrong, and the record
   * carries an error; a transport failure is reported as a network error.
   */
  lemma NetworkErrorHandling(lookup: String -> LookupOutcome)
    requires !(lookup(MalformedDoi).Response? && lookup(MalformedDoi).status == 200)
    ensures !VerifyDoi(MalformedDoi, lookup).Verified()
    ensures "error" in AsDict(VerifyDoi(MalformedDoi, lookup))
    ensures lookup(MalformedDoi).TransportFailure? ==>
              StartsWith(VerifyDoi(MalformedDoi, lookup).error, NetworkErrorPrefix)
  {
    BareWithoutH(MalformedDoi);
    CleanKeepsBare(MalformedDoi);
    RecordShape(VerifyDoi(MalformedDoi, lookup));
    if lookup(MalformedDoi).TransportFailure? {
      Pieces2(NetworkErrorPrefix, lookup(MalformedDoi).message);
    }
  }
}
