/** The test fixture of the service (two refbooks, three versions, two
    elements) and the answers the handlers give on it. `today` is any date
    on or after the fixture's dates, as when the tests run. */
module Scenarios {
  import opened Collections
  import opened Dates
  import opened Models
  import opened Resolution
  import opened Views

  function Fixture(): (s: Store)
    ensures Valid(s)
  {
    var s := Store(
      [Refbook(1, "MS1", " ", ""), Refbook(2, "ICD-10", "-10", "")],
      [Version(1, 1, "v1", Date(2022, 9, 1)),
       Version(2, 2, "v1", Date(2022, 10, 1)),
       Version(3, 2, "v2", Date(2023, 1, 1))],
      [Element(1, 1, "J00", "Test Value 1.0"),
       Element(2, 2, "J01", "Test Value 2.0")]);
    assert HasRefbook(s.refbooks, 1) && HasRefbook(s.refbooks, 2) by {
      assert s.refbooks[0] in s.refbooks && s.refbooks[1] in s.refbooks;
    }
    assert HasVersion(s.versions, 1) && HasVersion(s.versions, 2) by {
      assert s.versions[0] in s.versions && s.versions[1] in s.versions;
    }
    s
  }

  /** Listing with a valid date returns both refbooks, ids 1 and 2 in order. */
  lemma ListingWithValidDate(today: Date)
    ensures RefbookList(Fixture(), Some("2022-10-01"), today) ==
      Ok([RefbookSummary(1, "MS1", " "), RefbookSummary(2, "ICD-10", "-10")])
  {
    ParsesTestDate();
    ListingOfTwoRefbooks(Fixture(), "2022-10-01", today);
  }

  lemma ListingOfTwoRefbooks(s: Store, text: string, today: Date)
    requires ParseDate(text).Parsed?
    requires |s.refbooks| == 2
    ensures RefbookList(s, Some(text), today) == Ok([Summary(s.refbooks[0]), Summary(s.refbooks[1])])
  {
    var out := RefbookList(s, Some(text), today).value;
    assert |out| == 2;
    assert out[0] == Summary(s.refbooks[0]) && out[1] == Summary(s.refbooks[1]);
    assert out == [Summary(s.refbooks[0]), Summary(s.refbooks[1])];
  }

  lemma ParsesTestDate()
    ensures ParseDate("2022-10-01") == Parsed(Date(2022, 10, 1))
  {
    ParseFormatRoundTrip(Date(2022, 10, 1));
    assert DigitChar(0) == '0' && DigitChar(1) == '1' && DigitChar(2) == '2';
    assert TwoDigits(20) == "20" && TwoDigits(22) == "22";
    assert FourDigits(2022) == "2022";
    assert TwoDigits(10) == "10" && TwoDigits(1) == "01";
    assert FormatDate(Date(2022, 10, 1)) == "2022-10-01";
  }

  /** A date of the wrong shape is refused. */
  lemma ListingWithInvalidDate(today: Date)
    ensures RefbookList(Fixture(), Some("invalid-date"), today) == Err(InvalidDate)
  {
    assert !IsDigit('i');
    assert "invalid-date"[..4][0] == 'i';
  }

  /** Refbook 1 names version "v1": its one element is listed. */
  lemma ElementsOfNamedVersion(today: Date)
    ensures ElementList(Fixture(), 1, Some("v1"), today) == Ok([ElementView("J00", "Test Value 1.0")])
  {
    var s := Fixture();
    ResolveNamedIsTheNamedVersion(s, 1, "v1", s.versions[0]);
    assert Resolve(s.versions, 1, SelectorFor(Some("v1"), today)) == Some(s.versions[0]);
    ElementsOfFirstVersion();
    var out := ElementViews(ElementsOf(s.elements, 1));
    assert |out| == 1 && out[0] == ElementView("J00", "Test Value 1.0");
    assert out == [ElementView("J00", "Test Value 1.0")];
  }

  /** Without a version, refbook 1's current version is its only one. */
  lemma ElementsOfCurrentVersion(today: Date)
    requires OnOrBefore(Date(2022, 9, 1), today)
    ensures ElementList(Fixture(), 1, None, today) == Ok([ElementView("J00", "Test Value 1.0")])
  {
    var s := Fixture();
    ResolveCurrentIsLatestStarted(s, 1, today, s.versions[0]);
    assert Resolve(s.versions, 1, SelectorFor(None, today)) == Some(s.versions[0]);
    ElementsOfFirstVersion();
    var out := ElementViews(ElementsOf(s.elements, 1));
    assert |out| == 1 && out[0] == ElementView("J00", "Test Value 1.0");
    assert out == [ElementView("J00", "Test Value 1.0")];
  }

  lemma ElementsOfFirstVersion()
    ensures ElementsOf(Fixture().elements, 1) == [Element(1, 1, "J00", "Test Value 1.0")]
  {
    var es := Fixture().elements;
    assert es[1..][1..] == [];
  }

  /** An unknown refbook id is reported before anything else. */
  lemma UnknownRefbook(today: Date)
    ensures ElementList(Fixture(), 999, None, today) == Err(RefbookNotFound)
    ensures CheckElement(Fixture(), 999, Some("J00"), Some("Test Value 1.0"), None, today) == Err(RefbookNotFound)
  {
  }

  /** A version name the refbook does not have. */
  lemma UnknownVersion(today: Date)
    ensures ElementList(Fixture(), 1, Some("v3.0"), today) == Err(VersionNotFound(NamedVersionMissing))
  {
  }

  /** With the elements of version "v1" removed, its listing is ElementsNotFound. */
  lemma EmptiedVersion(today: Date)
    ensures var s := Fixture();
      ElementList(Store(s.refbooks, s.versions, Filter(s.elements, (e: Element) => e.version != 1)), 1, Some("v1"), today)
        == Err(ElementsNotFound)
  {
    EmptiedVersionVersusDeletedVersion(Fixture(), Fixture().versions[0], today);
  }

  /** The existence check in the current version: an exact match is true, a
      mismatch is false. */
  lemma CheckInCurrentVersion(today: Date)
    requires OnOrBefore(Date(2022, 9, 1), today)
    ensures CheckElement(Fixture(), 1, Some("J00"), Some("Test Value 1.0"), None, today) == Ok(true)
    ensures CheckElement(Fixture(), 1, Some("J01"), Some("Nonexistent Value"), None, today) == Ok(false)
  {
    var s := Fixture();
    CheckElementAnswersForResolvedVersion(s, 1, "J00", "Test Value 1.0", None, today, s.versions[0]);
    CheckElementAnswersForResolvedVersion(s, 1, "J01", "Nonexistent Value", None, today, s.versions[0]);
    assert s.elements[0] in s.elements;
  }

  /** The existence check in a named version of refbook 2. */
  lemma CheckInNamedVersion(today: Date)
    ensures CheckElement(Fixture(), 2, Some("J01"), Some("Test Value 2.0"), Some("v1"), today) == Ok(true)
  {
    var s := Fixture();
    CheckElementAnswersForResolvedVersion(s, 2, "J01", "Test Value 2.0", Some("v1"), today, s.versions[1]);
    assert s.elements[1] in s.elements;
  }

  /** Without `code` and `value` the check refuses the request. */
  lemma CheckWithoutParameters(today: Date)
    ensures CheckElement(Fixture(), 1, None, None, None, today) == Err(MissingParameters)
  {
  }

  /** Refbook 2 has versions from 2022-10-01 and 2023-01-01: the later one is
      current from its start date on, the earlier one until then, and before
      2022-10-01 none is. */
  lemma CurrentVersionOfSecondRefbook()
    ensures Resolve(Fixture().versions, 2, CurrentAt(Date(2022, 12, 31))) == Some(Fixture().versions[1])
    ensures Resolve(Fixture().versions, 2, CurrentAt(Date(2023, 1, 1))) == Some(Fixture().versions[2])
    ensures ElementList(Fixture(), 2, None, Date(2022, 9, 30)) == Err(VersionNotFound(NoCurrentVersion))
  {
    var s := Fixture();
    ResolveCurrentIsLatestStarted(s, 2, Date(2022, 12, 31), s.versions[1]);
    ResolveCurrentIsLatestStarted(s, 2, Date(2023, 1, 1), s.versions[2]);
  }
}
