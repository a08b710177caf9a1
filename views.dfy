/** The three read-only request handlers: the refbook listing, the element
    listing of one version, and the existence check of one code/value pair.
    The current date is a parameter (`today`) rather than a clock reading. */
module Views {
  import opened Collections
  import opened Dates
  import opened Models
  import opened Resolution

  /** Which of the two "version not found" messages is given: the element
      listing tells a missing named version from a missing current one; the
      existence check has one message for both. */
  datatype VersionMiss = NamedVersionMissing | NoCurrentVersion | NoValidVersion

  /** The outcomes other than a normal response. `ImpossibleDate` is the
      exception `parse_date` raises for a well-shaped text that names no
      calendar day, which the listing does not catch (a server error). */
  datatype Error =
    | InvalidDate
    | ImpossibleDate
    | RefbookNotFound
    | VersionNotFound(miss: VersionMiss)
    | ElementsNotFound
    | MissingParameters

  datatype Result<+T> = Ok(value: T) | Err(error: Error)

  /** A refbook as the listing shows it: `id`, `code`, `name`. */
  datatype RefbookSummary = RefbookSummary(id: int, code: string, name: string)

  /** An element as the element listing shows it: `code`, `value`. */
  datatype ElementView = ElementView(code: string, value: string)

  function Summary(r: Refbook): RefbookSummary {
    RefbookSummary(r.id, r.code, r.name)
  }

  function View(e: Element): ElementView {
    ElementView(e.code, e.value)
  }

  /** A refbook row of the listing query with the versions prefetched for it. */
  datatype Prefetched = Prefetched(refbook: Refbook, versions: seq<Version>)

  /** The listing query: every refbook, each with its versions started by `d`
      attached. The date narrows what is attached, never which refbooks appear. */
  function RefbookQuery(s: Store, rs: seq<Refbook>, d: Date): (rows: seq<Prefetched>)
    ensures |rows| == |rs|
    ensures forall i :: 0 <= i < |rs| ==> rows[i].refbook == rs[i]
    ensures forall i :: 0 <= i < |rs| ==> forall v :: v in rows[i].versions <==>
      v in s.versions && v.refbook == rs[i].id && OnOrBefore(v.dateStart, d)
  {
    if rs == [] then []
    else [Prefetched(rs[0], StartedBy(VersionsOf(s.versions, rs[0].id), d))] + RefbookQuery(s, rs[1..], d)
  }

  /** The serializer's projection of the listing rows. */
  function Summaries(rows: seq<Prefetched>): (out: seq<RefbookSummary>)
    ensures |out| == |rows|
    ensures forall i :: 0 <= i < |rows| ==> out[i] == Summary(rows[i].refbook)
  {
    if rows == [] then [] else [Summary(rows[0].refbook)] + Summaries(rows[1..])
  }

  /** The serializer's projection of an element query. */
  function ElementViews(es: seq<Element>): (out: seq<ElementView>)
    ensures |out| == |es|
    ensures forall i :: 0 <= i < |es| ==> out[i] == View(es[i])
  {
    if es == [] then [] else [View(es[0])] + ElementViews(es[1..])
  }

  /** GET refbooks/?date=...: an absent or empty `date` means today; a `date`
      of the wrong shape is refused before anything is listed. */
  function RefbookList(s: Store, dateParam: Option<string>, today: Date): (r: Result<seq<RefbookSummary>>)
    ensures !Given(dateParam) ==> r.Ok?
    ensures r.Err? ==> r.error == InvalidDate || r.error == ImpossibleDate
    ensures r.Ok? ==> |r.value| == |s.refbooks|
  {
    if Given(dateParam) then
      match ParseDate(dateParam.value)
      case Malformed => Err(InvalidDate)
      case OutOfRange => Err(ImpossibleDate)
      case Parsed(d) => Ok(Summaries(RefbookQuery(s, s.refbooks, d)))
    else
      Ok(Summaries(RefbookQuery(s, s.refbooks, today)))
  }

  /** GET refbooks/<id>/elements?version=...: the elements of the resolved
      version, or why there are none. */
  function ElementList(s: Store, rid: int, versionParam: Option<string>, today: Date): (r: Result<seq<ElementView>>)
    ensures r == Err(RefbookNotFound) <==> !HasRefbook(s.refbooks, rid)
    ensures (&& HasRefbook(s.refbooks, rid) && Given(versionParam)
             && forall v :: v in s.versions && v.refbook == rid ==> v.name != versionParam.value) ==>
        r == Err(VersionNotFound(NamedVersionMissing))
    ensures (&& HasRefbook(s.refbooks, rid) && !Given(versionParam)
             && forall v :: v in s.versions && v.refbook == rid ==> !OnOrBefore(v.dateStart, today)) ==>
        r == Err(VersionNotFound(NoCurrentVersion))
    ensures r.Ok? ==> r.value != []
    ensures r.Err? ==> r.error != MissingParameters && r.error != InvalidDate && r.error != ImpossibleDate
  {
    if !HasRefbook(s.refbooks, rid) then Err(RefbookNotFound)
    else
      match Resolve(s.versions, rid, SelectorFor(versionParam, today))
      case None =>
        Err(VersionNotFound(if Given(versionParam) then NamedVersionMissing else NoCurrentVersion))
      case Some(v) =>
        var es := ElementsOf(s.elements, v.id);
        if es == [] then Err(ElementsNotFound) else Ok(ElementViews(es))
  }

  /** GET refbooks/<id>/check_element?code=...&value=...&version=...: whether
      the resolved version holds an element with exactly this code and value. */
  function CheckElement(s: Store, rid: int, code: Option<string>, value: Option<string>,
                        versionName: Option<string>, today: Date): (r: Result<bool>)
    ensures r == Err(MissingParameters) <==> !Given(code) || !Given(value)
    ensures Given(code) && Given(value) ==> (r == Err(RefbookNotFound) <==> !HasRefbook(s.refbooks, rid))
    ensures r.Err? ==>
      r.error == MissingParameters || r.error == RefbookNotFound || r.error == VersionNotFound(NoValidVersion)
  {
    if !Given(code) || !Given(value) then Err(MissingParameters)
    else if !HasRefbook(s.refbooks, rid) then Err(RefbookNotFound)
    else
      match CheckQuery(s.versions, rid, versionName, today)
      case None => Err(VersionNotFound(NoValidVersion))
      case Some(v) => Ok(HasEntry(ElementsOf(s.elements, v.id), code.value, value.value))
  }

  /** `filter(code=..., value=...).exists()` over a version's elements. */
  function HasEntry(es: seq<Element>, code: string, value: string): (b: bool)
    ensures b <==> exists e :: e in es && e.code == code && e.value == value
  {
    var matching := Filter(es, (e: Element) => e.code == code && e.value == value);
    assert matching != [] ==> matching[0] in matching;
    matching != []
  }

  /** The listing never depends on the date: any two successful listings of
      the same store are equal, whatever `date` and `today` were. */
  lemma {:induction false} RefbookListIgnoresDate(s: Store, p1: Option<string>, t1: Date, p2: Option<string>, t2: Date)
    requires RefbookList(s, p1, t1).Ok? && RefbookList(s, p2, t2).Ok?
    ensures RefbookList(s, p1, t1) == RefbookList(s, p2, t2)
  {
    var a, b := RefbookList(s, p1, t1).value, RefbookList(s, p2, t2).value;
    assert |a| == |b|;
    forall i | 0 <= i < |a| ensures a[i] == b[i] {
      assert a[i] == Summary(s.refbooks[i]) == b[i];
    }
    assert a == b;
  }

  /** In a valid store a successful listing shows every stored refbook exactly
      once: each refbook's summary appears, nothing else does, and no id repeats. */
  lemma RefbookListEveryRefbookOnce(s: Store, dateParam: Option<string>, today: Date)
    requires Valid(s)
    requires RefbookList(s, dateParam, today).Ok?
    ensures var out := RefbookList(s, dateParam, today).value;
      && (forall r :: r in s.refbooks ==> Summary(r) in out)
      && (forall o :: o in out ==> exists r :: r in s.refbooks && Summary(r) == o)
      && (forall i, j :: 0 <= i < j < |out| ==> out[i].id != out[j].id)
  {
    var out := RefbookList(s, dateParam, today).value;
    forall i | 0 <= i < |out| ensures out[i] == Summary(s.refbooks[i]) {
    }
    forall r | r in s.refbooks ensures Summary(r) in out {
      var i :| 0 <= i < |s.refbooks| && s.refbooks[i] == r;
      assert out[i] == Summary(r);
    }
    forall i, j | 0 <= i < j < |out| ensures out[i].id != out[j].id {
      assert RefbookKey(s.refbooks[i]) != RefbookKey(s.refbooks[j]);
    }
  }

  /** The `date` parameter: absent or empty means today and always lists;
      a present `date` is refused as invalid exactly when it lacks the
      `YYYY-M-D` shape; a well-shaped one lists exactly when the date it
      writes is a calendar day, and raises otherwise; every calendar date
      written `YYYY-MM-DD` is accepted. */
  lemma RefbookListDateParameter(s: Store, dateParam: Option<string>, today: Date)
    ensures Given(dateParam) ==>
      (RefbookList(s, dateParam, today) == Err(InvalidDate) <==> !DateShaped(dateParam.value))
    ensures forall m, d | 1 <= m <= 2 && 1 <= d <= 2 && Given(dateParam) && ShapedAs(dateParam.value, m, d) ::
      && (RefbookList(s, dateParam, today).Ok? <==> IsCalendarDate(WrittenDate(dateParam.value, m, d)))
      && (RefbookList(s, dateParam, today).Err? ==> RefbookList(s, dateParam, today) == Err(ImpossibleDate))
    ensures forall d :: IsCalendarDate(d) ==> RefbookList(s, Some(FormatDate(d)), today).Ok?
  {
    if Given(dateParam) {
      ParseDateRecognisesShape(dateParam.value);
      forall m, d | 1 <= m <= 2 && 1 <= d <= 2 && ShapedAs(dateParam.value, m, d)
        ensures ParseDate(dateParam.value) ==
          (if IsCalendarDate(WrittenDate(dateParam.value, m, d)) then Parsed(WrittenDate(dateParam.value, m, d))
           else OutOfRange)
      {
        ParseDateOfShape(dateParam.value, m, d);
      }
    }
    forall d | IsCalendarDate(d) ensures RefbookList(s, Some(FormatDate(d)), today).Ok? {
      ParseFormatRoundTrip(d);
    }
  }

  /** The listing's date narrows only the versions attached to each refbook:
      the rows for two dates hold the same refbooks in the same order, and an
      earlier date attaches no version a later one does not. */
  lemma RefbookQueryNarrowsVersionsOnly(s: Store, rs: seq<Refbook>, d1: Date, d2: Date)
    ensures |RefbookQuery(s, rs, d1)| == |RefbookQuery(s, rs, d2)|
    ensures forall i :: 0 <= i < |rs| ==> RefbookQuery(s, rs, d1)[i].refbook == RefbookQuery(s, rs, d2)[i].refbook
    ensures OnOrBefore(d1, d2) ==>
      forall i, v :: 0 <= i < |rs| && v in RefbookQuery(s, rs, d1)[i].versions ==> v in RefbookQuery(s, rs, d2)[i].versions
  {
  }

  /** The projection shows a (code, value) pair exactly when some element
      of the query has that code and that value. */
  lemma ElementViewsShowPairs(es: seq<Element>)
    ensures forall c, x :: ElementView(c, x) in ElementViews(es) <==>
      exists e :: e in es && e.code == c && e.value == x
  {
    var out := ElementViews(es);
    forall c, x | ElementView(c, x) in out ensures exists e :: e in es && e.code == c && e.value == x {
      var i :| 0 <= i < |out| && out[i] == ElementView(c, x);
      assert es[i] in es;
    }
    forall c, x | exists e :: e in es && e.code == c && e.value == x ensures ElementView(c, x) in out {
      var e :| e in es && e.code == c && e.value == x;
      var i :| 0 <= i < |es| && es[i] == e;
      assert out[i] == ElementView(c, x);
    }
  }

  /** The projection of one version's elements in a valid store: exactly
      that version's (code, value) pairs, with no code twice. */
  lemma ViewsOfVersion(s: Store, vid: int)
    requires Valid(s)
    ensures var out := ElementViews(ElementsOf(s.elements, vid));
      && (forall c, x :: ElementView(c, x) in out <==>
            exists e :: e in s.elements && e.version == vid && e.code == c && e.value == x)
      && (forall i, j :: 0 <= i < j < |out| ==> out[i].code != out[j].code)
  {
    var es := ElementsOf(s.elements, vid);
    var out := ElementViews(es);
    ElementViewsShowPairs(es);
    FilterKeepsDistinct(s.elements, (e: Element) => e.version == vid, ElementCodeKey);
    forall i, j | 0 <= i < j < |out| ensures out[i].code != out[j].code {
      assert ElementCodeKey(es[i]) != ElementCodeKey(es[j]);
      assert es[i] in es && es[j] in es;
    }
  }

  /** Element listing in a valid store, given the version the request
      designates (the named one, or the current one): it fails with
      ElementsNotFound exactly when that version has no elements, and otherwise
      lists exactly that version's (code, value) pairs with no code twice. */
  lemma ElementListShowsResolvedVersion(s: Store, rid: int, versionParam: Option<string>, today: Date, v: Version)
    requires Valid(s)
    requires HasRefbook(s.refbooks, rid)
    requires Given(versionParam) ==> v in s.versions && v.refbook == rid && v.name == versionParam.value
    requires !Given(versionParam) ==> IsCurrentAt(s.versions, rid, today, v)
    ensures var r := ElementList(s, rid, versionParam, today);
      && (r.Ok? || r == Err(ElementsNotFound))
      && (r == Err(ElementsNotFound) <==> forall e :: e in s.elements ==> e.version != v.id)
      && (r.Ok? ==> forall c, x :: ElementView(c, x) in r.value <==>
            exists e :: e in s.elements && e.version == v.id && e.code == c && e.value == x)
      && (r.Ok? ==> forall i, j :: 0 <= i < j < |r.value| ==> r.value[i].code != r.value[j].code)
  {
    if Given(versionParam) {
      ResolveNamedIsTheNamedVersion(s, rid, versionParam.value, v);
    } else {
      ResolveCurrentIsLatestStarted(s, rid, today, v);
    }
    assert Resolve(s.versions, rid, SelectorFor(versionParam, today)) == Some(v);
    var es := ElementsOf(s.elements, v.id);
    assert es == [] <==> forall e :: e in s.elements ==> e.version != v.id by {
      if es != [] {
        assert es[0] in es;
      }
    }
    ViewsOfVersion(s, v.id);
  }

  /** The existence check in a valid store, given the version the request
      designates: the answer is whether that version holds an element with
      both this code and this value; a mismatch is `false`, never an error. */
  lemma CheckElementAnswersForResolvedVersion(s: Store, rid: int, code: string, value: string,
                                              versionName: Option<string>, today: Date, v: Version)
    requires Valid(s)
    requires code != "" && value != ""
    requires HasRefbook(s.refbooks, rid)
    requires Given(versionName) ==> v in s.versions && v.refbook == rid && v.name == versionName.value
    requires !Given(versionName) ==> IsCurrentAt(s.versions, rid, today, v)
    ensures CheckElement(s, rid, Some(code), Some(value), versionName, today) ==
      Ok(exists e :: e in s.elements && e.version == v.id && e.code == code && e.value == value)
  {
    CheckQueryIsResolve(s, rid, versionName, today);
    if Given(versionName) {
      ResolveNamedIsTheNamedVersion(s, rid, versionName.value, v);
    } else {
      ResolveCurrentIsLatestStarted(s, rid, today, v);
    }
  }

  /** Both element handlers apply one resolution rule: with `code` and `value`
      given, the existence check fails (unknown refbook or no valid version)
      exactly when the element listing fails for a reason other than an empty
      version. */
  lemma HandlersResolveAlike(s: Store, rid: int, code: string, value: string,
                             versionParam: Option<string>, today: Date)
    requires Valid(s)
    requires code != "" && value != ""
    ensures CheckElement(s, rid, Some(code), Some(value), versionParam, today).Err? <==>
      (ElementList(s, rid, versionParam, today).Err? && ElementList(s, rid, versionParam, today).error != ElementsNotFound)
  {
    CheckQueryIsResolve(s, rid, versionParam, today);
  }

  /** After a refbook is deleted, both element handlers answer RefbookNotFound
      for it, whatever else is asked. */
  lemma DeletedRefbookNotFound(s: Store, rid: int, code: string, value: string,
                               versionParam: Option<string>, today: Date)
    requires Valid(s)
    requires code != "" && value != ""
    ensures ElementList(DeleteRefbook(s, rid), rid, versionParam, today) == Err(RefbookNotFound)
    ensures CheckElement(DeleteRefbook(s, rid), rid, Some(code), Some(value), versionParam, today) == Err(RefbookNotFound)
  {
    DeleteRefbookKeepsValid(s, rid);
  }

  /** Emptying a version and deleting it are told apart: with all elements of
      the named version `v` removed, its listing fails with ElementsNotFound;
      with `v` itself deleted, it fails with VersionNotFound. */
  lemma EmptiedVersionVersusDeletedVersion(s: Store, v: Version, today: Date)
    requires Valid(s)
    requires v in s.versions
    ensures var emptied := Store(s.refbooks, s.versions, Filter(s.elements, (e: Element) => e.version != v.id));
      ElementList(emptied, v.refbook, Some(v.name), today) == Err(ElementsNotFound)
    ensures v.name != "" && ElementList(DeleteVersion(s, v.id), v.refbook, Some(v.name), today) ==
      Err(VersionNotFound(NamedVersionMissing))
  {
    var emptied := Store(s.refbooks, s.versions, Filter(s.elements, (e: Element) => e.version != v.id));
    ResolveNamedIsTheNamedVersion(s, v.refbook, v.name, v);
    DeleteVersionKeepsValid(s, v.id);
    var t := DeleteVersion(s, v.id);
    forall w | w in t.versions && w.refbook == v.refbook ensures w.name != v.name {
      if w.name == v.name {
        DistinctMembers(s.versions, VersionNameKey, w, v);
      }
    }
  }

  /** Deleting one refbook leaves the version every selector resolves to for
      any other refbook as it was. */
  lemma DeleteRefbookKeepsResolution(s: Store, rid: int, other: int, sel: Selector)
    requires Valid(s)
    requires other != rid
    ensures Resolve(DeleteRefbook(s, rid).versions, other, sel) == Resolve(s.versions, other, sel)
  {
    var t := DeleteRefbook(s, rid);
    DeleteRefbookKeepsValid(s, rid);
    var a := Resolve(s.versions, other, sel);
    if a.Some? {
      var v := a.value;
      assert v in t.versions;
      match sel {
        case Named(name) =>
          ResolveNamedIsTheNamedVersion(t, other, name, v);
        case CurrentAt(d) =>
          ResolveCurrentIsLatestStarted(s, other, d, v);
          ResolveCurrentIsLatestStarted(t, other, d, v);
      }
    }
  }

  /** Deleting one refbook leaves, for any other refbook, its presence, the
      version every selector resolves to, and that version's element list as
      they were. */
  lemma DeleteRefbookKeepsResolvedElements(s: Store, rid: int, other: int, sel: Selector)
    requires Valid(s)
    requires other != rid
    ensures var t := DeleteRefbook(s, rid);
      && (HasRefbook(t.refbooks, other) <==> HasRefbook(s.refbooks, other))
      && Resolve(t.versions, other, sel) == Resolve(s.versions, other, sel)
      && (Resolve(s.versions, other, sel).Some? ==>
            var vid := Resolve(s.versions, other, sel).value.id;
            ElementsOf(t.elements, vid) == ElementsOf(s.elements, vid))
  {
    var t := DeleteRefbook(s, rid);
    assert HasRefbook(t.refbooks, other) <==> HasRefbook(s.refbooks, other) by {
      if HasRefbook(s.refbooks, other) {
        var r :| r in s.refbooks && r.id == other;
        assert r in t.refbooks;
      }
    }
    DeleteRefbookKeepsResolution(s, rid, other, sel);
    var a := Resolve(s.versions, other, sel);
    if a.Some? {
      var v := a.value;
      var gone := VersionIds(VersionsOf(s.versions, rid));
      assert v.id !in gone by {
        if v.id in gone {
          var w :| w in VersionsOf(s.versions, rid) && w.id == v.id;
          DistinctMembers(s.versions, VersionKey, w, v);
        }
      }
      ElementsOfUntouched(s.elements, gone, v.id);
    }
  }

  /** Deleting one refbook changes nothing the element listing answers about
      any other refbook. */
  lemma DeleteRefbookKeepsOtherListings(s: Store, rid: int, other: int, versionParam: Option<string>, today: Date)
    requires Valid(s)
    requires other != rid
    ensures ElementList(DeleteRefbook(s, rid), other, versionParam, today) == ElementList(s, other, versionParam, today)
  {
    DeleteRefbookKeepsResolvedElements(s, rid, other, SelectorFor(versionParam, today));
  }

  /** Deleting one refbook changes nothing the existence check answers about
      any other refbook. */
  lemma DeleteRefbookKeepsOtherChecks(s: Store, rid: int, other: int, code: Option<string>, value: Option<string>,
                                      versionParam: Option<string>, today: Date)
    requires Valid(s)
    requires other != rid
    ensures CheckElement(DeleteRefbook(s, rid), other, code, value, versionParam, today) ==
      CheckElement(s, other, code, value, versionParam, today)
  {
    DeleteRefbookKeepsValid(s, rid);
    CheckQueryIsResolve(s, other, versionParam, today);
    CheckQueryIsResolve(DeleteRefbook(s, rid), other, versionParam, today);
    DeleteRefbookKeepsResolvedElements(s, rid, other, SelectorFor(versionParam, today));
  }
}
