/** The three tables of the service (refbooks, their versions, the versions'
    elements), the constraints the schema declares on them, and the cascading
    deletes their foreign keys carry. */
module Models {
  import opened Collections
  import opened Dates

  /** A reference dictionary. `description` is free text and may be empty. */
  datatype Refbook = Refbook(id: int, code: string, name: string, description: string)

  /** A dated version of refbook `refbook`, in force from `dateStart`. */
  datatype Version = Version(id: int, refbook: int, name: string, dateStart: Date)

  /** One code/value entry of version `version`. */
  datatype Element = Element(id: int, version: int, code: string, value: string)

  datatype Store = Store(refbooks: seq<Refbook>, versions: seq<Version>, elements: seq<Element>)

  // The keys of the primary-key and unique constraints.
  function RefbookKey(r: Refbook): int { r.id }
  function RefbookCodeKey(r: Refbook): string { r.code }
  function VersionKey(v: Version): int { v.id }
  function VersionNameKey(v: Version): (int, string) { (v.refbook, v.name) }
  function VersionDateKey(v: Version): (int, Date) { (v.refbook, v.dateStart) }
  function ElementKey(e: Element): int { e.id }
  function ElementCodeKey(e: Element): (int, string) { (e.version, e.code) }

  /** A `CharField(blank=False, max_length=n)`: not empty, at most `n` characters. */
  predicate NonBlank(s: string, maxLength: nat) {
    0 < |s| <= maxLength
  }

  predicate RefbookFieldsOk(r: Refbook) {
    NonBlank(r.code, 100) && NonBlank(r.name, 300)
  }

  predicate VersionFieldsOk(v: Version) {
    NonBlank(v.name, 50) && IsCalendarDate(v.dateStart)
  }

  predicate ElementFieldsOk(e: Element) {
    NonBlank(e.code, 100) && NonBlank(e.value, 300)
  }

  predicate HasRefbook(rs: seq<Refbook>, id: int) {
    exists r :: r in rs && r.id == id
  }

  predicate HasVersion(vs: seq<Version>, id: int) {
    exists v :: v in vs && v.id == id
  }

  ghost predicate RefbooksValid(rs: seq<Refbook>) {
    && Distinct(rs, RefbookKey)
    && Distinct(rs, RefbookCodeKey)
    && forall r :: r in rs ==> RefbookFieldsOk(r)
  }

  ghost predicate VersionsValid(vs: seq<Version>, rs: seq<Refbook>) {
    && Distinct(vs, VersionKey)
    && Distinct(vs, VersionNameKey)
    && Distinct(vs, VersionDateKey)
    && forall v :: v in vs ==> VersionFieldsOk(v) && HasRefbook(rs, v.refbook)
  }

  ghost predicate ElementsValid(es: seq<Element>, vs: seq<Version>) {
    && Distinct(es, ElementKey)
    && Distinct(es, ElementCodeKey)
    && forall e :: e in es ==> ElementFieldsOk(e) && HasVersion(vs, e.version)
  }

  /** A store the schema admits: keys and unique constraints hold, every field
      is within its declared bounds, and every foreign key points at a row. */
  ghost predicate Valid(s: Store) {
    && RefbooksValid(s.refbooks)
    && VersionsValid(s.versions, s.refbooks)
    && ElementsValid(s.elements, s.versions)
  }

  /** What a valid store guarantees row by row: no two refbooks share a code;
      within a refbook no two versions share a name or a start date; within a
      version no two elements share a code; every version belongs to exactly
      one refbook and every element to exactly one version. */
  lemma ValidStoreConstraints(s: Store)
    requires Valid(s)
    ensures forall a, b :: a in s.refbooks && b in s.refbooks && a.code == b.code ==> a == b
    ensures forall v, w :: v in s.versions && w in s.versions && v.refbook == w.refbook && v.name == w.name ==> v == w
    ensures forall v, w :: v in s.versions && w in s.versions && v.refbook == w.refbook && v.dateStart == w.dateStart ==> v == w
    ensures forall e, f :: e in s.elements && f in s.elements && e.version == f.version && e.code == f.code ==> e == f
    ensures forall v :: v in s.versions ==>
      (exists r :: r in s.refbooks && r.id == v.refbook) &&
      forall a, b :: a in s.refbooks && b in s.refbooks && a.id == v.refbook && b.id == v.refbook ==> a == b
    ensures forall e :: e in s.elements ==>
      (exists v :: v in s.versions && v.id == e.version) &&
      forall v, w :: v in s.versions && w in s.versions && v.id == e.version && w.id == e.version ==> v == w
  {
    forall a, b | a in s.refbooks && b in s.refbooks && a.code == b.code ensures a == b {
      DistinctMembers(s.refbooks, RefbookCodeKey, a, b);
    }
    forall a, b | a in s.refbooks && b in s.refbooks && a.id == b.id ensures a == b {
      DistinctMembers(s.refbooks, RefbookKey, a, b);
    }
    forall v, w | v in s.versions && w in s.versions && v.refbook == w.refbook && v.name == w.name ensures v == w {
      DistinctMembers(s.versions, VersionNameKey, v, w);
    }
    forall v, w | v in s.versions && w in s.versions && v.refbook == w.refbook && v.dateStart == w.dateStart
      ensures v == w
    {
      DistinctMembers(s.versions, VersionDateKey, v, w);
    }
    forall v, w | v in s.versions && w in s.versions && v.id == w.id ensures v == w {
      DistinctMembers(s.versions, VersionKey, v, w);
    }
    forall e, f | e in s.elements && f in s.elements && e.version == f.version && e.code == f.code ensures e == f {
      DistinctMembers(s.elements, ElementCodeKey, e, f);
    }
  }

  /** The versions of refbook `rid` (the `versions` relation of a refbook). */
  function VersionsOf(vs: seq<Version>, rid: int): (r: seq<Version>)
    ensures forall v :: v in r <==> v in vs && v.refbook == rid
  {
    Filter(vs, (v: Version) => v.refbook == rid)
  }

  /** The elements of version `vid` (the `elements` relation of a version). */
  function ElementsOf(es: seq<Element>, vid: int): (r: seq<Element>)
    ensures forall e :: e in r <==> e in es && e.version == vid
  {
    Filter(es, (e: Element) => e.version == vid)
  }

  function VersionIds(vs: seq<Version>): (ids: set<int>)
    ensures forall id :: id in ids <==> HasVersion(vs, id)
  {
    set v | v in vs :: v.id
  }

  /** Deleting version `vid` (`on_delete=CASCADE`): exactly that version goes,
      and exactly its elements with it; every other row stays. */
  function DeleteVersion(s: Store, vid: int): (t: Store)
    ensures t.refbooks == s.refbooks
    ensures forall v :: v in t.versions <==> v in s.versions && v.id != vid
    ensures forall e :: e in t.elements <==> e in s.elements && e.version != vid
  {
    Store(s.refbooks,
          Filter(s.versions, (v: Version) => v.id != vid),
          Filter(s.elements, (e: Element) => e.version != vid))
  }

  /** Deleting refbook `rid`: exactly it goes, exactly its versions go with
      it, and exactly their elements with them; every other row stays. */
  function DeleteRefbook(s: Store, rid: int): (t: Store)
    ensures forall r :: r in t.refbooks <==> r in s.refbooks && r.id != rid
    ensures forall v :: v in t.versions <==> v in s.versions && v.refbook != rid
    ensures forall e :: e in t.elements <==>
      (e in s.elements && forall v :: v in s.versions && v.id == e.version ==> v.refbook != rid)
  {
    var gone := VersionIds(VersionsOf(s.versions, rid));
    assert forall e: Element :: e.version !in gone <==>
      forall v :: v in s.versions && v.id == e.version ==> v.refbook != rid;
    Store(Filter(s.refbooks, (r: Refbook) => r.id != rid),
          Filter(s.versions, (v: Version) => v.refbook != rid),
          Filter(s.elements, (e: Element) => e.version !in gone))
  }

  /** Deleting a version leaves a valid store: the unique constraints still
      hold and no element is left pointing at the removed version. */
  lemma DeleteVersionKeepsValid(s: Store, vid: int)
    requires Valid(s)
    ensures Valid(DeleteVersion(s, vid))
  {
    var t := DeleteVersion(s, vid);
    FilterKeepsDistinct(s.versions, (v: Version) => v.id != vid, VersionKey);
    FilterKeepsDistinct(s.versions, (v: Version) => v.id != vid, VersionNameKey);
    FilterKeepsDistinct(s.versions, (v: Version) => v.id != vid, VersionDateKey);
    FilterKeepsDistinct(s.elements, (e: Element) => e.version != vid, ElementKey);
    FilterKeepsDistinct(s.elements, (e: Element) => e.version != vid, ElementCodeKey);
    forall e | e in t.elements ensures HasVersion(t.versions, e.version) {
      var w :| w in s.versions && w.id == e.version;
      assert w in t.versions;
    }
  }

  /** Deleting a refbook leaves a valid store: the unique constraints still
      hold, no version is left without its refbook and no element without its
      version. */
  lemma DeleteRefbookKeepsValid(s: Store, rid: int)
    requires Valid(s)
    ensures Valid(DeleteRefbook(s, rid))
  {
    var t := DeleteRefbook(s, rid);
    var gone := VersionIds(VersionsOf(s.versions, rid));
    FilterKeepsDistinct(s.refbooks, (r: Refbook) => r.id != rid, RefbookKey);
    FilterKeepsDistinct(s.refbooks, (r: Refbook) => r.id != rid, RefbookCodeKey);
    FilterKeepsDistinct(s.versions, (v: Version) => v.refbook != rid, VersionKey);
    FilterKeepsDistinct(s.versions, (v: Version) => v.refbook != rid, VersionNameKey);
    FilterKeepsDistinct(s.versions, (v: Version) => v.refbook != rid, VersionDateKey);
    FilterKeepsDistinct(s.elements, (e: Element) => e.version !in gone, ElementKey);
    FilterKeepsDistinct(s.elements, (e: Element) => e.version !in gone, ElementCodeKey);
    forall v | v in t.versions ensures HasRefbook(t.refbooks, v.refbook) {
      var r :| r in s.refbooks && r.id == v.refbook;
      assert r in t.refbooks;
    }
    forall e | e in t.elements ensures HasVersion(t.versions, e.version) {
      var w :| w in s.versions && w.id == e.version;
      assert w in t.versions;
    }
  }

  /** Removing the elements of versions in `gone` leaves the element list of
      any other version exactly as it was, order included. */
  lemma {:induction false} ElementsOfUntouched(es: seq<Element>, gone: set<int>, vid: int)
    requires vid !in gone
    ensures ElementsOf(Filter(es, (e: Element) => e.version !in gone), vid) == ElementsOf(es, vid)
  {
    if es != [] {
      var rest := Filter(es[1..], (e: Element) => e.version !in gone);
      ElementsOfUntouched(es[1..], gone, vid);
      if es[0].version !in gone {
        var kept := [es[0]] + rest;
        assert kept[0] == es[0] && kept[1..] == rest;
      }
    }
  }
}
