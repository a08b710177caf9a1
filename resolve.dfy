/** Version resolution, the rule both element handlers share: a version picked
    by its name, or else the version of the refbook with the latest start date
    on or before today. */
module Resolution {
  import opened Collections
  import opened Dates
  import opened Models

  /** A query parameter Python treats as true: present and not empty. */
  predicate Given(p: Option<string>) {
    p.Some? && p.value != ""
  }

  /** What the caller asks for: a version by name, or the one current at `today`. */
  datatype Selector = Named(name: string) | CurrentAt(today: Date)

  /** A non-empty `version` parameter names the version; otherwise the current one is wanted. */
  function SelectorFor(versionParam: Option<string>, today: Date): Selector {
    if Given(versionParam) then Named(versionParam.value) else CurrentAt(today)
  }

  function WithName(vs: seq<Version>, name: string): (r: seq<Version>)
    ensures forall v :: v in r <==> v in vs && v.name == name
  {
    Filter(vs, (v: Version) => v.name == name)
  }

  function StartedBy(vs: seq<Version>, today: Date): (r: seq<Version>)
    ensures forall v :: v in r <==> v in vs && OnOrBefore(v.dateStart, today)
  {
    Filter(vs, (v: Version) => OnOrBefore(v.dateStart, today))
  }

  /** `.first()` of a query without an ordering: Django orders it by primary
      key, so it is the row with the least id, if any. */
  function First(cs: seq<Version>): (r: Option<Version>)
    ensures r.None? <==> cs == []
    ensures r.Some? ==> r.value in cs
    ensures r.Some? ==> forall w :: w in cs ==> r.value.id <= w.id
  {
    if cs == [] then None
    else
      match First(cs[1..])
      case None => Some(cs[0])
      case Some(v) => if v.id < cs[0].id then Some(v) else Some(cs[0])
  }

  /** `.order_by('-date_start').first()`: a row with the latest start date, if any. */
  function Latest(cs: seq<Version>): (r: Option<Version>)
    ensures r.None? <==> cs == []
    ensures r.Some? ==> r.value in cs
    ensures r.Some? ==> forall w :: w in cs ==> OnOrBefore(w.dateStart, r.value.dateStart)
  {
    if cs == [] then None
    else
      match Latest(cs[1..])
      case None => Some(cs[0])
      case Some(v) => if OnOrBefore(cs[0].dateStart, v.dateStart) then Some(v) else Some(cs[0])
  }

  /** The version of refbook `rid` that `sel` designates. A named version must
      carry that name; the current version has started by `today` and no
      started version of the refbook starts later. */
  function Resolve(vs: seq<Version>, rid: int, sel: Selector): (r: Option<Version>)
    ensures r.Some? ==> r.value in vs && r.value.refbook == rid
    ensures sel.Named? ==> (r.Some? ==> r.value.name == sel.name)
    ensures sel.Named? ==> (r.None? <==> forall v :: v in vs && v.refbook == rid ==> v.name != sel.name)
    ensures sel.CurrentAt? && r.Some? ==>
      && OnOrBefore(r.value.dateStart, sel.today)
      && forall w :: w in vs && w.refbook == rid && OnOrBefore(w.dateStart, sel.today) ==>
           OnOrBefore(w.dateStart, r.value.dateStart)
    ensures sel.CurrentAt? ==>
      (r.None? <==> forall v :: v in vs && v.refbook == rid ==> !OnOrBefore(v.dateStart, sel.today))
  {
    var own := VersionsOf(vs, rid);
    match sel
    case Named(name) => First(WithName(own, name))
    case CurrentAt(today) => Latest(StartedBy(own, today))
  }

  /** `v` is the current version of refbook `rid` at `today`: it has started,
      and no other version of the refbook starts in the interval (v's start, today]. */
  ghost predicate IsCurrentAt(vs: seq<Version>, rid: int, today: Date, v: Version) {
    && v in vs
    && v.refbook == rid
    && OnOrBefore(v.dateStart, today)
    && forall w :: w in vs && w.refbook == rid && w != v ==>
         !(Before(v.dateStart, w.dateStart) && OnOrBefore(w.dateStart, today))
  }

  /** In a valid store, resolving the current version yields `v` exactly when
      `v` is the current version: the one with the latest start on or before
      today, which the unique (refbook, date_start) constraint makes unique. */
  lemma ResolveCurrentIsLatestStarted(s: Store, rid: int, today: Date, v: Version)
    requires Valid(s)
    ensures Resolve(s.versions, rid, CurrentAt(today)) == Some(v) <==> IsCurrentAt(s.versions, rid, today, v)
  {
    var r := Resolve(s.versions, rid, CurrentAt(today));
    if IsCurrentAt(s.versions, rid, today, v) {
      var u := r.value;
      assert OnOrBefore(v.dateStart, u.dateStart);
      if u != v {
        assert !Before(v.dateStart, u.dateStart);
        DistinctMembers(s.versions, VersionDateKey, u, v);
      }
    }
  }

  /** In a valid store, resolving a name yields `v` exactly when `v` is the
      refbook's version of that name: the unique (refbook, version) constraint
      leaves no other candidate. */
  lemma ResolveNamedIsTheNamedVersion(s: Store, rid: int, name: string, v: Version)
    requires Valid(s)
    ensures Resolve(s.versions, rid, Named(name)) == Some(v) <==>
      v in s.versions && v.refbook == rid && v.name == name
  {
    var r := Resolve(s.versions, rid, Named(name));
    if v in s.versions && v.refbook == rid && v.name == name {
      DistinctMembers(s.versions, VersionNameKey, r.value, v);
    }
  }

  /** The version query of the existence check, as written: one filter that
      holds either the name or the start-date bound, ordered by descending
      start date, first row. */
  function CheckQuery(vs: seq<Version>, rid: int, versionName: Option<string>, today: Date): (r: Option<Version>)
    ensures r.Some? ==> r.value in vs && r.value.refbook == rid
    ensures Given(versionName) ==>
      && (r.Some? ==> r.value.name == versionName.value)
      && (r.None? <==> forall v :: v in vs && v.refbook == rid ==> v.name != versionName.value)
      && (r.Some? ==> forall w :: w in vs && w.refbook == rid && w.name == versionName.value ==>
            OnOrBefore(w.dateStart, r.value.dateStart))
    ensures !Given(versionName) ==>
      && (r.Some? ==> OnOrBefore(r.value.dateStart, today))
      && (r.None? <==> forall v :: v in vs && v.refbook == rid ==> !OnOrBefore(v.dateStart, today))
      && (r.Some? ==> forall w :: w in vs && w.refbook == rid && OnOrBefore(w.dateStart, today) ==>
            OnOrBefore(w.dateStart, r.value.dateStart))
  {
    var own := VersionsOf(vs, rid);
    Latest(if Given(versionName) then WithName(own, versionName.value) else StartedBy(own, today))
  }

  /** In a valid store the existence check's single query picks the same
      version as the shared rule: its ordering only matters among versions of
      one name, and there is at most one. */
  lemma CheckQueryIsResolve(s: Store, rid: int, versionName: Option<string>, today: Date)
    requires Valid(s)
    ensures CheckQuery(s.versions, rid, versionName, today) == Resolve(s.versions, rid, SelectorFor(versionName, today))
  {
    var c := CheckQuery(s.versions, rid, versionName, today);
    var r := Resolve(s.versions, rid, SelectorFor(versionName, today));
    if Given(versionName) && c.Some? {
      DistinctMembers(s.versions, VersionNameKey, c.value, r.value);
    }
  }
}
