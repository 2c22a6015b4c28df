/**
 * Building the registry snapshot: `name -> (version -> record)`, from the
 * raw index (`read_index`) or from a list of canonical records
 * (`read_test_file`), together with the derived map of cargo summaries.
 */
module ReadIndex {
  import opened Wrappers
  import opened Semver
  import opened IndexData

  /** `HashMap<InternedString, BTreeMap<semver::Version, index_data::Version>>`. */
  type Registry = map<string, map<SemVer, Version>>

  /** A crate of the raw index: its name and its raw version records. */
  datatype RawCrate = RawCrate(name: string, versions: seq<RawVersion>)

  // ---------------------------------------------------------------------------
  // The cargo side: the same snapshot with every record turned into a cargo
  // `Summary`. That conversion is cargo's and is a parameter here; `None`
  // stands for its failure.
  // ---------------------------------------------------------------------------

  /** Both maps have the same names and, under each name, the same versions. */
  predicate SameKeys<A, B>(a: map<string, map<SemVer, A>>, b: map<string, map<SemVer, B>>) {
    && a.Keys == b.Keys
    && forall n | n in a :: a[n].Keys == b[n].Keys
  }

  /**
   * The map of summaries, all or nothing: it exists exactly when every record
   * converts, and then has the keys of the record map.
   */
  function CargoMap<S>(crates: Registry, summarize: Version -> Option<S>): (r: Option<map<string, map<SemVer, S>>>)
    ensures r.Some? <==> forall n, k | n in crates && k in crates[n] :: summarize(crates[n][k]).Some?
    ensures r.Some? ==> SameKeys(crates, r.value)
    ensures r.Some? ==> forall n, k | n in crates && k in crates[n] :: r.value[n][k] == summarize(crates[n][k]).value
  {
    if forall n, k | n in crates && k in crates[n] :: summarize(crates[n][k]).Some? then
      Some(map n | n in crates :: map k | k in crates[n] :: summarize(crates[n][k]).value)
    else
      None
  }

  // ---------------------------------------------------------------------------
  // `read_index`: filter / filter_map / map / collect.
  // ---------------------------------------------------------------------------

  /** The `map(try_into)` stage: every raw record converted. */
  function Converted(raws: seq<RawVersion>, semver: Parsers): seq<Result<Version, ParseError>> {
    seq(|raws|, i requires 0 <= i < |raws| => VersionFromRaw(raws[i], semver))
  }

  /**
   * The `filter_map(.ok())` and `filter(version_filter)` stages: the records
   * that converted and pass the filter, in their original order.
   */
  function KeepAccepted(rs: seq<Result<Version, ParseError>>, versionFilter: Version -> bool): seq<Version>
    decreases |rs|
  {
    if rs == [] then []
    else
      var n := |rs| - 1;
      var vs := KeepAccepted(rs[..n], versionFilter);
      match rs[n]
      case Err(_) => vs
      case Ok(v) => if versionFilter(v) then vs + [v] else vs
  }

  /** Exactly the converted records that pass the filter are kept. */
  lemma {:induction false} KeepAcceptedMembers(rs: seq<Result<Version, ParseError>>, versionFilter: Version -> bool)
    ensures forall v :: v in KeepAccepted(rs, versionFilter) <==> Ok(v) in rs && versionFilter(v)
    decreases |rs|
  {
    if rs != [] {
      var n := |rs| - 1;
      assert rs == rs[..n] + [rs[n]];
      KeepAcceptedMembers(rs[..n], versionFilter);
    }
  }

  /**
   * A record that failed to convert, or that the version filter rejects, is
   * dropped without a trace: what is kept is what the other records give.
   */
  lemma {:induction false} RejectedVersionIgnored(rs: seq<Result<Version, ParseError>>, versionFilter: Version -> bool, i: nat)
    requires i < |rs|
    requires rs[i].Err? || !versionFilter(rs[i].value)
    ensures KeepAccepted(rs[..i] + rs[i + 1..], versionFilter) == KeepAccepted(rs, versionFilter)
    decreases |rs|
  {
    var n := |rs| - 1;
    var rest := rs[..i] + rs[i + 1..];
    if i == n {
      assert rest == rs[..n];
    } else {
      RejectedVersionIgnored(rs[..n], versionFilter, i);
      assert rest[..|rest| - 1] == rs[..n][..i] + rs[..n][i + 1..];
      assert rest[|rest| - 1] == rs[n];
    }
  }

  /** `vs[i]` is the last of `vs` with version `k`. */
  predicate LastWithVers(vs: seq<Version>, i: int, k: SemVer) {
    && 0 <= i < |vs|
    && vs[i].vers == k
    && forall j | i < j < |vs| :: vs[j].vers != k
  }

  /**
   * `.map(|v| (v.vers, v)).collect::<BTreeMap<_, _>>()`: every version is a
   * key, and a later record replaces an earlier one with the same version.
   */
  function CollectByVers(vs: seq<Version>): (m: map<SemVer, Version>)
    ensures forall k :: k in m <==> exists i | 0 <= i < |vs| :: vs[i].vers == k
    ensures forall k | k in m :: exists i :: LastWithVers(vs, i, k) && m[k] == vs[i]
    decreases |vs|
  {
    if vs == [] then map[]
    else
      var n := |vs| - 1;
      var init := vs[..n];
      assert forall i | 0 <= i < n :: init[i] == vs[i];
      var m := CollectByVers(init);
      assert LastWithVers(vs, n, vs[n].vers);
      assert forall k, i | k != vs[n].vers && LastWithVers(init, i, k) :: LastWithVers(vs, i, k);
      m[vs[n].vers := vs[n]]
  }

  /** One crate's `BTreeMap` of versions: the map/filter_map/filter/map/collect pipeline. */
  function VersionLookup(raws: seq<RawVersion>, semver: Parsers, versionFilter: Version -> bool): map<SemVer, Version> {
    CollectByVers(KeepAccepted(Converted(raws, semver), versionFilter))
  }

  /**
   * The versions of a crate are exactly those of its records that convert and
   * pass the version filter, each stored under its own version.
   */
  lemma VersionLookupEntries(raws: seq<RawVersion>, semver: Parsers, versionFilter: Version -> bool)
    ensures var m := VersionLookup(raws, semver, versionFilter);
      && (forall k | k in m :: m[k].vers == k && versionFilter(m[k]))
      && (forall k :: k in m <==> exists v :: Ok(v) in Converted(raws, semver) && versionFilter(v) && v.vers == k)
  {
    var vs := KeepAccepted(Converted(raws, semver), versionFilter);
    KeepAcceptedMembers(Converted(raws, semver), versionFilter);
    var m := CollectByVers(vs);
    forall k | k in m ensures m[k].vers == k && versionFilter(m[k]) {
      var i :| LastWithVers(vs, i, k) && m[k] == vs[i];
      assert vs[i] in vs;
    }
    forall k | k in m ensures exists v :: Ok(v) in Converted(raws, semver) && versionFilter(v) && v.vers == k {
      var j :| 0 <= j < |vs| && vs[j].vers == k;
      assert vs[j] in vs;
    }
  }

  /** `Crates(crates)` has crate `n` among those that pass `createFilter`. */
  predicate Admitted(crates: seq<RawCrate>, createFilter: string -> bool, n: string) {
    createFilter(n) && exists i | 0 <= i < |crates| :: crates[i].name == n
  }

  /** `crates[i]` is the last crate named `n`. */
  predicate LastCrate(crates: seq<RawCrate>, i: int, n: string) {
    && 0 <= i < |crates|
    && crates[i].name == n
    && forall j | i < j < |crates| :: crates[j].name != n
  }

  /**
   * The crates that pass `create_filter`, each with its version map. Should a
   * name appear twice, the later crate is kept: a choice of this model, since
   * the source collects a parallel iterator and defines no order.
   */
  function ReadIndexCrates(crates: seq<RawCrate>, semver: Parsers, createFilter: string -> bool, versionFilter: Version -> bool): (reg: Registry)
    ensures forall n :: n in reg <==> Admitted(crates, createFilter, n)
    ensures forall n | n in reg :: exists i ::
      LastCrate(crates, i, n) && reg[n] == VersionLookup(crates[i].versions, semver, versionFilter)
    decreases |crates|
  {
    if crates == [] then map[]
    else
      var last := |crates| - 1;
      var init := crates[..last];
      var reg := ReadIndexCrates(init, semver, createFilter, versionFilter);
      var c := crates[last];
      assert forall i | 0 <= i < last :: init[i] == crates[i];
      assert forall n | n != c.name :: Admitted(crates, createFilter, n) == Admitted(init, createFilter, n);
      assert forall i, n | n != c.name && LastCrate(init, i, n) :: LastCrate(crates, i, n);
      assert LastCrate(crates, last, c.name);
      if createFilter(c.name) then reg[c.name := VersionLookup(c.versions, semver, versionFilter)] else reg
  }

  /** Every stored record passed the version filter and is stored under its own version. */
  lemma ReadIndexEntries(crates: seq<RawCrate>, semver: Parsers, createFilter: string -> bool, versionFilter: Version -> bool)
    ensures var reg := ReadIndexCrates(crates, semver, createFilter, versionFilter);
      forall n, k | n in reg && k in reg[n] :: createFilter(n) && reg[n][k].vers == k && versionFilter(reg[n][k])
  {
    var reg: Registry := ReadIndexCrates(crates, semver, createFilter, versionFilter);
    forall n: string, k: SemVer | n in reg && k in reg[n] ensures createFilter(n) && reg[n][k].vers == k && versionFilter(reg[n][k]) {
      var i :| LastCrate(crates, i, n) && reg[n] == VersionLookup(crates[i].versions, semver, versionFilter);
      VersionLookupEntries(crates[i].versions, semver, versionFilter);
    }
  }

  /** When nothing converts and passes the filter, nothing is kept. */
  lemma {:induction false} NothingKept(rs: seq<Result<Version, ParseError>>, versionFilter: Version -> bool)
    requires forall j | 0 <= j < |rs| :: rs[j].Err? || !versionFilter(rs[j].value)
    ensures KeepAccepted(rs, versionFilter) == []
    decreases |rs|
  {
    if rs != [] {
      NothingKept(rs[..|rs| - 1], versionFilter);
    }
  }

  /** A crate none of whose records converts and passes the filter has no versions. */
  lemma NothingAcceptedNoVersions(raws: seq<RawVersion>, semver: Parsers, versionFilter: Version -> bool)
    requires forall raw | raw in raws ::
      VersionFromRaw(raw, semver).Err? || !versionFilter(VersionFromRaw(raw, semver).value)
    ensures VersionLookup(raws, semver, versionFilter) == map[]
  {
    var rs := Converted(raws, semver);
    forall j | 0 <= j < |rs| ensures rs[j].Err? || !versionFilter(rs[j].value) {
      assert raws[j] in raws;
    }
    NothingKept(rs, versionFilter);
  }

  /**
   * A crate that passes `create_filter` is present even when none of its
   * versions survives: its version map is then empty.
   */
  lemma ReadIndexKeepsEmptyCrate(crates: seq<RawCrate>, semver: Parsers, createFilter: string -> bool, versionFilter: Version -> bool, c: RawCrate)
    requires c in crates && createFilter(c.name)
    requires forall raw | raw in c.versions ::
      VersionFromRaw(raw, semver).Err? || !versionFilter(VersionFromRaw(raw, semver).value)
    requires forall i, j | 0 <= i < j < |crates| :: crates[i].name != crates[j].name
    ensures var reg := ReadIndexCrates(crates, semver, createFilter, versionFilter);
      c.name in reg && reg[c.name] == map[]
  {
    var reg := ReadIndexCrates(crates, semver, createFilter, versionFilter);
    var x :| 0 <= x < |crates| && crates[x] == c;
    assert Admitted(crates, createFilter, c.name);
    var i :| LastCrate(crates, i, c.name) && reg[c.name] == VersionLookup(crates[i].versions, semver, versionFilter);
    assert crates[i] == c;
    NothingAcceptedNoVersions(c.versions, semver, versionFilter);
  }

  /** `read_index`: the record map and, derived from it, the summary map (`None` where an `unwrap` panics). */
  function ReadIndex<S>(crates: seq<RawCrate>, semver: Parsers, createFilter: string -> bool, versionFilter: Version -> bool, summarize: Version -> Option<S>)
    : (r: (Registry, Option<map<string, map<SemVer, S>>>))
    ensures r.1.Some? ==> SameKeys(r.0, r.1.value)
  {
    var reg := ReadIndexCrates(crates, semver, createFilter, versionFilter);
    (reg, CargoMap(reg, summarize))
  }

  // ---------------------------------------------------------------------------
  // `read_test_file`: an insert loop over a list of canonical records.
  // ---------------------------------------------------------------------------

  /** The registry holds a record under name `n` and version `k`. */
  predicate Stored(crates: Registry, n: string, k: SemVer) {
    n in crates && k in crates[n]
  }

  /** One of the first `t` records has name `n` and version `k`. */
  predicate Listed(records: seq<Version>, t: int, n: string, k: SemVer)
    requires t <= |records|
  {
    exists i | 0 <= i < t :: records[i].name == n && records[i].vers == k
  }

  /** Among the first `t` records, `records[i]` is the last with name `n` and version `k`. */
  predicate LastWithin(records: seq<Version>, t: int, i: int, n: string, k: SemVer)
    requires t <= |records|
  {
    && 0 <= i < t
    && records[i].name == n && records[i].vers == k
    && forall j | i < j < t :: records[j].name != n || records[j].vers != k
  }

  /**
   * `read_test_file`: every record is stored under its name and its version;
   * there is no other key; of two records with the same name and version, the
   * later one is kept. `cargoCrates` is `None` where the `unwrap` of a summary
   * conversion panics.
   */
  method ReadTestFile<S>(records: seq<Version>, summarize: Version -> Option<S>)
    returns (crates: Registry, cargoCrates: Option<map<string, map<SemVer, S>>>)
    ensures forall n, k :: Stored(crates, n, k) <==> Listed(records, |records|, n, k)
    ensures forall n, k | Stored(crates, n, k) :: exists i ::
      LastWithin(records, |records|, i, n, k) && crates[n][k] == records[i]
    ensures cargoCrates == CargoMap(crates, summarize)
  {
    crates := map[];
    for t := 0 to |records|
      invariant forall n, k :: Stored(crates, n, k) <==> Listed(records, t, n, k)
      invariant forall n, k | Stored(crates, n, k) :: exists i ::
        LastWithin(records, t, i, n, k) && crates[n][k] == records[i]
    {
      var v := records[t];
      var byName := if v.name in crates then crates[v.name] else map[];
      ghost var before := crates;
      crates := crates[v.name := byName[v.vers := v]];
      forall n, k ensures Stored(crates, n, k) <==> Listed(records, t + 1, n, k) {
        if n == v.name && k == v.vers {
          assert records[t].name == n && records[t].vers == k;
        } else {
          assert Stored(crates, n, k) <==> Stored(before, n, k);
          assert Listed(records, t + 1, n, k) <==> Listed(records, t, n, k);
        }
      }
      assert LastWithin(records, t + 1, t, v.name, v.vers);
      forall n, k, i | LastWithin(records, t, i, n, k) && (n != v.name || k != v.vers)
        ensures LastWithin(records, t + 1, i, n, k)
      {
      }
    }
    cargoCrates := CargoMap(crates, summarize);
  }
}
