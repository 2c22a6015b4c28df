/**
 * The canonical registry records (`index_data::Dependency`, `index_data::Version`)
 * and their conversion from the raw records of the crates.io index.
 */
module IndexData {
  import opened Wrappers
  import opened Semver
  import opened Sorting

  /** `crates_index::DependencyKind`; `Normal` is its default. */
  datatype DependencyKind = Normal | Dev | Build

  /** A raw index dependency, seen through the accessors the conversion calls. */
  datatype RawDependency = RawDependency(
    name: string,           // `name()`: the name the dependent uses, possibly a rename
    crateName: string,      // `crate_name()`: the crate actually depended on
    requirement: string,    // `requirement()`: the requirement, unparsed
    features: seq<string>,  // `features()`
    kind: DependencyKind,   // `kind()`
    optional: bool,         // `is_optional()`
    defaultFeatures: bool)  // `has_default_features()`

  /** A raw index version record. */
  datatype RawVersion = RawVersion(
    name: string,
    version: string,                    // unparsed
    dependencies: seq<RawDependency>,
    features: map<string, seq<string>>,
    links: Option<string>,
    yanked: bool)

  datatype Dependency = Dependency(
    name: string,
    packageName: string,
    req: VersionReq,
    features: seq<string>,
    defaultFeatures: bool,
    kind: DependencyKind,
    optional: bool)

  datatype Version = Version(
    name: string,
    vers: SemVer,
    deps: seq<Dependency>,
    features: map<string, set<string>>,
    links: Option<string>,
    yanked: bool)

  /**
   * Which field failed to parse. `semver::Error` reports the kind and place of
   * the failure, not the text; the text here only tells the two fields apart
   * and which entry failed, and every caller of the conversion discards it.
   */
  datatype ParseError = InvalidRequirement(text: string) | InvalidVersion(text: string)

  /** The key of `sort_unstable_by_key(|d| d.package_name)`. */
  function PackageNameOf(d: Dependency): string { d.packageName }

  /** `TryFrom<&crates_index::Dependency> for Dependency`. */
  function DependencyFromRaw(dep: RawDependency, semver: Parsers): (r: Result<Dependency, ParseError>)
    ensures r.Err? <==> semver.req(dep.requirement).None?
    ensures r.Err? ==> r.error == InvalidRequirement(dep.requirement)
    ensures r.Ok? ==>
      && r.value.name == dep.name
      && r.value.packageName == dep.crateName
      && r.value.req == semver.req(dep.requirement).value
      && r.value.kind == dep.kind
      && r.value.optional == dep.optional
      && r.value.defaultFeatures == dep.defaultFeatures
    ensures r.Ok? ==> SortedBy(r.value.features, Id) && multiset(r.value.features) == multiset(dep.features)
  {
    var features := SortBy(dep.features, Id);
    match semver.req(dep.requirement)
    case None => Err(InvalidRequirement(dep.requirement))
    case Some(req) =>
      Ok(Dependency(dep.name, dep.crateName, req, features, dep.defaultFeatures, dep.kind, dep.optional))
  }

  /**
   * Two raw dependencies that differ only in the order of their features
   * convert to the same record: the stored feature list does not depend on
   * the input order.
   */
  lemma FeatureOrderIrrelevant(a: RawDependency, b: RawDependency, semver: Parsers)
    requires a.(features := b.features) == b
    requires multiset(a.features) == multiset(b.features)
    ensures DependencyFromRaw(a, semver) == DependencyFromRaw(b, semver)
  {
    var ra, rb := DependencyFromRaw(a, semver), DependencyFromRaw(b, semver);
    if ra.Ok? {
      SortedStringsUnique(ra.value.features, rb.value.features);
    }
  }

  /** `deps[i]` is the first dependency whose conversion fails, and it fails with `e`. */
  predicate FirstFailure(deps: seq<RawDependency>, semver: Parsers, i: int, e: ParseError) {
    && 0 <= i < |deps|
    && DependencyFromRaw(deps[i], semver) == Err(e)
    && forall j | 0 <= j < i :: DependencyFromRaw(deps[j], semver).Ok?
  }

  /**
   * `collect::<Result<Vec<_>, _>>()` over the converted dependencies: the
   * whole list, or the error of the first dependency that fails.
   */
  function ConvertDependencies(deps: seq<RawDependency>, semver: Parsers): (r: Result<seq<Dependency>, ParseError>)
    ensures r.Ok? <==> forall i | 0 <= i < |deps| :: DependencyFromRaw(deps[i], semver).Ok?
    ensures r.Ok? ==> |r.value| == |deps|
    ensures r.Ok? ==> forall i | 0 <= i < |deps| :: r.value[i] == DependencyFromRaw(deps[i], semver).value
    ensures r.Err? ==> exists i :: FirstFailure(deps, semver, i, r.error)
    decreases |deps|
  {
    if deps == [] then Ok([])
    else
      match DependencyFromRaw(deps[0], semver)
      case Err(e) =>
        assert FirstFailure(deps, semver, 0, e);
        Err(e)
      case Ok(d) =>
        assert forall i | 1 <= i < |deps| :: deps[i] == deps[1..][i - 1];
        match ConvertDependencies(deps[1..], semver)
        case Err(e) =>
          var i :| FirstFailure(deps[1..], semver, i, e);
          assert FirstFailure(deps, semver, i + 1, e);
          Err(e)
        case Ok(ds) =>
          Ok([d] + ds)
  }

  /** The feature table of a record: each feature's list of implied features, as a set. */
  function FeatureTable(raw: map<string, seq<string>>): (t: map<string, set<string>>)
    ensures t.Keys == raw.Keys
    ensures forall f | f in raw :: forall x :: x in t[f] <==> x in raw[f]
  {
    map f | f in raw :: set x | x in raw[f]
  }

  /**
   * `TryFrom<&crates_index::Version> for Version`: all or nothing. The
   * dependencies are converted first, so a failing dependency wins over a
   * failing version string.
   */
  function VersionFromRaw(ver: RawVersion, semver: Parsers): (r: Result<Version, ParseError>)
    ensures r.Ok? <==>
      && (forall i | 0 <= i < |ver.dependencies| :: DependencyFromRaw(ver.dependencies[i], semver).Ok?)
      && semver.version(ver.version).Some?
    ensures forall i, e :: FirstFailure(ver.dependencies, semver, i, e) ==> r == Err(e)
    ensures
      && (forall i | 0 <= i < |ver.dependencies| :: DependencyFromRaw(ver.dependencies[i], semver).Ok?)
      && semver.version(ver.version).None?
      ==> r == Err(InvalidVersion(ver.version))
    ensures r.Ok? ==>
      && r.value.name == ver.name
      && r.value.vers == semver.version(ver.version).value
      && r.value.links == ver.links
      && r.value.yanked == ver.yanked
      && r.value.features.Keys == ver.features.Keys
      && (forall f | f in ver.features :: forall x :: x in r.value.features[f] <==> x in ver.features[f])
    ensures r.Ok? ==>
      && SortedBy(r.value.deps, PackageNameOf)
      && multiset(r.value.deps) == multiset(ConvertDependencies(ver.dependencies, semver).value)
  {
    match ConvertDependencies(ver.dependencies, semver)
    case Err(e) => Err(e)
    case Ok(converted) =>
      var deps := SortBy(converted, PackageNameOf);
      match semver.version(ver.version)
      case None => Err(InvalidVersion(ver.version))
      case Some(vers) => Ok(Version(ver.name, vers, deps, FeatureTable(ver.features), ver.links, ver.yanked))
  }

  // ---------------------------------------------------------------------------
  // The persisted record format. A struct is written field by field; a field
  // marked `skip_serializing_if = "is_default"` is left out when it holds its
  // type's default, and `#[serde(default)]` restores that default when the
  // field is missing. `None` below is a field that was not written.
  // ---------------------------------------------------------------------------

  /** `is_default`: the value equals its type's default. */
  predicate IsDefault<D(==)>(t: D, default: D) {
    t == default
  }

  /** Writes a field marked `skip_serializing_if = "is_default"`. */
  function Skip<D(==)>(t: D, default: D): Option<D> {
    if IsDefault(t, default) then None else Some(t)
  }

  /** Reads a field marked `#[serde(default)]`. */
  function OrDefault<D>(f: Option<D>, default: D): D {
    match f
    case None => default
    case Some(t) => t
  }

  /** The fields of a written `Dependency`. */
  datatype DependencyFields = DependencyFields(
    name: Option<string>,
    packageName: Option<string>,
    req: Option<VersionReq>,
    features: Option<seq<string>>,
    defaultFeatures: Option<bool>,
    kind: Option<DependencyKind>,
    optional: Option<bool>)

  function SerializeDependency(d: Dependency): (fs: DependencyFields)
    ensures fs.name == Some(d.name) && fs.packageName == Some(d.packageName)
    ensures fs.req.None? <==> IsDefault(d.req, AnyReq)
    ensures fs.features.None? <==> IsDefault(d.features, [])
    ensures fs.defaultFeatures.None? <==> IsDefault(d.defaultFeatures, false)
    ensures fs.kind.None? <==> IsDefault(d.kind, Normal)
    ensures fs.optional.None? <==> IsDefault(d.optional, false)
  {
    DependencyFields(
      Some(d.name),
      Some(d.packageName),
      Skip(d.req, AnyReq),
      Skip(d.features, []),
      Skip(d.defaultFeatures, false),
      Skip(d.kind, Normal),
      Skip(d.optional, false))
  }

  /** Reading fails only when a field without a default is missing. */
  function DeserializeDependency(fs: DependencyFields): Option<Dependency> {
    if fs.name.None? || fs.packageName.None? then None
    else Some(Dependency(
      fs.name.value,
      fs.packageName.value,
      OrDefault(fs.req, AnyReq),
      OrDefault(fs.features, []),
      OrDefault(fs.defaultFeatures, false),
      OrDefault(fs.kind, Normal),
      OrDefault(fs.optional, false)))
  }

  lemma DependencyRoundTrip(d: Dependency)
    ensures DeserializeDependency(SerializeDependency(d)) == Some(d)
  {
  }

  function SerializeDependencies(ds: seq<Dependency>): (items: seq<DependencyFields>)
    ensures |items| == |ds|
    ensures forall i | 0 <= i < |ds| :: items[i] == SerializeDependency(ds[i])
  {
    seq(|ds|, i requires 0 <= i < |ds| => SerializeDependency(ds[i]))
  }

  /** A list of structs reads back all or nothing. */
  function DeserializeDependencies(items: seq<DependencyFields>): Option<seq<Dependency>>
    decreases |items|
  {
    if items == [] then Some([])
    else
      match DeserializeDependency(items[0])
      case None => None
      case Some(d) =>
        match DeserializeDependencies(items[1..])
        case None => None
        case Some(ds) => Some([d] + ds)
  }

  lemma {:induction false} DependenciesRoundTrip(ds: seq<Dependency>)
    ensures DeserializeDependencies(SerializeDependencies(ds)) == Some(ds)
    decreases |ds|
  {
    if ds != [] {
      var items := SerializeDependencies(ds);
      assert items[1..] == SerializeDependencies(ds[1..]);
      DependencyRoundTrip(ds[0]);
      DependenciesRoundTrip(ds[1..]);
      assert ds == [ds[0]] + ds[1..];
    }
  }

  /** The fields of a written `Version`. */
  datatype VersionFields = VersionFields(
    name: Option<string>,
    vers: Option<SemVer>,
    deps: Option<seq<DependencyFields>>,
    features: Option<map<string, set<string>>>,
    links: Option<Option<string>>,
    yanked: Option<bool>)

  function SerializeVersion(v: Version): (fs: VersionFields)
    ensures fs.name == Some(v.name) && fs.vers == Some(v.vers)
    ensures fs.deps.None? <==> IsDefault(v.deps, [])
    ensures fs.features.None? <==> IsDefault(v.features, map[])
    ensures fs.links.None? <==> IsDefault(v.links, None)
    ensures fs.yanked.None? <==> IsDefault(v.yanked, false)
  {
    VersionFields(
      Some(v.name),
      Some(v.vers),
      if IsDefault(v.deps, []) then None else Some(SerializeDependencies(v.deps)),
      Skip(v.features, map[]),
      Skip(v.links, None),
      Skip(v.yanked, false))
  }

  function DeserializeVersion(fs: VersionFields): Option<Version> {
    if fs.name.None? || fs.vers.None? then None
    else
      var deps := if fs.deps.None? then Some([]) else DeserializeDependencies(fs.deps.value);
      if deps.None? then None
      else Some(Version(
        fs.name.value,
        fs.vers.value,
        deps.value,
        OrDefault(fs.features, map[]),
        OrDefault(fs.links, None),
        OrDefault(fs.yanked, false)))
  }

  /**
   * Reading back what was written gives the record again, and writing that
   * again gives the same fields: the omission of default-valued fields is stable.
   */
  lemma VersionRoundTrip(v: Version)
    ensures DeserializeVersion(SerializeVersion(v)) == Some(v)
    ensures SerializeVersion(DeserializeVersion(SerializeVersion(v)).value) == SerializeVersion(v)
  {
    DependenciesRoundTrip(v.deps);
  }
}
