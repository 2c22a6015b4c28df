/**
 * The adapter that lets cargo's resolver read the snapshot: its `Registry`
 * implementation and the translation of canonical dependencies into cargo's.
 */
module CargoResolver {
  import opened Wrappers
  import opened Semver
  import IndexData
  import opened ReadIndex

  /** Cargo's `QueryKind`. */
  datatype QueryKind = Exact | Alternatives | Normalized

  /** Cargo's `DepKind`. */
  datatype DepKind = Normal | Development | Build

  /** Cargo's `SourceId`, reduced to the registry URL. */
  datatype SourceId = SourceId(url: string)

  /** `registry_loc()`: the one synthetic registry every dependency and package id points at. */
  const RegistryLoc: SourceId := SourceId("https://example.com")

  /** `std::task::Poll`. */
  datatype Poll<T> = Ready(value: T) | Pending

  /** Cargo's `CargoResult<()>`; the error is its message. */
  type CargoResult = Result<(), string>

  /** Strictly ascending versions: ordered, and none twice. */
  predicate StrictlyAscending(keys: seq<SemVer>) {
    forall i, j | 0 <= i < j < |keys| :: Less(keys[i], keys[j])
  }

  /**
   * Whether a stored version is handed to the callback: in `Exact` mode when
   * the dependency `matches` it, in the other two modes always.
   */
  predicate Selected(kind: QueryKind, matches: IndexData.Version -> bool, v: IndexData.Version) {
    match kind
    case Exact => matches(v)
    case Alternatives => true
    case Normalized => true
  }

  /**
   * `Registry::query`: the candidates for `packageName`, in the order they are
   * passed to the callback `f`. `matches` is `dep.matches` on the record's
   * summary. `keys` are the versions the candidates are stored under.
   */
  method Query(crates: Registry, packageName: string, kind: QueryKind, matches: IndexData.Version -> bool)
    returns (emitted: seq<IndexData.Version>, poll: Poll<CargoResult>, ghost keys: seq<SemVer>)
    ensures poll == Ready(Ok(()))
    ensures packageName !in crates ==> emitted == []
    ensures packageName in crates ==>
      && |emitted| == |keys|
      && StrictlyAscending(keys)
      && (forall i | 0 <= i < |keys| :: keys[i] in crates[packageName] && emitted[i] == crates[packageName][keys[i]])
      && (forall k | k in crates[packageName] :: k in keys <==> Selected(kind, matches, crates[packageName][k]))
  {
    emitted, keys := [], [];
    if packageName in crates {
      var byName := crates[packageName];
      var remaining := byName.Keys;
      while remaining != {}
        invariant remaining <= byName.Keys
        invariant |emitted| == |keys|
        invariant StrictlyAscending(keys)
        invariant forall i | 0 <= i < |keys| :: keys[i] in byName && keys[i] !in remaining && emitted[i] == byName[keys[i]]
        invariant forall i, r | 0 <= i < |keys| && r in remaining :: Less(keys[i], r)
        invariant forall k | k in byName && k !in remaining :: k in keys <==> Selected(kind, matches, byName[k])
        decreases remaining
      {
        LeastExists(remaining);
        var ver :| ver in remaining && forall r | r in remaining :: !Less(r, ver);
        var matched := Selected(kind, matches, byName[ver]);
        if matched {
          emitted, keys := emitted + [byName[ver]], keys + [ver];
        }
        remaining := remaining - {ver};
      }
    }
    poll := Ready(Ok(()));
  }

  /** `describe_source`: no description. */
  function DescribeSource(src: SourceId): (description: string)
    ensures |description| == 0
  {
    ""
  }

  /** `is_replaced`: no source is ever replaced. */
  function IsReplaced(src: SourceId): (replaced: bool)
    ensures !replaced
  {
    false
  }

  /** `block_until_ready`: the snapshot is in memory, so there is nothing to wait for and nothing fails. */
  function BlockUntilReady(): (r: CargoResult)
    ensures r.Ok?
  {
    Ok(())
  }

  /** The `match` on `value.kind`. */
  function ToDepKind(k: IndexData.DependencyKind): DepKind {
    if k.Normal? then Normal else if k.Dev? then Development else Build
  }

  /** Its inverse. */
  function FromDepKind(k: DepKind): IndexData.DependencyKind {
    match k
    case Normal => IndexData.DependencyKind.Normal
    case Development => IndexData.DependencyKind.Dev
    case Build => IndexData.DependencyKind.Build
  }

  /**
   * The kind mapping is one to one: Normal to Normal, Dev to Development,
   * Build to Build, and back.
   */
  lemma DepKindBijection(k: IndexData.DependencyKind, c: DepKind)
    ensures FromDepKind(ToDepKind(k)) == k
    ensures ToDepKind(FromDepKind(c)) == c
    ensures ToDepKind(IndexData.DependencyKind.Dev) == Development
  {
  }

  /** The fields of cargo's `Dependency` that the conversion sets. */
  datatype CargoDependency = CargoDependency(
    packageName: string,                 // `package_name()`
    explicitNameInToml: Option<string>,  // set by `set_explicit_name_in_toml`
    versionReq: VersionReq,
    features: seq<string>,
    defaultFeatures: bool,
    kind: DepKind,
    optional: bool,
    source: SourceId)

  /**
   * `Dependency::parse(name, None, source)`: a dependency on package `name`,
   * any version, default features on, normal, not optional, not renamed.
   */
  function ParseDependency(name: string, source: SourceId): CargoDependency {
    CargoDependency(name, None, AnyReq, [], true, Normal, false, source)
  }

  /** `name_in_toml()`: the name the dependent uses, the explicit one when set. */
  function NameInToml(d: CargoDependency): string {
    if d.explicitNameInToml.Some? then d.explicitNameInToml.value else d.packageName
  }

  /** Requirement, features, flags and kind carried over one to one, against the synthetic registry. */
  predicate CarriesOver(value: IndexData.Dependency, out: CargoDependency) {
    && out.versionReq == value.req
    && out.features == value.features
    && out.defaultFeatures == value.defaultFeatures
    && out.optional == value.optional
    && out.kind == ToDepKind(value.kind)
    && out.source == RegistryLoc
  }

  /**
   * `From<&index_data::Dependency> for Dependency` as written: cargo's
   * dependency is parsed from `value.name` and, when the names differ,
   * `value.package_name` becomes the explicit name in the manifest. Cargo thus
   * sees the dependent's name as the package and the package as the rename.
   */
  function FromIndexDependencyAsWritten(value: IndexData.Dependency): (out: CargoDependency)
    ensures out.explicitNameInToml.Some? <==> value.name != value.packageName
    ensures out.packageName == value.name && NameInToml(out) == value.packageName
    ensures CarriesOver(value, out)
  {
    var parsed := ParseDependency(value.name, RegistryLoc);
    var renamed := if value.name != value.packageName then parsed.(explicitNameInToml := Some(value.packageName)) else parsed;
    renamed.(
      versionReq := value.req,
      features := value.features,
      defaultFeatures := value.defaultFeatures,
      kind := ToDepKind(value.kind),
      optional := value.optional)
  }

  /**
   * The conversion with the two names in cargo's sense: the package is
   * `package_name`, and `name` is the rename, set exactly when the two differ.
   */
  function FromIndexDependency(value: IndexData.Dependency): (out: CargoDependency)
    ensures out.explicitNameInToml.Some? <==> value.name != value.packageName
    ensures out.packageName == value.packageName && NameInToml(out) == value.name
    ensures CarriesOver(value, out)
  {
    var parsed := ParseDependency(value.packageName, RegistryLoc);
    var renamed := if value.name != value.packageName then parsed.(explicitNameInToml := Some(value.name)) else parsed;
    renamed.(
      versionReq := value.req,
      features := value.features,
      defaultFeatures := value.defaultFeatures,
      kind := ToDepKind(value.kind),
      optional := value.optional)
  }

  /**
   * The written conversion agrees with cargo's reading exactly for
   * dependencies that are not renamed; a renamed one makes cargo's resolver
   * query the registry for the rename instead of the package.
   */
  lemma AsWrittenSwapsRenamedDependency(value: IndexData.Dependency)
    ensures FromIndexDependencyAsWritten(value) == FromIndexDependency(value) <==> value.name == value.packageName
    ensures value.name != value.packageName ==> FromIndexDependencyAsWritten(value).packageName != value.packageName
  {
  }

  /** A concrete case: `json = { package = "serde_json" }` is looked up under `json`. */
  lemma AsWrittenRenameExample()
    ensures var d := IndexData.Dependency("json", "serde_json", AnyReq, [], true, IndexData.DependencyKind.Normal, false);
      && FromIndexDependencyAsWritten(d).packageName == "json"
      && FromIndexDependency(d).packageName == "serde_json"
  {
  }
}
