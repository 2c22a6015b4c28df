/**
 * The part of the semver crate the harness relies on: release numbers with
 * their total order, version requirements as data, and the two parsers,
 * which stay abstract (they are handed to the model as function values).
 */
module Semver {
  import opened Wrappers

  /** A release number `major.minor.patch`. */
  datatype SemVer = SemVer(major: nat, minor: nat, patch: nat)

  /**
   * Lexicographic order on the three numbers: the order in which
   * `BTreeMap<semver::Version, _>` iterates over release versions.
   */
  predicate Less(a: SemVer, b: SemVer) {
    || a.major < b.major
    || (a.major == b.major && a.minor < b.minor)
    || (a.major == b.major && a.minor == b.minor && a.patch < b.patch)
  }

  lemma LessIsStrictTotalOrder(a: SemVer, b: SemVer, c: SemVer)
    ensures !Less(a, a)
    ensures Less(a, b) && Less(b, c) ==> Less(a, c)
    ensures a == b || Less(a, b) || Less(b, a)
  {
  }

  /** Every non-empty finite set of versions has a least element. */
  lemma {:induction false} LeastExists(s: set<SemVer>)
    requires s != {}
    ensures exists m :: m in s && forall r | r in s :: !Less(r, m)
    decreases s
  {
    var x :| x in s;
    if s != {x} {
      LeastExists(s - {x});
      var m :| m in s - {x} && forall r | r in s - {x} :: !Less(r, m);
      if Less(x, m) {
        forall r | r in s
          ensures !Less(r, x)
        {
          LessIsStrictTotalOrder(r, x, m);
        }
      } else {
        assert forall r | r in s :: !Less(r, m);
      }
    }
  }

  /** The comparison operators of a semver comparator. */
  datatype Op = OpExact | OpGreater | OpGreaterEq | OpLess | OpLessEq | OpTilde | OpCaret | OpWildcard

  datatype Comparator = Comparator(op: Op, major: nat, minor: Option<nat>, patch: Option<nat>)

  /** A version requirement: a conjunction of comparators. */
  datatype VersionReq = VersionReq(comparators: seq<Comparator>)

  /** `VersionReq::default()`, the requirement `*`: no comparator at all. */
  const AnyReq: VersionReq := VersionReq([])

  /**
   * The two partial parsers of the semver crate, `str::parse::<Version>` and
   * `str::parse::<VersionReq>`; `None` is a parse error.
   */
  datatype Parsers = Parsers(version: string -> Option<SemVer>, req: string -> Option<VersionReq>)
}
