/**
 * The differential test harness: naming of test cases, the verdict that
 * compares the two resolvers on one root, and the minimizer that shrinks a
 * failing snapshot one record at a time.
 */
module Differential {
  import opened Wrappers
  import opened Semver
  import IndexData
  import opened ReadIndex

  /* ---------------------------------------------------------------- */
  /* Test-case file names: `<name>@<version>.ron`                       */
  /* ---------------------------------------------------------------- */

  const RonSuffix: string := ".ron"

  /** The position of the first `c` in `s`, if any. */
  function IndexOf(s: string, c: char): (r: Option<nat>)
    ensures r.None? <==> c !in s
    ensures r.Some? ==> r.value < |s| && s[r.value] == c && c !in s[..r.value]
  {
    if |s| == 0 then None
    else if s[0] == c then Some(0)
    else
      match IndexOf(s[1..], c)
      case None => None
      case Some(i) =>
        assert s[..i + 1] == [s[0]] + s[1..][..i];
        Some(i + 1)
  }

  /** `str::split_once`: the text before the first `c` and the text after it. */
  function SplitOnce(s: string, c: char): (r: Option<(string, string)>)
    ensures r.None? <==> c !in s
    ensures r.Some? ==> s == r.value.0 + [c] + r.value.1 && c !in r.value.0
  {
    match IndexOf(s, c)
    case None => None
    case Some(i) =>
      assert s == s[..i] + [c] + s[i + 1..];
      Some((s[..i], s[i + 1..]))
  }

  /** `str::strip_suffix`. */
  function StripSuffix(s: string, suffix: string): (r: Option<string>)
    ensures r.Some? <==> |suffix| <= |s| && s[|s| - |suffix|..] == suffix
    ensures r.Some? ==> r.value + suffix == s
  {
    if |suffix| <= |s| && s[|s| - |suffix|..] == suffix then
      assert s == s[..|s| - |suffix|] + s[|s| - |suffix|..];
      Some(s[..|s| - |suffix|])
    else None
  }

  /** `fileName` is the file of the case `name` at the version written `verText`. */
  predicate NamesCase(fileName: string, name: string, verText: string) {
    '@' !in name && fileName == name + "@" + verText + RonSuffix
  }

  /**
   * `case_from_file_name`: the crate name before the first `@` and the version
   * between it and the `.ron` suffix. `None` stands for the panic when the `@`
   * or the suffix is missing or the version does not parse.
   */
  function CaseFromFileName(fileName: string, semver: Parsers): (r: Option<(string, SemVer)>)
    ensures '@' !in fileName ==> r.None?
    ensures r.Some? ==> exists verText :: NamesCase(fileName, r.value.0, verText) && semver.version(verText) == Some(r.value.1)
  {
    match SplitOnce(fileName, '@')
    case None => None
    case Some((name, rest)) =>
      match StripSuffix(rest, RonSuffix)
      case None => None
      case Some(verText) =>
        match semver.version(verText)
        case None => None
        case Some(ver) =>
          assert NamesCase(fileName, name, verText);
          Some((name, ver))
  }

  /** The file name a case is stored under. */
  function FileName(name: string, verText: string): string {
    name + "@" + verText + RonSuffix
  }

  /** The first `c` in `name + [c] + rest` is the one after `name` when `name` has none. */
  lemma {:induction false} IndexOfAfter(name: string, c: char, rest: string)
    requires c !in name
    ensures IndexOf(name + [c] + rest, c) == Some(|name|)
    decreases |name|
  {
    if |name| > 0 {
      assert (name + [c] + rest)[1..] == name[1..] + [c] + rest;
      IndexOfAfter(name[1..], c, rest);
    }
  }

  /** Reading a case's name back from its file recovers the crate and the version. */
  lemma CaseFromFileNameRoundTrip(name: string, verText: string, semver: Parsers)
    requires '@' !in name
    ensures CaseFromFileName(FileName(name, verText), semver) ==
      if semver.version(verText).Some? then Some((name, semver.version(verText).value)) else None
  {
    var fileName := FileName(name, verText);
    var rest := verText + RonSuffix;
    assert fileName == name + ['@'] + rest;
    IndexOfAfter(name, '@', rest);
    assert fileName[..|name|] == name;
    assert fileName[|name| + 1..] == rest;
    assert SplitOnce(fileName, '@') == Some((name, rest));
    assert rest[|rest| - |RonSuffix|..] == RonSuffix;
    assert rest[..|rest| - |RonSuffix|] == verText;
    assert StripSuffix(rest, RonSuffix) == Some(verText);
  }

  /* ---------------------------------------------------------------- */
  /* The verdict on one root                                            */
  /* ---------------------------------------------------------------- */

  /**
   * What pubgrub's `resolve` did: a solution (and whether `dp.check` finds it
   * consistent with the index), `NoSolution`, or any other error.
   */
  datatype PubGrubOutcome = Solved(consistent: bool) | NoSolution | OtherError

  /** What cargo's resolver did; a failure carries its message. */
  datatype CargoOutcome = Resolved | Failed(message: string)

  const CyclicPrefix: string := "cyclic package dependency"

  predicate IsPrefix(p: string, s: string) {
    |p| <= |s| && s[..|p|] == p
  }

  /** A cargo failure whose message starts with the cycle error. */
  predicate IsCyclic(cargo: CargoOutcome) {
    cargo.Failed? && IsPrefix(CyclicPrefix, cargo.message)
  }

  /** Cargo is consulted only when its data converted and the root version is in it. */
  predicate CargoRuns<S>(runCargo: bool, cargoCrates: map<string, map<SemVer, S>>, root: string, ver: SemVer) {
    runCargo && root in cargoCrates && ver in cargoCrates[root]
  }

  /** Pubgrub's own part of the verdict: a consistent solution or a proof of no solution. */
  predicate PubGrubAcceptable(pubgrub: PubGrubOutcome) {
    pubgrub == Solved(true) || pubgrub == NoSolution
  }

  /**
   * `check`: whether the root passes. `cargo` is what cargo's resolver returns
   * when it is run; it is not looked at otherwise.
   */
  function Check<S>(pubgrub: PubGrubOutcome, runCargo: bool, cargoCrates: map<string, map<SemVer, S>>,
                    root: string, ver: SemVer, cargo: CargoOutcome): (pass: bool)
    ensures pubgrub == Solved(false) ==> !pass
    ensures pubgrub == OtherError ==> !pass
    ensures !CargoRuns(runCargo, cargoCrates, root, ver) ==> (pass <==> PubGrubAcceptable(pubgrub))
    ensures CargoRuns(runCargo, cargoCrates, root, ver) && PubGrubAcceptable(pubgrub) ==>
      (pass <==> IsCyclic(cargo) || pubgrub.Solved? == cargo.Resolved?)
  {
    match pubgrub
    case Solved(consistent) =>
      if !consistent then false
      else !CargoRuns(runCargo, cargoCrates, root, ver) || IsCyclic(cargo) || cargo.Resolved?
    case NoSolution =>
      !CargoRuns(runCargo, cargoCrates, root, ver) || IsCyclic(cargo) || cargo.Failed?
    case OtherError => false
  }

  /** A passing root had an acceptable pubgrub outcome, and cargo, when run, agreed or hit a cycle. */
  lemma CheckPassMeansAgreement<S>(pubgrub: PubGrubOutcome, runCargo: bool, cargoCrates: map<string, map<SemVer, S>>,
                                   root: string, ver: SemVer, cargo: CargoOutcome)
    requires Check(pubgrub, runCargo, cargoCrates, root, ver, cargo)
    ensures PubGrubAcceptable(pubgrub)
    ensures CargoRuns(runCargo, cargoCrates, root, ver) && !IsCyclic(cargo) ==>
      (pubgrub.Solved? <==> cargo.Resolved?)
  {
  }

  /** A cycle error from cargo never fails a root on its own. */
  lemma CyclicNeverDisagrees<S>(pubgrub: PubGrubOutcome, runCargo: bool, cargoCrates: map<string, map<SemVer, S>>,
                                root: string, ver: SemVer, suffix: string)
    requires PubGrubAcceptable(pubgrub)
    ensures Check(pubgrub, runCargo, cargoCrates, root, ver, Failed(CyclicPrefix + suffix))
  {
    assert (CyclicPrefix + suffix)[..|CyclicPrefix|] == CyclicPrefix;
  }

  /* ---------------------------------------------------------------- */
  /* Loading a case                                                     */
  /* ---------------------------------------------------------------- */

  /**
   * `crates_data_from_file` after the file is read and decoded: the record
   * map, and the cargo map derived from it, all or nothing. Whether cargo is
   * run on the case is whether the latter succeeded.
   */
  method CratesDataFromFile<S>(records: seq<IndexData.Version>, summarize: IndexData.Version -> Option<S>)
    returns (crates: Registry, cargoCrates: Option<map<string, map<SemVer, S>>>)
    ensures forall n, k :: Stored(crates, n, k) <==> Listed(records, |records|, n, k)
    ensures forall n, k | Stored(crates, n, k) :: exists i ::
      LastWithin(records, |records|, i, n, k) && crates[n][k] == records[i]
    ensures cargoCrates.Some? <==> forall n, k | Stored(crates, n, k) :: summarize(crates[n][k]).Some?
    ensures cargoCrates.Some? ==> SameKeys(crates, cargoCrates.value)
    ensures cargoCrates == CargoMap(crates, summarize)
  {
    var withUnwrap;
    crates, withUnwrap := ReadTestFile(records, summarize);
    cargoCrates := CargoMap(crates, summarize);
  }

  /* ---------------------------------------------------------------- */
  /* The minimizer                                                      */
  /* ---------------------------------------------------------------- */

  /** `(i + offset) % len`: the `i`-th position tried in a pass that starts at `offset`. */
  function Rotate(i: nat, offset: nat, n: nat): (j: nat)
    requires n > 0
    ensures j < n
  {
    (i + offset) % n
  }

  /** Euclidean division is unique: the remainder of `n * q + r` is `r`. */
  lemma ModUnique(a: int, n: int, q: int, r: int)
    requires n > 0 && 0 <= r < n && a == n * q + r
    ensures a % n == r
  {
    var q', r' := a / n, a % n;
    assert a == n * q' + r';
    assert n * (q - q') == r' - r;
    if q - q' >= 1 {
      assert false;
    } else if q - q' <= -1 {
      assert false;
    }
  }

  /** The position `i` lands on, written without `%`. */
  lemma RotateWraps(i: nat, offset: nat, n: nat)
    requires n > 0 && i < n
    ensures Rotate(i, offset, n) == if i + offset % n < n then i + offset % n else i + offset % n - n
  {
    var o, q := offset % n, offset / n;
    assert offset == n * q + o;
    if i + o < n {
      assert i + offset == n * q + (i + o);
      ModUnique(i + offset, n, q, i + o);
    } else {
      assert i + offset == n * (q + 1) + (i + o - n);
      ModUnique(i + offset, n, q + 1, i + o - n);
    }
  }

  /** The step of a pass at which position `p` is tried. */
  function Unrotate(p: nat, offset: nat, n: nat): (i: nat)
    requires n > 0
    ensures i < n
  {
    (p + n - offset % n) % n
  }

  /** Every position is tried in a pass: at step `Unrotate(p, offset, n)`. */
  lemma RotateUnrotate(p: nat, offset: nat, n: nat)
    requires n > 0 && p < n
    ensures Rotate(Unrotate(p, offset, n), offset, n) == p
  {
    var o, q := offset % n, offset / n;
    assert offset == n * q + o;
    var i := if p >= o then p - o else p + n - o;
    if p >= o {
      ModUnique(p + n - o, n, 1, i);
    } else {
      ModUnique(p + n - o, n, 0, i);
    }
    assert Unrotate(p, offset, n) == i;
    var k := if p >= o then q else q + 1;
    assert i + offset == n * k + p;
    ModUnique(i + offset, n, k, p);
  }

  /** No position is tried twice in a pass. */
  lemma RotateInjective(i: nat, j: nat, offset: nat, n: nat)
    requires n > 0 && i < n && j < n && Rotate(i, offset, n) == Rotate(j, offset, n)
    ensures i == j
  {
    RotateWraps(i, offset, n);
    RotateWraps(j, offset, n);
  }

  /** `Vec::remove(i)` on a copy. */
  function RemoveAt<T>(s: seq<T>, i: nat): (r: seq<T>)
    requires i < |s|
    ensures |r| == |s| - 1
    ensures forall k | 0 <= k < |r| :: r[k] == if k < i then s[k] else s[k + 1]
  {
    s[..i] + s[i + 1..]
  }

  /** `idx` picks out `sub` from `s` at strictly increasing positions. */
  predicate Embedding<T(==)>(sub: seq<T>, s: seq<T>, idx: seq<nat>) {
    && |idx| == |sub|
    && (forall k | 0 <= k < |idx| :: idx[k] < |s| && sub[k] == s[idx[k]])
    && (forall k, l | 0 <= k < l < |idx| :: idx[k] < idx[l])
  }

  ghost predicate IsSubsequence<T>(sub: seq<T>, s: seq<T>) {
    exists idx :: Embedding(sub, s, idx)
  }

  /** Removing one element keeps an embedding an embedding. */
  lemma EmbeddingRemove<T>(sub: seq<T>, s: seq<T>, idx: seq<nat>, p: nat)
    requires Embedding(sub, s, idx) && p < |sub|
    ensures Embedding(RemoveAt(sub, p), s, RemoveAt(idx, p))
  {
  }

  /**
   * A valid shrinking history: it starts at `data0`, ends at `data`, and each
   * step removes the element at `positions[k]` and yields data that fails.
   */
  predicate Shrinks<T(==)>(data0: seq<T>, data: seq<T>, steps: seq<seq<T>>, positions: seq<nat>, check: seq<T> -> bool) {
    && |steps| == |positions| + 1
    && steps[0] == data0
    && steps[|steps| - 1] == data
    && (forall k | 0 <= k < |positions| :: RemovesOne(steps, positions, k, check))
  }

  /** Step `k` of a history removes the element at `positions[k]`, and what is left fails. */
  predicate RemovesOne<T(==)>(steps: seq<seq<T>>, positions: seq<nat>, k: nat, check: seq<T> -> bool)
    requires k < |positions| && |steps| == |positions| + 1
  {
    && positions[k] < |steps[k]|
    && steps[k + 1] == RemoveAt(steps[k], positions[k])
    && !check(steps[k + 1])
  }

  /** A history extended by one more failing removal is still a history. */
  lemma ShrinksExtend<T>(data0: seq<T>, data: seq<T>, steps: seq<seq<T>>, positions: seq<nat>, check: seq<T> -> bool, p: nat)
    requires Shrinks(data0, data, steps, positions, check)
    requires p < |data| && !check(RemoveAt(data, p))
    ensures Shrinks(data0, RemoveAt(data, p), steps + [RemoveAt(data, p)], positions + [p], check)
  {
    var steps', positions' := steps + [RemoveAt(data, p)], positions + [p];
    forall k | 0 <= k < |positions'|
      ensures RemovesOne(steps', positions', k, check)
    {
      if k < |positions| {
        assert RemovesOne(steps, positions, k, check);
      }
    }
  }

  /** Every shrinking step removes exactly one record, so the history is as long as the records removed. */
  lemma {:induction false} ShrinksLength<T>(data0: seq<T>, data: seq<T>, steps: seq<seq<T>>, positions: seq<nat>, check: seq<T> -> bool)
    requires Shrinks(data0, data, steps, positions, check)
    ensures |data| + |positions| == |data0|
    decreases |positions|
  {
    if |positions| > 0 {
      var m := |positions| - 1;
      var steps', positions' := steps[..m + 1], positions[..m];
      forall k | 0 <= k < |positions'|
        ensures RemovesOne(steps', positions', k, check)
      {
        assert RemovesOne(steps, positions, k, check);
      }
      ShrinksLength(data0, steps[m], steps', positions', check);
      assert RemovesOne(steps, positions, m, check);
    }
  }

  /**
   * The loop of `named_from_files_pass_without_vers`: while some single
   * record can be removed with the check still failing, remove the first
   * such record found, scanning from where the last removal happened.
   * `check` is the whole pipeline from records to `check`'s verdict.
   */
  method Minimize(data0: seq<IndexData.Version>, check: seq<IndexData.Version> -> bool)
    returns (data: seq<IndexData.Version>, ghost steps: seq<seq<IndexData.Version>>, ghost positions: seq<nat>)
    ensures Shrinks(data0, data, steps, positions, check)
    ensures |data| + |positions| == |data0|
    ensures data == data0 || !check(data)
    ensures IsSubsequence(data, data0)
    ensures forall p | 0 <= p < |data| :: check(RemoveAt(data, p))
  {
    data := data0;
    var offset: nat := 0;
    steps, positions := [data0], [];
    ghost var idx: seq<nat> := seq(|data0|, k => k);
    label Data:
    while true
      invariant Shrinks(data0, data, steps, positions, check)
      invariant data == data0 || !check(data)
      invariant Embedding(data, data0, idx)
      decreases |data|
    {
      for i := 0 to |data|
        invariant forall q | 0 <= q < i :: check(RemoveAt(data, Rotate(q, offset, |data|)))
      {
        var j := (i + offset) % |data|;
        var smallData := RemoveAt(data, j);
        if !check(smallData) {
          EmbeddingRemove(data, data0, idx, j);
          idx := RemoveAt(idx, j);
          ShrinksExtend(data0, data, steps, positions, check, j);
          steps, positions := steps + [smallData], positions + [j];
          data, offset := smallData, j;
          continue Data;
        }
      }
      forall p | 0 <= p < |data|
        ensures check(RemoveAt(data, p))
      {
        RotateUnrotate(p, offset, |data|);
      }
      ShrinksLength(data0, data, steps, positions, check);
      break;
    }
  }
}
