/** The resolver: an ordered list of base directories, searched for the
    first one under which a relative path exists. Whether a path exists is a
    filesystem query; the model takes it as a parameter. */
module FsResolver {
  import opened FsPath

  /** `m_paths`, in priority order. */
  datatype Resolver = Resolver(paths: seq<Path>)

  /** What `resolve(value)` returns when `fileExists` says which paths exist:
      bases are tried in order, a failing join ends the search with its
      error, the first existing join is the answer, and `value` itself is
      returned when none exists. */
  function Resolution(bases: seq<Path>, value: Path, fileExists: Path -> bool): Result<Path>
  {
    if bases == [] then Ok(value)
    else match Joined(bases[0], value)
      case Err(e) => Err(e)
      case Ok(combined) =>
        if fileExists(combined) then Ok(combined)
        else Resolution(bases[1..], value, fileExists)
  }

  /** `resolve(value)`: a range-for over `m_paths` with an early return. A
      join that throws is returned as `Err`. The resolver is a value, so the
      call cannot change it (the source marks `resolve` const). */
  method Resolve(r: Resolver, value: Path, fileExists: Path -> bool) returns (result: Result<Path>)
    ensures result == Resolution(r.paths, value, fileExists)
  {
    for i := 0 to |r.paths|
      invariant Resolution(r.paths, value, fileExists) == Resolution(r.paths[i..], value, fileExists)
    {
      assert r.paths[i..][1..] == r.paths[i + 1..];
      var combined := Join(r.paths[i], value);
      if combined.Err? {
        return combined;
      }
      if fileExists(combined.value) {
        return combined;
      }
    }
    return Ok(value);
  }

  /** Every base before `i` was tried: its join succeeded and does not exist. */
  ghost predicate Missed(bases: seq<Path>, value: Path, fileExists: Path -> bool, i: nat)
    requires i <= |bases|
  {
    forall j :: 0 <= j < i ==>
      Joined(bases[j], value).Ok? && !fileExists(Joined(bases[j], value).value)
  }

  /** The first base whose join exists wins; no later base is consulted. */
  lemma {:induction false} FirstExistingBaseWins(bases: seq<Path>, value: Path, fileExists: Path -> bool, i: nat)
    requires i < |bases| && Missed(bases, value, fileExists, i)
    requires Joined(bases[i], value).Ok? && fileExists(Joined(bases[i], value).value)
    ensures Resolution(bases, value, fileExists) == Joined(bases[i], value)
    decreases i
  {
    if i > 0 {
      assert Joined(bases[0], value).Ok?;
      FirstExistingBaseWins(bases[1..], value, fileExists, i - 1);
    }
  }

  /** A join error met before any existing candidate is the result. */
  lemma {:induction false} FirstJoinErrorPropagates(bases: seq<Path>, value: Path, fileExists: Path -> bool, i: nat)
    requires i < |bases| && Missed(bases, value, fileExists, i)
    requires Joined(bases[i], value).Err?
    ensures Resolution(bases, value, fileExists) == Joined(bases[i], value)
    decreases i
  {
    if i > 0 {
      assert Joined(bases[0], value).Ok?;
      FirstJoinErrorPropagates(bases[1..], value, fileExists, i - 1);
    }
  }

  /** With no existing candidate, `value` comes back unchanged. */
  lemma {:induction false} NoExistingBaseGivesValue(bases: seq<Path>, value: Path, fileExists: Path -> bool)
    requires Missed(bases, value, fileExists, |bases|)
    ensures Resolution(bases, value, fileExists) == Ok(value)
    decreases |bases|
  {
    if bases != [] {
      assert Joined(bases[0], value).Ok?;
      NoExistingBaseGivesValue(bases[1..], value, fileExists);
    }
  }

  /** The result is `value`, or the existing join of `value` under some base,
      or the error of some base's join. */
  lemma {:induction false} ResolutionShape(bases: seq<Path>, value: Path, fileExists: Path -> bool)
    ensures var r := Resolution(bases, value, fileExists);
            r == Ok(value) ||
            exists i :: 0 <= i < |bases| && r == Joined(bases[i], value) &&
                        (r.Ok? ==> fileExists(r.value))
    decreases |bases|
  {
    if bases != [] {
      var r := Resolution(bases, value, fileExists);
      match Joined(bases[0], value)
      case Err(e) =>
        assert r == Joined(bases[0], value);
      case Ok(combined) =>
        if fileExists(combined) {
          assert r == Joined(bases[0], value);
        } else {
          ResolutionShape(bases[1..], value, fileExists);
          if r != Ok(value) {
            var i :| 0 <= i < |bases| - 1 && r == Joined(bases[1..][i], value) &&
                     (r.Ok? ==> fileExists(r.value));
            assert r == Joined(bases[i + 1], value);
          }
        }
    }
  }

  /** With no bases, even an absolute `value` is returned without error. */
  lemma EmptyResolverReturnsValue(value: Path, fileExists: Path -> bool)
    ensures Resolution([], value, fileExists) == Ok(value)
  {
  }

  /** With at least one base, an absolute `value` fails on the first join,
      before any existence check. */
  lemma AbsoluteValueFails(bases: seq<Path>, value: Path, fileExists: Path -> bool)
    requires bases != [] && value.absolute
    ensures Resolution(bases, value, fileExists) == Err(ExpectedRelative)
  {
  }

  /** A relative `value` of another kind than the first base fails there. */
  lemma KindMismatchFails(bases: seq<Path>, value: Path, fileExists: Path -> bool)
    requires bases != [] && !value.absolute && bases[0].kind != value.kind
    ensures Resolution(bases, value, fileExists) == Err(ExpectedSameType)
  {
  }

  /** Two bases, `/opt/app` and `/usr/local/app`, and the relative
      candidate `plugin.so`: when only the second join exists it is the
      answer; when neither exists the relative candidate comes back. */
  lemma PluginScenario(fileExists: Path -> bool)
    ensures var opt := Path(["opt", "app"], true, PosixPath);
            var local := Path(["usr", "local", "app"], true, PosixPath);
            var plugin := Path(["plugin.so"], false, PosixPath);
            var inOpt := Path(["opt", "app", "plugin.so"], true, PosixPath);
            var inLocal := Path(["usr", "local", "app", "plugin.so"], true, PosixPath);
            var r := Resolution([opt, local], plugin, fileExists);
            (!fileExists(inOpt) && fileExists(inLocal) ==> r == Ok(inLocal)) &&
            (!fileExists(inOpt) && !fileExists(inLocal) ==> r == Ok(plugin))
  {
    var opt := Path(["opt", "app"], true, PosixPath);
    var local := Path(["usr", "local", "app"], true, PosixPath);
    var plugin := Path(["plugin.so"], false, PosixPath);
    assert opt.segments + plugin.segments == ["opt", "app", "plugin.so"];
    assert local.segments + plugin.segments == ["usr", "local", "app", "plugin.so"];
    assert [opt, local][1..] == [local] && [local][1..] == [];
    if !fileExists(Joined(local, plugin).value) {
      assert Resolution([local], plugin, fileExists) == Resolution([], plugin, fileExists);
    }
  }
}
