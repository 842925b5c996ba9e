/**
  The precedence-respecting merge (`merge_env_files` in src/lib.rs).

  The priority file's entries seed the working map and their keys become the
  exempt set. Each regular file is then folded in, in list order, with
  "last write wins" for every key outside the exempt set. A file whose read
  fails contributes nothing: the error is dropped, never returned. The working
  map is finally rendered as `KEY=VALUE` lines.
*/
module Merge {
  import opened Wrappers
  import opened EnvFile
  import opened Serialise

  /**
    What one file contributes: a missing file the empty map, an unopenable or
    malformed file nothing, and a well-formed file its pairs inserted in order.
  */
  function Contribution(f: FileState): (c: Option<Env>)
    ensures f.Missing? ==> c == Some(map[])
    ensures c.None? <==> f.Unopenable? || (f.Present? && !WellFormed(f.items))
    ensures c.Some? && f.Present? ==> c.value == Inserted(f.items)
  {
    match Read(f)
    case Ok(vars) => Some(vars)
    case Err(_) => None
  }

  /** The contributions of the regular files, in list order. */
  function Loaded(files: seq<FileState>): seq<Option<Env>>
  {
    seq(|files|, i requires 0 <= i < |files| => Contribution(files[i]))
  }

  /** The priority argument: absent, or present with its contribution. */
  function LoadedPriority(priorityFile: Option<FileState>): Option<Option<Env>>
  {
    match priorityFile
    case None => None
    case Some(f) => Some(Contribution(f))
  }

  /** The priority map: empty unless a priority file was given and read. */
  function PriorityVars(priority: Option<Option<Env>>): Env
  {
    match priority
    case Some(Some(vars)) => vars
    case _ => map[]
  }

  /** True when a (possibly unreadable) file defines `k`. */
  predicate Defines(file: Option<Env>, k: string)
  {
    file.Some? && k in file.value
  }

  /** One regular file folded into the working map: every key outside `exempt` is overwritten. */
  function Absorb(acc: Env, vars: Env, exempt: set<string>): Env
  {
    acc + (vars - exempt)
  }

  /** The working map after the files, in order, are folded into `seed`. */
  function FoldFiles(seed: Env, files: seq<Option<Env>>, exempt: set<string>): Env
  {
    if files == [] then seed
    else
      var before := FoldFiles(seed, files[..|files| - 1], exempt);
      match files[|files| - 1]
      case None => before
      case Some(vars) => Absorb(before, vars, exempt)
  }

  /** The merged map: the priority map, then the regular files with the priority keys exempt. */
  function MergedMap(files: seq<Option<Env>>, priority: Option<Option<Env>>): Env
  {
    var p := PriorityVars(priority);
    FoldFiles(p, files, p.Keys)
  }

  /** The keys some readable regular file defines. */
  function ContributedKeys(files: seq<Option<Env>>): set<string>
  {
    set i, k | 0 <= i < |files| && files[i].Some? && k in files[i].value :: k
  }

  /** Plain "last write wins" over the readable files, with nothing exempt. */
  function LastWins(files: seq<Option<Env>>): Env
  {
    if files == [] then map[]
    else
      var before := LastWins(files[..|files| - 1]);
      match files[|files| - 1]
      case None => before
      case Some(vars) => before + vars
  }

  /**
    `merge_env_files`: never fails; the text is the merged map rendered in the
    hash map's iteration order `order`.
  */
  method MergeEnvFiles(files: seq<FileState>, priorityFile: Option<FileState>)
    returns (r: Result<string, ReadError>, ghost order: seq<string>)
    ensures r.Ok?
    ensures IsOrdering(order, MergedMap(Loaded(files), LoadedPriority(priorityFile)).Keys)
    ensures r.value == Render(MergedMap(Loaded(files), LoadedPriority(priorityFile)), order)
  {
    var envMap: Env := map[];
    var priorityVars: Env := map[];

    if priorityFile.Some? {
      var read := ReadEnvFile(priorityFile.value);
      if read.Ok? {
        priorityVars := read.value;
        envMap := envMap + read.value;
      }
    }
    assert priorityVars == PriorityVars(LoadedPriority(priorityFile));
    assert envMap == priorityVars;

    ghost var loaded := Loaded(files);
    var i := 0;
    while i < |files|
      invariant 0 <= i <= |files|
      invariant envMap == FoldFiles(priorityVars, loaded[..i], priorityVars.Keys)
    {
      var read := ReadEnvFile(files[i]);
      assert loaded[..i + 1][..i] == loaded[..i];
      assert loaded[i] == Contribution(files[i]);
      if read.Ok? {
        var vars := read.value;
        ghost var before := envMap;
        var remaining := vars.Keys;
        while remaining != {}
          invariant remaining <= vars.Keys
          invariant envMap == Absorb(before, vars - remaining, priorityVars.Keys)
          decreases remaining
        {
          var key :| key in remaining;
          AbsorbOneKey(before, vars, remaining, priorityVars.Keys, key);
          if key !in priorityVars {
            envMap := envMap[key := vars[key]];
          }
          remaining := remaining - {key};
        }
        assert vars - {} == vars;
      }
      i := i + 1;
    }
    assert loaded[..|files|] == loaded;

    var keys := IterationOrder(envMap);
    order := keys;
    r := Ok(Render(envMap, keys));
  }

  /** Absorbing one more key of a file, as the inner loop of the merge does. */
  lemma AbsorbOneKey(before: Env, vars: Env, remaining: set<string>, exempt: set<string>, key: string)
    requires key in remaining && remaining <= vars.Keys
    ensures key in exempt ==>
      Absorb(before, vars - (remaining - {key}), exempt) == Absorb(before, vars - remaining, exempt)
    ensures key !in exempt ==>
      Absorb(before, vars - (remaining - {key}), exempt) == Absorb(before, vars - remaining, exempt)[key := vars[key]]
  {
  }

  /** A priority key keeps the priority value, whatever the regular files hold. */
  lemma PriorityIsAuthoritative(files: seq<Option<Env>>, priority: Option<Option<Env>>, k: string)
    requires k in PriorityVars(priority)
    ensures k in MergedMap(files, priority)
    ensures MergedMap(files, priority)[k] == PriorityVars(priority)[k]
  {
    var p := PriorityVars(priority);
    FoldKeepsExempt(p, files, p.Keys, k);
  }

  lemma {:induction false} FoldKeepsExempt(seed: Env, files: seq<Option<Env>>, exempt: set<string>, k: string)
    requires k in seed && k in exempt
    ensures k in FoldFiles(seed, files, exempt) && FoldFiles(seed, files, exempt)[k] == seed[k]
  {
    if files != [] {
      FoldKeepsExempt(seed, files[..|files| - 1], exempt, k);
    }
  }

  /**
    A key outside the priority map takes its value from the last readable
    regular file that defines it.
  */
  lemma LastReadableFileWins(files: seq<Option<Env>>, priority: Option<Option<Env>>, k: string, i: nat)
    requires k !in PriorityVars(priority)
    requires i < |files| && Defines(files[i], k)
    requires forall j :: i < j < |files| ==> !Defines(files[j], k)
    ensures k in MergedMap(files, priority)
    ensures MergedMap(files, priority)[k] == files[i].value[k]
  {
    var p := PriorityVars(priority);
    FoldLastWins(p, files, p.Keys, k, i);
  }

  lemma {:induction false} FoldLastWins(seed: Env, files: seq<Option<Env>>, exempt: set<string>, k: string, i: nat)
    requires k !in exempt
    requires i < |files| && Defines(files[i], k)
    requires forall j :: i < j < |files| ==> !Defines(files[j], k)
    ensures k in FoldFiles(seed, files, exempt)
    ensures FoldFiles(seed, files, exempt)[k] == files[i].value[k]
  {
    if i < |files| - 1 {
      FoldLastWins(seed, files[..|files| - 1], exempt, k, i);
      assert !Defines(files[|files| - 1], k);
    }
  }

  /** The merged keys are exactly the priority keys and the keys of the readable regular files. */
  lemma MergedKeys(files: seq<Option<Env>>, priority: Option<Option<Env>>)
    ensures MergedMap(files, priority).Keys == PriorityVars(priority).Keys + ContributedKeys(files)
  {
    var p := PriorityVars(priority);
    FoldKeys(p, files, p.Keys);
  }

  lemma {:induction false} FoldKeys(seed: Env, files: seq<Option<Env>>, exempt: set<string>)
    ensures FoldFiles(seed, files, exempt).Keys == seed.Keys + (ContributedKeys(files) - exempt)
  {
    if files != [] {
      var init := files[..|files| - 1];
      FoldKeys(seed, init, exempt);
      var last := files[|files| - 1];
      var lastKeys := if last.Some? then last.value.Keys else {};
      assert ContributedKeys(files) == ContributedKeys(init) + lastKeys by {
        forall k | k in ContributedKeys(files)
          ensures k in ContributedKeys(init) + lastKeys
        {
          var i :| 0 <= i < |files| && files[i].Some? && k in files[i].value;
          if i < |files| - 1 {
            assert init[i] == files[i];
          }
        }
        forall k | k in ContributedKeys(init)
          ensures k in ContributedKeys(files)
        {
          var i :| 0 <= i < |init| && init[i].Some? && k in init[i].value;
          assert files[i] == init[i];
        }
      }
    }
  }

  /** Folding a list in two parts is folding the second part into the result of the first. */
  lemma {:induction false} FoldAppend(seed: Env, a: seq<Option<Env>>, b: seq<Option<Env>>, exempt: set<string>)
    ensures FoldFiles(seed, a + b, exempt) == FoldFiles(FoldFiles(seed, a, exempt), b, exempt)
  {
    if b == [] {
      assert a + b == a;
    } else {
      var n := |b| - 1;
      assert (a + b)[..|a + b| - 1] == a + b[..n];
      assert (a + b)[|a + b| - 1] == b[n];
      FoldAppend(seed, a, b[..n], exempt);
    }
  }

  /** A file that contributes no key, missing or unreadable or empty, leaves the merge unchanged. */
  lemma SilentFileChangesNothing(files: seq<Option<Env>>, priority: Option<Option<Env>>, i: nat, silent: Option<Env>)
    requires i <= |files|
    requires silent.None? || silent.value == map[]
    ensures MergedMap(files[..i] + [silent] + files[i..], priority) == MergedMap(files, priority)
  {
    var p := PriorityVars(priority);
    var a, b := files[..i], files[i..];
    assert files == a + b;
    FoldAppend(p, a + [silent], b, p.Keys);
    FoldAppend(p, a, b, p.Keys);
    assert (a + [silent])[..|a|] == a;
    assert FoldFiles(p, a + [silent], p.Keys) == FoldFiles(p, a, p.Keys);
  }

  /**
    At the level of paths: dropping a regular file that is missing or whose
    read fails does not change the merged map, and nothing reports the failure.
  */
  lemma UnreadableFileChangesNothing(files: seq<FileState>, priorityFile: Option<FileState>, i: nat)
    requires i < |files|
    requires files[i].Missing? || Read(files[i]).Err?
    ensures MergedMap(Loaded(files), LoadedPriority(priorityFile))
         == MergedMap(Loaded(files[..i] + files[i + 1..]), LoadedPriority(priorityFile))
  {
    var rest := files[..i] + files[i + 1..];
    var loaded := Loaded(files);
    assert loaded == Loaded(rest)[..i] + [Contribution(files[i])] + Loaded(rest)[i..];
    SilentFileChangesNothing(Loaded(rest), LoadedPriority(priorityFile), i, Contribution(files[i]));
  }

  /**
    An absent priority argument, or a priority file that is missing or fails
    to read, exempts nothing: the merge is plain "last write wins".
  */
  lemma NoPriorityIsLastWins(files: seq<FileState>, priorityFile: Option<FileState>)
    requires priorityFile.None? || priorityFile.value.Missing? || Read(priorityFile.value).Err?
    ensures MergedMap(Loaded(files), LoadedPriority(priorityFile)) == LastWins(Loaded(files))
  {
    var p := PriorityVars(LoadedPriority(priorityFile));
    assert p == map[];
    assert p.Keys == {};
    FoldWithoutExemptions(Loaded(files));
  }

  lemma {:induction false} FoldWithoutExemptions(files: seq<Option<Env>>)
    ensures FoldFiles(map[], files, {}) == LastWins(files)
  {
    if files != [] {
      FoldWithoutExemptions(files[..|files| - 1]);
      if files[|files| - 1].Some? {
        var vars := files[|files| - 1].value;
        assert vars - {} == vars;
      }
    }
  }

  /** When no file contributes a key, the output text is empty. */
  lemma NothingToMergeIsEmpty(files: seq<Option<Env>>, priority: Option<Option<Env>>, order: seq<string>)
    requires PriorityVars(priority) == map[]
    requires forall i :: 0 <= i < |files| ==> files[i].None? || files[i].value == map[]
    requires IsOrdering(order, MergedMap(files, priority).Keys)
    ensures MergedMap(files, priority) == map[]
    ensures Render(MergedMap(files, priority), order) == ""
  {
    MergedKeys(files, priority);
    assert ContributedKeys(files) == {};
    RenderEmptyIff(MergedMap(files, priority), order);
  }
}
