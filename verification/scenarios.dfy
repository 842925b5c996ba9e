/**
  The scenarios of tests/lib_test.rs, stated over the model. The maps below
  are the ones implied by the expected outputs in tests/lib_test.rs for
  env1.env, env2.env and priority.env.
*/
module Scenarios {
  import opened Wrappers
  import opened EnvFile
  import opened Merge

  const Env1Items: seq<Item> := [Pair("FOO", "bar"), Pair("BAZ", "qux"), Pair("COMMON", "value1")]
  const Env2Items: seq<Item> := [Pair("FOO", "override"), Pair("COMMON", "value2"), Pair("NEW_VAR", "new_value")]
  const PriorityItems: seq<Item> :=
    [Pair("FOO", "priority"), Pair("BAZ", "priority_baz"), Pair("KEEP", "this_value")]

  const Env1: Env := map["FOO" := "bar", "BAZ" := "qux", "COMMON" := "value1"]
  const Env2: Env := map["FOO" := "override", "COMMON" := "value2", "NEW_VAR" := "new_value"]
  const PriorityEnv: Env := map["FOO" := "priority", "BAZ" := "priority_baz", "KEEP" := "this_value"]

  /** Reading env1 gives its three pairs; an empty or a missing file gives the empty map. */
  lemma ReadScenarios()
    ensures Read(Present(Env1Items)) == Ok(Env1)
    ensures Read(Present([])) == Ok(map[])
    ensures Read(Missing) == Ok(map[])
  {
    ThreePairs("FOO", "bar", "BAZ", "qux", "COMMON", "value1");
  }

  /** Reading three accepted pairs inserts them in order. */
  lemma ThreePairs(k1: string, v1: string, k2: string, v2: string, k3: string, v3: string)
    ensures Read(Present([Pair(k1, v1), Pair(k2, v2), Pair(k3, v3)])) == Ok(map[k1 := v1][k2 := v2][k3 := v3])
  {
    var items := [Pair(k1, v1), Pair(k2, v2), Pair(k3, v3)];
    assert WellFormed(items);
    assert FirstMalformed(items) == None;
    assert items[..2] == [Pair(k1, v1), Pair(k2, v2)];
    assert items[..2][..1] == [Pair(k1, v1)];
    assert items[..2][..1][..0] == [];
    assert Inserted([Pair(k1, v1)]) == map[k1 := v1];
    assert Inserted(items[..2]) == map[k1 := v1][k2 := v2];
  }

  /** Two files fold the first, then the second. */
  lemma TwoFiles(a: Env, b: Env, priority: Option<Option<Env>>)
    ensures
      var p := PriorityVars(priority);
      MergedMap([Some(a), Some(b)], priority) == p + (a - p.Keys) + (b - p.Keys)
  {
    var p := PriorityVars(priority);
    var files := [Some(a), Some(b)];
    assert files[..1] == [Some(a)];
    assert files[..1][..0] == [];
    assert FoldFiles(p, [Some(a)], p.Keys) == p + (a - p.Keys);
    assert FoldFiles(p, files, p.Keys) == Absorb(p + (a - p.Keys), b, p.Keys);
  }

  /** Without priority, env2 overrides env1 on the keys they share. */
  lemma BasicScenario()
    ensures MergedMap([Some(Env1), Some(Env2)], None)
         == map["BAZ" := "qux", "COMMON" := "value2", "FOO" := "override", "NEW_VAR" := "new_value"]
  {
    TwoFiles(Env1, Env2, None);
    assert PriorityVars(None).Keys == {};
  }

  /** With the priority file, its keys keep their values and env2 still wins on the others. */
  lemma PriorityScenario()
    ensures MergedMap([Some(Env1), Some(Env2)], Some(Some(PriorityEnv)))
         == map["FOO" := "priority", "BAZ" := "priority_baz", "COMMON" := "value2",
                "NEW_VAR" := "new_value", "KEEP" := "this_value"]
  {
    TwoFiles(Env1, Env2, Some(Some(PriorityEnv)));
  }

  /** An empty file, or a missing one, after env1 leaves env1's own values. */
  lemma SilentSecondFileScenario(second: FileState)
    requires second == Present([]) || second == Missing
    ensures MergedMap(Loaded([Present(Env1Items), second]), None) == Env1
  {
    ReadScenarios();
    var loaded := Loaded([Present(Env1Items), second]);
    assert loaded == [Some(Env1), Some(map[])];
    TwoFiles(Env1, map[], None);
    assert PriorityVars(None).Keys == {};
  }
}
