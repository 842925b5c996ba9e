/**
  Reading one `.env` file (`read_env_file` in src/lib.rs).

  The dotenv line parser is not part of this model: what it yields for a path
  is given as a `FileState`, the sequence of items its iterator produces in
  file order. The reader then inserts the pairs one by one into a map, so a
  later definition of a key replaces an earlier one, and the first item the
  parser rejects aborts the read.
*/
module EnvFile {
  import opened Wrappers

  /** A definition mapping: variable name to value. */
  type Env = map<string, string>

  /** One item of the parser's iterator: a parsed pair, or a line it rejects. */
  datatype Item = Pair(key: string, value: string) | Malformed

  /** What the file system and the dotenv parser yield for one path. */
  datatype FileState =
    | Missing                    // the path does not exist
    | Unopenable                 // the path exists but the parser cannot open it
    | Present(items: seq<Item>)  // the parser's items, in file order

  datatype ReadError =
    | CannotOpen          // the parser could not open the file
    | BadLine(index: nat) // the item at this position was rejected

  /** True when the parser accepted every item. */
  predicate WellFormed(items: seq<Item>)
  {
    forall i :: 0 <= i < |items| ==> items[i].Pair?
  }

  /** True when `k` is defined by some item. */
  predicate DefinesKey(items: seq<Item>, k: string)
  {
    exists i :: 0 <= i < |items| && items[i].Pair? && items[i].key == k
  }

  /** The map obtained by inserting the pairs of `items` in order. */
  function Inserted(items: seq<Item>): Env
  {
    if items == [] then map[]
    else
      var before := Inserted(items[..|items| - 1]);
      match items[|items| - 1]
      case Pair(k, v) => before[k := v]
      case Malformed => before
  }

  /** The position of the first rejected item, if there is one. */
  function FirstMalformed(items: seq<Item>): (r: Option<nat>)
    ensures r.None? <==> WellFormed(items)
    ensures r.Some? ==> r.value < |items| && items[r.value].Malformed?
    ensures r.Some? ==> forall j :: 0 <= j < r.value ==> items[j].Pair?
  {
    if items == [] then None
    else if items[0].Malformed? then Some(0)
    else
      match FirstMalformed(items[1..])
      case None => None
      case Some(i) => Some(i + 1)
  }

  /** What reading a file gives: a missing file is an empty map, not an error. */
  function Read(f: FileState): (r: Result<Env, ReadError>)
    ensures f.Missing? ==> r == Ok(map[])
    ensures f.Unopenable? ==> r == Err(CannotOpen)
    ensures f.Present? ==> (r.Ok? <==> WellFormed(f.items))
    ensures f.Present? && r.Err? ==>
      r.error.BadLine? && r.error.index < |f.items| && f.items[r.error.index].Malformed? &&
      forall j :: 0 <= j < r.error.index ==> f.items[j].Pair?
  {
    match f
    case Missing => Ok(map[])
    case Unopenable => Err(CannotOpen)
    case Present(items) =>
      match FirstMalformed(items)
      case Some(i) => Err(BadLine(i))
      case None => Ok(Inserted(items))
  }

  /** `read_env_file`: insert each parsed pair in turn; stop at the first rejected item. */
  method ReadEnvFile(f: FileState) returns (r: Result<Env, ReadError>)
    ensures r == Read(f)
    ensures r.Ok? && f.Present? ==> r.value == Inserted(f.items)
  {
    var vars: Env := map[];
    if !f.Missing? {
      if f.Unopenable? {
        return Err(CannotOpen);
      }
      var items := f.items;
      var i := 0;
      while i < |items|
        invariant 0 <= i <= |items|
        invariant forall j :: 0 <= j < i ==> items[j].Pair?
        invariant vars == Inserted(items[..i])
      {
        match items[i]
        case Malformed =>
          return Err(BadLine(i));
        case Pair(k, v) =>
          assert items[..i + 1][..i] == items[..i];
          vars := vars[k := v];
        i := i + 1;
      }
      assert items[..i] == items;
    }
    return Ok(vars);
  }

  /** Exactly the keys of the accepted pairs end up in the map. */
  lemma {:induction false} InsertedKeys(items: seq<Item>, k: string)
    ensures k in Inserted(items) <==> DefinesKey(items, k)
  {
    if items != [] {
      var init := items[..|items| - 1];
      InsertedKeys(init, k);
      if DefinesKey(items, k) && !DefinesKey(init, k) {
        var i :| 0 <= i < |items| && items[i].Pair? && items[i].key == k;
        assert i == |items| - 1;
      }
      if DefinesKey(init, k) {
        var i :| 0 <= i < |init| && init[i].Pair? && init[i].key == k;
        assert items[i] == init[i];
      }
    }
  }

  /** Within one file the last definition of a key wins. */
  lemma {:induction false} InsertedLastWins(items: seq<Item>, i: nat)
    requires i < |items| && items[i].Pair?
    requires forall j :: i < j < |items| ==> !(items[j].Pair? && items[j].key == items[i].key)
    ensures items[i].key in Inserted(items)
    ensures Inserted(items)[items[i].key] == items[i].value
  {
    if i < |items| - 1 {
      var init := items[..|items| - 1];
      InsertedLastWins(init, i);
    }
  }
}
