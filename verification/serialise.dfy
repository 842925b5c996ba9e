/**
  Rendering the merged map as text (the end of `merge_env_files` in src/lib.rs).

  Each entry becomes the line `KEY=VALUE`; the lines are joined with a single
  newline and no trailing newline. The order of the lines is the hash map's
  iteration order, which is unspecified: here it is any `order` that lists
  every key exactly once, and the lemmas say what does not depend on it.
*/
module Serialise {
  import opened EnvFile

  /** One output line. */
  function Line(key: string, value: string): string
  {
    key + "=" + value
  }

  /** True when `order` lists every key of `keys` exactly once and nothing else. */
  ghost predicate IsOrdering(order: seq<string>, keys: set<string>)
  {
    && (forall i, j :: 0 <= i < j < |order| ==> order[i] != order[j])
    && (forall k :: k in order <==> k in keys)
  }

  /** The lines of `m` in the given key order. */
  function Lines(m: Env, order: seq<string>): seq<string>
    requires forall k :: k in order ==> k in m
  {
    seq(|order|, i requires 0 <= i < |order| => Line(order[i], m[order[i]]))
  }

  /** The set of lines `{KEY=VALUE | KEY in m}`. */
  function LineSet(m: Env): set<string>
  {
    set k | k in m :: Line(k, m[k])
  }

  /** `lines.join("\n")`. */
  function Join(lines: seq<string>): string
  {
    if |lines| == 0 then ""
    else if |lines| == 1 then lines[0]
    else lines[0] + "\n" + Join(lines[1..])
  }

  /** `s.split('\n')`: the pieces between newlines; the empty string is one empty piece. */
  function Split(s: string): (parts: seq<string>)
    ensures |parts| >= 1
  {
    if s == [] then [""]
    else
      var rest := Split(s[1..]);
      if s[0] == '\n' then [""] + rest
      else [[s[0]] + rest[0]] + rest[1..]
  }

  /** The rendered map. */
  function Render(m: Env, order: seq<string>): string
    requires forall k :: k in order ==> k in m
  {
    Join(Lines(m, order))
  }

  /**
    `env_map.into_iter()`: the keys of `m` in the hash map's iteration order,
    which this model leaves open (any key may come next).
  */
  method IterationOrder(m: Env) returns (order: seq<string>)
    ensures IsOrdering(order, m.Keys)
  {
    order := [];
    var remaining := m.Keys;
    while remaining != {}
      invariant remaining <= m.Keys
      invariant forall k :: k in order <==> k in m.Keys - remaining
      invariant forall i, j :: 0 <= i < j < |order| ==> order[i] != order[j]
      decreases remaining
    {
      var k :| k in remaining;
      assert k !in order;
      order := order + [k];
      remaining := remaining - {k};
    }
  }

  /** No piece of a split contains a newline. */
  lemma {:induction false} SplitPiecesNewlineFree(s: string)
    ensures forall i :: 0 <= i < |Split(s)| ==> '\n' !in Split(s)[i]
  {
    if s != [] {
      SplitPiecesNewlineFree(s[1..]);
    }
  }

  /** Splitting then joining gives back the text. */
  lemma {:induction false} JoinSplit(s: string)
    ensures Join(Split(s)) == s
  {
    if s != [] {
      var rest := Split(s[1..]);
      JoinSplit(s[1..]);
      if s[0] == '\n' {
        assert Split(s)[1..] == rest;
      } else {
        var parts := Split(s);
        if |rest| == 1 {
          assert parts == [[s[0]] + rest[0]];
        } else {
          assert parts[1..] == rest[1..];
          assert Join(rest) == rest[0] + "\n" + Join(rest[1..]);
        }
      }
    }
  }

  /** Splitting a newline-free prefix glued to `b` extends only the first piece of `b`. */
  lemma {:induction false} SplitPrefix(a: string, b: string)
    requires '\n' !in a
    ensures Split(a + b) == [a + Split(b)[0]] + Split(b)[1..]
  {
    if a == [] {
      assert a + b == b;
      assert a + Split(b)[0] == Split(b)[0];
      assert Split(b) == [Split(b)[0]] + Split(b)[1..];
    } else {
      assert '\n' !in a[1..] by {
        forall i | 0 <= i < |a[1..]| ensures a[1..][i] != '\n' {
          assert a[1..][i] == a[i + 1];
        }
      }
      SplitPrefix(a[1..], b);
      assert (a + b)[0] == a[0] != '\n';
      assert (a + b)[1..] == a[1..] + b;
      var rest := Split(a[1..] + b);
      assert rest == [a[1..] + Split(b)[0]] + Split(b)[1..];
      assert Split(a + b) == [[a[0]] + rest[0]] + rest[1..];
      assert [a[0]] + (a[1..] + Split(b)[0]) == a + Split(b)[0];
    }
  }

  /** Joining newline-free lines and splitting again gives back the lines. */
  lemma {:induction false} SplitJoin(lines: seq<string>)
    requires |lines| >= 1
    requires forall i :: 0 <= i < |lines| ==> '\n' !in lines[i]
    ensures Split(Join(lines)) == lines
  {
    if |lines| == 1 {
      SplitPrefix(lines[0], "");
      assert lines[0] + "" == lines[0];
    } else {
      SplitJoin(lines[1..]);
      var b := Join(lines[1..]);
      SplitPrefix(lines[0], "\n" + b);
      assert lines[0] + "\n" + b == lines[0] + ("\n" + b);
      assert ("\n" + b)[0] == '\n';
      assert ("\n" + b)[1..] == b;
      assert Split("\n" + b) == [""] + Split(b);
      assert lines[0] + "" == lines[0];
      assert lines == [lines[0]] + lines[1..];
    }
  }

  /** The text is empty exactly when the map is: every line holds at least `=`. */
  lemma RenderEmptyIff(m: Env, order: seq<string>)
    requires IsOrdering(order, m.Keys)
    ensures Render(m, order) == "" <==> m == map[]
  {
  }

  /** The lines of the text are exactly `{KEY=VALUE | KEY in m}`, one per key, whatever the order. */
  lemma RenderedLines(m: Env, order: seq<string>)
    requires IsOrdering(order, m.Keys)
    requires m != map[]
    requires forall k :: k in m ==> '\n' !in k && '\n' !in m[k]
    ensures Split(Render(m, order)) == Lines(m, order)
    ensures |Lines(m, order)| == |m|
    ensures forall l :: l in Lines(m, order) <==> l in LineSet(m)
  {
    var lines := Lines(m, order);
    var k0 :| k0 in m;
    assert k0 in order;
    forall i | 0 <= i < |lines|
      ensures '\n' !in lines[i]
    {
      assert lines[i] == order[i] + "=" + m[order[i]];
    }
    SplitJoin(lines);
    OrderingSize(order, m.Keys);
    forall l | l in LineSet(m)
      ensures l in lines
    {
      var k :| k in m && l == Line(k, m[k]);
      var i :| 0 <= i < |order| && order[i] == k;
      assert lines[i] == l;
    }
  }

  /** An ordering of a set is as long as the set is large. */
  lemma {:induction false} OrderingSize(order: seq<string>, keys: set<string>)
    requires IsOrdering(order, keys)
    ensures |order| == |keys|
  {
    if order != [] {
      var last := order[|order| - 1];
      var init := order[..|order| - 1];
      assert forall k :: k in init <==> k in keys - {last} by {
        forall k ensures k in init <==> k in keys - {last} {
          if k in init {
            var i :| 0 <= i < |init| && init[i] == k;
            assert order[i] == k;
          }
          if k in keys - {last} {
            var i :| 0 <= i < |order| && order[i] == k;
            assert i != |order| - 1;
            assert init[i] == k;
          }
        }
      }
      OrderingSize(init, keys - {last});
    } else {
      assert forall k :: k !in keys;
      assert keys == {};
    }
  }

  /**
    Two renderings of the same map, in any two iteration orders, have the same
    lines up to order: the same multiset of pieces after splitting at `\n`.
    This holds even when values span several lines.
  */
  lemma RenderOrderIrrelevant(m: Env, order1: seq<string>, order2: seq<string>)
    requires IsOrdering(order1, m.Keys) && IsOrdering(order2, m.Keys)
    ensures multiset(Split(Render(m, order1))) == multiset(Split(Render(m, order2)))
  {
    OrderingSize(order1, m.Keys);
    OrderingSize(order2, m.Keys);
    if m != map[] {
      var k :| k in m;
      assert k in order1 && k in order2;
      PermutedLines(m, order1, order2, m.Keys);
      SplitJoinPieces(Lines(m, order1));
      SplitJoinPieces(Lines(m, order2));
      SplitAllPermuted(Lines(m, order1), Lines(m, order2));
    }
  }

  /** The pieces of every line, one line after another. */
  function SplitAll(lines: seq<string>): seq<string>
  {
    if lines == [] then [] else Split(lines[0]) + SplitAll(lines[1..])
  }

  /** Splitting a text that starts with `c`. */
  lemma SplitCons(c: char, t: string)
    ensures Split([c] + t)
         == if c == '\n' then [""] + Split(t) else [[c] + Split(t)[0]] + Split(t)[1..]
  {
    assert ([c] + t)[0] == c;
    assert ([c] + t)[1..] == t;
  }

  /** Splitting at a newline separates the pieces of both sides. */
  lemma {:induction false} SplitNewline(a: string, b: string)
    ensures Split(a + "\n" + b) == Split(a) + Split(b)
  {
    if a == [] {
      assert a + "\n" + b == ['\n'] + b;
      SplitCons('\n', b);
    } else {
      var u := a[1..] + "\n" + b;
      SplitNewline(a[1..], b);
      assert a + "\n" + b == [a[0]] + u;
      assert a == [a[0]] + a[1..];
      SplitConsBoth(a[0], u, a[1..], Split(b));
    }
  }

  /** Putting the same character in front of two texts keeps their splits related by a suffix. */
  lemma SplitConsBoth(c: char, u: string, t: string, tail: seq<string>)
    requires Split(u) == Split(t) + tail
    ensures Split([c] + u) == Split([c] + t) + tail
  {
    SplitCons(c, u);
    SplitCons(c, t);
    if c == '\n' {
      ConsAppend("", Split(t), tail);
    } else {
      ExtendFirst([c], Split(t), tail);
    }
  }

  /** Putting an element in front of a concatenation. */
  lemma ConsAppend<T>(x: T, head: seq<T>, tail: seq<T>)
    ensures [x] + (head + tail) == ([x] + head) + tail
  {
  }

  /** Extending the first element of a concatenation extends the first element of its left part. */
  lemma ExtendFirst<T>(p: seq<T>, head: seq<seq<T>>, tail: seq<seq<T>>)
    requires |head| >= 1
    ensures [p + (head + tail)[0]] + (head + tail)[1..] == ([p + head[0]] + head[1..]) + tail
  {
    assert (head + tail)[0] == head[0];
    assert (head + tail)[1..] == head[1..] + tail;
  }

  /** Splitting joined lines gives the pieces of each line in turn. */
  lemma {:induction false} SplitJoinPieces(lines: seq<string>)
    requires |lines| >= 1
    ensures Split(Join(lines)) == SplitAll(lines)
  {
    if |lines| == 1 {
      assert lines[1..] == [];
      assert Split(lines[0]) + [] == Split(lines[0]);
    } else {
      SplitJoinPieces(lines[1..]);
      SplitNewline(lines[0], Join(lines[1..]));
    }
  }

  lemma {:induction false} SplitAllAppend(a: seq<string>, b: seq<string>)
    ensures SplitAll(a + b) == SplitAll(a) + SplitAll(b)
  {
    if a == [] {
      assert a + b == b;
    } else {
      assert (a + b)[0] == a[0];
      assert (a + b)[1..] == a[1..] + b;
      SplitAllAppend(a[1..], b);
    }
  }

  /** Lines that are permutations of each other split into permuted pieces. */
  lemma {:induction false} SplitAllPermuted(lines1: seq<string>, lines2: seq<string>)
    requires multiset(lines1) == multiset(lines2)
    ensures multiset(SplitAll(lines1)) == multiset(SplitAll(lines2))
    decreases |lines1|
  {
    if lines1 == [] {
      assert |lines2| == |multiset(lines2)| == 0;
    } else {
      var x := lines1[0];
      assert x in multiset(lines2);
      var j :| 0 <= j < |lines2| && lines2[j] == x;
      var rest2 := lines2[..j] + lines2[j + 1..];
      RemoveMatching(lines1, lines2, j);
      SplitAllPermuted(lines1[1..], rest2);
      SplitAllWithout(lines2, j);
      assert SplitAll(lines1) == Split(x) + SplitAll(lines1[1..]);
    }
  }

  /** Removing the same line from two permutations leaves permutations. */
  lemma RemoveMatching(lines1: seq<string>, lines2: seq<string>, j: nat)
    requires multiset(lines1) == multiset(lines2)
    requires lines1 != [] && j < |lines2| && lines2[j] == lines1[0]
    ensures multiset(lines1[1..]) == multiset(lines2[..j] + lines2[j + 1..])
  {
    var x, a, b := lines1[0], lines2[..j], lines2[j + 1..];
    assert lines2 == a + [x] + b;
    assert lines1 == [x] + lines1[1..];
    assert multiset(lines1) == multiset{x} + multiset(lines1[1..]);
    assert multiset(lines2) == multiset(a) + multiset{x} + multiset(b);
    assert multiset(a + b) == multiset(a) + multiset(b);
    calc {
      multiset(lines1[1..]);
      (multiset{x} + multiset(lines1[1..])) - multiset{x};
      (multiset{x} + multiset(a) + multiset(b)) - multiset{x};
      multiset(a + b);
    }
  }

  /** The pieces of all lines are those of the lines without position `j`, plus that line's. */
  lemma SplitAllWithout(lines: seq<string>, j: nat)
    requires j < |lines|
    ensures multiset(SplitAll(lines))
         == multiset(SplitAll(lines[..j] + lines[j + 1..])) + multiset(Split(lines[j]))
  {
    var x, a, b := lines[j], lines[..j], lines[j + 1..];
    AroundIndex(lines, j);
    SplitAllAppend(a + [x], b);
    SplitAllAppend(a, [x]);
    SplitAllAppend(a, b);
    assert [x][1..] == [];
    assert SplitAll([x]) == Split(x);
    var pa, px, pb := SplitAll(a), Split(x), SplitAll(b);
    assert SplitAll(lines) == pa + px + pb;
    assert SplitAll(a + b) == pa + pb;
    MultisetOfThree(pa, px, pb);
  }

  lemma MultisetOfThree<T>(p: seq<T>, q: seq<T>, r: seq<T>)
    ensures multiset(p + q + r) == multiset(p + r) + multiset(q)
  {
  }

  /** A sequence is its part before `j`, its element at `j` and its part after. */
  lemma AroundIndex<T>(s: seq<T>, j: nat)
    requires j < |s|
    ensures s == s[..j] + [s[j]] + s[j + 1..]
  {
  }

  /** Lines of two orderings of the same keys are permutations of each other. */
  lemma {:induction false} PermutedLines(m: Env, order1: seq<string>, order2: seq<string>, keys: set<string>)
    requires keys <= m.Keys
    requires IsOrdering(order1, keys) && IsOrdering(order2, keys)
    ensures multiset(Lines(m, order1)) == multiset(Lines(m, order2))
    decreases |order1|
  {
    OrderingSize(order1, keys);
    OrderingSize(order2, keys);
    if order1 != [] {
      var n := |order1| - 1;
      var x := order1[n];
      assert x in order1;
      assert x in order2;
      var j :| 0 <= j < |order2| && order2[j] == x;
      DropFromOrdering(order1, keys, n);
      DropFromOrdering(order2, keys, j);
      PermutedLines(m, order1[..n] + order1[n + 1..], order2[..j] + order2[j + 1..], keys - {x});
      LinesWithout(m, order1, n);
      LinesWithout(m, order2, j);
    }
  }

  /** The lines of an order are those of the order without position `j`, plus that position's line. */
  lemma LinesWithout(m: Env, order: seq<string>, j: nat)
    requires forall k :: k in order ==> k in m
    requires j < |order|
    ensures multiset(Lines(m, order))
         == multiset(Lines(m, order[..j] + order[j + 1..])) + multiset{Line(order[j], m[order[j]])}
  {
    var a, b := order[..j], order[j + 1..];
    assert order == a + [order[j]] + b;
    LinesAppend(m, a + [order[j]], b);
    LinesAppend(m, a, [order[j]]);
    LinesAppend(m, a, b);
  }

  /** Removing one position from an ordering gives an ordering of the other keys. */
  lemma DropFromOrdering(order: seq<string>, keys: set<string>, j: nat)
    requires IsOrdering(order, keys) && j < |order|
    ensures IsOrdering(order[..j] + order[j + 1..], keys - {order[j]})
  {
  }

  lemma LinesAppend(m: Env, o1: seq<string>, o2: seq<string>)
    requires forall k :: k in o1 + o2 ==> k in m
    ensures Lines(m, o1 + o2) == Lines(m, o1) + Lines(m, o2)
  {
  }
}
