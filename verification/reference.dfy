/** A reference description of a filter run that does not thread a mutable path:
    the leaves of the data in depth-first, left-to-right order, the ones among them
    that are inspected, and the matches and reports each inspected leaf yields. */
module Reference {
  import opened Types
  import opened Paths
  import opened PathMatcher
  import opened Engine

  /** A scalar leaf together with the full list of keys leading to it. */
  datatype Visit = Visit(path: seq<Key>, value: Scalar)

  /** Every leaf below entries `i..` of `node`, depth-first and left to right, each with
      `prefix` followed by the keys down to it. Nothing is skipped. */
  function Leaves(node: Tree, i: nat, prefix: seq<Key>): seq<Visit>
    requires node.Node? && i <= |node.entries|
    decreases node, |node.entries| - i
  {
    if i == |node.entries| then []
    else
      var key := node.entries[i].0;
      var value := node.entries[i].1;
      (if value.Node? then Leaves(value, 0, prefix + [key]) else [Visit(prefix + [key], value.value)])
      + Leaves(node, i + 1, prefix)
  }

  /** With restrictions configured, only a leaf whose dotted path is literally one of
      them is inspected. */
  predicate Allowed(restrictions: seq<string>, path: string)
  {
    restrictions == [] || path in restrictions
  }

  /** A leaf below a position `from` keys deep is inspected when none of the paths
      leading to it from there is an exception and its own path is allowed. */
  predicate Inspectable(exceptions: seq<string>, restrictions: seq<string>, preg: Preg, path: seq<Key>, from: nat)
  {
    && (forall j :: from < j <= |path| ==> !IsException(exceptions, preg, Join(path[..j])))
    && Allowed(restrictions, Join(path))
  }

  /** The inspectable leaves of `vs`, in their order. */
  function Select(vs: seq<Visit>, exceptions: seq<string>, restrictions: seq<string>, preg: Preg, from: nat): seq<Visit>
  {
    if vs == [] then []
    else
      (if Inspectable(exceptions, restrictions, preg, vs[0].path, from) then [vs[0]] else [])
      + Select(vs[1..], exceptions, restrictions, preg, from)
  }

  /** The structural form of the same selection, following the shape of the data:
      an excepted key contributes nothing at all, a nested array contributes what is
      selected inside it, a scalar contributes itself if its path is allowed. */
  function Inspected(exceptions: seq<string>, restrictions: seq<string>, preg: Preg, node: Tree, i: nat, prefix: seq<Key>): seq<Visit>
    requires node.Node? && i <= |node.entries|
    decreases node, |node.entries| - i
  {
    if i == |node.entries| then []
    else
      var key := node.entries[i].0;
      var value := node.entries[i].1;
      var p := prefix + [key];
      (if IsException(exceptions, preg, Join(p)) then []
       else if value.Node? then Inspected(exceptions, restrictions, preg, value, 0, p)
       else if Allowed(restrictions, Join(p)) then [Visit(p, value.value)]
       else [])
      + Inspected(exceptions, restrictions, preg, node, i + 1, prefix)
  }

  /** The filters from position `j` on that accept `v`, in registration order. */
  function HitMatches(filters: seq<Filter>, v: Scalar, j: nat): seq<Filter>
    requires j <= |filters|
    decreases |filters| - j
  {
    if j == |filters| then []
    else (if filters[j].execute(v) then [filters[j]] else []) + HitMatches(filters, v, j + 1)
  }

  /** The reports those filters produce: one each, keyed by the filter's position. */
  function HitReports(filters: seq<Filter>, v: Scalar, j: nat): seq<Report>
    requires j <= |filters|
    decreases |filters| - j
  {
    if j == |filters| then []
    else (if filters[j].execute(v) then [Report(j, v, [filters[j]])] else []) + HitReports(filters, v, j + 1)
  }

  /** All matches over a list of inspected leaves, leaf by leaf. */
  function SpecMatches(filters: seq<Filter>, vs: seq<Visit>): seq<Filter>
  {
    if vs == [] then [] else HitMatches(filters, vs[0].value, 0) + SpecMatches(filters, vs[1..])
  }

  /** All reports over a list of inspected leaves, leaf by leaf. */
  function SpecReports(filters: seq<Filter>, vs: seq<Visit>): seq<Report>
  {
    if vs == [] then [] else HitReports(filters, vs[0].value, 0) + SpecReports(filters, vs[1..])
  }

  lemma {:induction false} SpecAppend(filters: seq<Filter>, a: seq<Visit>, b: seq<Visit>)
    ensures SpecMatches(filters, a + b) == SpecMatches(filters, a) + SpecMatches(filters, b)
    ensures SpecReports(filters, a + b) == SpecReports(filters, a) + SpecReports(filters, b)
    decreases |a|
  {
    if a == [] {
      assert a + b == b;
    } else {
      assert (a + b)[0] == a[0];
      assert (a + b)[1..] == a[1..] + b;
      SpecAppend(filters, a[1..], b);
    }
  }

  lemma {:induction false} ApplyFiltersHits(m: Manager, v: Scalar, j: nat, acc: seq<Filter>)
    requires j <= |m.filters|
    ensures var r := ApplyFilters(m, v, j, acc);
      && r.matches == acc + HitMatches(m.filters, v, j)
      && r.manager.reports == m.reports + HitReports(m.filters, v, j)
    decreases |m.filters| - j
  {
    if j < |m.filters| {
      var f := m.filters[j];
      var hm, hr := HitMatches(m.filters, v, j + 1), HitReports(m.filters, v, j + 1);
      if f.execute(v) {
        var rep := Report(j, v, [f]);
        var m' := m.(reports := m.reports + [rep], impact := m.impact + f.impact);
        var r := ApplyFilters(m', v, j + 1, acc + [f]);
        assert ApplyFilters(m, v, j, acc) == r;
        assert r.matches == acc + [f] + hm && r.manager.reports == m.reports + [rep] + hr by {
          ApplyFiltersHits(m', v, j + 1, acc + [f]);
        }
        assert HitMatches(m.filters, v, j) == [f] + hm;
        assert HitReports(m.filters, v, j) == [rep] + hr;
        ConcatAssoc(acc, [f], hm);
        ConcatAssoc(m.reports, [rep], hr);
      } else {
        assert ApplyFilters(m, v, j, acc) == ApplyFilters(m, v, j + 1, acc);
        assert HitMatches(m.filters, v, j) == hm;
        assert HitReports(m.filters, v, j) == hr;
        ApplyFiltersHits(m, v, j + 1, acc);
      }
    }
  }

  /** The inner filter loop yields exactly the reference matches and reports for one
      value, and the weight of those matches. */
  lemma ApplyFiltersIsHits(m: Manager, v: Scalar, acc: seq<Filter>)
    ensures var r := ApplyFilters(m, v, 0, acc);
      && r.matches == acc + HitMatches(m.filters, v, 0)
      && r.manager == m.(reports := m.reports + HitReports(m.filters, v, 0),
                         impact := m.impact + SumImpact(HitMatches(m.filters, v, 0)))
  {
    var r := ApplyFilters(m, v, 0, acc);
    ApplyFiltersHits(m, v, 0, acc);
    assert r.matches[|acc|..] == HitMatches(m.filters, v, 0);
  }

  lemma ConcatAssoc<T>(a: seq<T>, b: seq<T>, c: seq<T>)
    ensures (a + b) + c == a + (b + c)
  {
  }

  /** What a walk over entries `i..` of `node` is claimed to yield: the matches and
      reports of the reference selection below the keys `prefix`. */
  ghost predicate WalkMatchesReference(m: Manager, preg: Preg, node: Tree, i: nat, prefix: seq<Key>, acc: seq<Filter>, r: Outcome)
    requires node.Node? && i <= |node.entries|
  {
    var vs := Inspected(m.exceptions, m.restrictions, preg, node, i, prefix);
    && r.matches == acc + SpecMatches(m.filters, vs)
    && r.manager.reports == m.reports + SpecReports(m.filters, vs)
  }

  /** Path bookkeeping, skipping and filtering together: walking entries `i..` of
      `node` with a leftover path whose first `lvl` keys are the keys above `node`
      appends to the match list and to the reports exactly what the reference
      selection yields, in the same order. */
  lemma {:induction false} RunFiltersFromIsReference(m: Manager, preg: Preg, node: Tree, i: nat, path: seq<Key>, lvl: nat, acc: seq<Filter>)
    requires node.Node? && i <= |node.entries|
    requires lvl <= |path|
    ensures WalkMatchesReference(m, preg, node, i, path[..lvl], acc, RunFiltersFrom(m, preg, node, i, path, lvl, acc))
    decreases node, |node.entries| - i, 1
  {
    if i < |node.entries| {
      var key := node.entries[i].0;
      var value := node.entries[i].1;
      var p := StepPath(path, lvl, key);
      if IsException(m.exceptions, preg, Join(p)) {
        SkippedKeyCase(m, preg, node, i, path, lvl, acc);
      } else if value.Node? {
        NestedKeyCase(m, preg, node, i, path, lvl, acc);
      } else if m.restrictions != [] && Join(p) !in m.restrictions {
        SkippedKeyCase(m, preg, node, i, path, lvl, acc);
      } else {
        LeafKeyCase(m, preg, node, i, path, lvl, acc);
      }
    }
  }

  /** A key that is excepted, or a scalar that the restrictions leave out. */
  lemma {:induction false} SkippedKeyCase(m: Manager, preg: Preg, node: Tree, i: nat, path: seq<Key>, lvl: nat, acc: seq<Filter>)
    requires node.Node? && i < |node.entries| && lvl <= |path|
    requires var p := path[..lvl] + [node.entries[i].0];
      || IsException(m.exceptions, preg, Join(p))
      || (!node.entries[i].1.Node? && m.restrictions != [] && Join(p) !in m.restrictions)
    ensures WalkMatchesReference(m, preg, node, i, path[..lvl], acc, RunFiltersFrom(m, preg, node, i, path, lvl, acc))
    decreases node, |node.entries| - i, 0
  {
    var prefix := path[..lvl];
    var p := StepPath(path, lvl, node.entries[i].0);
    assert p[..lvl] == prefix;
    assert RunFiltersFrom(m, preg, node, i, path, lvl, acc) == RunFiltersFrom(m, preg, node, i + 1, p, lvl, acc);
    assert Inspected(m.exceptions, m.restrictions, preg, node, i, prefix)
        == Inspected(m.exceptions, m.restrictions, preg, node, i + 1, prefix);
    RunFiltersFromIsReference(m, preg, node, i + 1, p, lvl, acc);
  }

  /** A nested array that is not excepted: its walk comes first, then the siblings. */
  lemma {:induction false} NestedKeyCase(m: Manager, preg: Preg, node: Tree, i: nat, path: seq<Key>, lvl: nat, acc: seq<Filter>)
    requires node.Node? && i < |node.entries| && lvl <= |path|
    requires node.entries[i].1.Node?
    requires !IsException(m.exceptions, preg, Join(path[..lvl] + [node.entries[i].0]))
    ensures WalkMatchesReference(m, preg, node, i, path[..lvl], acc, RunFiltersFrom(m, preg, node, i, path, lvl, acc))
    decreases node, |node.entries| - i, 0
  {
    var prefix := path[..lvl];
    var value := node.entries[i].1;
    var p := StepPath(path, lvl, node.entries[i].0);
    var exs, rs := m.exceptions, m.restrictions;
    var inner := Inspected(exs, rs, preg, value, 0, p);
    var rest := Inspected(exs, rs, preg, node, i + 1, prefix);
    var sub := RunFiltersFrom(m, preg, value, 0, p, lvl + 1, []);
    assert sub.matches == SpecMatches(m.filters, inner)
        && sub.manager.reports == m.reports + SpecReports(m.filters, inner)
        && sub.manager.exceptions == exs && sub.manager.restrictions == rs
        && sub.manager.filters == m.filters by {
      assert p[..lvl + 1] == p;
      RunFiltersFromIsReference(m, preg, value, 0, p, lvl + 1, []);
    }
    var r := RunFiltersFrom(sub.manager, preg, node, i + 1, p, lvl, acc + sub.matches);
    assert r.matches == acc + sub.matches + SpecMatches(m.filters, rest)
        && r.manager.reports == sub.manager.reports + SpecReports(m.filters, rest) by {
      assert p[..lvl] == prefix;
      RunFiltersFromIsReference(sub.manager, preg, node, i + 1, p, lvl, acc + sub.matches);
    }
    assert RunFiltersFrom(m, preg, node, i, path, lvl, acc) == r;
    assert Inspected(exs, rs, preg, node, i, prefix) == inner + rest;
    SpecAppend(m.filters, inner, rest);
    ConcatAssoc(acc, SpecMatches(m.filters, inner), SpecMatches(m.filters, rest));
    ConcatAssoc(m.reports, SpecReports(m.filters, inner), SpecReports(m.filters, rest));
  }

  /** An inspected scalar: its filter hits come first, then the siblings. */
  lemma {:induction false} LeafKeyCase(m: Manager, preg: Preg, node: Tree, i: nat, path: seq<Key>, lvl: nat, acc: seq<Filter>)
    requires node.Node? && i < |node.entries| && lvl <= |path|
    requires !node.entries[i].1.Node?
    requires var p := path[..lvl] + [node.entries[i].0];
      !IsException(m.exceptions, preg, Join(p)) && Allowed(m.restrictions, Join(p))
    ensures WalkMatchesReference(m, preg, node, i, path[..lvl], acc, RunFiltersFrom(m, preg, node, i, path, lvl, acc))
    decreases node, |node.entries| - i, 0
  {
    var prefix := path[..lvl];
    var v := node.entries[i].1.value;
    var p := StepPath(path, lvl, node.entries[i].0);
    var exs, rs := m.exceptions, m.restrictions;
    var hit := ApplyFilters(m, v, 0, acc);
    var here := [Visit(p, v)];
    var rest := Inspected(exs, rs, preg, node, i + 1, prefix);
    assert hit.matches == acc + SpecMatches(m.filters, here)
        && hit.manager.reports == m.reports + SpecReports(m.filters, here)
        && hit.manager.exceptions == exs && hit.manager.restrictions == rs
        && hit.manager.filters == m.filters by {
      ApplyFiltersIsHits(m, v, acc);
      assert SpecMatches(m.filters, here) == HitMatches(m.filters, v, 0);
      assert SpecReports(m.filters, here) == HitReports(m.filters, v, 0);
    }
    var r := RunFiltersFrom(hit.manager, preg, node, i + 1, p, lvl, hit.matches);
    assert r.matches == hit.matches + SpecMatches(m.filters, rest)
        && r.manager.reports == hit.manager.reports + SpecReports(m.filters, rest) by {
      assert p[..lvl] == prefix;
      RunFiltersFromIsReference(hit.manager, preg, node, i + 1, p, lvl, hit.matches);
    }
    assert RunFiltersFrom(m, preg, node, i, path, lvl, acc) == r;
    assert Inspected(exs, rs, preg, node, i, prefix) == here + rest;
    SpecAppend(m.filters, here, rest);
    ConcatAssoc(acc, SpecMatches(m.filters, here), SpecMatches(m.filters, rest));
    ConcatAssoc(m.reports, SpecReports(m.filters, here), SpecReports(m.filters, rest));
  }

  /** `run` appends exactly the reference reports for the inspected leaves and adds
      exactly their matches' weights; nothing that came before is dropped. */
  lemma RunIsReference(m: Manager, preg: Preg, data: seq<(Key, Tree)>)
    ensures var m' := Run(m, preg, data);
      var vs := Inspected(m.exceptions, m.restrictions, preg, Node(data), 0, []);
      && m'.reports == m.reports + SpecReports(m.filters, vs)
      && m'.impact == m.impact + SumImpact(SpecMatches(m.filters, vs))
  {
    var withData := m.(data := Some(data));
    var path: seq<Key> := [];
    assert path[..0] == [];
    RunFiltersFromIsReference(withData, preg, Node(data), 0, path, 0, []);
    assert [] + SpecMatches(m.filters, Inspected(m.exceptions, m.restrictions, preg, Node(data), 0, []))
        == SpecMatches(m.filters, Inspected(m.exceptions, m.restrictions, preg, Node(data), 0, []));
  }

  /** Two runs on one instance accumulate: the second run's reports follow the first's
      and the impact carries both runs' weights. */
  lemma RunTwiceAccumulates(m: Manager, preg: Preg, d1: seq<(Key, Tree)>, d2: seq<(Key, Tree)>)
    ensures var v1 := Inspected(m.exceptions, m.restrictions, preg, Node(d1), 0, []);
      var v2 := Inspected(m.exceptions, m.restrictions, preg, Node(d2), 0, []);
      var m2 := Run(Run(m, preg, d1), preg, d2);
      && m2.reports == m.reports + SpecReports(m.filters, v1) + SpecReports(m.filters, v2)
      && m2.impact == m.impact + SumImpact(SpecMatches(m.filters, v1)) + SumImpact(SpecMatches(m.filters, v2))
  {
    RunIsReference(m, preg, d1);
    RunIsReference(Run(m, preg, d1), preg, d2);
  }

  lemma {:induction false} SelectAppend(a: seq<Visit>, b: seq<Visit>, exs: seq<string>, rs: seq<string>, preg: Preg, from: nat)
    ensures Select(a + b, exs, rs, preg, from) == Select(a, exs, rs, preg, from) + Select(b, exs, rs, preg, from)
    decreases |a|
  {
    if a == [] {
      assert a + b == b;
    } else {
      assert (a + b)[0] == a[0];
      assert (a + b)[1..] == a[1..] + b;
      SelectAppend(a[1..], b, exs, rs, preg, from);
    }
  }

  /** A leaf is selected exactly when it is present and inspectable. */
  lemma {:induction false} SelectMembership(vs: seq<Visit>, exs: seq<string>, rs: seq<string>, preg: Preg, from: nat, v: Visit)
    ensures v in Select(vs, exs, rs, preg, from) <==> v in vs && Inspectable(exs, rs, preg, v.path, from)
    decreases |vs|
  {
    if vs != [] {
      SelectMembership(vs[1..], exs, rs, preg, from, v);
      assert vs == [vs[0]] + vs[1..];
    }
  }

  /** Selection keeps everything when everything is inspectable. */
  lemma {:induction false} SelectAll(vs: seq<Visit>, exs: seq<string>, rs: seq<string>, preg: Preg, from: nat)
    requires forall v :: v in vs ==> Inspectable(exs, rs, preg, v.path, from)
    ensures Select(vs, exs, rs, preg, from) == vs
    decreases |vs|
  {
    if vs != [] {
      assert vs[0] in vs;
      SelectAll(vs[1..], exs, rs, preg, from);
      assert vs == [vs[0]] + vs[1..];
    }
  }

  lemma {:induction false} SelectNone(vs: seq<Visit>, exs: seq<string>, rs: seq<string>, preg: Preg, from: nat)
    requires forall v :: v in vs ==> !Inspectable(exs, rs, preg, v.path, from)
    ensures Select(vs, exs, rs, preg, from) == []
    decreases |vs|
  {
    if vs != [] {
      assert vs[0] in vs;
      SelectNone(vs[1..], exs, rs, preg, from);
    }
  }

  lemma {:induction false} SelectCongruent(vs: seq<Visit>, exs: seq<string>, rs: seq<string>, preg: Preg, f1: nat, f2: nat)
    requires forall v :: v in vs ==> Inspectable(exs, rs, preg, v.path, f1) == Inspectable(exs, rs, preg, v.path, f2)
    ensures Select(vs, exs, rs, preg, f1) == Select(vs, exs, rs, preg, f2)
    decreases |vs|
  {
    if vs != [] {
      assert vs[0] in vs;
      SelectCongruent(vs[1..], exs, rs, preg, f1, f2);
    }
  }

  /** Every leaf below `prefix` carries `prefix` in front of a non-empty rest of its path. */
  lemma {:induction false} LeavesExtend(node: Tree, i: nat, prefix: seq<Key>)
    requires node.Node? && i <= |node.entries|
    ensures forall v :: v in Leaves(node, i, prefix) ==> |v.path| > |prefix| && v.path[..|prefix|] == prefix
    decreases node, |node.entries| - i
  {
    if i < |node.entries| {
      var key := node.entries[i].0;
      var value := node.entries[i].1;
      var p := prefix + [key];
      LeavesExtend(node, i + 1, prefix);
      if value.Node? {
        LeavesExtend(value, 0, p);
        forall v | v in Leaves(value, 0, p)
          ensures |v.path| > |prefix| && v.path[..|prefix|] == prefix
        {
          assert v.path[..|prefix|] == v.path[..|p|][..|prefix|];
        }
      }
      var here := if value.Node? then Leaves(value, 0, p) else [Visit(p, value.value)];
      assert Leaves(node, i, prefix) == here + Leaves(node, i + 1, prefix);
    }
  }

  /** The structural selection, which skips whole subtrees, equals selecting the
      inspectable leaves from the full depth-first list: so the inspected leaves come
      in depth-first, left-to-right order, and a leaf is inspected exactly when no path
      on the way down to it is an exception and its own path is allowed. */
  lemma {:induction false} InspectedIsSelectedLeaves(exs: seq<string>, rs: seq<string>, preg: Preg, node: Tree, i: nat, prefix: seq<Key>)
    requires node.Node? && i <= |node.entries|
    ensures Inspected(exs, rs, preg, node, i, prefix) == Select(Leaves(node, i, prefix), exs, rs, preg, |prefix|)
    decreases node, |node.entries| - i
  {
    if i < |node.entries| {
      var key := node.entries[i].0;
      var value := node.entries[i].1;
      var p := prefix + [key];
      var here := if value.Node? then Leaves(value, 0, p) else [Visit(p, value.value)];
      var rest := Leaves(node, i + 1, prefix);
      assert Leaves(node, i, prefix) == here + rest;
      SelectAppend(here, rest, exs, rs, preg, |prefix|);
      InspectedIsSelectedLeaves(exs, rs, preg, node, i + 1, prefix);
      if value.Node? {
        LeavesExtend(value, 0, p);
      }
      assert forall v :: v in here ==> |v.path| >= |p| && v.path[..|p|] == p;
      if IsException(exs, preg, Join(p)) {
        forall v | v in here
          ensures !Inspectable(exs, rs, preg, v.path, |prefix|)
        {
          assert Join(v.path[..|p|]) == Join(p);
        }
        SelectNone(here, exs, rs, preg, |prefix|);
      } else if value.Node? {
        InspectedIsSelectedLeaves(exs, rs, preg, value, 0, p);
        forall v | v in here
          ensures Inspectable(exs, rs, preg, v.path, |prefix|) == Inspectable(exs, rs, preg, v.path, |p|)
        {
          if Inspectable(exs, rs, preg, v.path, |p|) {
            forall j | |prefix| < j <= |v.path|
              ensures !IsException(exs, preg, Join(v.path[..j]))
            {
              if j == |p| {
                assert v.path[..j] == p;
              }
            }
          }
        }
        SelectCongruent(here, exs, rs, preg, |prefix|, |p|);
      } else {
        assert p[..|p|] == p;
        assert Inspectable(exs, rs, preg, p, |prefix|) <==> Allowed(rs, Join(p)) by {
          if !IsException(exs, preg, Join(p)) {
            forall j | |prefix| < j <= |p|
              ensures !IsException(exs, preg, Join(p[..j]))
            {
              assert j == |p|;
            }
          }
        }
        assert Select(here, exs, rs, preg, |prefix|)
            == (if Inspectable(exs, rs, preg, p, |prefix|) then here else []) + Select([], exs, rs, preg, |prefix|);
      }
    }
  }
}
