/** Consequences of the reference description for a whole `run`: which leaves are
    inspected, in which order, and what each inspected leaf contributes. */
module Properties {
  import opened Types
  import opened Paths
  import opened PathMatcher
  import opened Engine
  import opened Reference

  /** `run` reports the inspectable leaves of the full depth-first leaf list, in order. */
  lemma RunReportsSelectedLeaves(m: Manager, preg: Preg, data: seq<(Key, Tree)>)
    ensures var vs := Select(Leaves(Node(data), 0, []), m.exceptions, m.restrictions, preg, 0);
      && Run(m, preg, data).reports == m.reports + SpecReports(m.filters, vs)
      && Run(m, preg, data).impact == m.impact + SumImpact(SpecMatches(m.filters, vs))
  {
    RunIsReference(m, preg, data);
    InspectedIsSelectedLeaves(m.exceptions, m.restrictions, preg, Node(data), 0, []);
  }

  /** A leaf is inspected if and only if it is in the data, no path on the way down to it
      (itself included) is an exception, and its own path is allowed. */
  lemma InspectedIff(exs: seq<string>, rs: seq<string>, preg: Preg, data: seq<(Key, Tree)>, v: Visit)
    ensures v in Inspected(exs, rs, preg, Node(data), 0, [])
        <==> && v in Leaves(Node(data), 0, [])
             && (forall j :: 0 < j <= |v.path| ==> !IsException(exs, preg, Join(v.path[..j])))
             && (rs == [] || Join(v.path) in rs)
  {
    InspectedIsSelectedLeaves(exs, rs, preg, Node(data), 0, []);
    SelectMembership(Leaves(Node(data), 0, []), exs, rs, preg, 0, v);
  }

  /** Exception skip: once a key's path is an exception, no leaf below it (or the key
      itself, if it is a leaf) is inspected, whatever its value. */
  lemma ExceptedSubtreeIsSkipped(exs: seq<string>, rs: seq<string>, preg: Preg, data: seq<(Key, Tree)>, v: Visit, j: nat)
    requires 0 < j <= |v.path|
    requires IsException(exs, preg, Join(v.path[..j]))
    ensures v !in Inspected(exs, rs, preg, Node(data), 0, [])
  {
    InspectedIff(exs, rs, preg, data, v);
  }

  /** Restrictions are exact paths: with some configured, a leaf with no excepted path
      above it is inspected if and only if its dotted path is literally one of them. A
      nested array's own path is never compared with them. */
  lemma RestrictionsAreExactPaths(exs: seq<string>, rs: seq<string>, preg: Preg, data: seq<(Key, Tree)>, v: Visit)
    requires rs != []
    requires v in Leaves(Node(data), 0, [])
    requires forall j :: 0 < j <= |v.path| ==> !IsException(exs, preg, Join(v.path[..j]))
    ensures v in Inspected(exs, rs, preg, Node(data), 0, []) <==> Join(v.path) in rs
  {
    InspectedIff(exs, rs, preg, data, v);
  }

  /** With neither exceptions nor restrictions every leaf is inspected, once, in
      depth-first order. */
  lemma NoConfigurationInspectsEveryLeaf(preg: Preg, node: Tree)
    requires node.Node?
    ensures Inspected([], [], preg, node, 0, []) == Leaves(node, 0, [])
  {
    InspectedIsSelectedLeaves([], [], preg, node, 0, []);
    SelectAll(Leaves(node, 0, []), [], [], preg, 0);
  }

  /** For data without nesting, the leaves are the entries themselves, in key order,
      each under a one-key path. */
  lemma {:induction false} FlatDataLeaves(data: seq<(Key, Tree)>, i: nat)
    requires i <= |data|
    requires forall k :: 0 <= k < |data| ==> data[k].1.Leaf?
    ensures Leaves(Node(data), i, []) == seq(|data| - i, k requires 0 <= k < |data| - i => Visit([data[i + k].0], data[i + k].1.value))
    decreases |data| - i
  {
    if i < |data| {
      FlatDataLeaves(data, i + 1);
      assert [] + [data[i].0] == [data[i].0];
    }
  }

  /** Within one leaf there is one report per accepting filter: a report is present
      exactly when the filter at its key accepts the value, and it holds that filter. */
  lemma {:induction false} HitReportsExact(fs: seq<Filter>, v: Scalar, j: nat)
    requires j <= |fs|
    ensures forall rep :: rep in HitReports(fs, v, j) <==>
      j <= rep.key < |fs| && rep.value == v && rep.filters == [fs[rep.key]] && fs[rep.key].execute(v)
    ensures |HitReports(fs, v, j)| == |HitMatches(fs, v, j)|
    decreases |fs| - j
  {
    if j < |fs| {
      HitReportsExact(fs, v, j + 1);
    }
  }

  /** Within one leaf, reports come in filter-registration order. */
  lemma {:induction false} HitReportsOrdered(fs: seq<Filter>, v: Scalar, j: nat)
    requires j <= |fs|
    ensures var hr := HitReports(fs, v, j);
      forall a, b :: 0 <= a < b < |hr| ==> hr[a].key < hr[b].key
    decreases |fs| - j
  {
    if j < |fs| && fs[j].execute(v) {
      HitReportsOrdered(fs, v, j + 1);
      HitReportsExact(fs, v, j + 1);
      var hr := HitReports(fs, v, j);
      var tail := HitReports(fs, v, j + 1);
      assert hr == [Report(j, v, [fs[j]])] + tail;
      forall a, b | 0 <= a < b < |hr|
        ensures hr[a].key < hr[b].key
      {
        assert hr[b] == tail[b - 1];
        if a > 0 {
          assert hr[a] == tail[a - 1];
        } else {
          assert tail[b - 1] in tail;
        }
      }
    } else if j < |fs| {
      HitReportsOrdered(fs, v, j + 1);
      assert HitReports(fs, v, j) == HitReports(fs, v, j + 1);
    }
  }

  /** A pattern the regular-expression engine cannot compile counts as a hit on every
      path (`preg_match` returns `false`, which is `!== 0`), so a single malformed
      exception switches off all inspection: the run appends no report and no impact. */
  lemma MalformedExceptionSilencesRun(m: Manager, preg: Preg, data: seq<(Key, Tree)>, k: nat)
    requires k < |m.exceptions|
    requires forall s :: preg(ExceptionRegex(m.exceptions[k]), s) == PregError
    ensures Run(m, preg, data).reports == m.reports
    ensures Run(m, preg, data).impact == m.impact
  {
    forall v | v in Leaves(Node(data), 0, [])
      ensures v !in Inspected(m.exceptions, m.restrictions, preg, Node(data), 0, [])
    {
      LeavesExtend(Node(data), 0, []);
      assert preg(ExceptionRegex(m.exceptions[k]), Join(v.path[..1])) == PregError;
      ExceptedSubtreeIsSkipped(m.exceptions, m.restrictions, preg, data, v, 1);
    }
    var vs := Inspected(m.exceptions, m.restrictions, preg, Node(data), 0, []);
    InspectedIsSelectedLeaves(m.exceptions, m.restrictions, preg, Node(data), 0, []);
    if vs != [] {
      assert vs[0] in vs;
      InspectedIff(m.exceptions, m.restrictions, preg, data, vs[0]);
      assert false;
    }
    RunIsReference(m, preg, data);
  }
}
