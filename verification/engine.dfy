/** The `Manager`: its configuration, its accumulated reports and impact, the
    recursive filter run over the request data, and the entry point `run`. */
module Engine {
  import opened Types
  import opened Paths
  import opened PathMatcher

  /** The fields of a `Manager` instance that take part in filter execution. The
      logger and the configuration object are not modelled. */
  datatype Manager = Manager(
    filters: seq<Filter>,
    exceptions: seq<string>,
    restrictions: seq<string>,
    impact: int,
    reports: seq<Report>,
    data: Option<seq<(Key, Tree)>>)

  /** What `runFilters` hands back: the filters that matched, and the instance with
      its reports and impact updated. */
  datatype Outcome = Outcome(matches: seq<Filter>, manager: Manager)

  /** A single argument or a list, as `setException` and `setRestriction` accept. */
  datatype PathArg = One(path: string) | Many(paths: seq<string>)

  function AsList(arg: PathArg): seq<string>
  {
    match arg
    case One(p) => [p]
    case Many(ps) => ps
  }

  /** The constructor: filters given, everything else empty. */
  function New(filters: seq<Filter>): (m: Manager)
    ensures m.filters == filters && m.reports == [] && m.impact == 0
    ensures m.exceptions == [] && m.restrictions == [] && m.data == None
  {
    Manager(filters, [], [], 0, [], None)
  }

  /** Only the reports and the impact differ between the two instances. */
  ghost predicate SameConfig(m: Manager, m': Manager)
  {
    && m'.filters == m.filters
    && m'.exceptions == m.exceptions
    && m'.restrictions == m.restrictions
    && m'.data == m.data
  }

  /** Report `k` of `rs` holds exactly filter `k` of `fs`, and nothing else. */
  ghost predicate OneReportPerMatch(rs: seq<Report>, fs: seq<Filter>)
  {
    |rs| == |fs| && forall k :: 0 <= k < |rs| ==> rs[k].filters == [fs[k]]
  }

  lemma OneReportPerMatchAppend(r1: seq<Report>, f1: seq<Filter>, r2: seq<Report>, f2: seq<Filter>)
    requires OneReportPerMatch(r1, f1) && OneReportPerMatch(r2, f2)
    ensures OneReportPerMatch(r1 + r2, f1 + f2)
  {
    forall k | 0 <= k < |r1 + r2|
      ensures (r1 + r2)[k].filters == [(f1 + f2)[k]]
    {
      if k >= |r1| {
        assert (r1 + r2)[k] == r2[k - |r1|];
        assert (f1 + f2)[k] == f2[k - |f1|];
      }
    }
  }

  /** The link between reports and impact over one stretch of execution that took the
      instance from `m` to `m'` and the running match list from `acc` to `matches`:
      the configuration is untouched, old matches and old reports are kept as prefixes,
      one report is appended per new match, holding exactly that filter, and the impact
      grows by exactly the new matches' weights. */
  ghost predicate Coupled(m: Manager, m': Manager, acc: seq<Filter>, matches: seq<Filter>)
  {
    && SameConfig(m, m')
    && |acc| <= |matches| && matches[..|acc|] == acc
    && |m.reports| <= |m'.reports| && m'.reports[..|m.reports|] == m.reports
    && OneReportPerMatch(m'.reports[|m.reports|..], matches[|acc|..])
    && m'.impact == m.impact + SumImpact(matches[|acc|..])
  }

  lemma CoupledTrans(m1: Manager, m2: Manager, m3: Manager, a1: seq<Filter>, a2: seq<Filter>, a3: seq<Filter>)
    requires Coupled(m1, m2, a1, a2) && Coupled(m2, m3, a2, a3)
    ensures Coupled(m1, m3, a1, a3)
  {
    assert a3[|a1|..] == a2[|a1|..] + a3[|a2|..] by {
      assert a3 == a2 + a3[|a2|..];
    }
    assert m3.reports[|m1.reports|..] == m2.reports[|m1.reports|..] + m3.reports[|m2.reports|..] by {
      assert m3.reports == m2.reports + m3.reports[|m2.reports|..];
    }
    SumImpactAppend(a2[|a1|..], a3[|a2|..]);
    OneReportPerMatchAppend(m2.reports[|m1.reports|..], a2[|a1|..], m3.reports[|m2.reports|..], a3[|a2|..]);
    assert m3.reports[..|m1.reports|] == m1.reports by {
      assert m3.reports[..|m1.reports|] == m3.reports[..|m2.reports|][..|m1.reports|];
    }
    assert a3[..|a1|] == a1 by {
      assert a3[..|a1|] == a3[..|a2|][..|a1|];
    }
  }

  lemma CoupledShift(m: Manager, m': Manager, acc: seq<Filter>, sub: seq<Filter>)
    requires Coupled(m, m', [], sub)
    ensures Coupled(m, m', acc, acc + sub)
  {
    assert (acc + sub)[|acc|..] == sub;
    assert (acc + sub)[..|acc|] == acc;
    assert sub[0..] == sub;
  }

  /** One match: one report holding the filter, and the filter's weight. */
  lemma CoupledStep(m: Manager, rep: Report, f: Filter, matches: seq<Filter>)
    requires rep.filters == [f]
    ensures Coupled(m, m.(reports := m.reports + [rep], impact := m.impact + f.impact), matches, matches + [f])
  {
    var m' := m.(reports := m.reports + [rep], impact := m.impact + f.impact);
    assert (matches + [f])[|matches|..] == [f];
    assert (matches + [f])[..|matches|] == matches;
    assert m'.reports[|m.reports|..] == [rep];
    assert m'.reports[..|m.reports|] == m.reports;
    assert SumImpact([f]) == f.impact by {
      assert [f][..0] == [];
    }
  }

  /** The inner loop of `runFilters` over one scalar: filters are tried in registration
      order from position `j`; each one that accepts the value is appended to the
      match list, gets a report of its own keyed by its position and holding the value,
      and adds its weight to the impact. */
  function ApplyFilters(m: Manager, value: Scalar, j: nat, matches: seq<Filter>): (r: Outcome)
    requires j <= |m.filters|
    ensures Coupled(m, r.manager, matches, r.matches)
    decreases |m.filters| - j
  {
    if j == |m.filters| then Outcome(matches, m)
    else
      var f := m.filters[j];
      if f.execute(value) then
        var m' := m.(reports := m.reports + [Report(j, value, [f])], impact := m.impact + f.impact);
        CoupledStep(m, Report(j, value, [f]), f, matches);
        var r := ApplyFilters(m', value, j + 1, matches + [f]);
        CoupledTrans(m, m', r.manager, matches, matches + [f], r.matches);
        r
      else
        ApplyFilters(m, value, j + 1, matches)
  }

  /** The data loop of `runFilters`, from entry `i` of `node` on. `path` is whatever the
      previous iteration left behind and is cut back to `lvl` keys before the current
      key is pushed. A key whose dotted path is an exception is skipped with everything
      below it; a nested array is walked one level deeper and its matches are merged in;
      a scalar is skipped when restrictions are configured and its path is not one of
      them, and otherwise goes through every filter. */
  function RunFiltersFrom(m: Manager, preg: Preg, node: Tree, i: nat, path: seq<Key>, lvl: nat, matches: seq<Filter>): (r: Outcome)
    requires node.Node? && i <= |node.entries|
    ensures Coupled(m, r.manager, matches, r.matches)
    decreases node, |node.entries| - i
  {
    if i == |node.entries| then Outcome(matches, m)
    else
      var key := node.entries[i].0;
      var value := node.entries[i].1;
      var p := StepPath(path, lvl, key);
      if IsException(m.exceptions, preg, Join(p)) then
        RunFiltersFrom(m, preg, node, i + 1, p, lvl, matches)
      else if value.Node? then
        var sub := RunFiltersFrom(m, preg, value, 0, p, lvl + 1, []);
        CoupledShift(m, sub.manager, matches, sub.matches);
        var r := RunFiltersFrom(sub.manager, preg, node, i + 1, p, lvl, matches + sub.matches);
        CoupledTrans(m, sub.manager, r.manager, matches, matches + sub.matches, r.matches);
        r
      else if m.restrictions != [] && Join(p) !in m.restrictions then
        RunFiltersFrom(m, preg, node, i + 1, p, lvl, matches)
      else
        var hit := ApplyFilters(m, value.value, 0, matches);
        var r := RunFiltersFrom(hit.manager, preg, node, i + 1, p, lvl, hit.matches);
        CoupledTrans(m, hit.manager, r.manager, matches, hit.matches, r.matches);
        r
  }

  /** `runFilters($data, $path, $lvl)`: returns the matched filters; one report per
      match is appended, in the same order, and the impact grows by their weights. */
  function RunFilters(m: Manager, preg: Preg, data: seq<(Key, Tree)>, path: seq<Key>, lvl: nat): (r: Outcome)
    ensures SameConfig(m, r.manager)
    ensures |r.manager.reports| == |m.reports| + |r.matches|
    ensures r.manager.reports[..|m.reports|] == m.reports
    ensures OneReportPerMatch(r.manager.reports[|m.reports|..], r.matches)
    ensures r.manager.impact == m.impact + SumImpact(r.matches)
  {
    var r := RunFiltersFrom(m, preg, Node(data), 0, path, lvl, []);
    assert r.matches[0..] == r.matches;
    r
  }

  /** The new reports hold, one each and in order, exactly the filters of the matches. */
  lemma {:induction false} SingletonReports(rs: seq<Report>, fs: seq<Filter>)
    requires OneReportPerMatch(rs, fs)
    ensures ReportedFilters(rs) == fs
    decreases |rs|
  {
    if rs != [] {
      SingletonReports(rs[..|rs| - 1], fs[..|fs| - 1]);
      assert fs == fs[..|fs| - 1] + [fs[|fs| - 1]];
    }
  }

  /** `run($data)`: stores the data and walks it from the root with an empty path. The
      reports and the impact are NOT reset: earlier reports stay in front and the impact
      grows by exactly the weights of the filters in the new reports. */
  function Run(m: Manager, preg: Preg, data: seq<(Key, Tree)>): (m': Manager)
    ensures m'.filters == m.filters && m'.exceptions == m.exceptions && m'.restrictions == m.restrictions
    ensures m'.data == Some(data)
    ensures |m.reports| <= |m'.reports| && m'.reports[..|m.reports|] == m.reports
    ensures m'.impact == m.impact + SumImpact(ReportedFilters(m'.reports[|m.reports|..]))
    ensures m'.impact >= m.impact
  {
    var withData := SetData(m, data);
    var r := RunFilters(withData, preg, GetData(withData).value, [], 0);
    SingletonReports(r.manager.reports[|m.reports|..], r.matches);
    r.manager
  }

  /** The bookkeeping invariant: the impact is the total weight of the filters
      referenced by the reports. */
  ghost predicate Consistent(m: Manager)
  {
    m.impact == SumImpact(ReportedFilters(m.reports))
  }

  /** A fresh instance is consistent. */
  lemma NewIsConsistent(fs: seq<Filter>)
    ensures Consistent(New(fs))
  {
  }

  /** Every run keeps the bookkeeping invariant. */
  lemma RunKeepsConsistent(m: Manager, preg: Preg, data: seq<(Key, Tree)>)
    requires Consistent(m)
    ensures Consistent(Run(m, preg, data))
  {
    var m' := Run(m, preg, data);
    assert m'.reports == m.reports + m'.reports[|m.reports|..];
    ReportedFiltersAppend(m.reports, m'.reports[|m.reports|..]);
    SumImpactAppend(ReportedFilters(m.reports), ReportedFilters(m'.reports[|m.reports|..]));
  }

  /** `setImpact`: overwrites the impact and nothing else, which can break `Consistent`. */
  function SetImpact(m: Manager, impact: int): (m': Manager)
    ensures SameConfig(m, m') && m'.reports == m.reports && m'.impact == impact
  {
    m.(impact := impact)
  }

  /** Overwriting the impact of a consistent instance with any other value breaks the
      bookkeeping invariant. */
  lemma SetImpactCanBreakConsistent(m: Manager, impact: int)
    requires Consistent(m) && impact != m.impact
    ensures !Consistent(SetImpact(m, impact))
  {
  }

  /** `setException`: a single path is wrapped in a list and the list is appended. */
  function SetException(m: Manager, arg: PathArg): (m': Manager)
    ensures |m'.exceptions| == |m.exceptions| + |AsList(arg)|
    ensures m'.exceptions[..|m.exceptions|] == m.exceptions
    ensures m'.exceptions[|m.exceptions|..] == AsList(arg)
    ensures m'.filters == m.filters && m'.restrictions == m.restrictions && m'.data == m.data
    ensures m'.reports == m.reports && m'.impact == m.impact
  {
    m.(exceptions := m.exceptions + AsList(arg))
  }

  /** `setRestriction`: a single path is wrapped in a list and the list is appended. */
  function SetRestriction(m: Manager, arg: PathArg): (m': Manager)
    ensures |m'.restrictions| == |m.restrictions| + |AsList(arg)|
    ensures m'.restrictions[..|m.restrictions|] == m.restrictions
    ensures m'.restrictions[|m.restrictions|..] == AsList(arg)
    ensures m'.filters == m.filters && m'.exceptions == m.exceptions && m'.data == m.data
    ensures m'.reports == m.reports && m'.impact == m.impact
  {
    m.(restrictions := m.restrictions + AsList(arg))
  }

  /** Two calls append like one call with both lists, duplicates kept; a single path
      behaves like a one-element list. */
  lemma {:induction false} SetExceptionComposes(m: Manager, a: PathArg, b: PathArg)
    ensures SetException(SetException(m, a), b) == SetException(m, Many(AsList(a) + AsList(b)))
    ensures SetException(m, One(a.path)) == SetException(m, Many([a.path])) <== a.One?
  {
    assert m.exceptions + AsList(a) + AsList(b) == m.exceptions + (AsList(a) + AsList(b));
  }

  lemma {:induction false} SetRestrictionComposes(m: Manager, a: PathArg, b: PathArg)
    ensures SetRestriction(SetRestriction(m, a), b) == SetRestriction(m, Many(AsList(a) + AsList(b)))
  {
    assert m.restrictions + AsList(a) + AsList(b) == m.restrictions + (AsList(a) + AsList(b));
  }

  function GetReports(m: Manager): seq<Report> { m.reports }
  function GetImpact(m: Manager): int { m.impact }
  function GetExceptions(m: Manager): seq<string> { m.exceptions }
  function GetRestrictions(m: Manager): seq<string> { m.restrictions }
  function GetFilters(m: Manager): seq<Filter> { m.filters }
  function GetData(m: Manager): Option<seq<(Key, Tree)>> { m.data }

  /** `setFilters`: replaces the filter collection and nothing else. */
  function SetFilters(m: Manager, filters: seq<Filter>): (m': Manager)
    ensures m'.filters == filters
    ensures m'.exceptions == m.exceptions && m'.restrictions == m.restrictions && m'.data == m.data
    ensures m'.reports == m.reports && m'.impact == m.impact
  {
    m.(filters := filters)
  }

  /** `setData`: stores the request data and nothing else. */
  function SetData(m: Manager, data: seq<(Key, Tree)>): (m': Manager)
    ensures m'.data == Some(data)
    ensures m'.filters == m.filters && m'.exceptions == m.exceptions && m'.restrictions == m.restrictions
    ensures m'.reports == m.reports && m'.impact == m.impact
  {
    m.(data := Some(data))
  }

  /** `getFilters` reads back what `setFilters` stored, and a run leaves the filters alone. */
  lemma GetFiltersReadsBack(m: Manager, filters: seq<Filter>, preg: Preg, data: seq<(Key, Tree)>)
    ensures GetFilters(SetFilters(m, filters)) == filters
    ensures GetFilters(Run(m, preg, data)) == GetFilters(m)
  {
  }

  /** `getData` reads back what `setData` stored; after a run it is the data that run saw. */
  lemma GetDataReadsBack(m: Manager, data: seq<(Key, Tree)>, preg: Preg)
    ensures GetData(SetData(m, data)) == Some(data)
    ensures GetData(Run(m, preg, data)) == Some(data)
  {
  }

  /** `getReports` after a run: the earlier reports come first, and the impact grows by
      the weights of the filters in the reports the run added. */
  lemma GetReportsAfterRun(m: Manager, preg: Preg, data: seq<(Key, Tree)>)
    ensures var rs := GetReports(Run(m, preg, data));
      && |rs| >= |GetReports(m)| && rs[..|GetReports(m)|] == GetReports(m)
      && GetImpact(Run(m, preg, data)) == GetImpact(m) + SumImpact(ReportedFilters(rs[|GetReports(m)|..]))
  {
  }

  /** `getImpact` reads back what `setImpact` stored, and a run never lowers it. */
  lemma GetImpactReadsBack(m: Manager, impact: int, preg: Preg, data: seq<(Key, Tree)>)
    ensures GetImpact(SetImpact(m, impact)) == impact
    ensures GetImpact(Run(m, preg, data)) >= GetImpact(m)
  {
  }

  /** `getExceptions` returns the earlier exceptions followed by the added ones; a run
      leaves them alone. */
  lemma GetExceptionsReadsBack(m: Manager, arg: PathArg, preg: Preg, data: seq<(Key, Tree)>)
    ensures GetExceptions(SetException(m, arg)) == GetExceptions(m) + AsList(arg)
    ensures GetExceptions(Run(m, preg, data)) == GetExceptions(m)
  {
  }

  /** `getRestrictions` returns the earlier restrictions followed by the added ones; a
      run leaves them alone. */
  lemma GetRestrictionsReadsBack(m: Manager, arg: PathArg, preg: Preg, data: seq<(Key, Tree)>)
    ensures GetRestrictions(SetRestriction(m, arg)) == GetRestrictions(m) + AsList(arg)
    ensures GetRestrictions(Run(m, preg, data)) == GetRestrictions(m)
  {
  }
}
