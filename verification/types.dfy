/** The values the engine handles: the decoded request data, the filters that
    inspect it, the reports it produces, and the result of the regular-expression
    engine it consults for exception patterns. */
module Types {

  /** A scalar leaf of the request data. Floating-point values are not modelled. */
  datatype Scalar = Str(s: string) | Int(i: int) | Bool(b: bool) | Null

  /** A key of the request data; integer keys are modelled by their decimal spelling,
      which is what joining them into a dotted path produces. */
  type Key = string

  /** The request data: a scalar, or an ordered list of key/value pairs (a PHP array). */
  datatype Tree = Leaf(value: Scalar) | Node(entries: seq<(Key, Tree)>)

  /** A filter is a black box: an identifier, a non-negative impact weight and a
      predicate standing for `$filter->execute($value) === true`. */
  datatype Filter = Filter(id: int, impact: nat, execute: Scalar -> bool)

  /** One report per filter match. `key` is what the code passes as the report's
      variable name, which is the matching filter's position in the filter collection
      (the inner loop reuses the variable that held the data key). */
  datatype Report = Report(key: nat, value: Scalar, filters: seq<Filter>)

  /** What `preg_match` returns: 1, 0, or `false` when the pattern cannot be compiled. */
  datatype PregResult = Matched | NoMatch | PregError

  /** The regular-expression engine, a parameter of the model: pattern, then subject. */
  type Preg = (string, string) -> PregResult

  datatype Option<T> = None | Some(value: T)

  /** The total weight of a list of matched filters. */
  function SumImpact(fs: seq<Filter>): (total: nat)
    ensures fs == [] ==> total == 0
  {
    if fs == [] then 0 else SumImpact(fs[..|fs| - 1]) + fs[|fs| - 1].impact
  }

  /** The weight of appended filters adds up. */
  lemma {:induction false} SumImpactAppend(a: seq<Filter>, b: seq<Filter>)
    ensures SumImpact(a + b) == SumImpact(a) + SumImpact(b)
    decreases |b|
  {
    if b == [] {
      assert a + b == a;
    } else {
      var b' := b[..|b| - 1];
      assert (a + b)[..|a + b| - 1] == a + b';
      SumImpactAppend(a, b');
    }
  }

  /** The filters referenced by a list of reports, in order. */
  function ReportedFilters(rs: seq<Report>): (fs: seq<Filter>)
    ensures rs == [] ==> fs == []
  {
    if rs == [] then [] else ReportedFilters(rs[..|rs| - 1]) + rs[|rs| - 1].filters
  }

  lemma {:induction false} ReportedFiltersAppend(a: seq<Report>, b: seq<Report>)
    ensures ReportedFilters(a + b) == ReportedFilters(a) + ReportedFilters(b)
    decreases |b|
  {
    if b == [] {
      assert a + b == a;
    } else {
      var b' := b[..|b| - 1];
      assert (a + b)[..|a + b| - 1] == a + b';
      ReportedFiltersAppend(a, b');
    }
  }
}
