/** Worked examples: a digit-matching filter over small request trees. */
module Scenarios {
  import opened Types
  import opened Paths
  import opened PathMatcher
  import opened Engine
  import opened Reference
  import opened Properties

  /** A filter of weight 5 that accepts any string holding a decimal digit. */
  function MatchesDigit(): Filter
  {
    Filter(1, 5, (v: Scalar) => v.Str? && exists i :: 0 <= i < |v.s| && '0' <= v.s[i] <= '9')
  }

  function PostData(): seq<(Key, Tree)>
  {
    [("POST", Node([("id", Leaf(Str("123"))), ("name", Leaf(Str("bob")))]))]
  }

  /** Depth-first order: with nothing configured, the walk over
      `{"a": {"b": 1, "c": 2}, "d": 3}` inspects `a.b`, `a.c`, `d`, in that order. */
  lemma DepthFirstOrder(preg: Preg)
    ensures var ls := Inspected([], [], preg, Node([("a", Node([("b", Leaf(Int(1))), ("c", Leaf(Int(2)))])), ("d", Leaf(Int(3)))]), 0, []);
      && |ls| == 3
      && Join(ls[0].path) == "a.b" && Join(ls[1].path) == "a.c" && Join(ls[2].path) == "d"
  {
    var inner := Node([("b", Leaf(Int(1))), ("c", Leaf(Int(2)))]);
    var root := Node([("a", inner), ("d", Leaf(Int(3)))]);
    assert ["a"] + ["b"] == ["a", "b"] && ["a"] + ["c"] == ["a", "c"];
    assert Leaves(inner, 2, ["a"]) == [];
    assert Leaves(inner, 1, ["a"]) == [Visit(["a", "c"], Int(2))];
    assert Leaves(inner, 0, ["a"]) == [Visit(["a", "b"], Int(1)), Visit(["a", "c"], Int(2))];
    assert [] + ["d"] == ["d"] && [] + ["a"] == ["a"];
    assert Leaves(root, 2, []) == [];
    assert Leaves(root, 1, []) == [Visit(["d"], Int(3))];
    assert Leaves(root, 0, []) == [Visit(["a", "b"], Int(1)), Visit(["a", "c"], Int(2)), Visit(["d"], Int(3))];
    assert Join(["a", "b"]) == "a" + "." + Join(["b"]);
    assert Join(["a", "c"]) == "a" + "." + Join(["c"]);
    NoConfigurationInspectsEveryLeaf(preg, root);
  }

  /** No exceptions, no restrictions: `POST.id` matches, `POST.name` does not. */
  lemma DigitScenario(preg: Preg)
    ensures Run(New([MatchesDigit()]), preg, PostData()).reports == [Report(0, Str("123"), [MatchesDigit()])]
    ensures Run(New([MatchesDigit()]), preg, PostData()).impact == 5
  {
    var m := New([MatchesDigit()]);
    var post := PostData()[0].1;
    assert MatchesDigit().execute(Str("123")) by {
      assert '0' <= "123"[0] <= '9';
    }
    assert !MatchesDigit().execute(Str("bob")) by {
      var s := "bob";
      assert forall i :: 0 <= i < |s| ==> !('0' <= s[i] <= '9');
    }
    NoConfigurationInspectsEveryLeaf(preg, Node(PostData()));
    assert ["POST"] + ["id"] == ["POST", "id"] && ["POST"] + ["name"] == ["POST", "name"];
    assert Leaves(post, 2, ["POST"]) == [];
    assert Leaves(post, 1, ["POST"]) == [Visit(["POST", "name"], Str("bob"))];
    assert Leaves(post, 0, ["POST"]) == [Visit(["POST", "id"], Str("123")), Visit(["POST", "name"], Str("bob"))];
    assert [] + ["POST"] == ["POST"];
    assert Leaves(Node(PostData()), 1, []) == [];
    assert Leaves(Node(PostData()), 0, []) == Leaves(post, 0, ["POST"]);
    var v1, v2 := Visit(["POST", "id"], Str("123")), Visit(["POST", "name"], Str("bob"));
    var vs := [v1, v2];
    assert Inspected(m.exceptions, m.restrictions, preg, Node(PostData()), 0, []) == vs;
    assert HitReports(m.filters, Str("123"), 1) == [] && HitMatches(m.filters, Str("123"), 1) == [];
    assert HitReports(m.filters, Str("123"), 0) == [Report(0, Str("123"), [MatchesDigit()])];
    assert HitMatches(m.filters, Str("123"), 0) == [MatchesDigit()];
    assert HitReports(m.filters, Str("bob"), 0) == [] && HitMatches(m.filters, Str("bob"), 0) == [];
    assert vs[1..] == [v2] && [v2][1..] == [];
    assert SpecReports(m.filters, [v2]) == [];
    assert SpecMatches(m.filters, [v2]) == [];
    assert SpecReports(m.filters, vs) == [Report(0, Str("123"), [MatchesDigit()])];
    assert SpecMatches(m.filters, vs) == [MatchesDigit()];
    assert SumImpact([MatchesDigit()]) == 5 by {
      assert [MatchesDigit()][..0] == [];
    }
    RunIsReference(m, preg, PostData());
  }

  lemma PostPaths()
    ensures Join(["POST"]) == "POST"
    ensures Join(["POST", "id"]) == "POST.id"
    ensures Join(["POST", "name"]) == "POST.name"
  {
    assert ["POST", "id"][1..] == ["id"];
    assert ["POST", "name"][1..] == ["name"];
  }

  lemma PostIdRegex()
    ensures ExceptionRegex("POST.id") == "/^POST\\.id$/"
  {
    assert EscapeDots("POST.id") == "POST\\.id";
  }

  /** A pattern already written with an escaped dot is escaped a second time: the regex
      then asks for a literal backslash followed by any character, so `POST\.id` never
      excepts the path `POST.id`. */
  lemma EscapedPatternIsEscapedAgain()
    ensures EscapeDots("POST" + "\\." + "id") == "POST" + "\\\\." + "id"
  {
    EscapedDotIsEscapedAgain("POST", "id");
    DotFreeKeys();
  }

  lemma DotFreeKeys()
    ensures EscapeDots("POST") == "POST" && EscapeDots("id") == "id"
  {
    assert forall i :: 0 <= i < |"POST"| ==> "POST"[i] != '.';
    assert forall i :: 0 <= i < |"id"| ==> "id"[i] != '.';
  }

  lemma ExceptionScenarioHits(preg: Preg)
    requires preg("/^POST\\.id$/", "POST") == NoMatch
    requires preg("/^POST\\.id$/", "POST.id") == Matched
    requires preg("/^POST\\.id$/", "POST.name") == NoMatch
    ensures !IsException(["POST.id"], preg, Join(["POST"]))
    ensures IsException(["POST.id"], preg, Join(["POST", "id"]))
    ensures !IsException(["POST.id"], preg, Join(["POST", "name"]))
  {
    PostPaths();
    PostIdRegex();
  }

  /** The exception `POST.id` is escaped to `/^POST\.id$/`; given an engine that matches
      that pattern against `POST.id` and not against `POST` or `POST.name`, only
      `POST.name` is inspected, and the digit in `POST.id` is never seen. */
  lemma ExceptionScenarioInspects(preg: Preg)
    requires preg("/^POST\\.id$/", "POST") == NoMatch
    requires preg("/^POST\\.id$/", "POST.id") == Matched
    requires preg("/^POST\\.id$/", "POST.name") == NoMatch
    ensures Inspected(["POST.id"], [], preg, Node(PostData()), 0, []) == [Visit(["POST", "name"], Str("bob"))]
  {
    var exs: seq<string> := ["POST.id"];
    var post := PostData()[0].1;
    var bob := Visit(["POST", "name"], Str("bob"));
    ExceptionScenarioHits(preg);
    assert ["POST"] + ["id"] == ["POST", "id"] && ["POST"] + ["name"] == ["POST", "name"];
    assert [] + ["POST"] == ["POST"];
    assert Inspected(exs, [], preg, post, 2, ["POST"]) == [];
    assert Inspected(exs, [], preg, post, 1, ["POST"]) == [bob];
    assert Inspected(exs, [], preg, post, 0, ["POST"]) == [bob];
    assert Inspected(exs, [], preg, Node(PostData()), 1, []) == [];
  }

  /** When only `POST.name` is inspected, the digit filter finds nothing. */
  lemma OnlyNameInspected(m: Manager, preg: Preg)
    requires m.filters == [MatchesDigit()] && m.reports == [] && m.impact == 0
    requires Inspected(m.exceptions, m.restrictions, preg, Node(PostData()), 0, []) == [Visit(["POST", "name"], Str("bob"))]
    ensures Run(m, preg, PostData()).reports == []
    ensures Run(m, preg, PostData()).impact == 0
  {
    var bob := Visit(["POST", "name"], Str("bob"));
    assert SpecReports(m.filters, [bob]) == [] && SpecMatches(m.filters, [bob]) == [] by {
      assert !MatchesDigit().execute(Str("bob")) by {
        var s := "bob";
        assert forall i :: 0 <= i < |s| ==> !('0' <= s[i] <= '9');
      }
      assert HitReports(m.filters, Str("bob"), 1) == [] && HitMatches(m.filters, Str("bob"), 1) == [];
      assert HitReports(m.filters, Str("bob"), 0) == [] && HitMatches(m.filters, Str("bob"), 0) == [];
      assert [bob][1..] == [];
      assert SpecReports(m.filters, [bob]) == HitReports(m.filters, Str("bob"), 0) + SpecReports(m.filters, []);
      assert SpecMatches(m.filters, [bob]) == HitMatches(m.filters, Str("bob"), 0) + SpecMatches(m.filters, []);
    }
    RunIsReference(m, preg, PostData());
  }

  lemma ExceptionScenario(preg: Preg)
    requires preg("/^POST\\.id$/", "POST") == NoMatch
    requires preg("/^POST\\.id$/", "POST.id") == Matched
    requires preg("/^POST\\.id$/", "POST.name") == NoMatch
    ensures Run(SetException(New([MatchesDigit()]), One("POST.id")), preg, PostData()).reports == []
    ensures Run(SetException(New([MatchesDigit()]), One("POST.id")), preg, PostData()).impact == 0
  {
    var m := SetException(New([MatchesDigit()]), One("POST.id"));
    assert m.exceptions == ["POST.id"] && m.restrictions == [];
    ExceptionScenarioInspects(preg);
    OnlyNameInspected(m, preg);
  }

  /** The restriction `POST.name` lets only that leaf through; the enclosing `POST` is not
      itself listed and is walked anyway. */
  lemma RestrictionScenarioInspects(preg: Preg)
    ensures Inspected([], ["POST.name"], preg, Node(PostData()), 0, []) == [Visit(["POST", "name"], Str("bob"))]
  {
    var rs: seq<string> := ["POST.name"];
    var post := PostData()[0].1;
    var bob := Visit(["POST", "name"], Str("bob"));
    PostPaths();
    assert "POST.id" !in rs by {
      assert "POST.id"[5] != "POST.name"[5];
    }
    assert ["POST"] + ["id"] == ["POST", "id"] && ["POST"] + ["name"] == ["POST", "name"];
    assert [] + ["POST"] == ["POST"];
    assert Inspected([], rs, preg, post, 2, ["POST"]) == [];
    assert Inspected([], rs, preg, post, 1, ["POST"]) == [bob];
    assert Inspected([], rs, preg, post, 0, ["POST"]) == [bob];
    assert Inspected([], rs, preg, Node(PostData()), 1, []) == [];
  }

  /** With the restriction `POST.name`, `POST.id` is never inspected and nothing matches. */
  lemma RestrictionScenario(preg: Preg)
    ensures Run(SetRestriction(New([MatchesDigit()]), One("POST.name")), preg, PostData()).reports == []
    ensures Run(SetRestriction(New([MatchesDigit()]), One("POST.name")), preg, PostData()).impact == 0
  {
    var m := SetRestriction(New([MatchesDigit()]), One("POST.name"));
    assert m.restrictions == ["POST.name"] && m.exceptions == [];
    RestrictionScenarioInspects(preg);
    OnlyNameInspected(m, preg);
  }
}
