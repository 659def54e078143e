/** Exception matching: every configured pattern has its dots escaped, is anchored at
    both ends and is handed to the regular-expression engine together with the path. */
module PathMatcher {
  import opened Types

  /** A dot at position `i` of `r` is preceded by a backslash. */
  predicate DotEscapedAt(r: string, i: nat)
    requires i < |r|
  {
    r[i] == '.' ==> 0 < i && r[i - 1] == '\\'
  }

  /** `str_replace('.', '\\.', s)`: every dot becomes a backslash followed by a dot. */
  function EscapeDots(s: string): (r: string)
    ensures |r| >= |s|
    ensures forall i :: 0 <= i < |r| ==> DotEscapedAt(r, i)
    ensures (forall i :: 0 <= i < |s| ==> s[i] != '.') ==> r == s
  {
    if s == [] then []
    else
      var head := if s[0] == '.' then "\\." else [s[0]];
      var rest := EscapeDots(s[1..]);
      assert forall i :: 0 <= i < |head + rest| ==> DotEscapedAt(head + rest, i) by {
        forall i | 0 <= i < |head + rest|
          ensures DotEscapedAt(head + rest, i)
        {
          if i >= |head| {
            assert DotEscapedAt(rest, i - |head|);
          }
        }
      }
      head + rest
  }

  /** The inverse of `EscapeDots`: a backslash directly followed by a dot becomes the dot. */
  function Unescape(r: string): string
  {
    if r == [] then []
    else if |r| >= 2 && r[0] == '\\' && r[1] == '.' then "." + Unescape(r[2..])
    else [r[0]] + Unescape(r[1..])
  }

  /** Escaping loses nothing: the pattern is recovered from its escaped form, so the
      escape changes the dots and nothing else. */
  lemma {:induction false} EscapeRoundTrip(s: string)
    ensures Unescape(EscapeDots(s)) == s
    decreases |s|
  {
    if s != [] {
      var rest := EscapeDots(s[1..]);
      EscapeRoundTrip(s[1..]);
      if s[0] == '.' {
        assert EscapeDots(s) == "\\." + rest;
        assert EscapeDots(s)[2..] == rest;
      } else {
        assert EscapeDots(s) == [s[0]] + rest;
        assert EscapeDots(s)[1..] == rest;
        assert rest != [] ==> rest[0] != '.';
      }
    }
  }

  /** Escaping works character by character, so it distributes over concatenation. */
  lemma {:induction false} EscapeDotsAppend(a: string, b: string)
    ensures EscapeDots(a + b) == EscapeDots(a) + EscapeDots(b)
    decreases |a|
  {
    if a == [] {
      assert a + b == b;
    } else {
      assert (a + b)[0] == a[0];
      assert (a + b)[1..] == a[1..] + b;
      EscapeDotsAppend(a[1..], b);
    }
  }

  /** Escaping is not idempotent: a dot the pattern already escaped gets a second
      backslash, so `\.` becomes `\\.`. */
  lemma EscapedDotIsEscapedAgain(a: string, b: string)
    ensures EscapeDots(a + "\\." + b) == EscapeDots(a) + "\\\\." + EscapeDots(b)
  {
    var u := "." + b;
    var t := "\\" + u;
    assert EscapeDots(u) == "\\." + EscapeDots(b) by {
      assert u[0] == '.' && u[1..] == b;
    }
    assert EscapeDots(t) == "\\" + EscapeDots(u) by {
      assert t[0] == '\\' && t[1..] == u;
    }
    assert a + "\\." + b == a + t;
    EscapeDotsAppend(a, t);
  }

  /** The PCRE pattern the code builds: `'/^' . $ex . '$/'`. */
  function ExceptionRegex(ex: string): (r: string)
    ensures |r| >= |ex| + 4
    ensures r[..2] == "/^" && r[|r| - 2..] == "$/"
  {
    "/^" + EscapeDots(ex) + "$/"
  }

  /** The configured pattern can be read back from the regex built for it: the
      delimiters and anchors are the only additions. */
  lemma ExceptionRegexRecoversPattern(ex: string)
    ensures var r := ExceptionRegex(ex);
      |r| >= 4 && r[..2] == "/^" && r[|r| - 2..] == "$/" && Unescape(r[2..|r| - 2]) == ex
  {
    var r := ExceptionRegex(ex);
    assert r[2..|r| - 2] == EscapeDots(ex);
    EscapeRoundTrip(ex);
  }

  /** The test `preg_match(...) !== 0`: a failed compilation (`false`) counts as a hit. */
  function Hit(preg: Preg, ex: string, path: string): (hit: bool)
    ensures hit <==> preg(ExceptionRegex(ex), path) == Matched || preg(ExceptionRegex(ex), path) == PregError
  {
    preg(ExceptionRegex(ex), path) != NoMatch
  }

  /** `isException`: whether some configured pattern hits the path. The loop stops
      asking the engine after the first hit, which does not change the answer. */
  function IsException(exceptions: seq<string>, preg: Preg, path: string): (found: bool)
    ensures found <==> exists i :: 0 <= i < |exceptions| && preg(ExceptionRegex(exceptions[i]), path) != NoMatch
    ensures (exists i :: 0 <= i < |exceptions| && preg(ExceptionRegex(exceptions[i]), path) == PregError) ==> found
    ensures exceptions == [] ==> !found
  {
    if exceptions == [] then false
    else Hit(preg, exceptions[0], path) || IsException(exceptions[1..], preg, path)
  }

  /** The answer does not depend on the order or the multiplicity in which the patterns
      were configured: only the set of patterns matters. */
  lemma IsExceptionOrderIrrelevant(a: seq<string>, b: seq<string>, preg: Preg, path: string)
    requires forall x :: x in a <==> x in b
    ensures IsException(a, preg, path) == IsException(b, preg, path)
  {
    if IsException(a, preg, path) {
      var i :| 0 <= i < |a| && preg(ExceptionRegex(a[i]), path) != NoMatch;
      assert a[i] in b;
      var j :| 0 <= j < |b| && b[j] == a[i];
      assert preg(ExceptionRegex(b[j]), path) != NoMatch;
    }
    if IsException(b, preg, path) {
      var j :| 0 <= j < |b| && preg(ExceptionRegex(b[j]), path) != NoMatch;
      assert b[j] in a;
      var i :| 0 <= i < |a| && a[i] == b[j];
      assert preg(ExceptionRegex(a[i]), path) != NoMatch;
    }
  }
}
