/** The order of sort.Strings, and the sorted lists of internal/gateway/settings.go. */
module Sorting {
  predicate Below(a: string, b: string) {
    b != "" && (a == "" || a[0] < b[0] || (a[0] == b[0] && Below(a[1..], b[1..])))
  }

  lemma {:induction false} BelowIsTotal(a: string, b: string)
    ensures a == b || Below(a, b) || Below(b, a)
    ensures !(Below(a, b) && Below(b, a)) && !Below(a, a)
  {
    if a != "" && b != "" {
      BelowIsTotal(a[1..], b[1..]);
      assert a == [a[0]] + a[1..] && b == [b[0]] + b[1..];
    }
    if a != "" {
      BelowIsTotal(a[1..], a[1..]);
    }
  }

  lemma {:induction false} BelowIsTransitive(a: string, b: string, c: string)
    requires Below(a, b) && Below(b, c)
    ensures Below(a, c)
  {
    if a != "" && a[0] == b[0] == c[0] {
      BelowIsTransitive(a[1..], b[1..], c[1..]);
    }
  }

  ghost predicate Ascending(s: seq<string>) {
    forall i, j :: 0 <= i < j < |s| ==> Below(s[i], s[j])
  }

  function Placed(s: seq<string>, x: string): seq<string> {
    if s == [] || !Below(s[0], x) then [x] + s else [s[0]] + Placed(s[1..], x)
  }

  // sort.Strings
  function Sorted(s: seq<string>): seq<string> {
    if s == [] then [] else Placed(Sorted(s[1..]), s[0])
  }

  lemma {:induction false} PlacedKeepsOrder(s: seq<string>, x: string)
    requires Ascending(s) && x !in s
    ensures Ascending(Placed(s, x))
    ensures forall y :: y in Placed(s, x) <==> y == x || y in s
  {
    if s != [] {
      BelowIsTotal(s[0], x);
      if Below(s[0], x) {
        PlacedKeepsOrder(s[1..], x);
        forall y | y in Placed(s[1..], x)
          ensures Below(s[0], y)
        {
          if y != x {
            var i :| 0 <= i < |s[1..]| && s[1..][i] == y;
            assert s[i + 1] == y;
          }
        }
      } else {
        forall y | y in s
          ensures Below(x, y)
        {
          var i :| 0 <= i < |s| && s[i] == y;
          if i > 0 {
            BelowIsTransitive(x, s[0], s[i]);
          }
        }
      }
    }
  }

  lemma {:induction false} AscendingIsSorted(s: seq<string>)
    requires Ascending(s)
    ensures Sorted(s) == s
  {
    if s != [] {
      AscendingIsSorted(s[1..]);
      if |s| > 1 {
        BelowIsTotal(s[0], s[1]);
      }
    }
  }

  // Two ascending lists of the same strings are the same list.
  lemma {:induction false} AscendingIsUnique(a: seq<string>, b: seq<string>)
    requires Ascending(a) && Ascending(b) && forall x :: x in a <==> x in b
    ensures a == b
  {
    assert b != [] ==> b[0] in b;
    if a != [] {
      assert a[0] in b;
      assert b[0] in b;
      LeastIsFirst(a, b);
      RestIsRest(a, b);
      AscendingIsUnique(a[1..], b[1..]);
    }
  }

  lemma LeastIsFirst(a: seq<string>, b: seq<string>)
    requires Ascending(a) && Ascending(b) && a != [] && b != [] && a[0] in b && b[0] in a
    ensures a[0] == b[0]
  {
    var i :| 0 <= i < |a| && a[i] == b[0];
    var j :| 0 <= j < |b| && b[j] == a[0];
    BelowIsTotal(a[0], b[0]);
  }

  lemma RestIsRest(a: seq<string>, b: seq<string>)
    requires Ascending(a) && Ascending(b) && a != [] && b != [] && a[0] == b[0]
    requires forall x :: x in a <==> x in b
    ensures Ascending(a[1..]) && Ascending(b[1..])
    ensures forall x :: x in a[1..] <==> x in b[1..]
  {
    BelowIsTotal(a[0], a[0]);
    forall x
      ensures x in a[1..] <==> x in a && x != a[0]
    {
      if x in a[1..] {
        var i :| 0 <= i < |a[1..]| && a[1..][i] == x;
        assert a[i + 1] == x;
      }
    }
    forall x
      ensures x in b[1..] <==> x in b && x != b[0]
    {
      if x in b[1..] {
        var i :| 0 <= i < |b[1..]| && b[1..][i] == x;
        assert b[i + 1] == x;
      }
    }
  }

  function Elements(s: seq<string>): set<string> {
    set x | x in s
  }

  // sortedSet
  method SortedSet(m: set<string>) returns (out: seq<string>)
    ensures Ascending(out) && Elements(out) == m
  {
    out := [];
    var rest := m;
    while rest != {}
      invariant rest <= m && Ascending(out) && Elements(out) == m - rest
      decreases rest
    {
      var x :| x in rest;
      assert x !in Elements(out);
      PlacedKeepsOrder(out, x);
      assert Elements(Placed(out, x)) == Elements(out) + {x};
      out := Placed(out, x);
      rest := rest - {x};
    }
  }
}
