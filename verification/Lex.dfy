/** The order `BTreeSet<String>`, `BTreeMap<String, _>` and `Vec<String>::sort` use, and the sorted
    listing of a set. UTF-8 byte order and code-point order agree, so comparing characters is exact. */
module Lex {
  predicate Less(a: string, b: string) {
    if b == "" then false
    else if a == "" then true
    else a[0] < b[0] || (a[0] == b[0] && Less(a[1..], b[1..]))
  }

  lemma {:induction false} Trichotomy(a: string, b: string)
    ensures Less(a, b) || a == b || Less(b, a)
    ensures !(Less(a, b) && Less(b, a))
    ensures Less(a, b) ==> a != b
  {
    if a != "" && b != "" {
      Trichotomy(a[1..], b[1..]);
      if a[0] == b[0] && a[1..] == b[1..] {
        assert a == [a[0]] + a[1..] && b == [b[0]] + b[1..];
      }
    }
  }

  lemma {:induction false} Transitive(a: string, b: string, c: string)
    requires Less(a, b) && Less(b, c)
    ensures Less(a, c)
  {
    if a != "" && a[0] == b[0] && b[0] == c[0] {
      Transitive(a[1..], b[1..], c[1..]);
    }
  }

  predicate Increasing(s: seq<string>) {
    forall i, j :: 0 <= i < j < |s| ==> Less(s[i], s[j])
  }

  predicate IsLeast(m: string, s: set<string>) {
    m in s && forall x :: x in s && x != m ==> Less(m, x)
  }

  lemma {:induction false} LeastExists(s: set<string>)
    requires s != {}
    ensures exists m :: IsLeast(m, s)
    decreases |s|
  {
    var x :| x in s;
    if s == {x} {
      assert IsLeast(x, s);
    } else {
      LeastExists(s - {x});
      var m :| IsLeast(m, s - {x});
      Trichotomy(x, m);
      var best := if Less(x, m) then x else m;
      forall y | y in s && y != best ensures Less(best, y) {
        if best == x && y != m { Transitive(x, m, y); }
      }
      assert IsLeast(best, s);
    }
  }

  function Least(s: set<string>): (m: string)
    requires s != {}
    ensures IsLeast(m, s)
  {
    LeastExists(s);
    assert forall m, n :: IsLeast(m, s) && IsLeast(n, s) ==> m == n by {
      forall m, n | IsLeast(m, s) && IsLeast(n, s) ensures m == n { Trichotomy(m, n); }
    }
    var m :| IsLeast(m, s);
    m
  }

  /** A set listed in increasing order, each element once: what iterating a `BTreeSet` yields. */
  function Sorted(s: set<string>): seq<string>
    decreases |s|
  {
    if s == {} then []
    else
      var m := Least(s);
      [m] + Sorted(s - {m})
  }

  lemma {:induction false} SortedLists(s: set<string>)
    ensures Increasing(Sorted(s))
    ensures forall x :: x in Sorted(s) <==> x in s
    ensures |Sorted(s)| == |s|
    decreases |s|
  {
    if s != {} {
      var m := Least(s);
      SortedLists(s - {m});
      var rest, r := Sorted(s - {m}), Sorted(s);
      assert r == [m] + rest;
      forall i, j | 0 <= i < j < |r| ensures Less(r[i], r[j]) {
        assert r[j] == rest[j - 1] && rest[j - 1] in rest;
        if i > 0 { assert r[i] == rest[i - 1]; }
      }
    }
  }

  /** The elements of a list, built up in order. */
  function Elements(s: seq<string>): set<string> {
    if s == [] then {} else Elements(s[..|s| - 1]) + {s[|s| - 1]}
  }

  lemma {:induction false} ElementsOfSorted(s: set<string>)
    ensures Elements(Sorted(s)) == s
  {
    SortedLists(s);
    ElementsAre(Sorted(s));
  }

  lemma {:induction false} ElementsAre(s: seq<string>)
    ensures forall x :: x in Elements(s) <==> x in s
  {
    if s != [] {
      ElementsAre(s[..|s| - 1]);
      assert s == s[..|s| - 1] + [s[|s| - 1]];
    }
  }

  /** An increasing listing of a set is unique, so `Sorted` names the only one. */
  lemma {:induction false} IncreasingIsUnique(r: seq<string>, t: seq<string>)
    requires Increasing(r) && Increasing(t)
    requires forall x :: x in r <==> x in t
    ensures r == t
  {
    assert r != [] ==> r[0] in t;
    assert t != [] ==> t[0] in r;
    if r != [] && t != [] {
      Trichotomy(r[0], t[0]);
      assert r[0] == t[0];
      forall x ensures x in r[1..] <==> x in t[1..] {
        Trichotomy(r[0], r[0]);
        if x in r[1..] { assert x in r && x != r[0]; }
        if x in t[1..] { assert x in t && x != t[0]; }
      }
      IncreasingIsUnique(r[1..], t[1..]);
      assert r == [r[0]] + r[1..] && t == [t[0]] + t[1..];
    }
  }

  /** What the order is: one is a proper beginning of the other, or they first differ in a lesser character. */
  lemma {:induction false} LessMeans(a: string, b: string)
    ensures Less(a, b) <==> a < b || exists i :: 0 <= i < |a| && i < |b| && a[..i] == b[..i] && a[i] < b[i]
  {
    if a != "" && b != "" && a[0] == b[0] {
      LessMeans(a[1..], b[1..]);
      if Less(a[1..], b[1..]) && !(a[1..] < b[1..]) {
        var i :| 0 <= i < |a[1..]| && i < |b[1..]| && a[1..][..i] == b[1..][..i] && a[1..][i] < b[1..][i];
        assert a[..i + 1] == [a[0]] + a[1..][..i] && b[..i + 1] == [b[0]] + b[1..][..i];
        assert a[i + 1] < b[i + 1];
      }
      if i :| 0 <= i < |a| && i < |b| && a[..i] == b[..i] && a[i] < b[i] {
        assert a[1..][..i - 1] == a[..i][1..] && b[1..][..i - 1] == b[..i][1..];
        assert a[1..][i - 1] < b[1..][i - 1];
      }
    } else if a != "" && b != "" {
      if a[0] < b[0] { assert a[..0] == b[..0]; }
      forall i | 0 <= i < |a| && i < |b| && a[..i] == b[..i] ensures i == 0 {}
    }
  }

  /** The listing less some of its elements, order kept. */
  function Without(s: seq<string>, out: set<string>): seq<string> {
    if s == [] then []
    else
      var rest := Without(s[..|s| - 1], out);
      if s[|s| - 1] in out then rest else rest + [s[|s| - 1]]
  }

  lemma {:induction false} WithoutIs(s: seq<string>, out: set<string>)
    requires Increasing(s)
    ensures Increasing(Without(s, out))
    ensures forall x :: x in Without(s, out) <==> x in s && x !in out
  {
    if s != [] {
      var front, last := s[..|s| - 1], s[|s| - 1];
      assert s == front + [last];
      WithoutIs(front, out);
      forall x | x in front ensures Less(x, last) {
        var i :| 0 <= i < |front| && front[i] == x;
        assert s[i] == x && s[|s| - 1] == last;
      }
    }
  }

  lemma FilterSorted(s: set<string>, out: set<string>)
    ensures Without(Sorted(s), out) == Sorted(s - out)
  {
    SortedLists(s);
    SortedLists(s - out);
    WithoutIs(Sorted(s), out);
    IncreasingIsUnique(Without(Sorted(s), out), Sorted(s - out));
  }
}
