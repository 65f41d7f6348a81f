/** The order `TreeMap<String, _>` keeps its keys in: `String.compareTo`,
    lexicographic by character with a proper prefix first. */
module Order {

  /** `a.compareTo(b) < 0`. */
  predicate Less(a: string, b: string) {
    if |a| == 0 then |b| > 0
    else if |b| == 0 then false
    else if a[0] != b[0] then a[0] < b[0]
    else Less(a[1..], b[1..])
  }

  /** `a.compareTo(b) <= 0`. */
  predicate LessEq(a: string, b: string) { a == b || Less(a, b) }

  lemma {:induction false} LessIrreflexive(a: string)
    ensures !Less(a, a)
  {
    if |a| > 0 { LessIrreflexive(a[1..]); }
  }

  lemma {:induction false} LessTransitive(a: string, b: string, c: string)
    requires Less(a, b) && Less(b, c)
    ensures Less(a, c)
  {
    if |a| > 0 && a[0] == b[0] && b[0] == c[0] {
      LessTransitive(a[1..], b[1..], c[1..]);
    }
  }

  /** Any two different strings are ordered one way or the other. */
  lemma {:induction false} LessTotal(a: string, b: string)
    ensures a == b || Less(a, b) || Less(b, a)
  {
    if |a| > 0 && |b| > 0 && a[0] == b[0] {
      LessTotal(a[1..], b[1..]);
      if a[1..] == b[1..] {
        assert a == [a[0]] + a[1..] && b == [b[0]] + b[1..];
      }
    }
  }

  /** No string is both below and at-or-above another. */
  lemma LessNotBoth(a: string, b: string)
    ensures !(Less(a, b) && LessEq(b, a))
  {
    LessIrreflexive(a);
    if Less(a, b) && Less(b, a) {
      LessTransitive(a, b, a);
    }
  }

  /** A string is never greater than its extensions. */
  lemma {:induction false} PrefixLessEq(p: string, k: string)
    requires p <= k
    ensures LessEq(p, k)
  {
    if |p| > 0 {
      PrefixLessEq(p[1..], k[1..]);
      if p[1..] == k[1..] {
        assert p == [p[0]] + p[1..] && k == [k[0]] + k[1..];
      }
    }
  }

  /** The keys carrying a prefix form an interval of the order: whatever lies
      between the prefix and one of its extensions carries it too. This is
      why a scan from the ceiling key finds all of them in a row. */
  lemma {:induction false} PrefixInterval(p: string, c: string, k: string)
    requires LessEq(p, c) && LessEq(c, k) && p <= k
    ensures p <= c
  {
    if |p| > 0 && c != p && c != k {
      assert |c| > 0 && c[0] == p[0] && k[0] == p[0];
      PrefixInterval(p[1..], c[1..], k[1..]);
      assert c == [c[0]] + c[1..];
    }
  }

  // -------------------------------------------------- sorted enumeration

  /** The elements of a list. */
  function Elems(s: seq<string>): set<string> {
    set x | x in s
  }

  predicate NoDuplicates(s: seq<string>) {
    forall i, j :: 0 <= i < j < |s| ==> s[i] != s[j]
  }

  predicate StrictlyAscending(s: seq<string>) {
    forall i, j :: 0 <= i < j < |s| ==> Less(s[i], s[j])
  }

  /** `s` lists the set `keys` once each, in ascending order: what a
      `TreeMap`'s `keySet()` iterates over. */
  ghost predicate Enumerates(s: seq<string>, keys: set<string>) {
    StrictlyAscending(s) && (forall k :: k in s <==> k in keys)
  }

  lemma EmptyEnumeration(s: seq<string>, keys: set<string>)
    requires Enumerates(s, keys)
    ensures s == [] <==> keys == {}
  {
    if s != [] { assert s[0] in keys; }
  }

  /** There is only one such listing, so a listing fixes the order of the
      results built from it. */
  lemma {:induction false} EnumerationUnique(s: seq<string>, t: seq<string>, keys: set<string>)
    requires Enumerates(s, keys) && Enumerates(t, keys)
    ensures s == t
    decreases |s|
  {
    if s != [] && t != [] {
      if s[0] != t[0] {
        assert t[0] in keys && s[0] in keys;
        assert t[0] in s && s[0] in t;
        var i :| 0 <= i < |s| && s[i] == t[0];
        var j :| 0 <= j < |t| && t[j] == s[0];
        assert Less(s[0], t[0]) && Less(t[0], s[0]);
        LessNotBoth(s[0], t[0]);
      }
      forall k ensures k in s[1..] <==> k in keys - {s[0]} {
        if k in s[1..] {
          var i :| 1 <= i < |s| && s[i] == k;
          assert Less(s[0], s[i]);
          LessIrreflexive(k);
        }
        if k in keys - {s[0]} {
          var i :| 0 <= i < |s| && s[i] == k;
          assert i != 0;
        }
      }
      forall k ensures k in t[1..] <==> k in keys - {s[0]} {
        if k in t[1..] {
          var i :| 1 <= i < |t| && t[i] == k;
          assert Less(t[0], t[i]);
          LessIrreflexive(k);
        }
        if k in keys - {s[0]} {
          var i :| 0 <= i < |t| && t[i] == k;
          assert i != 0;
        }
      }
      EnumerationUnique(s[1..], t[1..], keys - {s[0]});
      assert s == [s[0]] + s[1..] && t == [t[0]] + t[1..];
    } else {
      EmptyEnumeration(s, keys);
      EmptyEnumeration(t, keys);
    }
  }

  /** Inserts `x` into an ascending listing at its place. */
  method Insert(s: seq<string>, x: string) returns (r: seq<string>)
    requires StrictlyAscending(s) && x !in s
    ensures StrictlyAscending(r)
    ensures forall k :: k in r <==> k in s || k == x
  {
    var i := 0;
    while i < |s| && Less(s[i], x)
      invariant 0 <= i <= |s|
      invariant forall j :: 0 <= j < i ==> Less(s[j], x)
    {
      i := i + 1;
    }
    if i < |s| {
      LessTotal(s[i], x);
      forall j | i <= j < |s| ensures Less(x, s[j]) {
        if j > i { LessTransitive(x, s[i], s[j]); }
      }
    }
    r := s[..i] + [x] + s[i..];
    assert forall j :: 0 <= j < |r| ==> r[j] == (if j < i then s[j] else if j == i then x else s[j - 1]);
    forall k ensures k in r <==> k in s || k == x {
      if k in s {
        var j :| 0 <= j < |s| && s[j] == k;
        assert r[if j < i then j else j + 1] == k;
      }
    }
  }

  /** The keys of a sorted map in iteration order (`keySet()` of a
      `TreeMap`). */
  method SortedKeys(keys: set<string>) returns (s: seq<string>)
    ensures Enumerates(s, keys)
  {
    s := [];
    var rest := keys;
    while rest != {}
      invariant rest <= keys
      invariant StrictlyAscending(s)
      invariant forall k :: k in s <==> k in keys - rest
      decreases rest
    {
      var x :| x in rest;
      s := Insert(s, x);
      rest := rest - {x};
    }
  }
}
