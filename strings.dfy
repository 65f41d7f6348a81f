/** The java.lang.String operations the core relies on, written out over
    `seq<char>`: `trim`, `toLowerCase` (ASCII letters), `startsWith`
    (Dafny's prefix relation `p <= s`), `indexOf`, the literal-delimiter
    `split(d)` (limit 0: trailing empty pieces dropped), `split(" ", 2)` and
    `Integer.parseInt`. */
module Strings {
  import opened Results

  // ---------------------------------------------------------------- trim

  /** The characters `String.trim` removes: every code unit up to U+0020. */
  predicate IsSpace(c: char) { c <= ' ' }

  predicate IsTrimmed(s: string) {
    s == [] || (!IsSpace(s[0]) && !IsSpace(s[|s| - 1]))
  }

  function TrimStart(s: string): (r: string)
    ensures |r| <= |s| && r == s[|s| - |r|..]
    ensures r == [] || !IsSpace(r[0])
    ensures forall i :: 0 <= i < |s| - |r| ==> IsSpace(s[i])
  {
    if |s| > 0 && IsSpace(s[0]) then TrimStart(s[1..]) else s
  }

  function TrimEnd(s: string): (r: string)
    ensures |r| <= |s| && r == s[..|r|]
    ensures r == [] || !IsSpace(r[|r| - 1])
    ensures forall i :: |r| <= i < |s| ==> IsSpace(s[i])
  {
    if |s| > 0 && IsSpace(s[|s| - 1]) then TrimEnd(s[..|s| - 1]) else s
  }

  /** `String.trim`: the longest infix with no space at either end, all of
      whose removed characters are spaces. */
  function Trim(s: string): (r: string)
    ensures IsTrimmed(r) && |r| <= |s|
    ensures exists i, j :: 0 <= i <= j <= |s| && r == s[i..j] && Stripped(s, i, j)
  {
    var t := TrimStart(s);
    var r := TrimEnd(t);
    StrippedInfix(s, t, r);
    r
  }

  /** A suffix of `s` past spaces, cut short before spaces, is an infix of
      `s` with only spaces outside it. */
  lemma StrippedInfix(s: string, t: string, r: string)
    requires |t| <= |s| && t == s[|s| - |t|..]
    requires forall k :: 0 <= k < |s| - |t| ==> IsSpace(s[k])
    requires |r| <= |t| && r == t[..|r|]
    requires forall k :: |r| <= k < |t| ==> IsSpace(t[k])
    requires t == [] || !IsSpace(t[0])
    requires r == [] || !IsSpace(r[|r| - 1])
    ensures IsTrimmed(r) && |r| <= |s|
    ensures exists i, j :: 0 <= i <= j <= |s| && r == s[i..j] && Stripped(s, i, j)
  {
    var i := |s| - |t|;
    var j := i + |r|;
    if r != [] { assert r[0] == t[0]; }
    assert r == s[i..j];
    assert forall k :: j <= k < |s| ==> s[k] == t[k - i];
    assert Stripped(s, i, j);
  }

  /** Every character of `s` outside `s[i..j]` is a space. */
  predicate Stripped(s: string, i: nat, j: nat)
    requires i <= j <= |s|
  {
    (forall k :: 0 <= k < i ==> IsSpace(s[k])) && (forall k :: j <= k < |s| ==> IsSpace(s[k]))
  }

  /** `trim` strips exactly the padding: spaces around a trimmed text leave
      that text. */
  lemma TrimPadded(p: string, w: string, q: string)
    requires forall k :: 0 <= k < |p| ==> IsSpace(p[k])
    requires forall k :: 0 <= k < |q| ==> IsSpace(q[k])
    requires IsTrimmed(w)
    ensures Trim(p + w + q) == w
  {
    var s := p + w + q;
    if w == [] {
      assert s == (p + q) + [];
      TrimStartPadded(p + q, []);
      assert TrimStart(s) == [];
    } else {
      assert s == p + (w + q);
      TrimStartPadded(p, w + q);
      TrimEndPadded(w, q);
      assert TrimStart(s) == w + q;
    }
  }

  lemma {:induction false} TrimStartPadded(p: string, rest: string)
    requires forall k :: 0 <= k < |p| ==> IsSpace(p[k])
    requires rest == [] || !IsSpace(rest[0])
    ensures TrimStart(p + rest) == rest
  {
    if p == [] {
      assert p + rest == rest;
    } else {
      assert (p + rest)[1..] == p[1..] + rest;
      TrimStartPadded(p[1..], rest);
    }
  }

  lemma {:induction false} TrimEndPadded(rest: string, q: string)
    requires forall k :: 0 <= k < |q| ==> IsSpace(q[k])
    requires rest == [] || !IsSpace(rest[|rest| - 1])
    ensures TrimEnd(rest + q) == rest
  {
    if q == [] {
      assert rest + q == rest;
    } else {
      assert (rest + q)[..|rest + q| - 1] == rest + q[..|q| - 1];
      TrimEndPadded(rest, q[..|q| - 1]);
    }
  }

  /** Trimming a trimmed string changes nothing (so `trim` is idempotent). */
  lemma TrimOfTrimmed(s: string)
    requires IsTrimmed(s)
    ensures Trim(s) == s
  {
  }

  /** A space appended at the end is removed by `trim`. */
  lemma {:induction false} TrimAppendSpace(s: string, c: char)
    requires IsSpace(c)
    ensures Trim(s + [c]) == Trim(s)
  {
    if |s| > 0 && IsSpace(s[0]) {
      assert (s + [c])[1..] == s[1..] + [c];
      TrimAppendSpace(s[1..], c);
    } else if |s| == 0 {
      assert TrimStart([c]) == [];
    } else {
      assert TrimStart(s + [c]) == s + [c];
      assert (s + [c])[..|s|] == s;
    }
  }

  // ---------------------------------------------------------- toLowerCase

  function LowerChar(c: char): char {
    if 'A' <= c <= 'Z' then (c as int + 32) as char else c
  }

  /** `String.toLowerCase`, on ASCII letters. */
  function ToLower(s: string): (r: string)
    ensures |r| == |s|
    ensures forall i :: 0 <= i < |r| ==> !('A' <= r[i] <= 'Z')
    ensures forall i :: 0 <= i < |s| && !('A' <= s[i] <= 'Z') ==> r[i] == s[i]
  {
    seq(|s|, i requires 0 <= i < |s| => LowerChar(s[i]))
  }

  // ------------------------------------------------- indexOf and split(d)

  predicate OccursAt(s: string, d: string, i: nat) {
    i + |d| <= |s| && s[i..i + |d|] == d
  }

  predicate Contains(s: string, d: string) {
    exists i: nat | i <= |s| :: OccursAt(s, d, i)
  }

  /** `s.indexOf(d, from)`: the first occurrence of `d` at or after `from`. */
  function IndexOfFrom(s: string, d: string, from: nat): (r: Option<nat>)
    requires |d| > 0
    decreases |s| - from
    ensures r.Some? ==> from <= r.value && OccursAt(s, d, r.value)
    ensures r.Some? ==> forall i: nat :: from <= i < r.value ==> !OccursAt(s, d, i)
    ensures r.None? ==> forall i: nat :: from <= i ==> !OccursAt(s, d, i)
  {
    if from + |d| > |s| then None
    else if OccursAt(s, d, from) then Some(from)
    else IndexOfFrom(s, d, from + 1)
  }

  function IndexOf(s: string, d: string): (r: Option<nat>)
    requires |d| > 0
    ensures r.Some? ==> OccursAt(s, d, r.value) && forall i: nat :: i < r.value ==> !OccursAt(s, d, i)
    ensures r.None? <==> !Contains(s, d)
  {
    IndexOfFrom(s, d, 0)
  }

  /** The pieces between the non-overlapping occurrences of `d`, found left
      to right, none of which contains `d`. */
  function Pieces(s: string, d: string): (r: seq<string>)
    requires |d| > 0
    decreases |s|
    ensures |r| >= 1
    ensures forall k :: 0 <= k < |r| ==> !Contains(r[k], d)
  {
    match IndexOf(s, d)
    case None => [s]
    case Some(i) =>
      var head := s[..i];
      assert !Contains(head, d) by {
        forall j: nat | OccursAt(head, d, j) ensures false {
          assert s[j..j + |d|] == head[j..j + |d|];
          assert OccursAt(s, d, j) && j < i;
        }
      }
      [head] + Pieces(s[i + |d|..], d)
  }

  function Join(ps: seq<string>, d: string): string {
    if |ps| == 0 then []
    else if |ps| == 1 then ps[0]
    else ps[0] + d + Join(ps[1..], d)
  }

  lemma JoinThree(a: string, b: string, c: string, d: string)
    ensures Join([a, b, c], d) == a + d + b + d + c
  {
    assert [a, b, c][1..] == [b, c];
    assert [b, c][1..] == [c];
    assert Join([b, c], d) == b + d + c;
    assert Join([a, b, c], d) == a + d + (b + d + c);
  }

  /** `Pieces` is undone by `Join`: nothing of the input is lost. */
  lemma {:induction false} JoinPieces(s: string, d: string)
    requires |d| > 0
    ensures Join(Pieces(s, d), d) == s
    decreases |s|
  {
    var idx := IndexOf(s, d);
    if idx.Some? {
      var i := idx.value;
      var rest := s[i + |d|..];
      var tail := Pieces(rest, d);
      JoinPieces(rest, d);
      assert Pieces(s, d) == [s[..i]] + tail;
      assert Join([s[..i]] + tail, d) == s[..i] + d + Join(tail, d) by {
        assert ([s[..i]] + tail)[1..] == tail;
      }
      assert s[i..i + |d|] == d;
      assert s == s[..i] + d + rest;
    }
  }

  /** Trailing empty strings removed, as `String.split` does with limit 0. */
  function DropTrailingEmpty(ps: seq<string>): (r: seq<string>)
    ensures |r| <= |ps| && r == ps[..|r|]
    ensures r == [] || r[|r| - 1] != []
    ensures forall k :: |r| <= k < |ps| ==> ps[k] == []
  {
    if |ps| == 0 || ps[|ps| - 1] != [] then ps else DropTrailingEmpty(ps[..|ps| - 1])
  }

  /** `s.split(d)` for a delimiter `d` with no regular-expression
      metacharacters: with no occurrence the whole string, otherwise the
      pieces with trailing empty ones dropped. */
  function Split(s: string, d: string): seq<string>
    requires |d| > 0
  {
    if !Contains(s, d) then [s] else DropTrailingEmpty(Pieces(s, d))
  }

  /** The two-character markers of the command syntax (`w/`, `t/`, `m/`,
      `o/`): no occurrence of one can straddle a boundary with another. */
  predicate IsMarker(d: string) {
    |d| == 2 && d[0] != d[1]
  }

  /** Splitting text glued together with a marker gives the glued pieces back,
      provided no piece contains the marker. */
  lemma {:induction false} PiecesOfJoin(ps: seq<string>, d: string)
    requires IsMarker(d) && |ps| >= 1
    requires forall k :: 0 <= k < |ps| ==> !Contains(ps[k], d)
    ensures Pieces(Join(ps, d), d) == ps
  {
    if |ps| == 1 {
    } else {
      var rest := Join(ps[1..], d);
      assert Join(ps, d) == ps[0] + d + rest;
      PiecesAt(ps[0], d, rest);
      assert forall k :: 0 <= k < |ps| - 1 ==> ps[1..][k] == ps[k + 1];
      PiecesOfJoin(ps[1..], d);
      assert ps == [ps[0]] + ps[1..];
    }
  }

  /** Text free of a marker, then the marker: the text is the first piece. */
  lemma PiecesAt(a: string, d: string, rest: string)
    requires IsMarker(d) && !Contains(a, d)
    ensures Pieces(a + d + rest, d) == [a] + Pieces(rest, d)
  {
    var s := a + d + rest;
    FirstMarkerAt(a, d, rest);
    assert s[..|a|] == a;
    assert s[|a| + 2..] == rest;
  }

  /** A marker glued after text free of it is the first occurrence. */
  lemma FirstMarkerAt(a: string, d: string, rest: string)
    requires IsMarker(d) && !Contains(a, d)
    ensures IndexOf(a + d + rest, d) == Some(|a|)
  {
    var s := a + d + rest;
    var n := |a|;
    assert OccursAt(s, d, n) by { assert s[n..n + 2] == d; }
    forall i: nat | i < n ensures !OccursAt(s, d, i) {
      if i + 2 <= n {
        assert s[i..i + 2] == a[i..i + 2];
        assert !OccursAt(a, d, i);
      } else {
        assert s[i + 1] == d[0];
      }
    }
  }

  /** The round trip the parser relies on: `Join(ps, d).split(d) == ps` when
      there are at least two pieces, none contains `d`, and the last is not
      empty. */
  lemma SplitOfJoin(ps: seq<string>, d: string)
    requires IsMarker(d) && |ps| >= 2 && ps[|ps| - 1] != []
    requires forall k :: 0 <= k < |ps| ==> !Contains(ps[k], d)
    ensures Split(Join(ps, d), d) == ps
  {
    PiecesOfJoin(ps, d);
    var s := Join(ps, d);
    assert s == ps[0] + d + Join(ps[1..], d);
    assert OccursAt(s, d, |ps[0]|) by { assert s[|ps[0]|..|ps[0]| + 2] == d; }
  }

  /** Two markers that can neither overlap nor meet across a seam: `w/`,
      `t/`, `m/` and `o/` are pairwise apart. */
  predicate Apart(d: string, e: string) {
    IsMarker(d) && IsMarker(e) && d != e && d[0] != e[1] && d[1] != e[0]
  }

  /** A string without the first character of `d` has no occurrence of it. */
  lemma WithoutFirstChar(s: string, d: string)
    requires |d| > 0 && d[0] !in s
    ensures !Contains(s, d)
  {
    forall i: nat | i <= |s| ensures !OccursAt(s, d, i) {
      if i + |d| <= |s| {
        assert s[i..i + |d|][0] == s[i];
      }
    }
  }

  /** An occurrence of a two-character string in a concatenation lies in one
      of the parts or straddles the seam. */
  lemma ContainsConcat(a: string, b: string, e: string)
    requires |e| == 2 && Contains(a + b, e)
    ensures Contains(a, e) || Contains(b, e) || (|a| > 0 && |b| > 0 && a[|a| - 1] == e[0] && b[0] == e[1])
  {
    var s := a + b;
    var i: nat :| i <= |s| && OccursAt(s, e, i);
    if i + 2 <= |a| {
      assert a[i..i + 2] == s[i..i + 2];
      assert OccursAt(a, e, i);
    } else if i >= |a| {
      assert b[i - |a|..i - |a| + 2] == s[i..i + 2];
      assert OccursAt(b, e, i - |a|);
    } else {
      assert s[i] == e[0] && s[i + 1] == e[1];
    }
  }

  /** Neither of two markers apart contains the other. */
  lemma MarkersApart(d: string, e: string)
    requires Apart(d, e)
    ensures !Contains(d, e) && !Contains(e, d)
  {
    assert d[0..2] == d && e[0..2] == e;
  }

  /** Putting a marker in front of text free of another marker keeps it free. */
  lemma PrefixKeepsOut(p: string, w: string, d: string)
    requires Apart(p, d) && !Contains(w, d)
    ensures !Contains(p + w, d)
  {
    MarkersApart(p, d);
    if Contains(p + w, d) {
      ContainsConcat(p, w, d);
    }
  }

  /** Text glued with one marker from pieces free of another stays free of it. */
  lemma {:induction false} JoinKeepsOut(ps: seq<string>, d: string, e: string)
    requires Apart(d, e)
    requires forall k :: 0 <= k < |ps| ==> !Contains(ps[k], e)
    ensures !Contains(Join(ps, d), e)
  {
    if |ps| == 0 {
      assert !OccursAt([], e, 0);
    } else if |ps| >= 2 {
      JoinKeepsOut(ps[1..], d, e);
      MarkersApart(d, e);
      var head := ps[0] + d;
      var rest := Join(ps[1..], d);
      if Contains(head, e) {
        ContainsConcat(ps[0], d, e);
      }
      assert Join(ps, d) == head + rest;
      if Contains(head + rest, e) {
        ContainsConcat(head, rest, e);
      }
    }
  }

  /** Text opening with a marker apart from `d` splits on `d` into at least
      one piece, and the first piece still opens with that marker. */
  lemma SplitKeepsPrefix(s: string, p: string, d: string)
    requires Apart(p, d) && p <= s
    ensures |Split(s, d)| >= 1 && p <= Split(s, d)[0]
  {
    if Contains(s, d) {
      assert s[..2] == p;
      assert !OccursAt(s, d, 0) && !OccursAt(s, d, 1);
      var i := IndexOf(s, d).value;
      var ps := Pieces(s, d);
      assert ps[0] == s[..i];
      assert ps[0] != [];
      assert |DropTrailingEmpty(ps)| >= 1;
    }
  }

  /** Without any occurrence, `split` returns the input whole (even when it is
      empty). */
  lemma SplitWithout(s: string, d: string)
    requires |d| > 0 && !Contains(s, d)
    ensures Split(s, d) == [s]
  {
  }

  // ------------------------------------------------------ split(" ", 2)

  /** `s.split(c, 2)` for a one-character delimiter: at most two pieces, cut
      at the first occurrence; a trailing empty piece is kept. */
  function SplitOnce(s: string, c: char): (r: seq<string>)
    ensures 1 <= |r| <= 2
    ensures |r| == 1 <==> c !in s
    ensures |r| == 1 ==> r[0] == s
    ensures |r| == 2 ==> c !in r[0] && r[0] + [c] + r[1] == s
  {
    match IndexOf(s, [c])
    case None =>
      assert c !in s by {
        if c in s {
          var i :| 0 <= i < |s| && s[i] == c;
          assert OccursAt(s, [c], i);
        }
      }
      [s]
    case Some(i) =>
      assert c !in s[..i] by {
        forall j | 0 <= j < i ensures s[j] != c {
          assert !OccursAt(s, [c], j);
        }
      }
      assert s == s[..i] + [c] + s[i + 1..];
      [s[..i], s[i + 1..]]
  }

  /** Text cut at its first `c`: a head without `c`, a space, and the rest. */
  lemma SplitOnceAt(a: string, c: char, b: string)
    requires c !in a
    ensures SplitOnce(a + [c] + b, c) == [a, b]
  {
    var s := a + [c] + b;
    assert s[|a|] == c;
    var r := SplitOnce(s, c);
    assert forall j :: 0 <= j < |r[0]| ==> s[j] == r[0][j];
    assert forall j :: 0 <= j < |a| ==> s[j] == a[j];
    assert s[|r[0]|] == c;
    assert |r[0]| == |a|;
    assert r[0] == s[..|a|] == a;
    assert r[1] == s[|a| + 1..] == b;
  }

  // -------------------------------------------------- Integer.parseInt

  const IntMin: int := -0x8000_0000
  const IntMax: int := 0x7fff_ffff

  predicate IsDigit(c: char) { '0' <= c <= '9' }

  predicate AllDigits(s: string) { forall i :: 0 <= i < |s| ==> IsDigit(s[i]) }

  function DigitsValue(ds: string): nat
    requires AllDigits(ds)
  {
    if ds == [] then 0
    else DigitsValue(ds[..|ds| - 1]) * 10 + (ds[|ds| - 1] as int - '0' as int)
  }

  /** `Integer.parseInt(s)` in radix 10: an optional sign and at least one
      digit, whose value fits in 32 bits; `None` where Java throws
      `NumberFormatException`. */
  function ParseInt(s: string): (r: Option<int>)
    ensures r.Some? ==> IntMin <= r.value <= IntMax
    ensures r.Some? ==> |s| > 0 && (IsDigit(s[0]) || s[0] == '-' || s[0] == '+')
  {
    if |s| == 0 then None
    else
      var signed := s[0] == '-' || s[0] == '+';
      var ds := if signed then s[1..] else s;
      if |ds| == 0 || !AllDigits(ds) then None
      else
        var v: int := if s[0] == '-' then -(DigitsValue(ds) as int) else DigitsValue(ds);
        if IntMin <= v <= IntMax then Some(v) else None
  }

  /** Decimal notation of a natural number, without sign or leading zeros. */
  function Decimal(n: nat): (r: string)
    ensures |r| > 0 && AllDigits(r)
    ensures r[0] != '0' || n == 0
  {
    if n < 10 then ['0' + n as char]
    else
      var r := Decimal(n / 10) + ['0' + (n % 10) as char];
      assert r[0] == Decimal(n / 10)[0];
      r
  }

  lemma {:induction false} DigitsOfDecimal(n: nat)
    ensures DigitsValue(Decimal(n)) == n
  {
    if n >= 10 {
      var r := Decimal(n);
      assert r[..|r| - 1] == Decimal(n / 10);
      DigitsOfDecimal(n / 10);
    }
  }

  /** `parseInt` reads back what decimal notation writes, for every
      non-negative `int`. */
  lemma ParseIntOfDecimal(n: nat)
    requires n <= IntMax
    ensures ParseInt(Decimal(n)) == Some(n)
  {
    DigitsOfDecimal(n);
  }
}
