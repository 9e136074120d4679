/** The JavaScript string operations the managers rely on: the default `Array.prototype.sort`
    order, `join`, `includes` and decimal rendering of a counter. */
module Strings {
  import opened Common

  /** The UTF-16 code units of one character: itself below 0x10000, otherwise a surrogate pair. */
  function CodeUnits(c: char): (r: seq<int>)
    ensures 1 <= |r| <= 2
    ensures forall k :: 0 <= k < |r| ==> 0 <= r[k] < 0x10000
    ensures |r| == 1 <==> c as int < 0x10000
    ensures |r| == 1 ==> c as int == r[0] && !(0xD800 <= r[0] < 0xDC00)
    ensures |r| == 2 ==> 0xD800 <= r[0] < 0xDC00 && 0xDC00 <= r[1] < 0xE000
    ensures |r| == 2 ==> c as int == 0x10000 + (r[0] - 0xD800) * 0x400 + (r[1] - 0xDC00)
  {
    var n := c as int;
    if n < 0x10000 then [n]
    else [0xD800 + (n - 0x10000) / 0x400, 0xDC00 + (n - 0x10000) % 0x400]
  }

  /** The UTF-16 code units of a string, the sequence JavaScript strings are made of. */
  function Utf16(s: string): seq<int> {
    if s == [] then [] else CodeUnits(s[0]) + Utf16(s[1..])
  }

  /** Lexicographic order on code-unit sequences, a proper prefix first. */
  predicate UnitsLess(a: seq<int>, b: seq<int>) {
    if |a| == 0 then |b| > 0
    else if |b| == 0 then false
    else if a[0] == b[0] then UnitsLess(a[1..], b[1..])
    else a[0] < b[0]
  }

  lemma {:induction false} UnitsLessAsymmetric(a: seq<int>, b: seq<int>)
    ensures !(UnitsLess(a, b) && UnitsLess(b, a))
  {
    if |a| > 0 && |b| > 0 && a[0] == b[0] { UnitsLessAsymmetric(a[1..], b[1..]); }
  }

  lemma {:induction false} UnitsLessTransitive(a: seq<int>, b: seq<int>, c: seq<int>)
    requires UnitsLess(a, b) && UnitsLess(b, c)
    ensures UnitsLess(a, c)
  {
    if |a| > 0 && a[0] == b[0] && b[0] == c[0] {
      UnitsLessTransitive(a[1..], b[1..], c[1..]);
    }
  }

  lemma {:induction false} UnitsLessTotal(a: seq<int>, b: seq<int>)
    requires a != b
    ensures UnitsLess(a, b) || UnitsLess(b, a)
  {
    if |a| > 0 && |b| > 0 && a[0] == b[0] {
      assert a == [a[0]] + a[1..] && b == [b[0]] + b[1..];
      UnitsLessTotal(a[1..], b[1..]);
    }
  }

  lemma {:induction false} UnitsLessCommonPrefix(u: seq<int>, x: seq<int>, y: seq<int>)
    ensures UnitsLess(u + x, u + y) <==> UnitsLess(x, y)
  {
    if u != [] {
      assert (u + x)[1..] == u[1..] + x && (u + y)[1..] == u[1..] + y;
      UnitsLessCommonPrefix(u[1..], x, y);
    } else {
      assert u + x == x && u + y == y;
    }
  }

  /** Character `c` comes before `d` in UTF-16 code-unit order. */
  predicate CharLess(c: char, d: char) {
    UnitsLess(CodeUnits(c), CodeUnits(d))
  }

  /** The code units of two different characters differ before either ends, so they alone
      decide the order whatever follows them. */
  lemma CharUnitsDecide(c: char, d: char, x: seq<int>, y: seq<int>)
    requires c != d
    ensures UnitsLess(CodeUnits(c) + x, CodeUnits(d) + y) <==> CharLess(c, d)
  {
    var u, v := CodeUnits(c), CodeUnits(d);
    assert (u + x)[0] == u[0] && (v + y)[0] == v[0];
    if u[0] == v[0] {
      assert |u| == 2 && |v| == 2 && u[1] != v[1];
      var ux, vy := (u + x)[1..], (v + y)[1..];
      assert ux[0] == u[1] && vy[0] == v[1];
      assert UnitsLess(u + x, v + y) == UnitsLess(ux, vy) == (u[1] < v[1]);
      assert UnitsLess(u, v) == UnitsLess(u[1..], v[1..]) == (u[1] < v[1]);
    }
  }

  /** `a < b` on JavaScript strings, the default `sort()` order: lexicographic on UTF-16 code
      units, a proper prefix first, compared here one character at a time. */
  predicate Less(a: string, b: string) {
    if |a| == 0 then |b| > 0
    else if |b| == 0 then false
    else if a[0] == b[0] then Less(a[1..], b[1..])
    else CharLess(a[0], b[0])
  }

  /** `Less` is the lexicographic order of the strings' UTF-16 code units. */
  lemma {:induction false} LessIsUtf16Order(a: string, b: string)
    ensures Less(a, b) <==> UnitsLess(Utf16(a), Utf16(b))
  {
    if a != [] && b != [] {
      assert Utf16(a) == CodeUnits(a[0]) + Utf16(a[1..]);
      assert Utf16(b) == CodeUnits(b[0]) + Utf16(b[1..]);
      if a[0] == b[0] {
        LessIsUtf16Order(a[1..], b[1..]);
        UnitsLessCommonPrefix(CodeUnits(a[0]), Utf16(a[1..]), Utf16(b[1..]));
      } else {
        CharUnitsDecide(a[0], b[0], Utf16(a[1..]), Utf16(b[1..]));
      }
    }
  }

  lemma {:induction false} LessIrreflexive(a: string)
    ensures !Less(a, a)
  {
    if |a| > 0 { LessIrreflexive(a[1..]); }
  }

  lemma {:induction false} LessAsymmetric(a: string, b: string)
    ensures !(Less(a, b) && Less(b, a))
  {
    if |a| > 0 && |b| > 0 {
      if a[0] == b[0] {
        LessAsymmetric(a[1..], b[1..]);
      } else {
        UnitsLessAsymmetric(CodeUnits(a[0]), CodeUnits(b[0]));
      }
    }
  }

  lemma {:induction false} LessTransitive(a: string, b: string, c: string)
    requires Less(a, b) && Less(b, c)
    ensures Less(a, c)
  {
    if |a| > 0 && |c| > 0 {
      if a[0] == b[0] && b[0] == c[0] {
        LessTransitive(a[1..], b[1..], c[1..]);
      } else if a[0] != b[0] && b[0] != c[0] {
        UnitsLessTransitive(CodeUnits(a[0]), CodeUnits(b[0]), CodeUnits(c[0]));
        if a[0] == c[0] { UnitsLessAsymmetric(CodeUnits(a[0]), CodeUnits(b[0])); }
      }
    }
  }

  /** Two different strings are always ordered one way or the other. */
  lemma {:induction false} LessTotal(a: string, b: string)
    requires a != b
    ensures Less(a, b) || Less(b, a)
  {
    if |a| > 0 && |b| > 0 {
      if a[0] == b[0] {
        assert a == [a[0]] + a[1..] && b == [b[0]] + b[1..];
        LessTotal(a[1..], b[1..]);
      } else {
        UnitsLessTotal(CodeUnits(a[0]), CodeUnits(b[0]));
      }
    }
  }

  /** A character outside the Basic Multilingual Plane sorts by its high surrogate, so before
      a BMP character above 0xD83D even though its scalar value is larger. */
  lemma SurrogateOrder()
    ensures Less("\U{1F600}", "\U{FF61}")
    ensures "\U{1F600}"[0] as int > "\U{FF61}"[0] as int
  {
    assert CodeUnits('\U{1F600}') == [0xD83D, 0xDE00];
  }

  /** Strictly increasing, hence also duplicate-free. */
  predicate Sorted(s: seq<string>) {
    forall i, j :: 0 <= i < j < |s| ==> Less(s[i], s[j])
  }

  /** Inserting `x` into a sorted sequence at its place. */
  function Insert(x: string, s: seq<string>): (r: seq<string>)
    ensures multiset(r) == multiset(s) + multiset{x}
  {
    if s == [] then [x]
    else if Less(x, s[0]) then [x] + s
    else
      assert s == [s[0]] + s[1..];
      [s[0]] + Insert(x, s[1..])
  }

  /** Putting an element below all of a sorted sequence in front keeps it sorted. */
  lemma PrependSorted(h: string, t: seq<string>)
    requires Sorted(t) && forall y :: y in t ==> Less(h, y)
    ensures Sorted([h] + t)
  {
    var r := [h] + t;
    forall i, j | 0 <= i < j < |r| ensures Less(r[i], r[j]) {
      assert r[j] == t[j - 1];
      if i > 0 { assert r[i] == t[i - 1]; } else { assert t[j - 1] in t; }
    }
  }

  /** Insertion of a new element keeps a sorted sequence sorted. */
  lemma {:induction false} InsertSorted(x: string, s: seq<string>)
    requires Sorted(s) && x !in s
    ensures Sorted(Insert(x, s))
  {
    if s == [] {
    } else if Less(x, s[0]) {
      forall y | y in s ensures Less(x, y) {
        var k :| 0 <= k < |s| && s[k] == y;
        if k > 0 { LessTransitive(x, s[0], s[k]); }
      }
      PrependSorted(x, s);
    } else {
      var tail := Insert(x, s[1..]);
      assert s == [s[0]] + s[1..];
      assert Sorted(s[1..]);
      InsertSorted(x, s[1..]);
      LessTotal(x, s[0]);
      forall y | y in tail ensures Less(s[0], y) {
        assert y in multiset(tail);
        assert y == x || y in multiset(s[1..]);
      }
      PrependSorted(s[0], tail);
    }
  }

  /** The default `Array.prototype.sort()` on duplicate-free string arrays. */
  function Sort(s: seq<string>): (r: seq<string>)
    ensures multiset(r) == multiset(s) && |r| == |s|
    ensures Distinct(s) ==> Sorted(r)
  {
    if s == [] then []
    else
      var rest := Sort(s[1..]);
      assert s == [s[0]] + s[1..];
      DistinctTail(s);
      assert s[0] in rest ==> s[0] in multiset(s[1..]);
      assert Distinct(s) ==> Sorted(Insert(s[0], rest)) by {
        if Distinct(s) { InsertSorted(s[0], rest); }
      }
      Insert(s[0], rest)
  }

  /** The head of a sorted sequence is below every other element. */
  lemma SortedHeadLeast(s: seq<string>, x: string)
    requires Sorted(s) && x in s
    ensures x == s[0] || Less(s[0], x)
  {
    var k :| 0 <= k < |s| && s[k] == x;
  }

  /** Sorted sequences are determined by their elements. */
  lemma {:induction false} SortedUnique(a: seq<string>, b: seq<string>)
    requires Sorted(a) && Sorted(b)
    requires forall x :: x in a <==> x in b
    ensures a == b
  {
    SameElementsBothEmpty(a, b);
    if a != [] {
      assert a[0] in b && b[0] in a;
      SortedHeadLeast(b, a[0]);
      SortedHeadLeast(a, b[0]);
      LessAsymmetric(a[0], b[0]);
      assert a[0] == b[0];
      forall x ensures x in a[1..] <==> x in b[1..] {
        LessIrreflexive(a[0]);
        if x in a[1..] {
          var k :| 0 <= k < |a[1..]| && a[1..][k] == x;
          assert Less(a[0], a[k + 1]);
          assert x in b && x != b[0];
          assert x in b[1..] by { assert b == [b[0]] + b[1..]; }
        }
        if x in b[1..] {
          var k :| 0 <= k < |b[1..]| && b[1..][k] == x;
          assert Less(b[0], b[k + 1]);
          assert x in a && x != a[0];
          assert x in a[1..] by { assert a == [a[0]] + a[1..]; }
        }
      }
      SortedUnique(a[1..], b[1..]);
      assert a == [a[0]] + a[1..] && b == [b[0]] + b[1..];
    }
  }

  lemma SameElementsBothEmpty(a: seq<string>, b: seq<string>)
    requires forall x :: x in a <==> x in b
    ensures a == [] <==> b == []
  {
    if a != [] { assert a[0] in b; }
    if b != [] { assert b[0] in a; }
  }

  lemma SortedDistinct(s: seq<string>)
    requires Sorted(s)
    ensures Distinct(s)
  {
    forall i, j | 0 <= i < j < |s| ensures s[i] != s[j] {
      LessIrreflexive(s[i]);
    }
  }

  /** Deleting an element keeps a sorted sequence sorted. */
  lemma {:induction false} WithoutSorted(s: seq<string>, x: string)
    requires Sorted(s)
    ensures Sorted(Without(s, x))
  {
    if s != [] {
      assert Sorted(s[1..]);
      WithoutSorted(s[1..], x);
      if s[0] != x {
        var w := Without(s[1..], x);
        forall k | 0 <= k < |w| ensures Less(s[0], w[k]) {
          assert w[k] in w;
          var j :| 0 <= j < |s[1..]| && s[1..][j] == w[k];
          assert s[j + 1] == w[k];
        }
      }
    }
  }

  /** A sorted array is left as it is by `sort()`. */
  lemma SortOfSorted(s: seq<string>)
    requires Sorted(s)
    ensures Sort(s) == s
  {
    SortedDistinct(s);
    forall x ensures x in Sort(s) <==> x in s {
      assert x in Sort(s) <==> x in multiset(Sort(s));
    }
    SortedUnique(Sort(s), s);
  }

  /** `parts.join(sep)`. */
  function Join(parts: seq<string>, sep: string): (r: string)
    ensures |parts| == 1 ==> r == parts[0]
  {
    if |parts| == 0 then ""
    else if |parts| == 1 then parts[0]
    else parts[0] + sep + Join(parts[1..], sep)
  }

  /** When no part contains the one-character separator, joining forgets nothing. */
  lemma {:induction false} JoinInjective(a: seq<string>, b: seq<string>, c: char)
    requires |a| > 0 && |b| > 0
    requires forall p :: p in a ==> c !in p
    requires forall p :: p in b ==> c !in p
    requires Join(a, [c]) == Join(b, [c])
    ensures a == b
  {
    var ja, jb := Join(a, [c]), Join(b, [c]);
    JoinFirstPart(a, [c]);
    JoinFirstPart(b, [c]);
    assert a[0] in a && b[0] in b;
    if |a| == 1 && |b| == 1 {
    } else if |a| == 1 {
      assert false;
    } else if |b| == 1 {
      assert false;
    } else {
      var la, lb := |a[0]|, |b[0]|;
      if la < lb {
        assert false;
      } else if lb < la {
        assert false;
      } else {
        assert a[0] == ja[..la] == jb[..lb] == b[0];
        JoinInjective(a[1..], b[1..], c);
        assert a == [a[0]] + a[1..] && b == [b[0]] + b[1..];
      }
    }
  }

  /** A join of two or more parts starts with the first part, then the separator, then the
      join of the rest. */
  lemma JoinFirstPart(parts: seq<string>, sep: string)
    ensures |parts| > 1 ==>
      var j := Join(parts, sep);
      && |j| >= |parts[0]| + |sep|
      && j[..|parts[0]|] == parts[0]
      && j[|parts[0]|..|parts[0]| + |sep|] == sep
      && j[|parts[0]| + |sep|..] == Join(parts[1..], sep)
  {
  }

  /** `needle` sits in `hay` starting at position `i`. */
  predicate OccursAt(hay: string, needle: string, i: int) {
    0 <= i <= |hay| - |needle| && hay[i..i + |needle|] == needle
  }

  /** `hay.includes(needle)`: `needle` occurs as a contiguous piece of `hay`. */
  predicate Includes(hay: string, needle: string) {
    exists i :: 0 <= i <= |hay| - |needle| && OccursAt(hay, needle, i)
  }

  /** Every part of a join can be found in it. */
  lemma {:induction false} JoinIncludesParts(parts: seq<string>, sep: string, k: nat)
    requires k < |parts|
    ensures Includes(Join(parts, sep), parts[k])
  {
    var j := Join(parts, sep);
    if k == 0 {
      assert OccursAt(j, parts[0], 0);
    } else {
      JoinIncludesParts(parts[1..], sep, k - 1);
      var rest := Join(parts[1..], sep);
      var i :| 0 <= i <= |rest| - |parts[k]| && OccursAt(rest, parts[k], i);
      var off := |parts[0]| + |sep|;
      assert j == parts[0] + sep + rest;
      assert j[off + i..off + i + |parts[k]|] == rest[i..i + |parts[k]|];
      assert OccursAt(j, parts[k], off + i);
    }
  }

  /** The decimal digits of a counter, as template-literal interpolation writes them. */
  function DigitChar(d: nat): char
    requires d < 10
  {
    "0123456789"[d]
  }

  function NatToString(n: nat): (r: string)
    ensures |r| > 0
    ensures forall i :: 0 <= i < |r| ==> '0' <= r[i] <= '9'
  {
    if n < 10 then [DigitChar(n)]
    else NatToString(n / 10) + [DigitChar(n % 10)]
  }

  /** Reading a decimal string back: the inverse of `NatToString`. */
  function ParseNat(s: string): nat
    requires forall i :: 0 <= i < |s| ==> '0' <= s[i] <= '9'
  {
    if |s| == 0 then 0
    else ParseNat(s[..|s| - 1]) * 10 + ((s[|s| - 1] as int) - ('0' as int))
  }

  lemma {:induction false} ParseNatToString(n: nat)
    ensures ParseNat(NatToString(n)) == n
  {
    var s := NatToString(n);
    if n >= 10 {
      ParseNatToString(n / 10);
      assert s[..|s| - 1] == NatToString(n / 10);
    }
  }

  lemma NatToStringInjective(a: nat, b: nat)
    requires NatToString(a) == NatToString(b)
    ensures a == b
  {
    ParseNatToString(a);
    ParseNatToString(b);
  }
}
