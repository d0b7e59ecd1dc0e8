/** The order in which `Array.prototype.sort()` without a comparator puts
    strings: lexicographic by UTF-16 code unit, a proper prefix first.
    Characters are Unicode scalar values; `Utf16Key` ranks them as their
    code units do, and `BelowIsCodeUnitOrder` shows that comparing keys
    character by character is comparing the UTF-16 encodings. */
module StringOrder {

  /** The rank of a character in UTF-16 code-unit order: code points below
      U+D800 keep their value, the supplementary planes (encoded from the
      high surrogates U+D800-U+DBFF on) come next, and U+E000-U+FFFF last. */
  function Utf16Key(c: char): int {
    var v := c as int;
    if v < 0xD800 then v
    else if v >= 0x10000 then v - 0x10000 + 0xD800
    else v + 0x100000
  }

  /** `a` sorts strictly before `b`. */
  predicate Below(a: string, b: string)
    decreases |a|
  {
    if a == [] then b != []
    else if b == [] then false
    else if a[0] != b[0] then Utf16Key(a[0]) < Utf16Key(b[0])
    else Below(a[1..], b[1..])
  }

  /** Different characters have different ranks. */
  lemma Utf16KeyInjective(c: char, d: char)
    requires c != d
    ensures Utf16Key(c) != Utf16Key(d)
  {
    assert c as int != d as int;
  }

  /** The UTF-16 code units of one character. */
  function CodeUnits(c: char): (u: seq<int>)
    ensures 1 <= |u| <= 2
  {
    var v := c as int;
    if v < 0x10000 then [v]
    else [0xD800 + (v - 0x10000) / 0x400, 0xDC00 + (v - 0x10000) % 0x400]
  }

  /** The UTF-16 encoding of a string. */
  function Encode(s: string): (u: seq<int>)
    ensures u == [] <==> s == []
  {
    if s == [] then [] else CodeUnits(s[0]) + Encode(s[1..])
  }

  /** Lexicographic order on code-unit sequences, a proper prefix first. */
  predicate UnitsBelow(x: seq<int>, y: seq<int>)
    decreases |x|
  {
    if x == [] then y != []
    else if y == [] then false
    else if x[0] != y[0] then x[0] < y[0]
    else UnitsBelow(x[1..], y[1..])
  }

  /** A common prefix does not decide the order. */
  lemma {:induction false} UnitsBelowCommonPrefix(p: seq<int>, x: seq<int>, y: seq<int>)
    ensures UnitsBelow(p + x, p + y) == UnitsBelow(x, y)
  {
    if p == [] {
      assert p + x == x && p + y == y;
    } else {
      assert (p + x)[0] == p[0] == (p + y)[0];
      assert (p + x)[1..] == p[1..] + x;
      assert (p + y)[1..] == p[1..] + y;
      UnitsBelowCommonPrefix(p[1..], x, y);
    }
  }

  /** A number below 0x100000 is ordered as its pair (quotient, remainder)
      by 0x400. */
  lemma SurrogatePairOrder(x: int, y: int)
    requires 0 <= x < 0x100000 && 0 <= y < 0x100000 && x != y
    ensures x < y <==> x / 0x400 < y / 0x400 || (x / 0x400 == y / 0x400 && x % 0x400 < y % 0x400)
  {
    assert x == 0x400 * (x / 0x400) + x % 0x400;
    assert y == 0x400 * (y / 0x400) + y % 0x400;
  }

  /** The encodings of two different characters differ within the shorter
      one, so the order of the rest of the text never matters, and where
      they differ the ranks of the characters agree. */
  lemma CharUnitsOrder(c: char, d: char, x: seq<int>, y: seq<int>)
    requires c != d
    ensures UnitsBelow(CodeUnits(c) + x, CodeUnits(d) + y) == (Utf16Key(c) < Utf16Key(d))
  {
    var u, w := CodeUnits(c) + x, CodeUnits(d) + y;
    var vc, vd := c as int, d as int;
    assert u[0] == CodeUnits(c)[0] && w[0] == CodeUnits(d)[0];
    if vc >= 0x10000 && vd >= 0x10000 {
      SurrogatePairOrder(vc - 0x10000, vd - 0x10000);
      if u[0] == w[0] {
        assert u[1..][0] == CodeUnits(c)[1] && w[1..][0] == CodeUnits(d)[1];
      }
    }
  }

  /** `Below` is the lexicographic order of the UTF-16 encodings, which is
      what the default comparison of `Array.prototype.sort()` uses. */
  lemma {:induction false} BelowIsCodeUnitOrder(a: string, b: string)
    ensures Below(a, b) <==> UnitsBelow(Encode(a), Encode(b))
    decreases |a|
  {
    if a != [] && b != [] {
      assert Encode(a) == CodeUnits(a[0]) + Encode(a[1..]);
      assert Encode(b) == CodeUnits(b[0]) + Encode(b[1..]);
      if a[0] != b[0] {
        CharUnitsOrder(a[0], b[0], Encode(a[1..]), Encode(b[1..]));
      } else {
        UnitsBelowCommonPrefix(CodeUnits(a[0]), Encode(a[1..]), Encode(b[1..]));
        BelowIsCodeUnitOrder(a[1..], b[1..]);
      }
    }
  }

  /** `a` sorts before `b` or is `b`. */
  predicate NotAbove(a: string, b: string) {
    a == b || Below(a, b)
  }

  lemma {:induction false} BelowIrreflexive(a: string)
    ensures !Below(a, a)
  {
    if a != [] {
      BelowIrreflexive(a[1..]);
    }
  }

  lemma {:induction false} BelowTransitive(a: string, b: string, c: string)
    requires Below(a, b) && Below(b, c)
    ensures Below(a, c)
  {
    if a != [] && a[0] == b[0] && b[0] == c[0] {
      BelowTransitive(a[1..], b[1..], c[1..]);
    }
  }

  /** Any two different strings are ordered one way or the other. */
  lemma {:induction false} BelowTotal(a: string, b: string)
    requires a != b
    ensures Below(a, b) || Below(b, a)
  {
    if a != [] && b != [] {
      if a[0] == b[0] {
        assert a == [a[0]] + a[1..] && b == [b[0]] + b[1..];
        BelowTotal(a[1..], b[1..]);
      } else {
        Utf16KeyInjective(a[0], b[0]);
      }
    }
  }

  lemma BelowAsymmetric(a: string, b: string)
    requires Below(a, b)
    ensures !Below(b, a)
  {
    if Below(b, a) {
      BelowTransitive(a, b, a);
      BelowIrreflexive(a);
    }
  }

  /** Non-decreasing in string order. */
  predicate Sorted(s: seq<string>) {
    forall i, j :: 0 <= i < j < |s| ==> NotAbove(s[i], s[j])
  }

  /** Strictly increasing in string order: sorted and without duplicates. */
  predicate StrictlySorted(s: seq<string>) {
    forall i, j :: 0 <= i < j < |s| ==> Below(s[i], s[j])
  }

  /** Places `x` into `s` after the leading elements below it. */
  function Insert(x: string, s: seq<string>): (r: seq<string>)
    ensures multiset(r) == multiset(s) + multiset{x}
  {
    if s != [] && Below(s[0], x) then
      assert s == [s[0]] + s[1..];
      [s[0]] + Insert(x, s[1..])
    else
      [x] + s
  }

  /** A lower bound on every element survives the insertion of an element
      above it. */
  lemma {:induction false} InsertAbove(x: string, s: seq<string>, lo: string)
    requires NotAbove(lo, x)
    requires forall k :: 0 <= k < |s| ==> NotAbove(lo, s[k])
    ensures forall k :: 0 <= k < |Insert(x, s)| ==> NotAbove(lo, Insert(x, s)[k])
  {
    if s != [] && Below(s[0], x) {
      InsertAbove(x, s[1..], lo);
    }
  }

  /** A lower bound of a sorted sequence can head it. */
  lemma ConsSorted(y: string, t: seq<string>)
    requires Sorted(t)
    requires forall k :: 0 <= k < |t| ==> NotAbove(y, t[k])
    ensures Sorted([y] + t)
  {
  }

  /** Inserting into a sorted sequence keeps it sorted. */
  lemma {:induction false} InsertSorted(x: string, s: seq<string>)
    requires Sorted(s)
    ensures Sorted(Insert(x, s))
  {
    if s != [] && Below(s[0], x) {
      InsertSorted(x, s[1..]);
      InsertAbove(x, s[1..], s[0]);
      ConsSorted(s[0], Insert(x, s[1..]));
    } else {
      forall k | 0 <= k < |s| ensures NotAbove(x, s[k]) {
        if x != s[0] {
          BelowTotal(x, s[0]);
          if s[k] != s[0] {
            BelowTransitive(x, s[0], s[k]);
          }
        }
      }
      ConsSorted(x, s);
    }
  }

  /** `Array.from(xs).sort()` on strings. */
  function Sort(s: seq<string>): (r: seq<string>)
    ensures Sorted(r)
    ensures multiset(r) == multiset(s)
  {
    if s == [] then []
    else
      assert s == [s[0]] + s[1..];
      InsertSorted(s[0], Sort(s[1..]));
      Insert(s[0], Sort(s[1..]))
  }

  /** A sorted sequence without duplicates is strictly increasing. */
  lemma SortedDistinctIsStrict(s: seq<string>)
    requires Sorted(s)
    requires forall i, j :: 0 <= i < j < |s| ==> s[i] != s[j]
    ensures StrictlySorted(s)
  {
  }

  /** No element occurs twice, as in the elements of a JavaScript `Set` or
      the keys of a `Map`. */
  predicate Distinct(s: seq<string>) {
    forall i, j :: 0 <= i < j < |s| ==> s[i] != s[j]
  }

  /** Appending an element that is not there yet keeps the elements distinct. */
  lemma DistinctAppend(s: seq<string>, x: string)
    requires Distinct(s) && x !in s
    ensures Distinct(s + [x])
  {
    var t := s + [x];
    forall i, j | 0 <= i < j < |t| ensures t[i] != t[j] {
      if j == |s| {
        assert t[i] == s[i];
      } else {
        assert t[i] == s[i] && t[j] == s[j];
      }
    }
  }

  /** In a sequence without duplicates each element occurs at most once. */
  lemma {:induction false} DistinctOnce(s: seq<string>, x: string)
    requires Distinct(s)
    ensures multiset(s)[x] <= 1
  {
    if s != [] {
      assert s == [s[0]] + s[1..];
      assert Distinct(s[1..]) by {
        forall i, j | 0 <= i < j < |s[1..]| ensures s[1..][i] != s[1..][j] {
          assert s[1..][i] == s[i + 1] && s[1..][j] == s[j + 1];
        }
      }
      DistinctOnce(s[1..], x);
      if s[0] == x {
        assert x !in s[1..];
      }
    }
  }

  /** Two equal elements at different positions occur at least twice. */
  lemma MultiplicityTwo(s: seq<string>, i: int, j: int)
    requires 0 <= i < j < |s| && s[i] == s[j]
    ensures multiset(s)[s[i]] >= 2
  {
    assert s == s[..i] + [s[i]] + s[i + 1..j] + [s[j]] + s[j + 1..];
  }

  /** Sorting elements that are pairwise different gives a strictly
      increasing sequence. */
  lemma SortDistinct(s: seq<string>)
    requires Distinct(s)
    ensures StrictlySorted(Sort(s))
  {
    var t := Sort(s);
    forall i, j | 0 <= i < j < |t| ensures t[i] != t[j] {
      if t[i] == t[j] {
        DistinctOnce(s, t[i]);
        MultiplicityTwo(t, i, j);
        assert false;
      }
    }
    SortedDistinctIsStrict(t);
  }
}
