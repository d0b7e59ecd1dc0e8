/** String primitives of JavaScript that the modelled code relies on:
    `String.prototype.trim`, the ASCII `\d` class of a non-Unicode regular
    expression, `split` on a one-character separator, `join('')` and
    substring search. */
module JsText {

  /** The characters `trim` removes: WhiteSpace and LineTerminator of ECMA-262. */
  predicate IsWhitespace(c: char) {
    || c == '\t' || c == '\n' || c == '\U{000B}' || c == '\U{000C}' || c == '\r'
    || c == ' ' || c == '\U{00A0}' || c == '\U{1680}'
    || ('\U{2000}' <= c <= '\U{200A}')
    || c == '\U{2028}' || c == '\U{2029}' || c == '\U{202F}' || c == '\U{205F}'
    || c == '\U{3000}' || c == '\U{FEFF}'
  }

  predicate AllWhitespace(s: string) {
    forall k :: 0 <= k < |s| ==> IsWhitespace(s[k])
  }

  /** `\d` without the `u` flag: the ASCII digits only. */
  predicate IsDigit(c: char) {
    '0' <= c <= '9'
  }

  predicate AllDigits(s: string) {
    forall k :: 0 <= k < |s| ==> IsDigit(s[k])
  }

  /** Leading whitespace removed (what is left is a suffix of `s`, see
      `TrimStartSuffix`). */
  function TrimStart(s: string): (r: string)
    ensures |r| <= |s|
    ensures r == [] || !IsWhitespace(r[0])
    ensures r == [] <==> AllWhitespace(s)
  {
    if |s| > 0 && IsWhitespace(s[0]) then
      var r := TrimStart(s[1..]);
      assert AllWhitespace(s[1..]) ==> AllWhitespace(s) by {
        if AllWhitespace(s[1..]) {
          forall k | 1 <= k < |s| ensures IsWhitespace(s[k]) {
            assert s[k] == s[1..][k - 1];
          }
        }
      }
      r
    else s
  }

  /** Trailing whitespace removed (what is left is a prefix of `s`, see
      `TrimEndPrefix`). */
  function TrimEnd(s: string): (r: string)
    ensures |r| <= |s|
    ensures r != [] ==> r[0] == s[0]
    ensures r == [] || !IsWhitespace(r[|r| - 1])
    ensures r == [] <==> AllWhitespace(s)
  {
    if |s| > 0 && IsWhitespace(s[|s| - 1]) then
      var r := TrimEnd(s[..|s| - 1]);
      assert AllWhitespace(s[..|s| - 1]) ==> AllWhitespace(s) by {
        if AllWhitespace(s[..|s| - 1]) {
          forall k | 0 <= k < |s| - 1 ensures IsWhitespace(s[k]) {
            assert s[k] == s[..|s| - 1][k];
          }
        }
      }
      r
    else s
  }

  lemma {:induction false} TrimStartSuffix(s: string)
    ensures TrimStart(s) == s[|s| - |TrimStart(s)|..]
  {
    if |s| > 0 && IsWhitespace(s[0]) {
      TrimStartSuffix(s[1..]);
    }
  }

  lemma {:induction false} TrimEndPrefix(s: string)
    ensures TrimEnd(s) == s[..|TrimEnd(s)|]
  {
    if |s| > 0 && IsWhitespace(s[|s| - 1]) {
      TrimEndPrefix(s[..|s| - 1]);
    }
  }

  /** `String.prototype.trim`. */
  function Trim(s: string): (r: string)
    ensures |r| <= |s|
    ensures r == [] || (!IsWhitespace(r[0]) && !IsWhitespace(r[|r| - 1]))
    ensures r == [] <==> AllWhitespace(s)
  {
    var t := TrimStart(s);
    var r := TrimEnd(t);
    assert r != [] ==> r[0] == t[0];
    assert t != [] ==> !AllWhitespace(t) by {
      assert t != [] ==> !IsWhitespace(t[0]);
    }
    r
  }

  /** Trimming twice is trimming once (the client trims before the server does). */
  lemma TrimIdempotent(s: string)
    ensures Trim(Trim(s)) == Trim(s)
  {
    var r := Trim(s);
    assert TrimStart(r) == r;
    assert TrimEnd(r) == r;
  }

  /** A text with no whitespace at either end. */
  predicate IsTrimmed(s: string) {
    s == [] || (!IsWhitespace(s[0]) && !IsWhitespace(s[|s| - 1]))
  }

  /** `trim` leaves exactly the trimmed texts unchanged. */
  lemma TrimFixesTrimmed(s: string)
    ensures IsTrimmed(Trim(s))
    ensures Trim(s) == s <==> IsTrimmed(s)
  {
    if IsTrimmed(s) && s != [] {
      assert TrimStart(s) == s;
      assert TrimEnd(s) == s;
    }
  }

  /** `s.split(sep)` for a one-character separator: never empty, one part
      more than there are separators. */
  function Split(s: string, sep: char): (parts: seq<string>)
    ensures |parts| == Count(s, sep) + 1
  {
    if s == [] then [[]]
    else
      var rest := Split(s[1..], sep);
      if s[0] == sep then [[]] + rest
      else [[s[0]] + rest[0]] + rest[1..]
  }

  /** No part of a split contains the separator. */
  lemma {:induction false} SplitPartsFree(s: string, sep: char)
    ensures forall i :: 0 <= i < |Split(s, sep)| ==> sep !in Split(s, sep)[i]
  {
    if s != [] {
      SplitPartsFree(s[1..], sep);
    }
  }

  /** Number of occurrences of `c` in `s` (`(s.match(/c/g) || []).length`). */
  function Count(s: string, c: char): (n: nat)
    ensures n == 0 <==> c !in s
    ensures n <= |s|
  {
    if s == [] then 0
    else (if s[0] == c then 1 else 0) + Count(s[1..], c)
  }

  /** `parts.join('')`. */
  function Concat(parts: seq<string>): string {
    if parts == [] then [] else parts[0] + Concat(parts[1..])
  }

  /** `s.replace(/c/g, '')`. */
  function Remove(s: string, c: char): (r: string)
    ensures c !in r
  {
    if s == [] then []
    else (if s[0] == c then [] else [s[0]]) + Remove(s[1..], c)
  }

  /** Deleting `c` from a text with one more character in front. */
  lemma RemoveCons(x: char, t: string, c: char)
    ensures Remove([x] + t, c) == (if x == c then [] else [x]) + Remove(t, c)
  {
    assert ([x] + t)[1..] == t;
  }

  /** Deleting `c` adds no character. */
  lemma {:induction false} RemoveFrom(s: string, c: char)
    ensures forall k :: 0 <= k < |Remove(s, c)| ==> Remove(s, c)[k] in s
  {
    if s != [] {
      RemoveFrom(s[1..], c);
    }
  }

  /** The text before the first `sep` (all of `s` when there is none). */
  function BeforeFirst(s: string, sep: char): (r: string)
    ensures sep !in r
    ensures |r| <= |s| && r == s[..|r|]
    ensures sep in s ==> |r| < |s| && s[|r|] == sep
    ensures sep !in s ==> r == s
  {
    if s == [] || s[0] == sep then [] else [s[0]] + BeforeFirst(s[1..], sep)
  }

  /** The text after the first `sep` (empty when there is none). */
  function AfterFirst(s: string, sep: char): (r: string)
    ensures sep !in s ==> r == []
  {
    if s == [] then []
    else if s[0] == sep then s[1..]
    else AfterFirst(s[1..], sep)
  }

  /** The text is cut at its first separator into what comes before it and
      what comes after it. */
  lemma {:induction false} FirstSeparatorSplits(s: string, sep: char)
    requires sep in s
    ensures s == BeforeFirst(s, sep) + [sep] + AfterFirst(s, sep)
  {
    if s[0] != sep {
      assert sep in s[1..];
      FirstSeparatorSplits(s[1..], sep);
      assert s == [s[0]] + s[1..];
    }
  }

  /** Splitting at the first separator: the first part is the text before
      it and the remaining parts are the split of the text after it. */
  lemma {:induction false} SplitAtFirst(s: string, sep: char)
    requires sep in s
    ensures Split(s, sep) == [BeforeFirst(s, sep)] + Split(AfterFirst(s, sep), sep)
  {
    if s[0] != sep {
      SplitAtFirst(s[1..], sep);
    }
  }

  /** Without a separator, splitting gives the whole string back. */
  lemma {:induction false} SplitNoSeparator(s: string, sep: char)
    requires sep !in s
    ensures Split(s, sep) == [s]
  {
    if s != [] {
      SplitNoSeparator(s[1..], sep);
      assert [s[0]] + s[1..] == s;
    }
  }

  /** `split` then `join('')` deletes every separator. */
  lemma {:induction false} ConcatSplit(s: string, sep: char)
    ensures Concat(Split(s, sep)) == Remove(s, sep)
  {
    if s != [] {
      ConcatSplit(s[1..], sep);
      var rest := Split(s[1..], sep);
      if s[0] != sep {
        assert Concat([[s[0]] + rest[0]] + rest[1..]) == [s[0]] + rest[0] + Concat(rest[1..]);
        assert Concat(rest) == rest[0] + Concat(rest[1..]);
      }
    }
  }

  /** Extending the first of the parts `f` commutes with appending `g`. */
  lemma JoinFirst(h: string, f: seq<string>, g: seq<string>)
    requires f != []
    ensures [h + f[0]] + f[1..] + g == [h + (f + g)[0]] + (f + g)[1..]
  {
    assert (f + g)[1..] == f[1..] + g;
  }

  /** Splitting a separator-joined string joins the splits of both halves. */
  lemma {:induction false} SplitAppend(a: string, b: string, sep: char)
    ensures Split(a + [sep] + b, sep) == Split(a, sep) + Split(b, sep)
  {
    if a == [] {
      assert [] + [sep] + b == [sep] + b;
      assert ([sep] + b)[1..] == b;
    } else {
      var s := a + [sep] + b;
      assert s[0] == a[0];
      assert s[1..] == a[1..] + [sep] + b;
      SplitAppend(a[1..], b, sep);
      if a[0] != sep {
        JoinFirst([a[0]], Split(a[1..], sep), Split(b, sep));
      }
    }
  }

  lemma {:induction false} RemoveAppend(a: string, b: string, c: char)
    ensures Remove(a + b, c) == Remove(a, c) + Remove(b, c)
  {
    if a == [] {
      assert a + b == b;
    } else {
      assert (a + b)[0] == a[0];
      assert (a + b)[1..] == a[1..] + b;
      RemoveAppend(a[1..], b, c);
    }
  }

  lemma {:induction false} RemoveAbsent(s: string, c: char)
    requires c !in s
    ensures Remove(s, c) == s
  {
    if s != [] {
      RemoveAbsent(s[1..], c);
    }
  }

  /** A string that neither starts nor ends with whitespace is its own trim. */
  lemma TrimUnchanged(s: string)
    requires s != [] && !IsWhitespace(s[0]) && !IsWhitespace(s[|s| - 1])
    ensures Trim(s) == s
  {
    assert TrimStart(s) == s;
    assert TrimEnd(s) == s;
  }

  /** A string that does not start with whitespace keeps its first character. */
  lemma TrimKeepsFirst(s: string)
    requires s != [] && !IsWhitespace(s[0])
    ensures Trim(s) != [] && Trim(s)[0] == s[0]
  {
    assert TrimStart(s) == s;
    assert !AllWhitespace(s);
  }

  /** Cutting `x + [sep] + y` at its first separator gives `x` and `y` back
      when `x` has no separator. */
  lemma {:induction false} FirstSeparatorOf(x: string, y: string, sep: char)
    requires sep !in x
    ensures BeforeFirst(x + [sep] + y, sep) == x
    ensures AfterFirst(x + [sep] + y, sep) == y
  {
    if x == [] {
      assert [] + [sep] + y == [sep] + y;
      assert ([sep] + y)[1..] == y;
    } else {
      assert (x + [sep] + y)[0] == x[0];
      assert (x + [sep] + y)[1..] == x[1..] + [sep] + y;
      FirstSeparatorOf(x[1..], y, sep);
      assert [x[0]] + x[1..] == x;
    }
  }

  /** A text holding the separator has a last one. */
  lemma {:induction false} LastSeparator(s: string, sep: char) returns (i: nat)
    requires sep in s
    ensures i < |s| && s[i] == sep && sep !in s[i + 1..]
  {
    var n := |s| - 1;
    if s[n] == sep {
      i := n;
    } else {
      assert sep in s[..n] by {
        var k :| 0 <= k < |s| && s[k] == sep;
        assert s[..n][k] == sep;
      }
      i := LastSeparator(s[..n], sep);
      assert s[i + 1..] == s[..n][i + 1..] + [s[n]];
    }
  }

  /** Appending text without a separator lengthens only the last part. */
  lemma SplitLastAppend(x: string, y: string, sep: char)
    requires sep !in y
    ensures |Split(x + y, sep)| == |Split(x, sep)|
    ensures Split(x + y, sep)[|Split(x, sep)| - 1] == Split(x, sep)[|Split(x, sep)| - 1] + y
  {
    if sep !in x {
      SplitNoSeparator(x, sep);
      SplitNoSeparator(x + y, sep);
    } else {
      var i := LastSeparator(x, sep);
      var a, t := x[..i], x[i + 1..];
      assert x == a + [sep] + t;
      assert x + y == a + [sep] + (t + y);
      SplitAppend(a, t, sep);
      SplitAppend(a, t + y, sep);
      SplitNoSeparator(t, sep);
      SplitNoSeparator(t + y, sep);
    }
  }

  /** The text after the first separator holds no character `s` lacks. */
  lemma {:induction false} AfterFirstAbsent(s: string, sep: char, x: char)
    requires x !in s
    ensures x !in AfterFirst(s, sep)
  {
    if s != [] && s[0] != sep {
      AfterFirstAbsent(s[1..], sep, x);
    }
  }

  /** Deleting `c` keeps a first character that is not `c`. */
  lemma RemoveKeepsFirst(s: string, c: char)
    requires s != [] && s[0] != c
    ensures Remove(s, c) != [] && Remove(s, c)[0] == s[0]
  {
  }

  /** Every character other than `c` survives deleting `c`. */
  lemma {:induction false} RemoveKeepsOthers(s: string, c: char, k: nat)
    requires k < |s| && s[k] != c
    ensures s[k] in Remove(s, c)
  {
    if k > 0 {
      RemoveKeepsOthers(s[1..], c, k - 1);
    }
  }

  /** Deleting `c` keeps every other character. */
  lemma RemoveKeepsAll(s: string, c: char)
    ensures forall k :: 0 <= k < |s| && s[k] != c ==> s[k] in Remove(s, c)
  {
    forall k | 0 <= k < |s| && s[k] != c
      ensures s[k] in Remove(s, c)
    {
      RemoveKeepsOthers(s, c, k);
    }
  }

  /** `s` starts with `prefix`. */
  predicate StartsWith(s: string, prefix: string) {
    |prefix| <= |s| && s[..|prefix|] == prefix
  }

  /** `s.includes(needle)`: `needle` occurs somewhere in `s`. */
  predicate Contains(s: string, needle: string)
    decreases |s|
  {
    StartsWith(s, needle) || (|s| > 0 && Contains(s[1..], needle))
  }
}
