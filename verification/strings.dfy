/** Optional values: PHP's `null` / "no result" for the parsing and lookup helpers. */
module Options {

  datatype Option<+T> = None | Some(value: T)
}

/**
 * String helpers with PHP's byte-oriented semantics: ASCII-only lower-casing
 * (strtolower), trim() with its default character list, and the byte-wise
 * lexicographic order of strcmp and strcasecmp, which is also the order ksort
 * gives two string keys when they are not both numeric strings.
 */
module Strings {

  /** strtolower on one character: only the ASCII letters A-Z change. */
  function LowerChar(c: char): char
  {
    if 'A' <= c <= 'Z' then (c as int + 32) as char else c
  }

  predicate IsUpper(c: char)
  {
    'A' <= c <= 'Z'
  }

  /** PHP strtolower (ASCII only, as in PHP 8.2 and later). */
  function Lower(s: string): (r: string)
    ensures |r| == |s|
    ensures forall i :: 0 <= i < |r| ==> !IsUpper(r[i])
    ensures forall i :: 0 <= i < |r| && !IsUpper(s[i]) ==> r[i] == s[i]
    ensures forall i :: 0 <= i < |r| && IsUpper(s[i]) ==> r[i] as int == s[i] as int + 32
  {
    seq(|s|, i requires 0 <= i < |s| => LowerChar(s[i]))
  }

  /** Lower-casing twice is lower-casing once. */
  lemma LowerIdempotent(s: string)
    ensures Lower(Lower(s)) == Lower(s)
  {
  }

  /** The characters trim() strips by default: " \t\n\r\0\x0B". */
  predicate IsTrimChar(c: char)
  {
    c == ' ' || c == '\t' || c == '\n' || c == '\r' || c as int == 0 || c as int == 0x0B
  }

  function TrimLeft(s: string): (r: string)
    ensures |r| <= |s| && r == s[|s| - |r|..]
    ensures forall k :: 0 <= k < |s| - |r| ==> IsTrimChar(s[k])
    ensures r == [] || !IsTrimChar(r[0])
  {
    if |s| > 0 && IsTrimChar(s[0]) then TrimLeft(s[1..]) else s
  }

  function TrimRight(s: string): (r: string)
    ensures |r| <= |s| && r == s[..|r|]
    ensures forall k :: |r| <= k < |s| ==> IsTrimChar(s[k])
    ensures r == [] || !IsTrimChar(r[|r| - 1])
  {
    if |s| > 0 && IsTrimChar(s[|s| - 1]) then TrimRight(s[..|s| - 1]) else s
  }

  /** PHP trim($s) with the default character list. */
  function Trim(s: string): (r: string)
    ensures |r| <= |s|
    ensures r == [] || (!IsTrimChar(r[0]) && !IsTrimChar(r[|r| - 1]))
    ensures r == [] <==> forall k :: 0 <= k < |s| ==> IsTrimChar(s[k])
  {
    var l := TrimLeft(s);
    var r := TrimRight(l);
    assert r != [] ==> !IsTrimChar(r[0]) by {
      if r != [] {
        assert r[0] == l[0];
      }
    }
    r
  }

  /** `r` is `s[i..j]`, and everything of `s` outside `[i, j)` is a trim character. */
  predicate TrimWindow(s: string, r: string, i: int, j: int)
  {
    && 0 <= i <= j <= |s| && r == s[i..j]
    && (forall k :: 0 <= k < i ==> IsTrimChar(s[k]))
    && (forall k :: j <= k < |s| ==> IsTrimChar(s[k]))
  }

  /**
   * trim() keeps a slice of its input and cuts only trim characters from
   * either end. This is a lemma rather than part of Trim's contract: a slice
   * equation attached to every trim would reach every proof that mentions one.
   */
  lemma {:induction false} TrimKeepsMiddle(s: string)
    ensures exists i, j :: TrimWindow(s, Trim(s), i, j)
  {
    var l := TrimLeft(s);
    var r := TrimRight(l);
    assert Trim(s) == r;
    WindowOfCuts(s, l, r);
  }

  /** Cutting a trim-character prefix and then a trim-character suffix leaves a window. */
  lemma WindowOfCuts(s: string, l: string, r: string)
    requires |l| <= |s| && l == s[|s| - |l|..]
    requires forall k :: 0 <= k < |s| - |l| ==> IsTrimChar(s[k])
    requires |r| <= |l| && r == l[..|r|]
    requires forall k :: |r| <= k < |l| ==> IsTrimChar(l[k])
    ensures TrimWindow(s, r, |s| - |l|, |s| - |l| + |r|)
  {
    var i := |s| - |l|;
    var j := i + |r|;
    assert r == s[i..j];
    forall k | j <= k < |s|
      ensures IsTrimChar(s[k])
    {
      assert s[k] == l[k - i];
    }
  }

  /** Trimming is idempotent: a trimmed label is left alone by a second trim. */
  lemma {:induction false} TrimIdempotent(s: string)
    ensures Trim(Trim(s)) == Trim(s)
  {
    var t := Trim(s);
    if t != [] {
      assert TrimLeft(t) == t;
      assert TrimRight(t) == t;
    }
  }

  /** A string with no trim character at either end is its own trim. */
  lemma TrimOfTrimmed(s: string)
    requires s != [] && !IsTrimChar(s[0]) && !IsTrimChar(s[|s| - 1])
    ensures Trim(s) == s
  {
  }

  /** Byte-wise lexicographic "less than or equal", the order of PHP's strcmp. */
  predicate LexLe(a: string, b: string)
  {
    |a| == 0 || (|b| > 0 && (a[0] < b[0] || (a[0] == b[0] && LexLe(a[1..], b[1..]))))
  }

  predicate LexLess(a: string, b: string)
  {
    LexLe(a, b) && a != b
  }

  lemma {:induction false} LexLeRefl(a: string)
    ensures LexLe(a, a)
  {
    if |a| > 0 {
      LexLeRefl(a[1..]);
    }
  }

  lemma {:induction false} LexLeAntisym(a: string, b: string)
    requires LexLe(a, b) && LexLe(b, a)
    ensures a == b
  {
    if |a| > 0 && |b| > 0 {
      LexLeAntisym(a[1..], b[1..]);
      assert a == [a[0]] + a[1..];
      assert b == [b[0]] + b[1..];
    }
  }

  lemma {:induction false} LexLeTrans(a: string, b: string, c: string)
    requires LexLe(a, b) && LexLe(b, c)
    ensures LexLe(a, c)
  {
    if |a| > 0 && a[0] == b[0] && b[0] == c[0] {
      LexLeTrans(a[1..], b[1..], c[1..]);
    }
  }

  lemma {:induction false} LexLeTotal(a: string, b: string)
    ensures LexLe(a, b) || LexLe(b, a)
  {
    if |a| > 0 && |b| > 0 && a[0] == b[0] {
      LexLeTotal(a[1..], b[1..]);
    }
  }

  /** Not less-or-equal means strictly greater. */
  lemma NotLexLe(a: string, b: string)
    requires !LexLe(a, b)
    ensures LexLess(b, a)
  {
    LexLeTotal(a, b);
    if a == b {
      LexLeRefl(a);
    }
  }

  /**
   * Comparing two strings that share a prefix length: the prefixes decide
   * unless they are equal, in which case the suffixes decide.
   */
  lemma {:induction false} LexLeAppend(a: string, x: string, b: string, z: string)
    requires |a| == |b|
    ensures LexLe(a + x, b + z) <==> LexLess(a, b) || (a == b && LexLe(x, z))
  {
    if |a| > 0 {
      assert (a + x)[0] == a[0] && (b + z)[0] == b[0];
      assert (a + x)[1..] == a[1..] + x;
      assert (b + z)[1..] == b[1..] + z;
      LexLeAppend(a[1..], x, b[1..], z);
      if a[0] == b[0] {
        assert a == b <==> a[1..] == b[1..] by {
          assert a == [a[0]] + a[1..];
          assert b == [b[0]] + b[1..];
        }
      }
    } else {
      assert a + x == x && b + z == z;
    }
  }
}
