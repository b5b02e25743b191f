/**
 * The parts of java.lang.String that the completion engine relies on:
 * natural order (`compareTo`), `startsWith`, `trim` and `replace(char, char)`.
 */
module Strings {

  /** Java's `a.compareTo(b) < 0`: lexicographic on characters, a proper prefix first. */
  predicate Less(a: string, b: string)
  {
    |b| > 0 && (|a| == 0 || a[0] < b[0] || (a[0] == b[0] && Less(a[1..], b[1..])))
  }

  /** Java's `a.compareTo(b) <= 0`. */
  predicate LessEq(a: string, b: string)
  {
    a == b || Less(a, b)
  }

  lemma {:induction false} LessIrreflexive(a: string)
    ensures !Less(a, a)
  {
    if |a| > 0 {
      LessIrreflexive(a[1..]);
    }
  }

  lemma {:induction false} LessTransitive(a: string, b: string, c: string)
    requires Less(a, b) && Less(b, c)
    ensures Less(a, c)
  {
    if |a| > 0 && a[0] == b[0] && b[0] == c[0] {
      LessTransitive(a[1..], b[1..], c[1..]);
    }
  }

  /** Natural order is total: any two strings compare one way or the other, or are equal. */
  lemma {:induction false} LessTotal(a: string, b: string)
    ensures Less(a, b) || a == b || Less(b, a)
  {
    if |a| > 0 && |b| > 0 && a[0] == b[0] {
      LessTotal(a[1..], b[1..]);
      assert a == [a[0]] + a[1..];
      assert b == [b[0]] + b[1..];
    }
  }

  lemma LessAsymmetric(a: string, b: string)
    requires Less(a, b)
    ensures !Less(b, a)
  {
    if Less(b, a) {
      LessTransitive(a, b, a);
      LessIrreflexive(a);
    }
  }

  lemma LessEqTransitive(a: string, b: string, c: string)
    requires LessEq(a, b) && LessEq(b, c)
    ensures LessEq(a, c)
  {
    if a != b && b != c {
      LessTransitive(a, b, c);
    }
  }

  lemma LessEqAntisymmetric(a: string, b: string)
    requires LessEq(a, b) && LessEq(b, a)
    ensures a == b
  {
    if a != b {
      LessAsymmetric(a, b);
    }
  }

  /** Java's `s.startsWith(prefix)`; every string starts with the empty string. */
  predicate StartsWith(s: string, prefix: string)
  {
    |prefix| <= |s| && s[..|prefix|] == prefix
  }

  /** `startsWith` compares character by character: `s` agrees with `prefix` at each of its positions. */
  lemma StartsWithPointwise(s: string, prefix: string)
    ensures StartsWith(s, prefix) <==> |prefix| <= |s| && forall i :: 0 <= i < |prefix| ==> s[i] == prefix[i]
  {
    if |prefix| <= |s| && forall i :: 0 <= i < |prefix| ==> s[i] == prefix[i] {
      assert s[..|prefix|] == prefix;
    }
  }

  /** A character that Java's `trim` strips: any code point up to and including U+0020. */
  predicate IsTrimmed(c: char)
  {
    c <= ' '
  }

  /** Drops the leading characters `trim` strips. */
  function TrimStart(s: string): (r: string)
    ensures |r| <= |s| && r == s[|s| - |r|..]
    ensures forall i :: 0 <= i < |s| - |r| ==> IsTrimmed(s[i])
    ensures r != [] ==> !IsTrimmed(r[0])
  {
    if s != [] && IsTrimmed(s[0]) then TrimStart(s[1..]) else s
  }

  /** Drops the trailing characters `trim` strips. */
  function TrimEnd(s: string): (r: string)
    ensures |r| <= |s| && r == s[..|r|]
    ensures forall i :: |r| <= i < |s| ==> IsTrimmed(s[i])
    ensures r != [] ==> !IsTrimmed(r[|r| - 1])
  {
    if s != [] && IsTrimmed(s[|s| - 1]) then TrimEnd(s[..|s| - 1]) else s
  }

  /** Java's `s.trim()`. */
  function Trim(s: string): (r: string)
    ensures |r| <= |s|
    ensures r != [] ==> !IsTrimmed(r[0]) && !IsTrimmed(r[|r| - 1])
    ensures r == [] <==> forall i :: 0 <= i < |s| ==> IsTrimmed(s[i])
  {
    TrimEnd(TrimStart(s))
  }

  lemma {:induction false} TrimStartPadding(pad: string, t: string)
    requires forall i :: 0 <= i < |pad| ==> IsTrimmed(pad[i])
    requires t != [] ==> !IsTrimmed(t[0])
    ensures TrimStart(pad + t) == t
  {
    if pad != [] {
      assert (pad + t)[1..] == pad[1..] + t;
      TrimStartPadding(pad[1..], t);
    } else {
      assert pad + t == t;
    }
  }

  lemma {:induction false} TrimEndPadding(t: string, pad: string)
    requires forall i :: 0 <= i < |pad| ==> IsTrimmed(pad[i])
    requires t != [] ==> !IsTrimmed(t[|t| - 1])
    ensures TrimEnd(t + pad) == t
  {
    if pad != [] {
      assert (t + pad)[..|t + pad| - 1] == t + pad[..|pad| - 1];
      TrimEndPadding(t, pad[..|pad| - 1]);
    } else {
      assert t + pad == t;
    }
  }

  /**
   * `trim` is characterised by what it removes: whatever surrounds a string that
   * neither starts nor ends with a stripped character, if it is all stripped
   * characters, is exactly what `trim` takes away.
   */
  lemma TrimPadding(front: string, t: string, back: string)
    requires forall i :: 0 <= i < |front| ==> IsTrimmed(front[i])
    requires forall i :: 0 <= i < |back| ==> IsTrimmed(back[i])
    requires t != [] ==> !IsTrimmed(t[0]) && !IsTrimmed(t[|t| - 1])
    ensures Trim(front + t + back) == t
  {
    if t == [] {
      assert front + t + back == front + back;
      TrimStartPadding(front + back, []);
      assert TrimStart(front + back) == [];
    } else {
      assert front + t + back == front + (t + back);
      TrimStartPadding(front, t + back);
      TrimEndPadding(t, back);
    }
  }

  /** A string with nothing to strip at either end is its own trim. */
  lemma TrimUnpadded(s: string)
    requires s != [] ==> !IsTrimmed(s[0]) && !IsTrimmed(s[|s| - 1])
    ensures Trim(s) == s
  {
    TrimPadding([], s, []);
    assert [] + s + [] == s;
  }

  /** Java's `s.replace(from, to)` for characters. */
  function ReplaceChar(s: string, from: char, to: char): (r: string)
    ensures |r| == |s|
    ensures forall i :: 0 <= i < |s| ==> r[i] == (if s[i] == from then to else s[i])
    ensures from != to ==> forall i :: 0 <= i < |r| ==> r[i] != from
  {
    seq(|s|, i requires 0 <= i < |s| => if s[i] == from then to else s[i])
  }
}
