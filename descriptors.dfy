/**
 * Completion of partial JVM reference descriptors (`descriptorName`): a typed
 * `L<name>` or `[...L<name>` (section 4.3.2 of the Java Virtual Machine
 * Specification) whose class name is still incomplete.
 */
module Descriptors {
  import opened Wrappers
  import opened Strings
  import opened Streams

  /** The characters the tokenizer moves into the prefix while no name has been read. */
  predicate IsMarker(c: char)
  {
    c == 'L' || c == '['
  }

  /** The outcome of the character loop: closed by a `;`, or a prefix and a name fragment. */
  datatype Scan = Closed | Parts(prefix: string, key: string)

  /** An accepted token: a marker prefix holding an `L`, and the name fragment to complete. */
  datatype DescriptorToken = DescriptorToken(prefix: string, key: string)

  /** The length of the leading run of markers. */
  function MarkerRun(s: string): (k: nat)
    ensures k <= |s|
    ensures forall i :: 0 <= i < k ==> IsMarker(s[i])
    ensures k < |s| ==> !IsMarker(s[k])
  {
    if s != [] && IsMarker(s[0]) then 1 + MarkerRun(s[1..]) else 0
  }

  /**
   * What the character loop computes: the leading markers form the prefix, the
   * first other character starts the fragment (even a `;`), and any `;` after
   * that closes the descriptor.
   */
  function Split(s: string): (r: Scan)
    ensures r.Closed? <==> exists i, j :: 0 <= i < j < |s| && !IsMarker(s[i]) && s[j] == ';'
    ensures r.Parts? ==> r.prefix + r.key == s
    ensures r.Parts? ==> forall i :: 0 <= i < |r.prefix| ==> IsMarker(r.prefix[i])
    ensures r.Parts? && r.key != [] ==> !IsMarker(r.key[0]) && ';' !in r.key[1..]
  {
    var k := MarkerRun(s);
    if k < |s| && ';' in s[k + 1..] then
      assert exists j :: k < j < |s| && s[j] == ';' by {
        var j' :| 0 <= j' < |s[k + 1..]| && s[k + 1..][j'] == ';';
        assert s[k + 1 + j'] == ';';
      }
      Closed
    else
      assert s[..k] + s[k..] == s;
      Parts(s[..k], s[k..])
  }

  /**
   * The loop of `descriptorName` over the characters of the trimmed input: it
   * appends markers to the prefix while the fragment is still empty, appends
   * every other character to the fragment, and stops at a `;` met once the
   * fragment has begun.
   */
  method SplitDescriptor(s: string) returns (r: Scan)
    ensures r == Split(s)
  {
    var prefix: string := [];
    var key: string := [];
    ghost var k := MarkerRun(s);
    for i := 0 to |s|
      invariant key == [] ==> i <= k && prefix == s[..i]
      invariant key != [] ==> k < i && prefix == s[..k] && key == s[k..i]
      invariant key != [] ==> ';' !in s[k + 1..i]
    {
      var c := s[i];
      if key == [] {
        if c == 'L' || c == '[' {
          prefix := prefix + [c];
          continue;
        }
      } else if c == ';' {
        assert s[k + 1..][i - (k + 1)] == ';';
        return Closed;
      }
      key := key + [c];
    }
    if key == [] {
      assert prefix == s && k == |s|;
    } else {
      assert ';' !in s[k + 1..] by {
        assert s[k + 1..] == s[k + 1..|s|];
      }
    }
    r := Parts(prefix, key);
  }

  /** The input `descriptorName` completes: `s` is the prefix followed by the fragment. */
  ghost predicate Tokenizes(s: string, t: DescriptorToken)
  {
    && s == t.prefix + t.key
    && (forall i :: 0 <= i < |t.prefix| ==> IsMarker(t.prefix[i]))
    && 'L' in t.prefix
    && t.key != []
    && !IsMarker(t.key[0])
    && ';' !in t.key[1..]
  }

  /**
   * The token `descriptorName` completes on, or None where it returns an empty
   * list before consulting the index: a blank input, a `;` after the fragment has
   * begun, an empty prefix or one without `L`, or an empty fragment.
   */
  function Token(part: string): (r: Option<DescriptorToken>)
    ensures r.Some? ==> Tokenizes(Trim(part), r.value)
  {
    var s := Trim(part);
    if s == [] then None
    else
      match Split(s)
      case Closed => None
      case Parts(prefix, key) =>
        if prefix == [] || 'L' !in prefix || key == [] then None
        else Some(DescriptorToken(prefix, key))
  }

  /** Conversely, every token the trimmed input splits into is the one Token finds. */
  lemma TokenComplete(part: string, t: DescriptorToken)
    requires Tokenizes(Trim(part), t)
    ensures Token(part) == Some(t)
  {
    SplitTokenizes(Trim(part), t);
  }

  /** A string that splits into a token is split by the character loop into the same two parts. */
  lemma SplitTokenizes(s: string, t: DescriptorToken)
    requires Tokenizes(s, t)
    ensures Split(s) == Parts(t.prefix, t.key)
  {
    var k := MarkerRun(s);
    assert s[|t.prefix|] == t.key[0];
    assert k == |t.prefix|;
    assert s[..k] == t.prefix && s[k..] == t.key;
    assert s[k + 1..] == t.key[1..];
  }

  /** `descriptorName` re-wraps an index name as a descriptor: `prefix + name + ";"`. */
  function Wrap(prefix: string, name: string): (r: string)
    ensures |r| == |prefix| + |name| + 1
    ensures StartsWith(r, prefix) && r[|r| - 1] == ';'
    ensures r[|prefix|..|r| - 1] == name
  {
    prefix + name + ";"
  }

  /** Takes the prefix and the closing `;` off a completion. */
  function Unwrap(prefix: string, completion: string): string
    requires |prefix| < |completion|
  {
    completion[|prefix|..|completion| - 1]
  }

  /** Unwrapping a completion gives back the index name it was made from. */
  lemma UnwrapWrap(prefix: string, name: string)
    ensures |prefix| < |Wrap(prefix, name)|
    ensures Unwrap(prefix, Wrap(prefix, name)) == name
  {
    assert Wrap(prefix, name)[|prefix|..|Wrap(prefix, name)| - 1] == name;
  }

  lemma WrapInjective(prefix: string, a: string, b: string)
    requires Wrap(prefix, a) == Wrap(prefix, b)
    ensures a == b
  {
    UnwrapWrap(prefix, a);
    UnwrapWrap(prefix, b);
  }

  /** Every name of a list, wrapped with `prefix` and a closing `;`, in list order. */
  function Rewrap(prefix: string, names: seq<string>): (r: seq<string>)
    ensures |r| == |names|
    ensures forall i :: 0 <= i < |r| ==> StartsWith(r[i], prefix) && |prefix| < |r[i]| && r[i][|r[i]| - 1] == ';'
    ensures forall i :: 0 <= i < |r| ==> |prefix| < |r[i]| && Unwrap(prefix, r[i]) == names[i]
  {
    var r := seq(|names|, i requires 0 <= i < |names| => Wrap(prefix, names[i]));
    forall i | 0 <= i < |r|
      ensures StartsWith(r[i], prefix) && |prefix| < |r[i]| && r[i][|r[i]| - 1] == ';'
      ensures Unwrap(prefix, r[i]) == names[i]
    {
      UnwrapWrap(prefix, names[i]);
    }
    r
  }

  lemma RewrapMembers(prefix: string, names: seq<string>, n: string)
    ensures Wrap(prefix, n) in Rewrap(prefix, names) <==> n in names
  {
    var r := Rewrap(prefix, names);
    if Wrap(prefix, n) in r {
      var i :| 0 <= i < |r| && r[i] == Wrap(prefix, n);
      WrapInjective(prefix, n, names[i]);
    }
    if n in names {
      var i :| 0 <= i < |names| && names[i] == n;
      assert r[i] == Wrap(prefix, n);
    }
  }

  /** The index names that start with the fragment, exact matches included, in index order. */
  function NamesStartingWith(index: seq<string>, key: string): seq<string>
  {
    Filter(index, n => StartsWith(n, key))
  }

  /**
   * `descriptorName` over a given index: empty where Token rejects the input;
   * otherwise the index names starting with the fragment, in index order, each
   * wrapped with the prefix and a closing `;`.
   */
  function DescriptorCompletions(part: string, index: seq<string>): (r: seq<string>)
    ensures Token(part).None? ==> r == []
    ensures |r| <= |index|
  {
    match Token(part)
    case None => []
    case Some(t) => Rewrap(t.prefix, NamesStartingWith(index, t.key))
  }

  /**
   * For an accepted token, `prefix + n + ";"` is a completion exactly when `n` is
   * an index name starting with the fragment. Unlike internal-name completion, a
   * name equal to the fragment is kept.
   */
  lemma DescriptorMembers(part: string, t: DescriptorToken, index: seq<string>, n: string)
    requires Token(part) == Some(t)
    ensures Wrap(t.prefix, n) in DescriptorCompletions(part, index) <==> n in index && StartsWith(n, t.key)
  {
    RewrapMembers(t.prefix, NamesStartingWith(index, t.key), n);
  }

  /**
   * The round trip: the completions are, position by position, the index names
   * that start with the fragment, each between the prefix and a closing `;`, and
   * taking those two off gives the name back.
   */
  lemma DescriptorRoundTrip(part: string, t: DescriptorToken, index: seq<string>)
    requires Token(part) == Some(t)
    ensures var names := NamesStartingWith(index, t.key);
            var r := DescriptorCompletions(part, index);
            && |r| == |names|
            && (forall i :: 0 <= i < |r| ==> r[i] == t.prefix + names[i] + ";")
            && (forall i :: 0 <= i < |r| ==> |t.prefix| < |r[i]| && Unwrap(t.prefix, r[i]) == names[i])
  {
    var names := NamesStartingWith(index, t.key);
    var r := DescriptorCompletions(part, index);
    assert r == Rewrap(t.prefix, names);
    forall i | 0 <= i < |r|
      ensures r[i] == t.prefix + names[i] + ";"
    {
      assert r[i] == Wrap(t.prefix, names[i]);
    }
  }

  /** `La/B` splits into the prefix `L` and the fragment `a/B`. */
  lemma TokenExampleReference(part: string)
    requires part == "La/B"
    ensures Token(part) == Some(DescriptorToken("L", "a/B"))
  {
    TrimUnpadded(part);
    TokenComplete(part, DescriptorToken("L", "a/B"));
  }

  /** `[[La/` splits into the prefix `[[L` and the fragment `a/`. */
  lemma TokenExampleArray(part: string)
    requires part == "[[La/"
    ensures Token(part) == Some(DescriptorToken("[[L", "a/"))
  {
    TrimUnpadded(part);
    TokenComplete(part, DescriptorToken("[[L", "a/"));
  }

  /** A bare internal name has no `L` prefix and is rejected. */
  lemma TokenExampleNoPrefix(part: string)
    requires part == "a/B"
    ensures Token(part).None?
  {
    TrimUnpadded(part);
    assert MarkerRun(part) == 0;
  }

  /** Array markers with no name typed yet are rejected. */
  lemma TokenExampleNoName(part: string)
    requires part == "[["
    ensures Token(part).None?
  {
    TrimUnpadded(part);
    assert part[1..][1..] == [];
    assert MarkerRun(part) == 2;
  }

  /** A descriptor already closed by `;` is rejected. */
  lemma TokenExampleClosed(part: string)
    requires part == "La/B;"
    ensures Token(part).None?
  {
    TrimUnpadded(part);
    assert !IsMarker(part[1]) && part[4] == ';';
  }

  /** Completing `La/B` against an index holding `a/Bar` gives `La/Bar;`. */
  lemma DescriptorExample(part: string, index: seq<string>)
    requires part == "La/B" && index == ["a/Bar"]
    ensures DescriptorCompletions(part, index) == ["La/Bar;"]
  {
    var t := DescriptorToken("L", "a/B");
    TokenExampleReference(part);
    assert NamesStartingWith(index, t.key) == index by {
      assert StartsWith(index[0], t.key);
      assert index[1..] == [];
    }
    DescriptorRoundTrip(part, t, index);
    var r := DescriptorCompletions(part, index);
    assert r[0] == "La/Bar;";
  }
}
