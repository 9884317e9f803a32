/**
 * The normaliser the serialization tests use to compare a message's text
 * rendering with an expected one-line string: newlines become spaces, runs of
 * spaces collapse to one space, and surrounding whitespace is stripped.
 */
module CompactRepr {

  /** Python's `str.isspace` for one character. */
  predicate IsSpace(c: char)
  {
    ('\t' <= c <= '\r') || ('\U{1C}' <= c <= ' ') || c == '\U{85}' || c == '\U{A0}' ||
    c == '\U{1680}' || ('\U{2000}' <= c <= '\U{200A}') || c == '\U{2028}' || c == '\U{2029}' ||
    c == '\U{202F}' || c == '\U{205F}' || c == '\U{3000}'
  }

  /** `'  ' in s`: two consecutive spaces occur somewhere in `s`. */
  predicate HasDoubleSpace(s: string)
  {
    |s| >= 2 && ((s[0] == ' ' && s[1] == ' ') || HasDoubleSpace(s[1..]))
  }

  /** Neither end of `s` is whitespace. */
  predicate Trimmed(s: string)
  {
    s == [] || (!IsSpace(s[0]) && !IsSpace(s[|s| - 1]))
  }

  /** The characters of `s` that are not whitespace, in order. */
  function NonBlank(s: string): (r: string)
    ensures forall i :: 0 <= i < |r| ==> !IsSpace(r[i])
  {
    if s == [] then []
    else (if IsSpace(s[0]) then [] else [s[0]]) + NonBlank(s[1..])
  }

  /** `s.replace('\n', ' ')`. */
  function ReplaceNewlines(s: string): (r: string)
    ensures |r| == |s|
    ensures '\n' !in r
    ensures forall i :: 0 <= i < |s| ==> r[i] == (if s[i] == '\n' then ' ' else s[i])
  {
    if s == [] then []
    else [if s[0] == '\n' then ' ' else s[0]] + ReplaceNewlines(s[1..])
  }

  /**
   * `s.replace('  ', ' ')`: scanning left to right, every non-overlapping pair
   * of spaces becomes one space. The result is shorter whenever a pair occurs,
   * which is why the normalising loop terminates.
   */
  function ReplaceDoubleSpaces(s: string): (r: string)
    ensures |r| <= |s|
    ensures HasDoubleSpace(s) ==> |r| < |s|
  {
    if |s| >= 2 && s[0] == ' ' && s[1] == ' ' then [' '] + ReplaceDoubleSpaces(s[2..])
    else if s == [] then []
    else [s[0]] + ReplaceDoubleSpaces(s[1..])
  }

  /**
   * The reference definition of the collapse: every run of spaces in `s`
   * shrinks to a single space and every other character stays where it was.
   */
  function Squeeze(s: string): (r: string)
    ensures !HasDoubleSpace(r)
    ensures NonBlank(r) == NonBlank(s)
    ensures !HasDoubleSpace(s) ==> r == s
  {
    SqueezeIsCollapse(false, s);
    assert !HasDoubleSpace(s) ==> SqueezeFrom(false, s) == s by {
      if !HasDoubleSpace(s) {
        SqueezeWithoutPairs(false, s);
      }
    }
    SqueezeFrom(false, s)
  }

  /** The collapse scanning left to right; `afterSpace` says that a space has just been kept. */
  function SqueezeFrom(afterSpace: bool, s: string): string
    decreases s
  {
    if s == [] then []
    else if s[0] == ' ' then (if afterSpace then [] else [' ']) + SqueezeFrom(true, s[1..])
    else [s[0]] + SqueezeFrom(false, s[1..])
  }

  /** `s.strip()` with no argument, first half: leading whitespace removed. */
  function StripLeading(s: string): (r: string)
    ensures |r| <= |s| && r == s[|s| - |r|..]
    ensures forall i :: 0 <= i < |s| - |r| ==> IsSpace(s[i])
    ensures r == [] || !IsSpace(r[0])
  {
    if s != [] && IsSpace(s[0]) then
      var r := StripLeading(s[1..]);
      assert forall i :: 1 <= i < |s| ==> s[i] == s[1..][i - 1];
      r
    else s
  }

  /** `s.strip()` with no argument, second half: trailing whitespace removed. */
  function StripTrailing(s: string): (r: string)
    ensures |r| <= |s| && r == s[..|r|]
    ensures forall i :: |r| <= i < |s| ==> IsSpace(s[i])
    ensures r == [] || !IsSpace(r[|r| - 1])
  {
    if s != [] && IsSpace(s[|s| - 1]) then
      var r := StripTrailing(s[..|s| - 1]);
      assert forall i :: 0 <= i < |s| - 1 ==> s[i] == s[..|s| - 1][i];
      r
    else s
  }

  /** `r` is the slice of `s` starting at `k`, and everything of `s` before and after it is whitespace. */
  predicate StrippedAt(s: string, r: string, k: nat)
  {
    k + |r| <= |s| && r == s[k..k + |r|] &&
    (forall i :: 0 <= i < k ==> IsSpace(s[i])) &&
    (forall i :: k + |r| <= i < |s| ==> IsSpace(s[i]))
  }

  /** `s.strip()`: `s` with its leading and trailing whitespace removed, and nothing else. */
  function Strip(s: string): (r: string)
    ensures Trimmed(r)
    ensures exists k :: StrippedAt(s, r, k)
  {
    var x := StripLeading(s);
    var r := StripTrailing(x);
    assert StrippedAt(s, r, |s| - |x|);
    r
  }

  /** What the normaliser computes, stated without its loop. */
  function Compact(text: string): string
  {
    Strip(Squeeze(ReplaceNewlines(text)))
  }

  /**
   * `_compact_repr` applied to the text rendering `text` of a message: the
   * rendering is not modelled, so the method takes the text itself.
   */
  method CompactText(text: string) returns (r: string)
    ensures r == Compact(text)
    ensures '\n' !in r && !HasDoubleSpace(r) && Trimmed(r)
  {
    var s := ReplaceNewlines(text);
    while HasDoubleSpace(s)
      invariant Squeeze(s) == Squeeze(ReplaceNewlines(text))
      decreases |s|
    {
      SqueezeAfterReplace(false, s);
      s := ReplaceDoubleSpaces(s);
    }
    SqueezeWithoutPairs(false, s);
    r := Strip(s);
    CompactIsNormal(text);
  }

  // ---------------------------------------------------------------------------
  // Lemmas
  // ---------------------------------------------------------------------------

  /** The collapse leaves no two consecutive spaces, and removes nothing but spaces. */
  lemma {:induction false} SqueezeIsCollapse(afterSpace: bool, s: string)
    ensures |SqueezeFrom(afterSpace, s)| <= |s|
    ensures !HasDoubleSpace(SqueezeFrom(afterSpace, s))
    ensures afterSpace ==> SqueezeFrom(afterSpace, s) == [] || SqueezeFrom(afterSpace, s)[0] != ' '
    ensures forall c :: c in SqueezeFrom(afterSpace, s) ==> c in s
    ensures NonBlank(SqueezeFrom(afterSpace, s)) == NonBlank(s)
    decreases s
  {
    if s != [] {
      var rest := SqueezeFrom(s[0] == ' ', s[1..]);
      SqueezeIsCollapse(s[0] == ' ', s[1..]);
      var head := if s[0] == ' ' && afterSpace then [] else [s[0]];
      assert SqueezeFrom(afterSpace, s) == head + rest;
      NonBlankAppend(head, rest);
      if head != [] {
        assert head[1..] == [];
        assert (head + rest)[0] == s[0];
        assert (head + rest)[1..] == rest;
        if rest != [] {
          assert (head + rest)[1] == rest[0];
        }
      } else {
        assert head + rest == rest;
      }
    }
  }

  /** One `replace('  ', ' ')` pass does not change what the collapse produces. */
  lemma {:induction false} SqueezeAfterReplace(afterSpace: bool, s: string)
    ensures SqueezeFrom(afterSpace, ReplaceDoubleSpaces(s)) == SqueezeFrom(afterSpace, s)
    decreases s
  {
    if |s| >= 2 && s[0] == ' ' && s[1] == ' ' {
      var rest := s[2..];
      SqueezeAfterReplace(true, rest);
      assert ([' '] + ReplaceDoubleSpaces(rest))[1..] == ReplaceDoubleSpaces(rest);
      assert s[1..][1..] == rest;
    } else if s != [] {
      SqueezeAfterReplace(s[0] == ' ', s[1..]);
      assert ([s[0]] + ReplaceDoubleSpaces(s[1..]))[1..] == ReplaceDoubleSpaces(s[1..]);
    }
  }

  /** A string without two consecutive spaces is left as it is by the collapse. */
  lemma {:induction false} SqueezeWithoutPairs(afterSpace: bool, s: string)
    requires !HasDoubleSpace(s)
    requires afterSpace ==> s == [] || s[0] != ' '
    ensures SqueezeFrom(afterSpace, s) == s
    decreases s
  {
    if s != [] {
      SqueezeWithoutPairs(s[0] == ' ', s[1..]);
      assert [s[0]] + s[1..] == s;
    }
  }

  lemma {:induction false} NonBlankAppend(a: string, b: string)
    ensures NonBlank(a + b) == NonBlank(a) + NonBlank(b)
  {
    if a != [] {
      NonBlankAppend(a[1..], b);
      var head := if IsSpace(a[0]) then [] else [a[0]];
      assert (a + b)[0] == a[0];
      assert (a + b)[1..] == a[1..] + b;
      calc {
        NonBlank(a + b);
        head + NonBlank(a[1..] + b);
        head + (NonBlank(a[1..]) + NonBlank(b));
        (head + NonBlank(a[1..])) + NonBlank(b);
        NonBlank(a) + NonBlank(b);
      }
    } else {
      assert a + b == b;
    }
  }

  lemma {:induction false} NonBlankOfBlanks(s: string)
    requires forall i :: 0 <= i < |s| ==> IsSpace(s[i])
    ensures NonBlank(s) == []
  {
    if s != [] {
      NonBlankOfBlanks(s[1..]);
    }
  }

  /** `'  ' in s` means exactly that some position holds a space followed by a space. */
  lemma {:induction false} DoubleSpaceAt(s: string)
    ensures HasDoubleSpace(s) <==> exists i :: 0 <= i < |s| - 1 && s[i] == ' ' && s[i + 1] == ' '
  {
    if |s| >= 2 {
      DoubleSpaceAt(s[1..]);
      if HasDoubleSpace(s[1..]) {
        var i :| 0 <= i < |s[1..]| - 1 && s[1..][i] == ' ' && s[1..][i + 1] == ' ';
        assert s[i + 1] == ' ' && s[i + 2] == ' ';
      }
      if exists i :: 0 <= i < |s| - 1 && s[i] == ' ' && s[i + 1] == ' ' {
        var i :| 0 <= i < |s| - 1 && s[i] == ' ' && s[i + 1] == ' ';
        if i > 0 {
          assert s[1..][i - 1] == ' ' && s[1..][i] == ' ';
        }
      }
    }
  }

  lemma {:induction false} DoubleSpaceInSlice(s: string, lo: nat, hi: nat)
    requires lo <= hi <= |s|
    ensures HasDoubleSpace(s[lo..hi]) ==> HasDoubleSpace(s)
  {
    DoubleSpaceAt(s[lo..hi]);
    DoubleSpaceAt(s);
    if HasDoubleSpace(s[lo..hi]) {
      var i :| 0 <= i < |s[lo..hi]| - 1 && s[lo..hi][i] == ' ' && s[lo..hi][i + 1] == ' ';
      assert s[lo + i] == ' ' && s[lo + i + 1] == ' ';
    }
  }

  lemma StripLeadingKeepsText(s: string)
    ensures NonBlank(StripLeading(s)) == NonBlank(s)
  {
    var x := StripLeading(s);
    var k := |s| - |x|;
    assert s == s[..k] + x;
    NonBlankOfBlanks(s[..k]);
    NonBlankAppend(s[..k], x);
  }

  lemma StripTrailingKeepsText(s: string)
    ensures NonBlank(StripTrailing(s)) == NonBlank(s)
  {
    var r := StripTrailing(s);
    assert s == r + s[|r|..];
    NonBlankOfBlanks(s[|r|..]);
    NonBlankAppend(r, s[|r|..]);
  }

  /** Stripping removes only whitespace, from the two ends. */
  lemma StripKeepsText(s: string)
    ensures NonBlank(Strip(s)) == NonBlank(s)
  {
    StripLeadingKeepsText(s);
    StripTrailingKeepsText(StripLeading(s));
  }

  /** The normalised text has no newline, no two consecutive spaces, and no whitespace at either end. */
  lemma CompactIsNormal(text: string)
    ensures '\n' !in Compact(text)
    ensures !HasDoubleSpace(Compact(text))
    ensures forall i :: 0 <= i < |Compact(text)| - 1 ==> !(Compact(text)[i] == ' ' && Compact(text)[i + 1] == ' ')
    ensures Trimmed(Compact(text))
  {
    var n := ReplaceNewlines(text);
    SqueezeIsCollapse(false, n);
    StripKeepsNormal(Squeeze(n));
    DoubleSpaceAt(Compact(text));
  }

  /** Stripping text without newlines or double spaces introduces neither. */
  lemma StripKeepsNormal(s: string)
    requires '\n' !in s && !HasDoubleSpace(s)
    ensures '\n' !in Strip(s) && !HasDoubleSpace(Strip(s))
  {
    var x := StripLeading(s);
    SliceKeepsNormal(s, |s| - |x|, |s|);
    assert x == s[|s| - |x|..|s|];
    SliceKeepsNormal(x, 0, |StripTrailing(x)|);
    assert StripTrailing(x) == x[0..|StripTrailing(x)|];
  }

  lemma SliceKeepsNormal(s: string, lo: nat, hi: nat)
    requires lo <= hi <= |s|
    requires '\n' !in s && !HasDoubleSpace(s)
    ensures '\n' !in s[lo..hi] && !HasDoubleSpace(s[lo..hi])
  {
    DoubleSpaceInSlice(s, lo, hi);
    forall j | 0 <= j < hi - lo
      ensures s[lo..hi][j] != '\n'
    {
      assert s[lo..hi][j] == s[lo + j];
    }
  }

  /** Normalising keeps every non-whitespace character of the text, in order. */
  lemma {:induction false} CompactKeepsText(text: string)
    ensures NonBlank(Compact(text)) == NonBlank(text)
  {
    SqueezeIsCollapse(false, ReplaceNewlines(text));
    StripKeepsText(Squeeze(ReplaceNewlines(text)));
    NonBlankOfNewlines(text);
  }

  lemma {:induction false} NonBlankOfNewlines(s: string)
    ensures NonBlank(ReplaceNewlines(s)) == NonBlank(s)
  {
    if s != [] {
      NonBlankOfNewlines(s[1..]);
      assert ReplaceNewlines(s)[1..] == ReplaceNewlines(s[1..]);
    }
  }

  /** Normalising an already normalised text changes nothing. */
  lemma CompactIdempotent(text: string)
    ensures Compact(Compact(text)) == Compact(text)
  {
    CompactIsNormal(text);
    CompactFixesNormal(Compact(text));
  }

  /** Text in normal form: no newline, no two consecutive spaces, no whitespace at either end. */
  predicate Normal(s: string)
  {
    '\n' !in s && !HasDoubleSpace(s) && Trimmed(s)
  }

  /** Normalising text already in normal form changes nothing. */
  lemma CompactFixesNormal(t: string)
    requires Normal(t)
    ensures Compact(t) == t
  {
    assert ReplaceNewlines(t) == t;
    StripTrimmed(t);
  }

  /**
   * Newlines become spaces and multiple spaces become one: two pieces of normal
   * text separated by any non-empty run of spaces and newlines come out
   * separated by exactly one space.
   */
  lemma CompactSeparator(a: string, w: string, b: string)
    requires a != [] && b != [] && Normal(a) && Normal(b)
    requires w != [] && forall i :: 0 <= i < |w| ==> w[i] == ' ' || w[i] == '\n'
    ensures Compact(a + w + b) == a + [' '] + b
  {
    var spaces := ReplaceNewlines(w);
    NewlinesOfSeparated(a, w, b);
    SqueezeSeparated(a, spaces, b);
    var r := a + [' '] + b;
    assert r[0] == a[0] && r[|r| - 1] == b[|b| - 1];
    StripTrimmed(r);
  }

  /** Around a run of spaces and newlines, newline-free text is left as it is and the run becomes spaces. */
  lemma NewlinesOfSeparated(a: string, w: string, b: string)
    requires '\n' !in a && '\n' !in b
    requires forall i :: 0 <= i < |w| ==> w[i] == ' ' || w[i] == '\n'
    ensures ReplaceNewlines(a + w + b) == a + ReplaceNewlines(w) + b
    ensures forall i :: 0 <= i < |w| ==> ReplaceNewlines(w)[i] == ' '
  {
    var x := a + w + b;
    var y := a + ReplaceNewlines(w) + b;
    forall i | 0 <= i < |x|
      ensures ReplaceNewlines(x)[i] == y[i]
    {
      if i < |a| {
        assert x[i] == a[i] && y[i] == a[i];
      } else if i < |a| + |w| {
        assert x[i] == w[i - |a|] && y[i] == ReplaceNewlines(w)[i - |a|];
      } else {
        assert x[i] == b[i - |a| - |w|] && y[i] == b[i - |a| - |w|];
      }
    }
  }

  /** The collapse turns a non-empty run of spaces between two pieces of normal text into one space. */
  lemma SqueezeSeparated(a: string, spaces: string, b: string)
    requires a != [] && b != [] && Normal(a) && Normal(b)
    requires spaces != [] && forall i :: 0 <= i < |spaces| ==> spaces[i] == ' '
    ensures Squeeze(a + spaces + b) == a + [' '] + b
  {
    assert a + spaces + b == a + (spaces + b);
    SqueezeAppend(false, a, spaces + b);
    assert (spaces + b)[0] == ' ';
    assert (spaces + b)[1..] == spaces[1..] + b;
    SqueezeSpaces(spaces[1..], b);
    SqueezeWithoutPairs(true, b);
  }

  /**
   * The collapse goes through a prefix that has no double space and does not
   * end in a space unchanged, then starts afresh.
   */
  lemma {:induction false} SqueezeAppend(afterSpace: bool, a: string, rest: string)
    requires a != [] && !HasDoubleSpace(a) && a[|a| - 1] != ' '
    requires afterSpace ==> a[0] != ' '
    ensures SqueezeFrom(afterSpace, a + rest) == a + SqueezeFrom(false, rest)
    decreases a
  {
    assert (a + rest)[0] == a[0];
    assert (a + rest)[1..] == a[1..] + rest;
    if |a| > 1 {
      SqueezeAppend(a[0] == ' ', a[1..], rest);
      assert [a[0]] + (a[1..] + SqueezeFrom(false, rest)) == a + SqueezeFrom(false, rest);
    } else {
      assert a[1..] + rest == rest;
    }
  }

  /** After a kept space, a further run of spaces is dropped. */
  lemma {:induction false} SqueezeSpaces(spaces: string, b: string)
    requires forall i :: 0 <= i < |spaces| ==> spaces[i] == ' '
    ensures SqueezeFrom(true, spaces + b) == SqueezeFrom(true, b)
  {
    if spaces != [] {
      assert (spaces + b)[0] == ' ';
      assert (spaces + b)[1..] == spaces[1..] + b;
      SqueezeSpaces(spaces[1..], b);
    } else {
      assert spaces + b == b;
    }
  }

  /** Stripping text that has no whitespace at either end changes nothing. */
  lemma StripTrimmed(s: string)
    requires Trimmed(s)
    ensures Strip(s) == s
  {
    assert StripLeading(s) == s;
    assert StripTrailing(s) == s;
  }
}
