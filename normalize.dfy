/** The whitespace normalisation that `extract_invoice_fields` applies before
    any rule runs: newlines become spaces, every whitespace run becomes one
    space, and both ends are stripped. Python's `str.strip()` (used by the OCR
    step on every page) is the same `Strip` here. */
module TextNormalizer {
  import opened Common

  /** `text.replace('\n', ' ')`. */
  function ReplaceNewlines(s: string): (r: string)
    ensures |r| == |s|
    ensures forall i :: 0 <= i < |s| ==> r[i] == if s[i] == '\n' then ' ' else s[i]
  {
    if s == [] then []
    else [if s[0] == '\n' then ' ' else s[0]] + ReplaceNewlines(s[1..])
  }

  /** Whitespace at i and at i + 1. */
  predicate DoubleSpace(s: string, i: nat)
    requires i + 1 < |s|
  {
    IsSpace(s[i]) && IsSpace(s[i + 1])
  }

  /** A character put before a text without doubled whitespace keeps it so,
      unless both it and the text's first character are whitespace. */
  lemma NoDoubleSpaceCons(x: char, c: string)
    requires forall i :: 0 <= i < |c| - 1 ==> !DoubleSpace(c, i)
    requires !IsSpace(x) || |c| == 0 || !IsSpace(c[0])
    ensures forall i :: 0 <= i < |[x] + c| - 1 ==> !DoubleSpace([x] + c, i)
  {
    forall i | 0 < i < |[x] + c| - 1 ensures !DoubleSpace([x] + c, i) {
      assert !DoubleSpace(c, i - 1);
    }
  }

  /** Any piece of a text without doubled whitespace has none either. */
  lemma NoDoubleSpaceSlice(c: string, a: nat, b: nat)
    requires a <= b <= |c|
    requires forall i :: 0 <= i < |c| - 1 ==> !DoubleSpace(c, i)
    ensures forall i :: 0 <= i < b - a - 1 ==> !DoubleSpace(c[a..b], i)
  {
    forall i | 0 <= i < b - a - 1 ensures !DoubleSpace(c[a..b], i) {
      assert !DoubleSpace(c, a + i);
    }
  }

  /** `re.sub(r'\s+', ' ', s)`: each maximal whitespace run, found left to
      right, is replaced by a single space. */
  function CollapseSpaces(s: string): (r: string)
    ensures forall i :: 0 <= i < |r| && IsSpace(r[i]) ==> r[i] == ' '
    ensures forall i :: 0 <= i < |r| - 1 ==> !DoubleSpace(r, i)
    ensures |s| > 0 ==> |r| > 0 && (IsSpace(r[0]) <==> IsSpace(s[0]))
    ensures |s| > 0 && IsSpace(s[|s| - 1]) ==> IsSpace(r[|r| - 1])
    ensures |s| > 0 && !IsSpace(s[|s| - 1]) ==> !IsSpace(r[|r| - 1])
    decreases |s|
  {
    if s == [] then []
    else if IsSpace(s[0]) then
      var c := CollapseSpaces(s[RunEnd(s, 0, Space)..]);
      NoDoubleSpaceCons(' ', c);
      " " + c
    else
      var c := CollapseSpaces(s[1..]);
      NoDoubleSpaceCons(s[0], c);
      [s[0]] + c
  }

  /** Where trailing whitespace begins, searching no further left than `lo`. */
  function TrailStart(s: string, lo: nat): (b: nat)
    requires lo <= |s|
    ensures lo <= b <= |s|
    ensures forall i :: b <= i < |s| ==> IsSpace(s[i])
    ensures b == lo || !IsSpace(s[b - 1])
    decreases |s|
  {
    if |s| == lo || !IsSpace(s[|s| - 1]) then |s| else TrailStart(s[..|s| - 1], lo)
  }

  /** `str.strip()`: whitespace removed from both ends and nowhere else. */
  function Strip(s: string): (r: string)
    ensures r == [] || (!IsSpace(r[0]) && !IsSpace(r[|r| - 1]))
    ensures exists a, b :: 0 <= a <= b <= |s| && r == s[a..b]
                           && (forall i :: 0 <= i < a ==> IsSpace(s[i]))
                           && (forall i :: b <= i < |s| ==> IsSpace(s[i]))
  {
    var a := RunEnd(s, 0, Space);
    var b := TrailStart(s, a);
    s[a..b]
  }

  /** The canonical form every rule sees: single spaces only, none doubled,
      none at either end (so in particular no newline). */
  ghost predicate Canonical(t: string) {
    && (forall i :: 0 <= i < |t| && IsSpace(t[i]) ==> t[i] == ' ')
    && (forall i :: 0 <= i < |t| - 1 ==> !DoubleSpace(t, i))
    && (t == [] || (!IsSpace(t[0]) && !IsSpace(t[|t| - 1])))
  }

  /** Stripping keeps a single-spaced text single-spaced. */
  lemma StripSingleSpaced(c: string)
    requires SingleSpaced(c)
    ensures SingleSpaced(Strip(c))
  {
    var a := RunEnd(c, 0, Space);
    var b := TrailStart(c, a);
    NoDoubleSpaceSlice(c, a, b);
    var r := c[a..b];
    assert forall i :: 0 <= i < |r| ==> r[i] == c[a + i];
  }

  /** Line 41 of the pipeline: replace, collapse, strip. */
  function Normalize(s: string): (t: string)
    ensures Canonical(t)
    ensures '\n' !in t
  {
    var c := CollapseSpaces(ReplaceNewlines(s));
    StripSingleSpaced(c);
    var t := Strip(c);
    t
  }

  /** The text with all whitespace taken out: what normalisation must keep. */
  function Squeeze(s: string): string {
    if s == [] then []
    else if IsSpace(s[0]) then Squeeze(s[1..])
    else [s[0]] + Squeeze(s[1..])
  }

  lemma {:induction false} SqueezeAppend(a: string, b: string)
    ensures Squeeze(a + b) == Squeeze(a) + Squeeze(b)
    decreases |a|
  {
    if a == [] {
      assert a + b == b;
    } else {
      assert (a + b)[1..] == a[1..] + b;
      SqueezeAppend(a[1..], b);
    }
  }

  lemma {:induction false} SqueezeAllSpaces(s: string)
    requires forall i :: 0 <= i < |s| ==> IsSpace(s[i])
    ensures Squeeze(s) == []
    decreases |s|
  {
    if s != [] {
      SqueezeAllSpaces(s[1..]);
    }
  }

  lemma {:induction false} SqueezeReplace(s: string)
    ensures Squeeze(ReplaceNewlines(s)) == Squeeze(s)
    decreases |s|
  {
    if s != [] {
      var r := ReplaceNewlines(s);
      assert r[1..] == ReplaceNewlines(s[1..]);
      SqueezeReplace(s[1..]);
    }
  }

  lemma {:induction false} SqueezeCollapse(s: string)
    ensures Squeeze(CollapseSpaces(s)) == Squeeze(s)
    decreases |s|
  {
    if s != [] {
      if IsSpace(s[0]) {
        var k := RunEnd(s, 0, Space);
        SqueezeCollapse(s[k..]);
        assert s == s[..k] + s[k..];
        SqueezeAppend(s[..k], s[k..]);
        SqueezeAllSpaces(s[..k]);
        var c := CollapseSpaces(s[k..]);
        assert (" " + c)[1..] == c;
      } else {
        SqueezeCollapse(s[1..]);
        var c := CollapseSpaces(s[1..]);
        assert ([s[0]] + c)[1..] == c;
      }
    }
  }

  /** Whitespace around a text adds nothing to its squeezed form. */
  lemma SqueezeSurrounded(front: string, middle: string, back: string)
    requires forall i :: 0 <= i < |front| ==> IsSpace(front[i])
    requires forall i :: 0 <= i < |back| ==> IsSpace(back[i])
    ensures Squeeze(front + middle + back) == Squeeze(middle)
  {
    SqueezeAppend(front + middle, back);
    SqueezeAppend(front, middle);
    SqueezeAllSpaces(front);
    SqueezeAllSpaces(back);
  }

  lemma SqueezeStrip(s: string)
    ensures Squeeze(Strip(s)) == Squeeze(s)
  {
    var a := RunEnd(s, 0, Space);
    var b := TrailStart(s, a);
    var front, middle, back := s[..a], s[a..b], s[b..];
    assert s == front + middle + back;
    assert forall i :: 0 <= i < |front| ==> IsSpace(front[i]) by {
      forall i | 0 <= i < |front| ensures IsSpace(front[i]) {
        assert front[i] == s[i];
      }
    }
    assert forall i :: 0 <= i < |back| ==> IsSpace(back[i]) by {
      forall i | 0 <= i < |back| ensures IsSpace(back[i]) {
        assert back[i] == s[b + i];
      }
    }
    SqueezeSurrounded(front, middle, back);
  }

  /** Normalisation only touches whitespace: every other character survives,
      in order. */
  lemma NormalizeKeepsContent(s: string)
    ensures Squeeze(Normalize(s)) == Squeeze(s)
  {
    SqueezeReplace(s);
    SqueezeCollapse(ReplaceNewlines(s));
    SqueezeStrip(CollapseSpaces(ReplaceNewlines(s)));
  }

  lemma {:induction false} SqueezeMembers(s: string, c: char)
    requires !IsSpace(c)
    ensures c in Squeeze(s) <==> c in s
    decreases |s|
  {
    if s != [] {
      SqueezeMembers(s[1..], c);
      assert s == [s[0]] + s[1..];
    }
  }

  /** Every non-whitespace character of the normalised text occurs in the
      original text. */
  lemma NormalizedCharsFromInput(s: string, c: char)
    requires !IsSpace(c)
    ensures c in Normalize(s) ==> c in s
  {
    NormalizeKeepsContent(s);
    SqueezeMembers(Normalize(s), c);
    SqueezeMembers(s, c);
  }

  lemma {:induction false} ReplaceFixed(t: string)
    requires '\n' !in t
    ensures ReplaceNewlines(t) == t
  {
  }

  /** Single spaces only, none doubled: what collapsing leaves. */
  ghost predicate SingleSpaced(t: string) {
    && (forall i :: 0 <= i < |t| && IsSpace(t[i]) ==> t[i] == ' ')
    && (forall i :: 0 <= i < |t| - 1 ==> !DoubleSpace(t, i))
  }

  /** Dropping the first character keeps a text single-spaced; a space at
      its head is followed by a non-space. */
  lemma SingleSpacedTail(t: string)
    requires |t| > 0 && SingleSpaced(t)
    ensures SingleSpaced(t[1..])
    ensures IsSpace(t[0]) ==> RunEnd(t, 0, Space) == 1
  {
    var r := t[1..];
    forall i | 0 <= i < |r| && IsSpace(r[i]) ensures r[i] == ' ' {
      assert r[i] == t[i + 1];
    }
    forall i | 0 <= i < |r| - 1 ensures !DoubleSpace(r, i) {
      assert !DoubleSpace(t, i + 1);
    }
    if IsSpace(t[0]) && |t| > 1 {
      assert !DoubleSpace(t, 0);
    }
  }

  lemma {:induction false} CollapseFixed(t: string)
    requires SingleSpaced(t)
    ensures CollapseSpaces(t) == t
    decreases |t|
  {
    if t != [] {
      SingleSpacedTail(t);
      CollapseFixed(t[1..]);
      assert t == [t[0]] + t[1..];
    }
  }

  lemma StripFixed(t: string)
    requires t == [] || (!IsSpace(t[0]) && !IsSpace(t[|t| - 1]))
    ensures Strip(t) == t
  {
    assert RunEnd(t, 0, Space) == 0;
    if t != [] {
      assert TrailStart(t, 0) == |t|;
    }
  }

  /** Normalising canonical text changes nothing; hence normalisation is
      idempotent. */
  lemma NormalizeCanonical(t: string)
    requires Canonical(t)
    ensures Normalize(t) == t
  {
    assert '\n' !in t by {
      forall i | 0 <= i < |t| ensures t[i] != '\n' {
        if t[i] == '\n' { assert IsSpace(t[i]); }
      }
    }
    ReplaceFixed(t);
    CollapseFixed(t);
    StripFixed(t);
  }

  lemma NormalizeIdempotent(s: string)
    ensures Normalize(Normalize(s)) == Normalize(s)
  {
    NormalizeCanonical(Normalize(s));
  }

  // -------------------------------------------------------------- words

  /** The text begins with a non-whitespace character. */
  predicate StartsWord(s: string) {
    |s| > 0 && !IsSpace(s[0])
  }

  /** `s.split()`: the maximal runs of non-whitespace characters, in order. */
  function Words(s: string): (ws: seq<string>)
    ensures StartsWord(s) ==> |ws| > 0
    decreases |s|
  {
    if s == [] then []
    else if IsSpace(s[0]) then Words(s[1..])
    else if !StartsWord(s[1..]) then [[s[0]]] + Words(s[1..])
    else
      var rest := Words(s[1..]);
      [[s[0]] + rest[0]] + rest[1..]
  }

  /** The words of `[x] + c` depend on c only through its words and
      whether it begins with one. */
  lemma WordsCons(x: char, c1: string, c2: string)
    requires Words(c1) == Words(c2) && StartsWord(c1) == StartsWord(c2)
    ensures Words([x] + c1) == Words([x] + c2)
  {
    assert ([x] + c1)[1..] == c1;
    assert ([x] + c2)[1..] == c2;
  }

  /** Leading whitespace adds no word. */
  lemma {:induction false} WordsSkip(s: string, k: nat)
    requires k <= |s|
    requires forall i :: 0 <= i < k ==> IsSpace(s[i])
    ensures Words(s) == Words(s[k..])
    decreases k
  {
    if k > 0 {
      WordsSkip(s[1..], k - 1);
      assert s[1..][k - 1..] == s[k..];
    }
  }

  /** Trailing whitespace adds no word. */
  lemma {:induction false} WordsTrailing(m: string, back: string)
    requires forall i :: 0 <= i < |back| ==> IsSpace(back[i])
    ensures Words(m + back) == Words(m)
    decreases |m|
  {
    if m == [] {
      assert m + back == back;
      WordsSkip(back, |back|);
    } else {
      WordsTrailing(m[1..], back);
      assert m + back == [m[0]] + (m[1..] + back);
      assert m == [m[0]] + m[1..];
      WordsCons(m[0], m[1..] + back, m[1..]);
    }
  }

  lemma {:induction false} WordsReplace(s: string)
    ensures Words(ReplaceNewlines(s)) == Words(s)
    decreases |s|
  {
    if s != [] {
      var r := ReplaceNewlines(s);
      assert r[1..] == ReplaceNewlines(s[1..]);
      WordsReplace(s[1..]);
      if !IsSpace(s[0]) {
        assert r == [s[0]] + r[1..] && s == [s[0]] + s[1..];
        WordsCons(s[0], r[1..], s[1..]);
      }
    }
  }

  lemma {:induction false} WordsCollapse(s: string)
    ensures Words(CollapseSpaces(s)) == Words(s)
    decreases |s|
  {
    if s != [] {
      if IsSpace(s[0]) {
        var k := RunEnd(s, 0, Space);
        WordsCollapse(s[k..]);
        WordsSkip(s, k);
        var c := CollapseSpaces(s[k..]);
        assert (" " + c)[1..] == c;
      } else {
        WordsCollapse(s[1..]);
        var c := CollapseSpaces(s[1..]);
        assert s == [s[0]] + s[1..];
        WordsCons(s[0], c, s[1..]);
      }
    }
  }

  lemma WordsStrip(s: string)
    ensures Words(Strip(s)) == Words(s)
  {
    var a := RunEnd(s, 0, Space);
    var b := TrailStart(s, a);
    WordsSkip(s, a);
    assert s[a..] == s[a..b] + s[b..];
    assert forall i :: 0 <= i < |s[b..]| ==> IsSpace(s[b..][i]) by {
      forall i | 0 <= i < |s[b..]| ensures IsSpace(s[b..][i]) {
        assert s[b..][i] == s[b + i];
      }
    }
    WordsTrailing(s[a..b], s[b..]);
  }

  /** Normalisation keeps the words of the text, in order: it changes only
      the whitespace between, before and after them. */
  lemma NormalizeKeepsWords(s: string)
    ensures Words(Normalize(s)) == Words(s)
  {
    WordsReplace(s);
    WordsCollapse(ReplaceNewlines(s));
    WordsStrip(CollapseSpaces(ReplaceNewlines(s)));
  }
}
