/**
 * The text side of src/components/MathRenderer.jsx: rewriting shorthand math
 * into LaTeX (`convertToLatex`), spotting math in plain text (`hasMath`), and
 * cutting a text at `$...$` and `$$...$$` delimiters into segments that are
 * typeset as block math, inline math or left as text (`renderMixedContent`).
 * Typesetting itself is left to KaTeX; here a segment carries the LaTeX source
 * KaTeX would be given.
 */
module MathRenderer {
  import opened Options
  import opened Decimal
  import opened Rewrite

  // ---------------------------------------------------------------------------
  // convertToLatex
  // ---------------------------------------------------------------------------

  /** Superscripts, subscripts, fractions and square roots, in the source's order. */
  const ShorthandRules: seq<Rule> := [
    Marked('^', Digits), Marked('^', Letters),
    Marked('_', Digits), Marked('_', Letters),
    Fraction, SquareRoot
  ]

  /** The Greek names, in the order they are rewritten; `eta` comes after `beta` and `theta`. */
  const GreekNames: seq<string> := [
    "pi", "alpha", "beta", "gamma", "delta", "theta",
    "lambda", "mu", "sigma", "phi", "omega", "eta"
  ]

  /** The unit rules; the first replaces `m/s^2` by itself. */
  const UnitRules: seq<Rule> := [
    Literal("m/s^2", "m/s^2"), Literal("m/s2", "m/s^2"), Literal("ms^-2", "ms^{-2}")
  ]

  /** Rules applied one after the other, each to the previous one's output. */
  function ApplyRules(rules: seq<Rule>, s: string): string
    decreases |rules|
  {
    if rules == [] then s else ApplyRules(rules[1..], ReplaceAll(rules[0], s))
  }

  /** Every Greek name, as a whole word, becomes the backslash command of the same name. */
  function GreekLetters(names: seq<string>, s: string): string
    decreases |names|
  {
    if names == [] then s else GreekLetters(names[1..], ReplaceAll(WholeWord(names[0]), s))
  }

  /**
   * Percentages, degrees, multiplication and the three inequalities: the last
   * rules of the chain. None of `*`, `<=`, `>=`, `!=` survives them.
   */
  function Symbols(s: string): (r: string)
    ensures '*' !in r
    ensures !Contains(r, "<=") && !Contains(r, ">=") && !Contains(r, "!=")
  {
    var t0 := ReplaceAll(DigitsThen('%', "\\%"), s);
    var t1 := ReplaceAll(DigitsThen('\U{B0}', "^\\circ"), t0);
    var t2 := ReplaceAll(Literal("*", "\\times"), t1);
    var t3 := ReplaceAll(Literal("<=", "\\leq"), t2);
    var t4 := ReplaceAll(Literal(">=", "\\geq"), t3);
    var t5 := ReplaceAll(Literal("!=", "\\neq"), t4);
    SymbolsRemoved(t1, t2, t3, t4, t5);
    t5
  }

  lemma SymbolsRemoved(t1: string, t2: string, t3: string, t4: string, t5: string)
    requires t2 == ReplaceAll(Literal("*", "\\times"), t1)
    requires t3 == ReplaceAll(Literal("<=", "\\leq"), t2)
    requires t4 == ReplaceAll(Literal(">=", "\\geq"), t3)
    requires t5 == ReplaceAll(Literal("!=", "\\neq"), t4)
    ensures '*' !in t5
    ensures !Contains(t5, "<=") && !Contains(t5, ">=") && !Contains(t5, "!=")
  {
    LessEqualRemoved(t1, t2, t3);
    GreaterEqualRemoved(t3, t4);
    LiteralKeepsCharAbsent("!=", "\\neq", t4, 0, '*');
    LiteralKeepsPairAbsent("!=", "\\neq", t4, 0, '<', '=');
    LiteralKeepsPairAbsent("!=", "\\neq", t4, 0, '>', '=');
    LiteralRemovesPair('!', '=', "\\neq", t4, 0);
    NoPairNotContains(t5, '<', '=');
    NoPairNotContains(t5, '>', '=');
    NoPairNotContains(t5, '!', '=');
  }

  /** After the `*` and `<=` rules, neither `*` nor `<` followed by `=` is left. */
  lemma LessEqualRemoved(t1: string, t2: string, t3: string)
    requires t2 == ReplaceAll(Literal("*", "\\times"), t1)
    requires t3 == ReplaceAll(Literal("<=", "\\leq"), t2)
    ensures '*' !in t3 && NoPair(t3, '<', '=')
  {
    LiteralRemovesChar('*', "\\times", t1, 0);
    LiteralKeepsCharAbsent("<=", "\\leq", t2, 0, '*');
    LiteralRemovesPair('<', '=', "\\leq", t2, 0);
  }

  /** The `>=` rule keeps what the earlier rules removed and removes its own pair. */
  lemma GreaterEqualRemoved(t3: string, t4: string)
    requires '*' !in t3 && NoPair(t3, '<', '=')
    requires t4 == ReplaceAll(Literal(">=", "\\geq"), t3)
    ensures '*' !in t4 && NoPair(t4, '<', '=') && NoPair(t4, '>', '=')
  {
    LiteralKeepsCharAbsent(">=", "\\geq", t3, 0, '*');
    LiteralKeepsPairAbsent(">=", "\\geq", t3, 0, '<', '=');
    LiteralRemovesPair('>', '=', "\\geq", t3, 0);
  }

  /** `convertToLatex`: the whole chain of rewrite rules, in the source's order. */
  function ConvertToLatex(text: string): (latex: string)
    ensures '*' !in latex
    ensures !Contains(latex, "<=") && !Contains(latex, ">=") && !Contains(latex, "!=")
  {
    var shorthand := ApplyRules(ShorthandRules, text);
    var greek := GreekLetters(GreekNames, shorthand);
    var units := ApplyRules(UnitRules, greek);
    Symbols(units)
  }

  // ---------------------------------------------------------------------------
  // hasMath
  // ---------------------------------------------------------------------------

  /** The single characters of the `hasMath` pattern: `^ _ \ $` and twelve Greek letters. */
  const MathChars: set<char> := {
    '^', '_', '\\', '$',
    '\U{3C0}', '\U{3B1}', '\U{3B2}', '\U{3B3}', '\U{3B4}', '\U{3B8}',
    '\U{3BB}', '\U{3BC}', '\U{3C3}', '\U{3C6}', '\U{3C9}', '\U{3B7}'
  }

  /** Some alternative of the `hasMath` pattern matches at position `i`. */
  predicate MathAt(s: string, i: nat)
    requires i < |s|
  {
    || s[i] in MathChars
    || (IsDigit(s[i]) && i + 1 < |s| && s[i + 1] == '%')
    || StartsWithAt(s, i, "m/s")
    || StartsWithAt(s, i, "sqrt")
  }

  /** The scan `regex.test` performs from position `i` on. */
  function HasMathFrom(s: string, i: nat): (b: bool)
    requires i <= |s|
    ensures b <==> exists j :: i <= j < |s| && MathAt(s, j)
    decreases |s| - i
  {
    if i == |s| then false else MathAt(s, i) || HasMathFrom(s, i + 1)
  }

  /** `hasMath`: the pattern matches somewhere in the text. */
  function HasMath(s: string): (b: bool)
    ensures b <==> exists j :: 0 <= j < |s| && MathAt(s, j)
  {
    HasMathFrom(s, 0)
  }

  // ---------------------------------------------------------------------------
  // Splitting at delimiters
  // ---------------------------------------------------------------------------

  /** `s[q..e]` is `$`, one or more non-`$` characters, `$`. */
  predicate InlineDelimitedAt(s: string, q: nat, e: nat)
    requires q <= e <= |s|
  {
    e >= q + 3 && s[q] == '$' && s[e - 1] == '$' && forall j :: q < j < e - 1 ==> s[j] != '$'
  }

  /** `s[q..e]` is `$$`, one or more non-`$` characters, `$$`. */
  predicate BlockDelimitedAt(s: string, q: nat, e: nat)
    requires q <= e <= |s|
  {
    && e >= q + 5 && s[q] == '$' && s[q + 1] == '$' && s[e - 2] == '$' && s[e - 1] == '$'
    && forall j :: q + 1 < j < e - 2 ==> s[j] != '$'
  }

  /** `s[q..e]` matches the split pattern `\$[^$]+\$|\$\$[^$]+\$\$`. */
  predicate DelimitedAt(s: string, q: nat, e: nat)
    requires q <= e <= |s|
  {
    InlineDelimitedAt(s, q, e) || BlockDelimitedAt(s, q, e)
  }

  /**
   * The end of the split pattern's match anchored at `q`. The two alternatives
   * cannot both match at one position, and each has at most one match there
   * (`DelimiterAtExact`).
   */
  function DelimiterAt(s: string, q: nat): (e: Option<nat>)
    requires q < |s|
    ensures e.Some? ==> q < e.value <= |s| && DelimitedAt(s, q, e.value)
  {
    if s[q] != '$' || q + 1 == |s| then None
    else if s[q + 1] != '$' then
      var k := RunEnd(s, q + 1, AnyBut('$'));
      if k < |s| then Some(k + 1) else None
    else if q + 2 < |s| && s[q + 2] != '$' then
      var k := RunEnd(s, q + 2, AnyBut('$'));
      if k + 1 < |s| && s[k + 1] == '$' then Some(k + 2) else None
    else None
  }

  /** The match `DelimiterAt` finds is the only match at `q`, and it finds one whenever there is one. */
  lemma DelimiterAtExact(s: string, q: nat)
    requires q < |s|
    ensures DelimiterAt(s, q).Some? ==> forall j :: q <= j <= |s| && DelimitedAt(s, q, j) ==> j == DelimiterAt(s, q).value
    ensures DelimiterAt(s, q).None? ==> forall j :: q <= j <= |s| ==> !DelimitedAt(s, q, j)
  {
  }

  function Concat(parts: seq<string>): string {
    if parts == [] then [] else parts[0] + Concat(parts[1..])
  }

  /** The split pattern matches nowhere in `lo .. hi`. */
  predicate NoDelimiterIn(s: string, lo: nat, hi: nat)
    requires hi <= |s|
  {
    forall k :: lo <= k < hi ==> DelimiterAt(s, k).None?
  }

  /**
   * How a split of `s[p..]` starts: a piece of text in which the pattern
   * matches nowhere, then either the end of the text, or the match found
   * right after that piece.
   */
  predicate HeadOf(s: string, p: nat, parts: seq<string>)
    requires p <= |s|
  {
    && |parts| > 0
    && p + |parts[0]| <= |s|
    && s[p..p + |parts[0]|] == parts[0]
    && NoDelimiterIn(s, p, p + |parts[0]|)
    && (|parts| == 1 ==> p + |parts[0]| == |s|)
    && (|parts| > 1 ==>
          var k := p + |parts[0]|;
          && k < |s| && |parts| > 2
          && DelimiterAt(s, k) == Some(k + |parts[1]|)
          && s[k..k + |parts[1]|] == parts[1])
  }

  /**
   * `parts` is the split of `s[p..]`, read off the text alone: its head as
   * above, and after a match the split of what comes after the match.
   */
  predicate SplitOf(s: string, p: nat, parts: seq<string>)
    requires p <= |s|
    decreases |parts|
  {
    && HeadOf(s, p, parts)
    && (|parts| > 1 ==> SplitOf(s, p + |parts[0]| + |parts[1]|, parts[2..]))
  }

  /**
   * `text.split(/(\$[^$]+\$|\$\$[^$]+\$\$)/)` from position `q`, with the
   * current piece of text starting at `p`: pieces of text and captured
   * delimited matches alternate, starting and ending with text. The pattern
   * matches nowhere in a piece of text, and each captured piece is the match
   * found at its position, so every leftmost match is captured.
   */
  function SplitFrom(s: string, p: nat, q: nat): (parts: seq<string>)
    requires p <= q <= |s|
    requires NoDelimiterIn(s, p, q)
    ensures |parts| % 2 == 1
    ensures Concat(parts) == s[p..]
    ensures forall i :: 0 <= i < |parts| && i % 2 == 1 ==> DelimitedAt(parts[i], 0, |parts[i]|)
    ensures SplitOf(s, p, parts)
    decreases |s| - q
  {
    if q == |s| then
      SplitEnd(s, p);
      [s[p..]]
    else match DelimiterAt(s, q)
      case Some(e) =>
        var rest := SplitFrom(s, e, e);
        SplitStep(s, p, q, e, rest);
        SplitOfStep(s, p, q, e, rest);
        [s[p..q], s[q..e]] + rest
      case None => SplitFrom(s, p, q + 1)
  }

  /** The last piece of text runs to the end. */
  lemma SplitEnd(s: string, p: nat)
    requires p <= |s| && NoDelimiterIn(s, p, |s|)
    ensures Concat([s[p..]]) == s[p..]
    ensures SplitOf(s, p, [s[p..]])
  {
    assert Concat([s[p..]]) == s[p..] + Concat([]);
    assert s[p..p + |s[p..]|] == s[p..];
  }

  /** Emitting the text before a match and the match keeps alternation, concatenation and delimiting. */
  lemma SplitStep(s: string, p: nat, q: nat, e: nat, rest: seq<string>)
    requires p <= q < e <= |s| && DelimitedAt(s, q, e)
    requires |rest| % 2 == 1 && Concat(rest) == s[e..]
    requires forall i :: 0 <= i < |rest| && i % 2 == 1 ==> DelimitedAt(rest[i], 0, |rest[i]|)
    ensures var parts := [s[p..q], s[q..e]] + rest;
      && |parts| % 2 == 1
      && Concat(parts) == s[p..]
      && (forall i :: 0 <= i < |parts| && i % 2 == 1 ==> DelimitedAt(parts[i], 0, |parts[i]|))
  {
    var parts := [s[p..q], s[q..e]] + rest;
    assert parts[1..] == [s[q..e]] + rest;
    assert ([s[q..e]] + rest)[1..] == rest;
    assert parts[2..] == rest;
    assert s[p..] == s[p..q] + s[q..e] + s[e..];
    assert DelimitedAt(s[q..e], 0, e - q) by {
      var t := s[q..e];
      assert forall j :: 0 <= j < |t| ==> t[j] == s[q + j];
    }
    assert forall i :: 2 <= i < |parts| ==> parts[i] == rest[i - 2];
  }

  /** Emitting the text before the first match and that match continues the split of the rest. */
  lemma SplitOfStep(s: string, p: nat, q: nat, e: nat, rest: seq<string>)
    requires p <= q < e <= |s|
    requires DelimiterAt(s, q) == Some(e) && NoDelimiterIn(s, p, q)
    requires SplitOf(s, e, rest)
    ensures SplitOf(s, p, [s[p..q], s[q..e]] + rest)
  {
    var parts := [s[p..q], s[q..e]] + rest;
    assert parts[0] == s[p..q] && parts[1] == s[q..e] && parts[2..] == rest;
  }

  /** The split of a whole text. */
  function Split(text: string): (parts: seq<string>)
    ensures |parts| % 2 == 1 && Concat(parts) == text
    ensures forall i :: 0 <= i < |parts| && i % 2 == 1 ==> DelimitedAt(parts[i], 0, |parts[i]|)
    ensures SplitOf(text, 0, parts)
  {
    SplitFrom(text, 0, 0)
  }

  // ---------------------------------------------------------------------------
  // Classifying parts and rendering
  // ---------------------------------------------------------------------------

  /** What a part becomes: KaTeX block math, KaTeX inline math, or a plain span. */
  datatype Segment = BlockMath(latex: string) | InlineMath(latex: string) | Plain(text: string)

  predicate StartsAndEndsWith(s: string, d: string) {
    |d| <= |s| && s[..|d|] == d && s[|s| - |d|..] == d
  }

  /** `s.slice(k, -k)`: empty when the two cuts cross. */
  function SliceInner(s: string, k: nat): (r: string)
    ensures |s| >= 2 * k ==> r == s[k..|s| - k]
    ensures |s| < 2 * k ==> r == []
  {
    if |s| >= 2 * k then s[k..|s| - k] else []
  }

  /**
   * The classification `renderMixedContent` applies to each part: the `$$`
   * test comes first, then the `$` test, then `hasMath`.
   */
  function Classify(part: string): (seg: Segment)
    ensures StartsAndEndsWith(part, "$$") ==> seg == BlockMath(ConvertToLatex(SliceInner(part, 2)))
    ensures !StartsAndEndsWith(part, "$$") && StartsAndEndsWith(part, "$") ==>
      seg == InlineMath(ConvertToLatex(SliceInner(part, 1)))
    ensures !StartsAndEndsWith(part, "$") ==>
      && (seg.InlineMath? <==> HasMath(part))
      && (seg.Plain? <==> !HasMath(part))
      && (seg.InlineMath? ==> seg.latex == ConvertToLatex(part))
      && (seg.Plain? ==> seg.text == part)
  {
    assert StartsAndEndsWith(part, "$$") ==> StartsAndEndsWith(part, "$");
    if StartsAndEndsWith(part, "$$") then BlockMath(ConvertToLatex(SliceInner(part, 2)))
    else if StartsAndEndsWith(part, "$") then InlineMath(ConvertToLatex(SliceInner(part, 1)))
    else if HasMath(part) then InlineMath(ConvertToLatex(part))
    else Plain(part)
  }

  /** `parts.map(...)`: the classification of each part, in order. */
  function ClassifyAll(parts: seq<string>): (segs: seq<Segment>)
    ensures |segs| == |parts|
    ensures forall i :: 0 <= i < |parts| ==> segs[i] == Classify(parts[i])
  {
    if parts == [] then [] else [Classify(parts[0])] + ClassifyAll(parts[1..])
  }

  /** `renderMixedContent`: split, then classify each part. */
  function RenderMixedContent(text: string): (segs: seq<Segment>)
    ensures |segs| == |Split(text)| && |segs| % 2 == 1
    ensures forall i :: 0 <= i < |segs| ==> segs[i] == Classify(Split(text)[i])
  {
    ClassifyAll(Split(text))
  }

  /**
   * The component: nothing for an empty text; with `block`, the whole text as
   * one block-math segment without splitting; otherwise the mixed content.
   */
  function Render(children: string, block: bool): (out: Option<seq<Segment>>)
    ensures children == [] <==> out.None?
    ensures children != [] && block ==> out == Some([BlockMath(ConvertToLatex(children))])
    ensures children != [] && !block ==> out == Some(RenderMixedContent(children))
  {
    if children == [] then None
    else if block then Some([BlockMath(ConvertToLatex(children))])
    else Some(RenderMixedContent(children))
  }

  // ---------------------------------------------------------------------------
  // Properties of the renderer
  // ---------------------------------------------------------------------------

  /** A delimited part is typeset as math of exactly the text between its delimiters. */
  lemma DelimitedPartIsMath(t: string)
    requires DelimitedAt(t, 0, |t|)
    ensures InlineDelimitedAt(t, 0, |t|) ==> Classify(t) == InlineMath(ConvertToLatex(t[1..|t| - 1]))
    ensures BlockDelimitedAt(t, 0, |t|) ==> Classify(t) == BlockMath(ConvertToLatex(t[2..|t| - 2]))
  {
    if InlineDelimitedAt(t, 0, |t|) {
      InlineClassified(t);
    } else {
      assert StartsAndEndsWith(t, "$$") by {
        assert t[..2] == [t[0], t[1]];
        assert t[|t| - 2..] == [t[|t| - 2], t[|t| - 1]];
      }
      assert SliceInner(t, 2) == t[2..|t| - 2];
    }
  }

  /** A part with one `$` at each end and no second `$` at the front is inline math of its inside. */
  lemma InlineClassified(t: string)
    requires |t| >= 3 && t[0] == '$' && t[1] != '$' && t[|t| - 1] == '$'
    ensures Classify(t) == InlineMath(ConvertToLatex(t[1..|t| - 1]))
  {
    assert !StartsAndEndsWith(t, "$$") by { assert t[..2][1] == t[1]; }
    assert StartsAndEndsWith(t, "$") by { assert t[..1] == [t[0]]; assert t[|t| - 1..] == [t[|t| - 1]]; }
    assert SliceInner(t, 1) == t[1..|t| - 1];
  }

  /**
   * Mixed content alternates text and math: every second segment comes from a
   * delimited part and is math of the text between its delimiters.
   */
  lemma DelimitedSegmentsAreMath(text: string, i: nat)
    requires i < |RenderMixedContent(text)| && i % 2 == 1
    ensures var part := Split(text)[i];
      || (InlineDelimitedAt(part, 0, |part|) &&
          RenderMixedContent(text)[i] == InlineMath(ConvertToLatex(part[1..|part| - 1])))
      || (BlockDelimitedAt(part, 0, |part|) &&
          RenderMixedContent(text)[i] == BlockMath(ConvertToLatex(part[2..|part| - 2])))
  {
    DelimitedPartIsMath(Split(text)[i]);
  }

  /** `a` and `b` are both splits of `s[p..]`. */
  predicate BothSplit(s: string, p: nat, a: seq<string>, b: seq<string>)
    requires p <= |s|
  {
    SplitOf(s, p, a) && SplitOf(s, p, b)
  }

  /** The split a text determines is unique: any parts that are a split of `s[p..]` are the same parts. */
  lemma {:induction false} SplitOfUnique(s: string, p: nat, a: seq<string>, b: seq<string>)
    requires p <= |s| && BothSplit(s, p, a, b)
    ensures a == b
    decreases |a|, 1
  {
    assert HeadOf(s, p, a) && HeadOf(s, p, b);
    HeadsAgree(s, p, a, b);
    if |a| > 1 {
      RestUnique(s, p, a, b);
    }
    PartsEqual(a, b);
  }

  /** Two splits whose first piece and match have the same lengths agree after the match. */
  lemma {:induction false} RestUnique(s: string, p: nat, a: seq<string>, b: seq<string>)
    requires p <= |s| && BothSplit(s, p, a, b) && |a| > 1 && |b| > 1
    requires |a[0]| == |b[0]| && |a[1]| == |b[1]|
    ensures a[2..] == b[2..]
    decreases |a|, 0
  {
    SplitOfUnique(s, p + |a[0]| + |a[1]|, a[2..], b[2..]);
  }

  /** Two splits of one text have the same first piece, and the same captured match after it. */
  lemma HeadsAgree(s: string, p: nat, a: seq<string>, b: seq<string>)
    requires p <= |s| && HeadOf(s, p, a) && HeadOf(s, p, b)
    ensures |a| > 0 && |b| > 0 && a[0] == b[0] && (|a| == 1 <==> |b| == 1)
    ensures |a| > 1 ==> a[1] == b[1]
  {
    FirstPieceUnique(s, p, a, b);
    FirstPieceUnique(s, p, b, a);
    var k := p + |a[0]|;
    assert a[0] == s[p..k] == b[0];
    if |a| > 1 {
      CaptureUnique(s, k, a[1], b[1]);
    }
  }

  /** The delimited match at `k` is one piece: two pieces that both end where it ends are equal. */
  lemma CaptureUnique(s: string, k: nat, x: string, y: string)
    requires k < |s| && DelimiterAt(s, k) == Some(k + |x|) && DelimiterAt(s, k) == Some(k + |y|)
    requires s[k..k + |x|] == x && s[k..k + |y|] == y
    ensures x == y
  {
  }

  /** Part lists that agree on the first piece, on the captured match and on the rest are equal. */
  lemma PartsEqual(a: seq<string>, b: seq<string>)
    requires |a| > 0 && |b| > 0 && a[0] == b[0] && (|a| == 1 <==> |b| == 1)
    requires |a| > 1 ==> a[1] == b[1] && a[2..] == b[2..]
    ensures a == b
  {
    if |a| > 1 {
      assert a == [a[0], a[1]] + a[2..] && b == [b[0], b[1]] + b[2..];
    } else {
      assert a == [a[0]] && b == [b[0]];
    }
  }

  /** Two splits of one text start with pieces of the same length and agree on whether the text ends there. */
  lemma FirstPieceUnique(s: string, p: nat, a: seq<string>, b: seq<string>)
    requires p <= |s| && HeadOf(s, p, a) && HeadOf(s, p, b)
    ensures |a[0]| <= |b[0]|
    ensures |a[0]| == |b[0]| ==> (|a| == 1 <==> |b| == 1)
  {
    var ka, kb := p + |a[0]|, p + |b[0]|;
    assert NoDelimiterIn(s, p, ka);
    assert ka <= kb;
  }

  /** `Split` is the one split of its text. */
  lemma SplitDetermined(text: string, parts: seq<string>)
    requires SplitOf(text, 0, parts)
    ensures parts == Split(text)
  {
    SplitOfUnique(text, 0, parts, Split(text));
  }

  /** The leftmost match of the pattern after `p` ends the first piece and is captured whole. */
  lemma FirstMatchCaptured(s: string, p: nat, parts: seq<string>, q: nat, e: nat)
    requires p <= q < |s| && HeadOf(s, p, parts)
    requires NoDelimiterIn(s, p, q) && DelimiterAt(s, q) == Some(e)
    ensures |parts| >= 3 && parts[0] == s[p..q] && parts[1] == s[q..e]
  {
    var k := p + |parts[0]|;
    assert NoDelimiterIn(s, p, k);
    assert k >= q && |parts| > 1;
    assert DelimiterAt(s, k).Some?;
    assert k <= q;
  }

  /**
   * In any text, the first `$...$` or `$$...$$` (the leftmost match) is the
   * second part, and it is typeset as math of the text between its delimiters.
   */
  lemma FirstFormulaRendered(text: string, q: nat, e: nat)
    requires q < |text| && NoDelimiterIn(text, 0, q) && DelimiterAt(text, q) == Some(e)
    ensures |Split(text)| >= 3 && Split(text)[0] == text[..q] && Split(text)[1] == text[q..e]
    ensures InlineDelimitedAt(text, q, e) ==>
      RenderMixedContent(text)[1] == InlineMath(ConvertToLatex(text[q + 1..e - 1]))
    ensures BlockDelimitedAt(text, q, e) ==>
      RenderMixedContent(text)[1] == BlockMath(ConvertToLatex(text[q + 2..e - 2]))
  {
    FirstMatchCaptured(text, 0, Split(text), q, e);
    CapturedMatchIsMath(text, q, e);
  }

  /** The text a match spans is typeset as math of what lies between its delimiters. */
  lemma CapturedMatchIsMath(s: string, q: nat, e: nat)
    requires q < e <= |s| && DelimitedAt(s, q, e)
    ensures InlineDelimitedAt(s, q, e) ==> Classify(s[q..e]) == InlineMath(ConvertToLatex(s[q + 1..e - 1]))
    ensures BlockDelimitedAt(s, q, e) ==> Classify(s[q..e]) == BlockMath(ConvertToLatex(s[q + 2..e - 2]))
  {
    var t := s[q..e];
    assert forall j :: 0 <= j < |t| ==> t[j] == s[q + j];
    assert InlineDelimitedAt(s, q, e) ==> InlineDelimitedAt(t, 0, |t|);
    assert BlockDelimitedAt(s, q, e) ==> BlockDelimitedAt(t, 0, |t|);
    assert t[1..|t| - 1] == s[q + 1..e - 1];
    assert |t| >= 4 ==> t[2..|t| - 2] == s[q + 2..e - 2];
    DelimitedPartIsMath(t);
  }

  /** A text that is one `$...$` formula splits into that formula between two empty texts. */
  lemma SingleFormulaSplit(x: string)
    requires |x| > 0 && '$' !in x
    ensures Split("$" + x + "$") == ["", "$" + x + "$", ""]
  {
    var s := "$" + x + "$";
    assert InlineDelimitedAt(s, 0, |s|) by {
      forall j | 0 < j < |s| - 1 ensures s[j] != '$' {
        assert s[j] == x[j - 1];
      }
    }
    assert DelimiterAt(s, 0) == Some(|s|);
    assert SplitFrom(s, |s|, |s|) == [""];
    assert s[0..|s|] == s;
  }

  /** Such a text renders as inline math of the formula between two empty spans. */
  lemma SingleFormulaRender(x: string)
    requires |x| > 0 && '$' !in x
    ensures RenderMixedContent("$" + x + "$") == [Plain(""), InlineMath(ConvertToLatex(x)), Plain("")]
  {
    var s := "$" + x + "$";
    SingleFormulaSplit(x);
    var parts := Split(s);
    var segs := RenderMixedContent(s);
    FormulaClassified(x, s);
    EmptyPartPlain(parts[0]);
    ThreeElements(segs, Plain(""), InlineMath(ConvertToLatex(x)), Plain(""));
  }

  /** A sequence of three given elements is their display. */
  lemma ThreeElements<T>(s: seq<T>, a: T, b: T, c: T)
    requires |s| == 3 && s[0] == a && s[1] == b && s[2] == c
    ensures s == [a, b, c]
  {
  }

  /** An empty part becomes an empty span. */
  lemma EmptyPartPlain(empty: string)
    requires empty == []
    ensures Classify(empty) == Plain(empty)
  {
    assert !HasMath(empty);
  }

  lemma FormulaClassified(x: string, s: string)
    requires |x| > 0 && '$' !in x && s == "$" + x + "$"
    ensures Classify(s) == InlineMath(ConvertToLatex(x))
  {
    assert s[1..|s| - 1] == x && s[1] == x[0];
    InlineClassified(s);
  }

  predicate AllLetters(s: string) {
    forall i :: 0 <= i < |s| ==> IsLetter(s[i])
  }

  /** Rules that leave the text unchanged leave it unchanged in any sequence. */
  lemma {:induction false} ApplyRulesIdle(rules: seq<Rule>, s: string)
    requires forall i :: 0 <= i < |rules| ==> ReplaceAll(rules[i], s) == s
    ensures ApplyRules(rules, s) == s
    decreases |rules|
  {
    if rules != [] {
      assert forall i :: 0 <= i < |rules| - 1 ==> rules[1..][i] == rules[i + 1];
      ApplyRulesIdle(rules[1..], s);
    }
  }

  /** A word of letters holds nothing the superscript, subscript, fraction or root rules match. */
  lemma ShorthandIdleOnLetters(s: string)
    requires AllLetters(s)
    ensures ApplyRules(ShorthandRules, s) == s
  {
    forall r | r in ShorthandRules ensures ReplaceAll(r, s) == s {
      forall q | 0 <= q < |s| ensures MatchAt(r, s, q).None? {
        if q + 5 <= |s| {
          assert s[q..q + 5][4] == s[q + 4];
        }
        if r == Fraction && IsWordChar(s[q]) {
          var k := RunEnd(s, q, WordChars);
          assert k == |s|;
        }
      }
      NoMatchUnchanged(r, s, 0);
    }
    ApplyRulesIdle(ShorthandRules, s);
  }

  /** Within a word of letters, a whole-word rule for another word matches nowhere. */
  lemma OtherWordNoMatch(m: string, n: string, q: nat)
    requires AllLetters(n) && m != n && q < |n|
    ensures MatchAt(WholeWord(m), n, q).None?
  {
  }

  /** Within a backslash command, a whole-word rule for another word of letters matches nowhere. */
  lemma OtherWordNoMatchInCommand(m: string, n: string, q: nat)
    requires AllLetters(n) && AllLetters(m) && m != n && q < |n| + 1
    ensures MatchAt(WholeWord(m), "\\" + n, q).None?
  {
    var t := "\\" + n;
    assert t[1..] == n;
    if q == 0 {
      assert |m| > 0 && StartsWithAt(t, 0, m) ==> t[0] == m[0] by {
        if |m| > 0 && StartsWithAt(t, 0, m) { assert t[0..|m|][0] == t[0]; }
      }
    } else if q == 1 {
      assert 1 + |m| < |t| ==> IsWordChar(t[1 + |m|]) by {
        if 1 + |m| < |t| { assert t[1 + |m|] == n[|m|]; }
      }
    } else {
      assert IsWordChar(t[q - 1]) by { assert t[q - 1] == n[q - 2]; }
    }
  }

  predicate Distinct(names: seq<string>) {
    forall i, j :: 0 <= i < j < |names| ==> names[i] != names[j]
  }

  /** A whole-word rule rewrites a text that is exactly its word into the command. */
  lemma WordBecomesCommand(n: string)
    requires AllLetters(n) && |n| > 0
    ensures ReplaceAll(WholeWord(n), n) == "\\" + n
  {
    assert StartsWithAt(n, 0, n) by { assert n[0..|n|] == n; }
    assert MatchAt(WholeWord(n), n, 0) == Some(Match(|n|, "\\" + n));
    assert ReplaceFrom(WholeWord(n), n, |n|) == [];
  }

  /** The Greek stage turns a text that is one of its names into that name's command. */
  lemma {:induction false} GreekStageOnName(names: seq<string>, n: string)
    requires n in names && Distinct(names) && AllLetters(n) && |n| > 0
    requires forall i :: 0 <= i < |names| ==> AllLetters(names[i])
    ensures GreekLetters(names, n) == "\\" + n
    decreases |names|
  {
    assert forall i :: 0 <= i < |names| - 1 ==> names[1..][i] == names[i + 1];
    if names[0] == n {
      WordBecomesCommand(n);
      GreekStageIdleOnCommand(names[1..], n);
    } else {
      forall q | 0 <= q < |n| ensures MatchAt(WholeWord(names[0]), n, q).None? {
        OtherWordNoMatch(names[0], n, q);
      }
      NoMatchUnchanged(WholeWord(names[0]), n, 0);
      GreekStageOnName(names[1..], n);
    }
  }

  lemma {:induction false} GreekStageIdleOnCommand(names: seq<string>, n: string)
    requires n !in names && AllLetters(n)
    requires forall i :: 0 <= i < |names| ==> AllLetters(names[i])
    ensures GreekLetters(names, "\\" + n) == "\\" + n
    decreases |names|
  {
    if names != [] {
      var t := "\\" + n;
      forall q | 0 <= q < |t| ensures MatchAt(WholeWord(names[0]), t, q).None? {
        OtherWordNoMatchInCommand(names[0], n, q);
      }
      NoMatchUnchanged(WholeWord(names[0]), t, 0);
      assert forall i :: 0 <= i < |names| - 1 ==> names[1..][i] == names[i + 1];
      GreekStageIdleOnCommand(names[1..], n);
    }
  }

  /** The unit rules leave a command of letters alone. */
  lemma UnitsIdleOnCommand(n: string)
    requires AllLetters(n)
    ensures ApplyRules(UnitRules, "\\" + n) == "\\" + n
  {
    var t := "\\" + n;
    assert forall i :: 0 <= i < |t| ==> t[i] == '\\' || IsLetter(t[i]);
    LiteralAbsent("m/s^2", "m/s^2", t, '/');
    LiteralAbsent("m/s2", "m/s^2", t, '/');
    LiteralAbsent("ms^-2", "ms^{-2}", t, '^');
    ApplyRulesIdle(UnitRules, t);
  }

  /** The symbol rules leave a command of letters alone. */
  lemma SymbolsIdleOnCommand(n: string)
    requires AllLetters(n)
    ensures Symbols("\\" + n) == "\\" + n
  {
    var t := "\\" + n;
    assert forall i :: 0 <= i < |t| ==> t[i] == '\\' || IsLetter(t[i]);
    NoMatchUnchanged(DigitsThen('%', "\\%"), t, 0);
    NoMatchUnchanged(DigitsThen('\U{B0}', "^\\circ"), t, 0);
    LiteralAbsent("*", "\\times", t, '*');
    LiteralAbsent("<=", "\\leq", t, '<');
    LiteralAbsent(">=", "\\geq", t, '>');
    LiteralAbsent("!=", "\\neq", t, '!');
  }

  /** The Greek names are distinct words of letters. */
  lemma GreekNamesAreWords()
    ensures Distinct(GreekNames)
    ensures forall i :: 0 <= i < |GreekNames| ==> AllLetters(GreekNames[i])
  {
  }

  /** Each Greek name on its own becomes the backslash command of the same name (`beta` is not also hit by `eta`). */
  lemma GreekNameBecomesCommand(n: string)
    requires n in GreekNames
    ensures ConvertToLatex(n) == "\\" + n
  {
    assert Distinct(GreekNames);
    assert forall i :: 0 <= i < |GreekNames| ==> AllLetters(GreekNames[i]);
    ShorthandIdleOnLetters(n);
    GreekStageOnName(GreekNames, n);
    UnitsIdleOnCommand(n);
    SymbolsIdleOnCommand(n);
  }

  /** A whole-word rule for another word leaves a word of letters alone. */
  lemma OtherWordIdle(m: string, n: string)
    requires AllLetters(n) && m != n
    ensures ReplaceAll(WholeWord(m), n) == n
  {
    forall q | 0 <= q < |n| ensures MatchAt(WholeWord(m), n, q).None? {
      OtherWordNoMatch(m, n, q);
    }
    NoMatchUnchanged(WholeWord(m), n, 0);
  }

  /** A whole-word rule for another word leaves a backslash command alone. */
  lemma OtherWordIdleOnCommand(m: string, n: string)
    requires AllLetters(n) && AllLetters(m) && m != n
    ensures ReplaceAll(WholeWord(m), "\\" + n) == "\\" + n
  {
    forall q | 0 <= q < |n| + 1 ensures MatchAt(WholeWord(m), "\\" + n, q).None? {
      OtherWordNoMatchInCommand(m, n, q);
    }
    NoMatchUnchanged(WholeWord(m), "\\" + n, 0);
  }

  /**
   * A whole-word rule rewrites its word where it stands as a whole word in a
   * text: with a non-word character (or the text's edge) on each side, the
   * word becomes its command and the text around it is rewritten on its own.
   */
  lemma WholeWordInText(w: string, x: string, y: string)
    requires AllLetters(w) && |w| > 0 && EndsOpen(x) && StartsOpen(y)
    ensures ReplaceAll(WholeWord(w), x + w + y) ==
      ReplaceAll(WholeWord(w), x) + ("\\" + w) + ReplaceAll(WholeWord(w), y)
  {
    var r := WholeWord(w);
    assert x + w + y == x + (w + y);
    WholeWordJunction(w, x, w + y);
    WholeWordJunction(w, w, y);
    WordBecomesCommand(w);
    Regroup(ReplaceAll(r, x + (w + y)), ReplaceAll(r, w + y), ReplaceAll(r, x), "\\" + w, ReplaceAll(r, y));
  }

  /** A whole-word rule for another word rewrites the text around a word and leaves the word. */
  lemma OtherWordInText(m: string, n: string, x: string, y: string)
    requires AllLetters(m) && AllLetters(n) && m != n && EndsOpen(x) && StartsOpen(y)
    ensures ReplaceAll(WholeWord(m), x + n + y) == ReplaceAll(WholeWord(m), x) + n + ReplaceAll(WholeWord(m), y)
    ensures EndsOpen(ReplaceAll(WholeWord(m), x)) && StartsOpen(ReplaceAll(WholeWord(m), y))
  {
    var r := WholeWord(m);
    assert x + n + y == x + (n + y);
    WholeWordJunction(m, x, n + y);
    WholeWordJunction(m, n, y);
    OtherWordIdle(m, n);
    Regroup(ReplaceAll(r, x + (n + y)), ReplaceAll(r, n + y), ReplaceAll(r, x), n, ReplaceAll(r, y));
    WholeWordKeepsEndsOpen(m, x);
    WholeWordKeepsStartsOpen(m, y);
  }

  /** A whole-word rule for another word rewrites the text around a command and leaves the command. */
  lemma OtherWordAroundCommand(m: string, n: string, x: string, y: string)
    requires AllLetters(m) && AllLetters(n) && m != n && StartsOpen(y)
    ensures ReplaceAll(WholeWord(m), x + ("\\" + n) + y) ==
      ReplaceAll(WholeWord(m), x) + ("\\" + n) + ReplaceAll(WholeWord(m), y)
    ensures StartsOpen(ReplaceAll(WholeWord(m), y))
  {
    var c := "\\" + n;
    assert x + c + y == x + (c + y);
    assert (c + y)[0] == '\\';
    WholeWordJunction(m, x, c + y);
    WholeWordJunction(m, c, y);
    OtherWordIdleOnCommand(m, n);
    var r := WholeWord(m);
    Regroup(ReplaceAll(r, x + (c + y)), ReplaceAll(r, c + y), ReplaceAll(r, x), c, ReplaceAll(r, y));
    WholeWordKeepsStartsOpen(m, y);
  }

  /** Later Greek rules leave a command standing in a text and rewrite the text around it. */
  lemma {:induction false} GreekStageAroundCommand(names: seq<string>, x: string, n: string, y: string)
    requires n !in names && AllLetters(n) && StartsOpen(y)
    requires forall i :: 0 <= i < |names| ==> AllLetters(names[i])
    ensures GreekLetters(names, x + ("\\" + n) + y) == GreekLetters(names, x) + ("\\" + n) + GreekLetters(names, y)
    decreases |names|
  {
    if names != [] {
      var r := WholeWord(names[0]);
      OtherWordAroundCommand(names[0], n, x, y);
      assert forall i :: 0 <= i < |names| - 1 ==> names[1..][i] == names[i + 1];
      GreekStageAroundCommand(names[1..], ReplaceAll(r, x), n, ReplaceAll(r, y));
    }
  }

  /**
   * The Greek stage turns one of its names, standing as a whole word in a
   * text, into that name's command, and rewrites the text on either side on
   * its own.
   */
  lemma {:induction false} GreekStageInText(names: seq<string>, x: string, n: string, y: string)
    requires n in names && Distinct(names) && |n| > 0 && EndsOpen(x) && StartsOpen(y)
    requires forall i :: 0 <= i < |names| ==> AllLetters(names[i])
    ensures GreekLetters(names, x + n + y) == GreekLetters(names, x) + ("\\" + n) + GreekLetters(names, y)
    decreases |names|
  {
    var r := WholeWord(names[0]);
    assert forall i :: 0 <= i < |names| - 1 ==> names[1..][i] == names[i + 1];
    assert AllLetters(n);
    if names[0] == n {
      WholeWordInText(n, x, y);
      WholeWordKeepsStartsOpen(n, y);
      GreekStageAroundCommand(names[1..], ReplaceAll(r, x), n, ReplaceAll(r, y));
    } else {
      OtherWordInText(names[0], n, x, y);
      GreekStageInText(names[1..], ReplaceAll(r, x), n, ReplaceAll(r, y));
    }
  }

  /** Each Greek name standing as a whole word in a text becomes its command: `2 pi r` gives `2 \pi r`. */
  lemma GreekNameInText(x: string, n: string, y: string)
    requires n in GreekNames && EndsOpen(x) && StartsOpen(y)
    ensures GreekLetters(GreekNames, x + n + y) ==
      GreekLetters(GreekNames, x) + ("\\" + n) + GreekLetters(GreekNames, y)
  {
    GreekNamesAreWords();
    GreekStageInText(GreekNames, x, n, y);
  }

  /** Replacing `m/s^2` by itself never changes a text. */
  lemma UnitSelfRuleIdle(s: string)
    ensures ReplaceAll(Literal("m/s^2", "m/s^2"), s) == s
  {
    SelfReplacementUnchanged("m/s^2", s, 0);
  }

  // ---------------------------------------------------------------------------
  // The first two unit rules never fire
  // ---------------------------------------------------------------------------

  /** Applying two rule lists in turn is applying their concatenation. */
  lemma {:induction false} ApplyRulesAppend(a: seq<Rule>, b: seq<Rule>, s: string)
    ensures ApplyRules(a + b, s) == ApplyRules(b, ApplyRules(a, s))
    decreases |a|
  {
    if a != [] {
      assert (a + b)[0] == a[0] && (a + b)[1..] == a[1..] + b;
      ApplyRulesAppend(a[1..], b, ReplaceAll(a[0], s));
    } else {
      assert a + b == b;
    }
  }

  /** After the shorthand rules no `/` is left between two word characters. */
  lemma ShorthandLeavesNoWordSlashWord(text: string)
    ensures NoWordSlashWord(ApplyRules(ShorthandRules, text))
  {
    var marks := ShorthandRules[..4];
    assert ShorthandRules == marks + [Fraction, SquareRoot];
    ApplyRulesAppend(marks, [Fraction, SquareRoot], text);
    var f := ReplaceAll(Fraction, ApplyRules(marks, text));
    FractionLeavesNoWordSlashWord(ApplyRules(marks, text), 0);
    forall j | 0 <= j < |f| ensures TameAt(SquareRoot, f, j) {
      SquareRootTame(f, j);
    }
    TameScanKeepsNoWordSlashWord(SquareRoot, f, 0);
    assert [Fraction, SquareRoot][1..] == [SquareRoot];
  }

  /** The Greek stage keeps a text free of word-slash-word. */
  lemma {:induction false} GreekKeepsNoWordSlashWord(names: seq<string>, s: string)
    requires forall i :: 0 <= i < |names| ==> AllLetters(names[i])
    requires NoWordSlashWord(s)
    ensures NoWordSlashWord(GreekLetters(names, s))
    decreases |names|
  {
    if names != [] {
      var r := WholeWord(names[0]);
      forall j | 0 <= j < |s| ensures TameAt(r, s, j) {
        WholeWordTame(names[0], s, j);
      }
      TameScanKeepsNoWordSlashWord(r, s, 0);
      assert forall i :: 0 <= i < |names| - 1 ==> names[1..][i] == names[i + 1];
      GreekKeepsNoWordSlashWord(names[1..], ReplaceAll(r, s));
    }
  }

  /**
   * What reaches the unit rules holds neither `m/s^2` nor `m/s2`: the fraction
   * rule has already rewritten every word, `/`, word. So the first two unit
   * rules never fire, and only `ms^-2` can still change the text.
   */
  lemma UnitRulesNeverFire(text: string)
    ensures var t := GreekLetters(GreekNames, ApplyRules(ShorthandRules, text));
      && !Contains(t, "m/s^2") && !Contains(t, "m/s2")
      && ApplyRules(UnitRules, t) == ReplaceAll(Literal("ms^-2", "ms^{-2}"), t)
  {
    var shorthand := ApplyRules(ShorthandRules, text);
    ShorthandLeavesNoWordSlashWord(text);
    GreekNamesAreWords();
    GreekKeepsNoWordSlashWord(GreekNames, shorthand);
    UnitRulesOnClean(GreekLetters(GreekNames, shorthand));
  }

  /** On a text free of word-slash-word only the `ms^-2` unit rule can act. */
  lemma UnitRulesOnClean(t: string)
    requires NoWordSlashWord(t)
    ensures !Contains(t, "m/s^2") && !Contains(t, "m/s2")
    ensures ApplyRules(UnitRules, t) == ReplaceAll(Literal("ms^-2", "ms^{-2}"), t)
  {
    NoWordSlashWordExcludes(t, "m/s^2");
    NoWordSlashWordExcludes(t, "m/s2");
    LiteralNotContained("m/s^2", "m/s^2", t);
    LiteralNotContained("m/s2", "m/s^2", t);
    var last := Literal("ms^-2", "ms^{-2}");
    assert UnitRules[0] == Literal("m/s^2", "m/s^2") && UnitRules[1..] == [Literal("m/s2", "m/s^2"), last];
    assert [Literal("m/s2", "m/s^2"), last][1..] == [last];
    assert ApplyRules([last], t) == ReplaceAll(last, t) by {
      assert [last][1..] == [];
    }
  }
}
