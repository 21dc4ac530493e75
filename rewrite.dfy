/**
 * Global regular-expression replacement, `text.replace(/pattern/g, replacement)`,
 * for the kinds of pattern the math renderer's rewrite rules use. A pattern is
 * given by an anchored matcher: whether it matches at a position, where the
 * match ends and what replaces it. The scan tries positions left to right,
 * copies unmatched characters and resumes after each match, which is how the
 * JavaScript engine finds the leftmost non-overlapping matches. Every pattern
 * here consumes at least one character, so no empty match arises.
 */
module Rewrite {
  import opened Options
  import opened Decimal

  predicate IsLetter(c: char) {
    'a' <= c <= 'z' || 'A' <= c <= 'Z'
  }

  /** The class `\w`. */
  predicate IsWordChar(c: char) {
    IsLetter(c) || IsDigit(c) || c == '_'
  }

  /** The character classes the patterns repeat: `\d`, `[a-zA-Z]`, `\w` and `[^c]`. */
  datatype CharClass = Digits | Letters | WordChars | AnyBut(excluded: char)

  predicate InClass(c: char, k: CharClass) {
    match k
    case Digits => IsDigit(c)
    case Letters => IsLetter(c)
    case WordChars => IsWordChar(c)
    case AnyBut(x) => c != x
  }

  /** Where a greedy `k+` run starting at `i` stops: the first position not in the class. */
  function RunEnd(s: string, i: nat, k: CharClass): (e: nat)
    requires i <= |s|
    ensures i <= e <= |s|
    ensures forall j :: i <= j < e ==> InClass(s[j], k)
    ensures e == |s| || !InClass(s[e], k)
    decreases |s| - i
  {
    if i == |s| || !InClass(s[i], k) then i else RunEnd(s, i + 1, k)
  }

  predicate StartsWithAt(s: string, q: nat, p: string) {
    q + |p| <= |s| && s[q..q + |p|] == p
  }

  /** Whether `p` occurs anywhere in `s`. */
  predicate Contains(s: string, p: string) {
    exists q: nat | q <= |s| :: StartsWithAt(s, q, p)
  }

  /** The patterns of the rewrite rules, each with its replacement. */
  datatype Rule =
    /** `/M(k+)/g` to `'M{$1}'`, for a mark `M` such as `^` or `_`. */
    | Marked(mark: char, cls: CharClass)
    /** `/(\w+)\/(\w+)/g` to `'\frac{$1}{$2}'`. */
    | Fraction
    /** `/sqrt\(([^)]+)\)/g` to `'\sqrt{$1}'`. */
    | SquareRoot
    /** `/\bW\b/g` to `'\W'`, for a word `W` of word characters. */
    | WholeWord(word: string)
    /** `/(\d+)X/g` to `'$1' + tail`, for a character `X`. */
    | DigitsThen(suffix: char, tail: string)
    /** A fixed string replaced by a fixed string. */
    | Literal(pattern: string, replacement: string)

  datatype Match = Match(end: nat, replacement: string)

  /** `\b` before a word that starts at `q`. */
  predicate BoundaryBefore(s: string, q: nat)
    requires q <= |s|
  {
    q == 0 || !IsWordChar(s[q - 1])
  }

  /** `\b` after a word that ends at `e`. */
  predicate BoundaryAfter(s: string, e: nat)
    requires e <= |s|
  {
    e == |s| || !IsWordChar(s[e])
  }

  /** The match of rule `r` anchored at position `q`, if there is one. */
  function MatchAt(r: Rule, s: string, q: nat): (m: Option<Match>)
    requires q < |s|
    ensures m.Some? ==> q < m.value.end <= |s|
    ensures r.Literal? ==>
      (m.Some? <==> |r.pattern| > 0 && StartsWithAt(s, q, r.pattern)) &&
      (m.Some? ==> m.value == Match(q + |r.pattern|, r.replacement))
    ensures r.WholeWord? ==>
      (m.Some? <==> |r.word| > 0 && BoundaryBefore(s, q) && StartsWithAt(s, q, r.word)
                    && BoundaryAfter(s, q + |r.word|)) &&
      (m.Some? ==> m.value == Match(q + |r.word|, "\\" + r.word))
  {
    match r
    case Marked(mark, cls) =>
      if s[q] == mark && q + 1 < |s| && InClass(s[q + 1], cls) then
        var e := RunEnd(s, q + 1, cls);
        Some(Match(e, [mark] + "{" + s[q + 1..e] + "}"))
      else None
    case Fraction =>
      if IsWordChar(s[q]) then
        var k := RunEnd(s, q, WordChars);
        if k + 1 < |s| && s[k] == '/' && IsWordChar(s[k + 1]) then
          var e := RunEnd(s, k + 1, WordChars);
          Some(Match(e, "\\frac{" + s[q..k] + "}{" + s[k + 1..e] + "}"))
        else None
      else None
    case SquareRoot =>
      if StartsWithAt(s, q, "sqrt(") && q + 5 < |s| && s[q + 5] != ')' then
        var k := RunEnd(s, q + 5, AnyBut(')'));
        if k < |s| then Some(Match(k + 1, "\\sqrt{" + s[q + 5..k] + "}")) else None
      else None
    case WholeWord(w) =>
      if |w| > 0 && BoundaryBefore(s, q) && StartsWithAt(s, q, w) && BoundaryAfter(s, q + |w|) then
        Some(Match(q + |w|, "\\" + w))
      else None
    case DigitsThen(suffix, tail) =>
      if IsDigit(s[q]) then
        var k := RunEnd(s, q, Digits);
        if k < |s| && s[k] == suffix then Some(Match(k + 1, s[q..k] + tail)) else None
      else None
    case Literal(p, rep) =>
      if |p| > 0 && StartsWithAt(s, q, p) then Some(Match(q + |p|, rep)) else None
  }

  /** The output of the scan from position `q` on. */
  function ReplaceFrom(r: Rule, s: string, q: nat): string
    requires q <= |s|
    decreases |s| - q
  {
    if q == |s| then []
    else match MatchAt(r, s, q)
      case Some(m) => m.replacement + ReplaceFrom(r, s, m.end)
      case None => [s[q]] + ReplaceFrom(r, s, q + 1)
  }

  /** `s.replace(/pattern/g, replacement)`. */
  function ReplaceAll(r: Rule, s: string): string {
    ReplaceFrom(r, s, 0)
  }

  /** One step of the scan where the rule matches: the replacement, then the scan after the match. */
  lemma ScanMatches(r: Rule, s: string, q: nat)
    requires q < |s| && MatchAt(r, s, q).Some?
    ensures ReplaceFrom(r, s, q) == MatchAt(r, s, q).value.replacement + ReplaceFrom(r, s, MatchAt(r, s, q).value.end)
  {
  }

  /** One step of the scan where the rule does not match: the character, then the scan from the next one. */
  lemma ScanCopies(r: Rule, s: string, q: nat)
    requires q < |s| && MatchAt(r, s, q).None?
    ensures ReplaceFrom(r, s, q) == [s[q]] + ReplaceFrom(r, s, q + 1)
  {
  }

  /** The rest of a text from `i` is its piece up to `j` and then the rest from `j`. */
  lemma SliceJoin<T>(s: seq<T>, i: nat, j: nat)
    requires i <= j <= |s|
    ensures s[i..] == s[i..j] + s[j..]
  {
  }

  /** The rest of a text from `i` is its character at `i` and then the rest from `i + 1`. */
  lemma HeadJoin<T>(s: seq<T>, i: nat)
    requires i < |s|
    ensures s[i..] == [s[i]] + s[i + 1..]
  {
  }

  /** Where the rule matches nowhere, the text comes back unchanged. */
  lemma {:induction false} NoMatchUnchanged(r: Rule, s: string, q: nat)
    requires q <= |s|
    requires forall j :: q <= j < |s| ==> MatchAt(r, s, j).None?
    ensures ReplaceFrom(r, s, q) == s[q..]
    decreases |s| - q
  {
    if q < |s| {
      NoMatchUnchanged(r, s, q + 1);
      ScanCopies(r, s, q);
      HeadJoin(s, q);
    }
  }

  /** Replacing a fixed string by itself changes nothing. */
  lemma {:induction false} SelfReplacementUnchanged(p: string, s: string, q: nat)
    requires q <= |s|
    ensures ReplaceFrom(Literal(p, p), s, q) == s[q..]
    decreases |s| - q
  {
    if q < |s| {
      var r := Literal(p, p);
      if MatchAt(r, s, q).Some? {
        SelfReplacementUnchanged(p, s, q + |p|);
        ScanMatches(r, s, q);
        SliceJoin(s, q, q + |p|);
      } else {
        SelfReplacementUnchanged(p, s, q + 1);
        ScanCopies(r, s, q);
        HeadJoin(s, q);
      }
    }
  }

  /** A fixed string with a character the text lacks matches nowhere. */
  lemma LiteralAbsent(p: string, rep: string, s: string, c: char)
    requires c in p && c !in s
    ensures ReplaceAll(Literal(p, rep), s) == s
  {
    NoMatchUnchanged(Literal(p, rep), s, 0);
  }

  /** No `a` immediately followed by `b`. */
  predicate NoPair(s: string, a: char, b: char) {
    forall i :: 0 <= i < |s| - 1 ==> !(s[i] == a && s[i + 1] == b)
  }

  lemma NoPairNotContains(s: string, a: char, b: char)
    requires NoPair(s, a, b)
    ensures !Contains(s, [a, b])
  {
    forall q: nat | q <= |s| ensures !StartsWithAt(s, q, [a, b]) {
      if q + 2 <= |s| {
        assert s[q..q + 2][0] == s[q] && s[q..q + 2][1] == s[q + 1];
      }
    }
  }

  lemma NoPairConcat(x: string, y: string, a: char, b: char)
    requires NoPair(x, a, b) && NoPair(y, a, b)
    requires x != [] && y != [] ==> !(x[|x| - 1] == a && y[0] == b)
    ensures NoPair(x + y, a, b)
  {
    var z := x + y;
    forall i | 0 <= i < |z| - 1 ensures !(z[i] == a && z[i + 1] == b) {
      if i < |x| - 1 {
        assert z[i] == x[i] && z[i + 1] == x[i + 1];
      } else if i == |x| - 1 {
        assert z[i] == x[|x| - 1] && z[i + 1] == y[0];
      } else {
        assert z[i] == y[i - |x|] && z[i + 1] == y[i - |x| + 1];
      }
    }
  }

  /** The output of a fixed-string rule starts with the text's next character or with the replacement. */
  lemma LiteralFirst(p: string, rep: string, s: string, q: nat)
    requires q < |s| && rep != []
    ensures ReplaceFrom(Literal(p, rep), s, q) != []
    ensures ReplaceFrom(Literal(p, rep), s, q)[0] in {s[q], rep[0]}
  {
  }

  /** A fixed string is only ever replaced, so a character absent from text and replacement stays absent. */
  lemma {:induction false} LiteralKeepsCharAbsent(p: string, rep: string, s: string, q: nat, c: char)
    requires q <= |s| && c !in s && c !in rep
    ensures c !in ReplaceFrom(Literal(p, rep), s, q)
    decreases |s| - q
  {
    if q < |s| {
      var m := MatchAt(Literal(p, rep), s, q);
      if m.Some? {
        LiteralKeepsCharAbsent(p, rep, s, m.value.end, c);
      } else {
        LiteralKeepsCharAbsent(p, rep, s, q + 1, c);
      }
    }
  }

  /** Replacing a single character by a string without it removes every occurrence. */
  lemma {:induction false} LiteralRemovesChar(c: char, rep: string, s: string, q: nat)
    requires q <= |s| && c !in rep
    ensures c !in ReplaceFrom(Literal([c], rep), s, q)
    decreases |s| - q
  {
    if q < |s| {
      var m := MatchAt(Literal([c], rep), s, q);
      if m.Some? {
        LiteralRemovesChar(c, rep, s, q + 1);
      } else {
        assert s[q..q + 1] == [s[q]];
        LiteralRemovesChar(c, rep, s, q + 1);
      }
    }
  }

  /**
   * Replacing a two-character string `ab` removes every occurrence when the
   * replacement neither holds `ab`, nor starts with `b`, nor ends with `a`.
   */
  lemma {:induction false} LiteralRemovesPair(a: char, b: char, rep: string, s: string, q: nat)
    requires q <= |s| && rep != []
    requires NoPair(rep, a, b) && rep[0] != b && rep[|rep| - 1] != a
    ensures NoPair(ReplaceFrom(Literal([a, b], rep), s, q), a, b)
    decreases |s| - q
  {
    var r := Literal([a, b], rep);
    if q < |s| {
      var m := MatchAt(r, s, q);
      if m.Some? {
        var rest := ReplaceFrom(r, s, q + 2);
        LiteralRemovesPair(a, b, rep, s, q + 2);
        NoPairConcat(rep, rest, a, b);
      } else {
        var rest := ReplaceFrom(r, s, q + 1);
        LiteralRemovesPair(a, b, rep, s, q + 1);
        if q + 1 < |s| {
          LiteralFirst([a, b], rep, s, q + 1);
        }
        NoPairConcat([s[q]], rest, a, b);
      }
    }
  }

  /** A fixed-string rule whose replacement avoids both characters cannot create the pair `ab`. */
  lemma {:induction false} LiteralKeepsPairAbsent(p: string, rep: string, s: string, q: nat, a: char, b: char)
    requires q <= |s| && rep != [] && NoPair(s, a, b) && a !in rep && b !in rep
    ensures NoPair(ReplaceFrom(Literal(p, rep), s, q), a, b)
    decreases |s| - q
  {
    var r := Literal(p, rep);
    if q < |s| {
      var m := MatchAt(r, s, q);
      if m.Some? {
        var rest := ReplaceFrom(r, s, m.value.end);
        LiteralKeepsPairAbsent(p, rep, s, m.value.end, a, b);
        NoPairConcat(rep, rest, a, b);
      } else {
        var rest := ReplaceFrom(r, s, q + 1);
        LiteralKeepsPairAbsent(p, rep, s, q + 1, a, b);
        if q + 1 < |s| {
          LiteralFirst(p, rep, s, q + 1);
        }
        NoPairConcat([s[q]], rest, a, b);
      }
    }
  }

  // ---------------------------------------------------------------------------
  // What the fraction rule leaves behind
  // ---------------------------------------------------------------------------

  /** No `/` stands between two word characters: the fraction pattern matches nowhere. */
  predicate NoWordSlashWord(s: string) {
    forall i :: 0 < i < |s| - 1 && s[i] == '/' ==> !(IsWordChar(s[i - 1]) && IsWordChar(s[i + 1]))
  }

  /**
   * How the output of a scan from `q` begins: a leading `/` or word character
   * is `s[q]` itself, and a leading `/` followed by a word character comes
   * from the same two characters of `s`.
   */
  predicate HeadFrom(o: string, s: string, q: nat)
    requires q <= |s|
  {
    && (|o| > 0 ==> q < |s| && ((o[0] == '/' || IsWordChar(o[0])) ==> o[0] == s[q]))
    && (|o| > 1 && o[0] == '/' && IsWordChar(o[1]) ==> q + 1 < |s| && IsWordChar(s[q + 1]))
  }

  lemma NoSlashNoWordSlashWord(s: string)
    requires '/' !in s
    ensures NoWordSlashWord(s)
  {
  }

  /** Two texts without a word-slash-word join without one unless the join creates it. */
  lemma JoinNoWordSlashWord(a: string, b: string)
    requires NoWordSlashWord(a) && NoWordSlashWord(b)
    requires |a| > 1 && |b| > 0 && a[|a| - 1] == '/' ==> !(IsWordChar(a[|a| - 2]) && IsWordChar(b[0]))
    requires |a| > 0 && |b| > 1 && b[0] == '/' ==> !(IsWordChar(a[|a| - 1]) && IsWordChar(b[1]))
    ensures NoWordSlashWord(a + b)
  {
    var t := a + b;
    forall i | 0 < i < |t| - 1 && t[i] == '/'
      ensures !(IsWordChar(t[i - 1]) && IsWordChar(t[i + 1]))
    {
      if i < |a| - 1 {
        assert t[i - 1] == a[i - 1] && t[i] == a[i] && t[i + 1] == a[i + 1];
      } else if i == |a| - 1 {
        assert t[i - 1] == a[i - 1] && t[i + 1] == b[0];
      } else if i == |a| {
        assert t[i] == b[0] && t[i + 1] == b[1];
      } else {
        assert t[i - 1] == b[i - 1 - |a|] && t[i] == b[i - |a|] && t[i + 1] == b[i + 1 - |a|];
      }
    }
  }

  lemma SliceNoWordSlashWord(s: string, a: nat, b: nat)
    requires a <= b <= |s| && NoWordSlashWord(s)
    ensures NoWordSlashWord(s[a..b])
  {
    var t := s[a..b];
    forall i | 0 < i < |t| - 1 && t[i] == '/'
      ensures !(IsWordChar(t[i - 1]) && IsWordChar(t[i + 1]))
    {
      assert t[i - 1] == s[a + i - 1] && t[i] == s[a + i] && t[i + 1] == s[a + i + 1];
    }
  }

  /**
   * After the fraction rule no `/` is left between two word characters: a
   * word, `/`, word is the pattern itself, and the scan replaces the leftmost
   * one and goes on after it.
   */
  lemma {:induction false} FractionLeavesNoWordSlashWord(s: string, q: nat)
    requires q <= |s|
    ensures NoWordSlashWord(ReplaceFrom(Fraction, s, q))
    ensures HeadFrom(ReplaceFrom(Fraction, s, q), s, q)
    decreases |s| - q, 1
  {
    if q < |s| {
      if MatchAt(Fraction, s, q).Some? {
        FractionMatched(s, q);
      } else {
        FractionCopied(s, q);
      }
    }
  }

  /** The fraction scan step that replaces a match: the replacement holds no `/`. */
  lemma {:induction false} FractionMatched(s: string, q: nat)
    requires q < |s| && MatchAt(Fraction, s, q).Some?
    ensures NoWordSlashWord(ReplaceFrom(Fraction, s, q))
    ensures HeadFrom(ReplaceFrom(Fraction, s, q), s, q)
    decreases |s| - q, 0
  {
    var m := MatchAt(Fraction, s, q).value;
    var k := RunEnd(s, q, WordChars);
    var rest := ReplaceFrom(Fraction, s, m.end);
    FractionLeavesNoWordSlashWord(s, m.end);
    assert ReplaceFrom(Fraction, s, q) == m.replacement + rest;
    assert '/' !in s[q..k] && '/' !in s[k + 1..m.end];
    NoSlashNoWordSlashWord(m.replacement);
    JoinNoWordSlashWord(m.replacement, rest);
  }

  /**
   * The fraction scan step that copies `s[q]`: where a word character is
   * followed by `/` and a word character, the pattern would have matched.
   */
  lemma {:induction false} FractionCopied(s: string, q: nat)
    requires q < |s| && MatchAt(Fraction, s, q).None?
    ensures NoWordSlashWord(ReplaceFrom(Fraction, s, q))
    ensures HeadFrom(ReplaceFrom(Fraction, s, q), s, q)
    decreases |s| - q, 0
  {
    var rest := ReplaceFrom(Fraction, s, q + 1);
    FractionLeavesNoWordSlashWord(s, q + 1);
    assert ReplaceFrom(Fraction, s, q) == [s[q]] + rest;
    if IsWordChar(s[q]) && q + 1 < |s| && s[q + 1] == '/' {
      assert RunEnd(s, q, WordChars) == q + 1;
    }
    JoinNoWordSlashWord([s[q]], rest);
  }

  /**
   * A match that cannot create a word-slash-word: its replacement has none,
   * starts with neither `/` nor a word character, does not end with `/`, and
   * ends with a word character only where the matched text did.
   */
  predicate Tame(m: Match, s: string)
    requires 0 < m.end <= |s|
  {
    var rep := m.replacement;
    && |rep| > 0 && NoWordSlashWord(rep)
    && rep[0] != '/' && !IsWordChar(rep[0]) && rep[|rep| - 1] != '/'
    && (IsWordChar(rep[|rep| - 1]) ==> IsWordChar(s[m.end - 1]))
  }

  predicate TameAt(r: Rule, s: string, q: nat)
    requires q < |s|
  {
    MatchAt(r, s, q).Some? ==> Tame(MatchAt(r, s, q).value, s)
  }

  /** A rule whose every match is tame keeps a text free of word-slash-word. */
  lemma {:induction false} TameScanKeepsNoWordSlashWord(r: Rule, s: string, q: nat)
    requires q <= |s| && NoWordSlashWord(s)
    requires forall j :: q <= j < |s| ==> TameAt(r, s, j)
    ensures NoWordSlashWord(ReplaceFrom(r, s, q))
    ensures HeadFrom(ReplaceFrom(r, s, q), s, q)
    decreases |s| - q, 1
  {
    if q < |s| {
      if MatchAt(r, s, q).Some? {
        TameScanMatched(r, s, q);
      } else {
        TameScanCopied(r, s, q);
      }
    }
  }

  /** The scan step that replaces a tame match at `q`. */
  lemma {:induction false} TameScanMatched(r: Rule, s: string, q: nat)
    requires q < |s| && NoWordSlashWord(s)
    requires forall j :: q <= j < |s| ==> TameAt(r, s, j)
    requires MatchAt(r, s, q).Some?
    ensures NoWordSlashWord(ReplaceFrom(r, s, q))
    ensures HeadFrom(ReplaceFrom(r, s, q), s, q)
    decreases |s| - q, 0
  {
    var m := MatchAt(r, s, q).value;
    assert TameAt(r, s, q);
    var rest := ReplaceFrom(r, s, m.end);
    TameScanKeepsNoWordSlashWord(r, s, m.end);
    assert ReplaceFrom(r, s, q) == m.replacement + rest;
    TameJoin(m, rest, s, q);
  }

  /** The scan step that copies `s[q]` where nothing matches. */
  lemma {:induction false} TameScanCopied(r: Rule, s: string, q: nat)
    requires q < |s| && NoWordSlashWord(s)
    requires forall j :: q <= j < |s| ==> TameAt(r, s, j)
    requires MatchAt(r, s, q).None?
    ensures NoWordSlashWord(ReplaceFrom(r, s, q))
    ensures HeadFrom(ReplaceFrom(r, s, q), s, q)
    decreases |s| - q, 0
  {
    var rest := ReplaceFrom(r, s, q + 1);
    TameScanKeepsNoWordSlashWord(r, s, q + 1);
    assert ReplaceFrom(r, s, q) == [s[q]] + rest;
    CopyJoin(rest, s, q);
  }

  /** A tame replacement followed by the rest of the scan. */
  lemma TameJoin(m: Match, rest: string, s: string, q: nat)
    requires q < m.end <= |s| && NoWordSlashWord(s) && Tame(m, s)
    requires NoWordSlashWord(rest) && HeadFrom(rest, s, m.end)
    ensures NoWordSlashWord(m.replacement + rest) && HeadFrom(m.replacement + rest, s, q)
  {
    var e := m.end;
    assert e < |s| - 1 && s[e] == '/' ==> !(IsWordChar(s[e - 1]) && IsWordChar(s[e + 1]));
    JoinNoWordSlashWord(m.replacement, rest);
  }

  /** A copied character followed by the rest of the scan. */
  lemma CopyJoin(rest: string, s: string, q: nat)
    requires q < |s| && NoWordSlashWord(s)
    requires NoWordSlashWord(rest) && HeadFrom(rest, s, q + 1)
    ensures NoWordSlashWord([s[q]] + rest) && HeadFrom([s[q]] + rest, s, q)
  {
    assert q + 2 < |s| && s[q + 1] == '/' ==> !(IsWordChar(s[q]) && IsWordChar(s[q + 2]));
    JoinNoWordSlashWord([s[q]], rest);
  }

  /** Every square-root match in a text free of word-slash-word is tame. */
  lemma SquareRootTame(s: string, q: nat)
    requires q < |s| && NoWordSlashWord(s)
    ensures TameAt(SquareRoot, s, q)
  {
    match MatchAt(SquareRoot, s, q)
    case None =>
    case Some(m) =>
      var inner := s[q + 5..m.end - 1];
      SliceNoWordSlashWord(s, q + 5, m.end - 1);
      NoSlashNoWordSlashWord("\\sqrt{");
      JoinNoWordSlashWord("\\sqrt{", inner);
      JoinNoWordSlashWord("\\sqrt{" + inner, "}");
      assert m.replacement == "\\sqrt{" + inner + "}";
  }

  /** Every match of a whole-word rule for a word of letters is tame. */
  lemma WholeWordTame(w: string, s: string, q: nat)
    requires q < |s| && forall i :: 0 <= i < |w| ==> IsLetter(w[i])
    ensures TameAt(WholeWord(w), s, q)
  {
    match MatchAt(WholeWord(w), s, q)
    case None =>
    case Some(m) =>
      assert s[q..q + |w|][|w| - 1] == s[m.end - 1];
      NoSlashNoWordSlashWord(m.replacement);
  }

  /** A text free of word-slash-word contains no fixed string that starts with word, `/`, word. */
  lemma NoWordSlashWordExcludes(t: string, p: string)
    requires NoWordSlashWord(t)
    requires |p| >= 3 && IsWordChar(p[0]) && p[1] == '/' && IsWordChar(p[2])
    ensures !Contains(t, p)
  {
    forall q: nat | q <= |t| ensures !StartsWithAt(t, q, p) {
      if q + |p| <= |t| {
        var u := t[q..q + |p|];
        assert u[0] == t[q] && u[1] == t[q + 1] && u[2] == t[q + 2];
      }
    }
  }

  /** A fixed string the text does not contain leaves it unchanged. */
  lemma LiteralNotContained(p: string, rep: string, s: string)
    requires !Contains(s, p)
    ensures ReplaceAll(Literal(p, rep), s) == s
  {
    forall j | 0 <= j < |s| ensures MatchAt(Literal(p, rep), s, j).None? {
      assert !StartsWithAt(s, j, p);
    }
    NoMatchUnchanged(Literal(p, rep), s, 0);
  }

  // ---------------------------------------------------------------------------
  // Whole-word rules act on each side of a non-word character separately
  // ---------------------------------------------------------------------------

  /** A word of `\w` characters. */
  predicate WordOf(w: string) {
    forall i :: 0 <= i < |w| ==> IsWordChar(w[i])
  }

  /** `x` is empty or ends in a non-word character. */
  predicate EndsOpen(x: string) {
    x == [] || !IsWordChar(x[|x| - 1])
  }

  /** `y` is empty or starts with a non-word character. */
  predicate StartsOpen(y: string) {
    y == [] || !IsWordChar(y[0])
  }

  /** A match moved `k` positions to the right. */
  function Shifted(m: Option<Match>, k: nat): Option<Match> {
    if m.None? then None else Some(Match(m.value.end + k, m.value.replacement))
  }

  /** A shifted match is a match exactly when the original one is, with the same replacement and an end moved by `k`. */
  lemma ShiftedAgrees(a: Option<Match>, b: Option<Match>, k: nat)
    requires a == Shifted(b, k)
    ensures a.Some? <==> b.Some?
    ensures b.Some? ==> a.value.end == b.value.end + k && a.value.replacement == b.value.replacement
  {
  }

  /** Two texts with a common head, the first one's tail being the second one's tail and then `c`. */
  lemma JoinAfter<T>(h: seq<T>, a: seq<T>, b: seq<T>, x: seq<T>, y: seq<T>, c: seq<T>)
    requires a == h + x && b == h + y && x == y + c
    ensures a == b + c
  {
  }

  /** A text that is `a` then `u`, where `u` is `b` then `c`, is `a`, `b`, `c`. */
  lemma Regroup<T>(t: seq<T>, u: seq<T>, a: seq<T>, b: seq<T>, c: seq<T>)
    requires t == a + u && u == b + c
    ensures t == a + b + c
  {
  }

  /** Two texts with a common head and equal tails. */
  lemma SameAfter<T>(h: seq<T>, a: seq<T>, b: seq<T>, x: seq<T>, y: seq<T>)
    requires a == h + x && b == h + y && x == y
    ensures a == b
  {
  }

  /** `s` has the character of `t` at `j`, and the whole-word rule of `w` matches there alike. */
  predicate AgreeAt(w: string, s: string, t: string, j: nat)
    requires j < |t| <= |s|
  {
    s[j] == t[j] && MatchAt(WholeWord(w), s, j) == MatchAt(WholeWord(w), t, j)
  }

  /** `s` has the character of `t` at `k + i`, and the whole-word rule of `w` matches there as at `i` in `t`, moved by `k`. */
  predicate AgreeShiftedAt(w: string, s: string, t: string, k: nat, i: nat)
    requires k + |t| == |s| && i < |t|
  {
    s[k + i] == t[i] && MatchAt(WholeWord(w), s, k + i) == Shifted(MatchAt(WholeWord(w), t, i), k)
  }

  /**
   * Where a longer text `s` has the characters of `t`, and the whole-word
   * rule of `w` matches in `s` as in `t`, at every position of `t` from `q`
   * on, the scan of `s` from `q` is the scan of `t` from `q` followed by the
   * scan of `s` from the end of `t`.
   */
  lemma {:induction false} ScanPrefix(w: string, s: string, t: string, q: nat)
    requires q <= |t| <= |s|
    requires forall j :: q <= j < |t| ==> AgreeAt(w, s, t, j)
    ensures ReplaceFrom(WholeWord(w), s, q) == ReplaceFrom(WholeWord(w), t, q) + ReplaceFrom(WholeWord(w), s, |t|)
    decreases |t| - q, 1
  {
    if q < |t| {
      if MatchAt(WholeWord(w), t, q).Some? {
        ScanPrefixMatched(w, s, t, q);
      } else {
        ScanPrefixCopied(w, s, t, q);
      }
    }
  }

  /** `ScanPrefix` where `t` matches at `q`: both scans emit the same replacement and resume at its end. */
  lemma {:induction false} ScanPrefixMatched(w: string, s: string, t: string, q: nat)
    requires q < |t| <= |s| && MatchAt(WholeWord(w), t, q).Some?
    requires forall j :: q <= j < |t| ==> AgreeAt(w, s, t, j)
    ensures ReplaceFrom(WholeWord(w), s, q) == ReplaceFrom(WholeWord(w), t, q) + ReplaceFrom(WholeWord(w), s, |t|)
    decreases |t| - q, 0
  {
    var r := WholeWord(w);
    var m := MatchAt(r, t, q).value;
    PrefixMatchStep(w, s, t, q);
    ScanPrefix(w, s, t, m.end);
    JoinAfter(m.replacement, ReplaceFrom(r, s, q), ReplaceFrom(r, t, q),
      ReplaceFrom(r, s, m.end), ReplaceFrom(r, t, m.end), ReplaceFrom(r, s, |t|));
  }

  /** `ScanPrefix` where `t` does not match at `q`: both scans copy the same character. */
  lemma {:induction false} ScanPrefixCopied(w: string, s: string, t: string, q: nat)
    requires q < |t| <= |s| && MatchAt(WholeWord(w), t, q).None?
    requires forall j :: q <= j < |t| ==> AgreeAt(w, s, t, j)
    ensures ReplaceFrom(WholeWord(w), s, q) == ReplaceFrom(WholeWord(w), t, q) + ReplaceFrom(WholeWord(w), s, |t|)
    decreases |t| - q, 0
  {
    var r := WholeWord(w);
    ScanPrefix(w, s, t, q + 1);
    PrefixCopyStep(w, s, t, q);
    JoinAfter([t[q]], ReplaceFrom(r, s, q), ReplaceFrom(r, t, q),
      ReplaceFrom(r, s, q + 1), ReplaceFrom(r, t, q + 1), ReplaceFrom(r, s, |t|));
  }

  /** Where `s` agrees with `t` at `q` and `t` matches there, both scans emit its replacement. */
  lemma PrefixMatchStep(w: string, s: string, t: string, q: nat)
    requires q < |t| <= |s| && MatchAt(WholeWord(w), t, q).Some?
    requires AgreeAt(w, s, t, q)
    ensures var m := MatchAt(WholeWord(w), t, q).value;
      ReplaceFrom(WholeWord(w), s, q) == m.replacement + ReplaceFrom(WholeWord(w), s, m.end) &&
      ReplaceFrom(WholeWord(w), t, q) == m.replacement + ReplaceFrom(WholeWord(w), t, m.end)
  {
    ScanMatches(WholeWord(w), s, q);
    ScanMatches(WholeWord(w), t, q);
  }

  /** Where `s` agrees with `t` at `q` and neither matches, both scans copy `t[q]`. */
  lemma PrefixCopyStep(w: string, s: string, t: string, q: nat)
    requires q < |t| <= |s| && MatchAt(WholeWord(w), t, q).None?
    requires AgreeAt(w, s, t, q)
    ensures ReplaceFrom(WholeWord(w), s, q) == [t[q]] + ReplaceFrom(WholeWord(w), s, q + 1)
    ensures ReplaceFrom(WholeWord(w), t, q) == [t[q]] + ReplaceFrom(WholeWord(w), t, q + 1)
  {
    ScanCopies(WholeWord(w), s, q);
    ScanCopies(WholeWord(w), t, q);
  }

  /**
   * Where a text `s` ends with the characters of `t`, from offset `k`, and
   * the whole-word rule of `w` matches there as in `t`, moved by `k`, the
   * scan of `s` from `k + j` is the scan of `t` from `j`.
   */
  lemma {:induction false} ScanSuffix(w: string, s: string, t: string, k: nat, j: nat)
    requires k + |t| == |s| && j <= |t|
    requires forall i :: j <= i < |t| ==> AgreeShiftedAt(w, s, t, k, i)
    ensures ReplaceFrom(WholeWord(w), s, k + j) == ReplaceFrom(WholeWord(w), t, j)
    decreases |t| - j, 1
  {
    if j < |t| {
      if MatchAt(WholeWord(w), t, j).Some? {
        ScanSuffixMatched(w, s, t, k, j);
      } else {
        ScanSuffixCopied(w, s, t, k, j);
      }
    }
  }

  /** `ScanSuffix` where `t` matches at `j`: both scans emit the same replacement and resume at its end. */
  lemma {:induction false} ScanSuffixMatched(w: string, s: string, t: string, k: nat, j: nat)
    requires k + |t| == |s| && j < |t| && MatchAt(WholeWord(w), t, j).Some?
    requires forall i :: j <= i < |t| ==> AgreeShiftedAt(w, s, t, k, i)
    ensures ReplaceFrom(WholeWord(w), s, k + j) == ReplaceFrom(WholeWord(w), t, j)
    decreases |t| - j, 0
  {
    var r := WholeWord(w);
    var m := MatchAt(r, t, j).value;
    assert j < m.end <= |t|;
    SuffixMatchStep(w, s, t, k, j, m);
    ScanSuffix(w, s, t, k, m.end);
    SameAfter(m.replacement, ReplaceFrom(r, s, k + j), ReplaceFrom(r, t, j),
      ReplaceFrom(r, s, k + m.end), ReplaceFrom(r, t, m.end));
  }

  /** Where `s` agrees with `t` moved by `k` at `j` and `t` matches there, both scans emit its replacement. */
  lemma SuffixMatchStep(w: string, s: string, t: string, k: nat, j: nat, m: Match)
    requires k + |t| == |s| && j < |t| && MatchAt(WholeWord(w), t, j) == Some(m)
    requires AgreeShiftedAt(w, s, t, k, j)
    ensures m.end <= |t|
    ensures ReplaceFrom(WholeWord(w), s, k + j) == m.replacement + ReplaceFrom(WholeWord(w), s, k + m.end)
    ensures ReplaceFrom(WholeWord(w), t, j) == m.replacement + ReplaceFrom(WholeWord(w), t, m.end)
  {
    var r := WholeWord(w);
    ShiftedAgrees(MatchAt(r, s, k + j), MatchAt(r, t, j), k);
    var n := MatchAt(r, s, k + j).value;
    ScanMatches(r, s, k + j);
    ScanMatches(r, t, j);
    assert n.end == k + m.end && n.replacement == m.replacement;
  }

  /** `ScanSuffix` where `t` does not match at `j`: both scans copy the same character. */
  lemma {:induction false} ScanSuffixCopied(w: string, s: string, t: string, k: nat, j: nat)
    requires k + |t| == |s| && j < |t| && MatchAt(WholeWord(w), t, j).None?
    requires forall i :: j <= i < |t| ==> AgreeShiftedAt(w, s, t, k, i)
    ensures ReplaceFrom(WholeWord(w), s, k + j) == ReplaceFrom(WholeWord(w), t, j)
    decreases |t| - j, 0
  {
    var r := WholeWord(w);
    SuffixCopyStep(w, s, t, k, j);
    ScanSuffix(w, s, t, k, j + 1);
    SameAfter([t[j]], ReplaceFrom(r, s, k + j), ReplaceFrom(r, t, j),
      ReplaceFrom(r, s, k + j + 1), ReplaceFrom(r, t, j + 1));
  }

  /** Where `s` agrees with `t` moved by `k` at `j` and neither matches, both scans copy `t[j]`. */
  lemma SuffixCopyStep(w: string, s: string, t: string, k: nat, j: nat)
    requires k + |t| == |s| && j < |t| && MatchAt(WholeWord(w), t, j).None?
    requires AgreeShiftedAt(w, s, t, k, j)
    ensures ReplaceFrom(WholeWord(w), s, k + j) == [t[j]] + ReplaceFrom(WholeWord(w), s, k + j + 1)
    ensures ReplaceFrom(WholeWord(w), t, j) == [t[j]] + ReplaceFrom(WholeWord(w), t, j + 1)
  {
    var r := WholeWord(w);
    ShiftedAgrees(MatchAt(r, s, k + j), MatchAt(r, t, j), k);
    ScanCopies(r, s, k + j);
    ScanCopies(r, t, j);
  }

  /** An occurrence of `p` at `j`, character by character. */
  lemma StartsWithAtChars(s: string, j: nat, p: string)
    ensures StartsWithAt(s, j, p) <==> j + |p| <= |s| && forall i :: 0 <= i < |p| ==> s[j + i] == p[i]
  {
    if j + |p| <= |s| {
      var t := s[j..j + |p|];
      assert forall i :: 0 <= i < |p| ==> t[i] == s[j + i];
    }
  }

  /** Before a non-word character at the join, a whole-word rule matches in `a + b` as in `a`. */
  lemma WholeWordPrefixAgrees(w: string, a: string, b: string, j: nat)
    requires WordOf(w) && (EndsOpen(a) || StartsOpen(b)) && j < |a|
    ensures MatchAt(WholeWord(w), a + b, j) == MatchAt(WholeWord(w), a, j)
  {
    var s := a + b;
    StartsWithAtChars(s, j, w);
    StartsWithAtChars(a, j, w);
    assert forall i :: 0 <= i < |a| ==> s[i] == a[i];
    assert b != [] ==> s[|a|] == b[0];
  }

  /**
   * Where the word, the boundary before it and the boundary after it are
   * found alike at `k + i` in `s` and at `i` in `t`, the whole-word rule
   * matches there alike, moved by `k`.
   */
  lemma WholeWordMatchMoved(w: string, s: string, t: string, k: nat, i: nat)
    requires k + |t| == |s| && i < |t|
    requires StartsWithAt(s, k + i, w) <==> StartsWithAt(t, i, w)
    requires |w| > 0 && StartsWithAt(t, i, w) ==>
      BoundaryBefore(s, k + i) == BoundaryBefore(t, i) && BoundaryAfter(s, k + i + |w|) == BoundaryAfter(t, i + |w|)
    ensures MatchAt(WholeWord(w), s, k + i) == Shifted(MatchAt(WholeWord(w), t, i), k)
  {
  }

  /** After a non-word character at the join, the word and its boundaries are found in `a + b` as in `b`, moved by `|a|`. */
  lemma WholeWordSuffixConditions(w: string, a: string, b: string, i: nat)
    requires WordOf(w) && (EndsOpen(a) || StartsOpen(b)) && i < |b|
    ensures StartsWithAt(a + b, |a| + i, w) <==> StartsWithAt(b, i, w)
    ensures |w| > 0 && StartsWithAt(b, i, w) ==>
      BoundaryBefore(a + b, |a| + i) == BoundaryBefore(b, i) &&
      BoundaryAfter(a + b, |a| + i + |w|) == BoundaryAfter(b, i + |w|)
  {
    var s, q := a + b, |a| + i;
    StartsWithAtChars(s, q, w);
    StartsWithAtChars(b, i, w);
    assert forall k :: 0 <= k < |b| ==> s[|a| + k] == b[k];
    assert i == 0 && a != [] ==> s[q - 1] == a[|a| - 1];
  }

  /** After a non-word character at the join, a whole-word rule matches in `a + b` as in `b`, moved by `|a|`. */
  lemma WholeWordSuffixAgrees(w: string, a: string, b: string, i: nat)
    requires WordOf(w) && (EndsOpen(a) || StartsOpen(b)) && i < |b|
    ensures MatchAt(WholeWord(w), a + b, |a| + i) == Shifted(MatchAt(WholeWord(w), b, i), |a|)
  {
    WholeWordSuffixConditions(w, a, b, i);
    WholeWordMatchMoved(w, a + b, b, |a|, i);
  }

  /**
   * With a non-word character on one side of the join, rewriting a whole word
   * in `a + b` is rewriting it in `a` and in `b`: no match spans the join, and
   * the join is a word boundary on both sides.
   */
  lemma WholeWordJunction(w: string, a: string, b: string)
    requires WordOf(w) && (EndsOpen(a) || StartsOpen(b))
    ensures ReplaceAll(WholeWord(w), a + b) == ReplaceAll(WholeWord(w), a) + ReplaceAll(WholeWord(w), b)
  {
    forall j | 0 <= j < |a| ensures AgreeAt(w, a + b, a, j) {
      WholeWordPrefixAgrees(w, a, b, j);
    }
    ScanPrefix(w, a + b, a, 0);
    forall i | 0 <= i < |b| ensures AgreeShiftedAt(w, a + b, b, |a|, i) {
      WholeWordSuffixAgrees(w, a, b, i);
    }
    ScanSuffix(w, a + b, b, |a|, 0);
  }

  /** A whole-word rule leaves a lone non-word character alone. */
  lemma WholeWordOnSeparator(w: string, c: char)
    requires WordOf(w) && !IsWordChar(c)
    ensures ReplaceAll(WholeWord(w), [c]) == [c]
  {
    assert StartsWithAt([c], 0, w) && |w| > 0 ==> w[0] == c by {
      if StartsWithAt([c], 0, w) && |w| > 0 { assert [c][0..|w|][0] == c; }
    }
    NoMatchUnchanged(WholeWord(w), [c], 0);
  }

  /** A whole-word rule keeps a leading non-word character. */
  lemma WholeWordKeepsStartsOpen(w: string, y: string)
    requires WordOf(w) && StartsOpen(y)
    ensures StartsOpen(ReplaceAll(WholeWord(w), y))
  {
    if y != [] {
      assert y == [y[0]] + y[1..];
      WholeWordJunction(w, [y[0]], y[1..]);
      WholeWordOnSeparator(w, y[0]);
    }
  }

  /** A whole-word rule keeps a trailing non-word character. */
  lemma WholeWordKeepsEndsOpen(w: string, x: string)
    requires WordOf(w) && EndsOpen(x)
    ensures EndsOpen(ReplaceAll(WholeWord(w), x))
  {
    if x != [] {
      var c := x[|x| - 1];
      assert x == x[..|x| - 1] + [c];
      WholeWordJunction(w, x[..|x| - 1], [c]);
      WholeWordOnSeparator(w, c);
    }
  }
}
