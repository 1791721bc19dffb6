/**
 * The LaTeX-to-text rewrite that `createTextBasedMathImage` applies before drawing a math
 * expression as plain text: `\frac{a}{b}` and `\sqrt{x}` first, then twenty macros in a fixed
 * order, then the `^`/`_` rules (which give back what they match).
 */
module LatexText {
  import opened JsString

  /** `\w` of ECMAScript regular expressions. */
  predicate IsWordChar(c: char) {
    IsAsciiAlnum(c) || c == '_'
  }

  /**
   * `/\\frac\{([^}]+)\}\{([^}]+)\}/g` matched at `i`: the end of the match and the two groups.
   * Each group runs to the first `}`, which must be followed by `{` (first group) or end the
   * match (second group); both groups are non-empty.
   */
  function FracAt(t: string, i: nat): (r: (bool, nat, string, string))
    requires i <= |t|
    ensures r.0 ==> i < r.1 <= |t|
  {
    if i + 6 <= |t| && t[i] == '\\' && t[i + 1..i + 6] == "frac{" then
      var j1 := FindChar(t, '}', i + 6);
      if j1 > i + 6 && j1 + 2 <= |t| && t[j1 + 1] == '{' then
        var j2 := FindChar(t, '}', j1 + 2);
        if j2 > j1 + 2 && j2 < |t| then (true, j2 + 1, t[i + 6..j1], t[j1 + 2..j2])
        else (false, 0, "", "")
      else (false, 0, "", "")
    else (false, 0, "", "")
  }

  /** `text.replace(/\\frac\{([^}]+)\}\{([^}]+)\}/g, '($1)/($2)')`, scanning from `i`. */
  function RewriteFrac(t: string, i: nat): string
    requires i <= |t|
    decreases |t| - i
  {
    if i == |t| then ""
    else
      var m := FracAt(t, i);
      if m.0 then "(" + m.2 + ")/(" + m.3 + ")" + RewriteFrac(t, m.1)
      else [t[i]] + RewriteFrac(t, i + 1)
  }

  /** `/\\sqrt\{([^}]+)\}/g` matched at `i`: the end of the match and the group. */
  function SqrtAt(t: string, i: nat): (r: (bool, nat, string))
    requires i <= |t|
    ensures r.0 ==> i < r.1 <= |t|
  {
    if i + 6 <= |t| && t[i] == '\\' && t[i + 1..i + 6] == "sqrt{" then
      var j := FindChar(t, '}', i + 6);
      if j > i + 6 && j < |t| then (true, j + 1, t[i + 6..j]) else (false, 0, "")
    else (false, 0, "")
  }

  /** `text.replace(/\\sqrt\{([^}]+)\}/g, '√($1)')`, scanning from `i`. */
  function RewriteSqrt(t: string, i: nat): string
    requires i <= |t|
    decreases |t| - i
  {
    if i == |t| then ""
    else
      var m := SqrtAt(t, i);
      if m.0 then "\U{221A}(" + m.2 + ")" + RewriteSqrt(t, m.1)
      else [t[i]] + RewriteSqrt(t, i + 1)
  }

  /** `text.replace(/w/g, rep)` for a literal, non-empty `w`: every occurrence, left to right. */
  function ReplaceAll(t: string, w: string, rep: string, i: nat): string
    requires |w| > 0 && i <= |t|
    decreases |t| - i
  {
    if i == |t| then ""
    else if OccursAt(t, w, i) then rep + ReplaceAll(t, w, rep, i + |w|)
    else [t[i]] + ReplaceAll(t, w, rep, i + 1)
  }

  /** `text.replace(/<mark>(\w+)/g, '<mark>$1')`: each match is replaced by itself. */
  function RewriteMarked(t: string, mark: char, i: nat): string
    requires i <= |t|
    decreases |t| - i
  {
    if i == |t| then ""
    else if t[i] == mark && i + 1 < |t| && IsWordChar(t[i + 1]) then
      var j := WordEnd(t, i + 1);
      [mark] + t[i + 1..j] + RewriteMarked(t, mark, j)
    else [t[i]] + RewriteMarked(t, mark, i + 1)
  }

  /** The end of the run of word characters starting at `j` (greedy `\w+`). */
  function WordEnd(t: string, j: nat): (r: nat)
    requires j <= |t|
    decreases |t| - j
    ensures j <= r <= |t|
  {
    if j < |t| && IsWordChar(t[j]) then WordEnd(t, j + 1) else j
  }

  /** The number of macros of script.js:835-854. */
  const MacroCount: nat := 20

  /** Macro `q` of script.js:835-854 and its replacement, in the order they are applied. */
  function Macro(q: nat): (r: (string, string))
    requires q < MacroCount
    ensures |r.0| >= 2 && r.0[0] == '\\' && '\\' !in r.1
  {
    match q
    case 0 => ("\\pi", "\U{03C0}")
    case 1 => ("\\alpha", "\U{03B1}")
    case 2 => ("\\beta", "\U{03B2}")
    case 3 => ("\\gamma", "\U{03B3}")
    case 4 => ("\\theta", "\U{03B8}")
    case 5 => ("\\lambda", "\U{03BB}")
    case 6 => ("\\mu", "\U{03BC}")
    case 7 => ("\\sigma", "\U{03C3}")
    case 8 => ("\\phi", "\U{03C6}")
    case 9 => ("\\omega", "\U{03C9}")
    case 10 => ("\\infty", "\U{221E}")
    case 11 => ("\\sum", "\U{2211}")
    case 12 => ("\\int", "\U{222B}")
    case 13 => ("\\lim", "lim")
    case 14 => ("\\sin", "sin")
    case 15 => ("\\cos", "cos")
    case 16 => ("\\tan", "tan")
    case 17 => ("\\log", "log")
    case 18 => ("\\ln", "ln")
    case 19 => ("\\exp", "exp")
  }

  /** Applies the first `n` macro replacements in order. */
  function ApplyMacros(t: string, n: nat): string
    requires n <= MacroCount
  {
    if n == 0 then t
    else
      ReplaceAll(ApplyMacros(t, n - 1), Macro(n - 1).0, Macro(n - 1).1, 0)
  }

  /** How many rewrites the chain of script.js:833-858 makes. */
  const StageCount: nat := 5

  /** Rewrite `i` of the chain: fractions, roots, the macro table, superscripts, subscripts. */
  function Stage(i: nat, t: string): string
    requires i < StageCount
  {
    match i
    case 0 => RewriteFrac(t, 0)
    case 1 => RewriteSqrt(t, 0)
    case 2 => ApplyMacros(t, MacroCount)
    case 3 => RewriteMarked(t, '^', 0)
    case _ => RewriteMarked(t, '_', 0)
  }

  /** The first `n` rewrites of the chain, applied in order. */
  function Stages(latex: string, n: nat): string
    requires n <= StageCount
  {
    if n == 0 then latex else Stage(n - 1, Stages(latex, n - 1))
  }

  /** The whole rewrite chain of script.js:833-858, applied to the LaTeX source of one span. */
  function LatexToText(latex: string): string {
    Stages(latex, StageCount)
  }

  /** The chain, given what each of its rewrites makes. */
  lemma Chain(latex: string, a: string, b: string, c: string, d: string)
    requires RewriteFrac(latex, 0) == a && RewriteSqrt(a, 0) == b
    requires ApplyMacros(b, MacroCount) == c && RewriteMarked(c, '^', 0) == d
    ensures LatexToText(latex) == RewriteMarked(d, '_', 0)
  {
    assert Stages(latex, 1) == a;
    assert Stages(latex, 2) == b;
    assert Stages(latex, 3) == c;
    assert Stages(latex, 4) == d;
  }

  /** The `^`/`_` rules give back the text they read. */
  lemma {:induction false} MarkedIsIdentity(t: string, mark: char, i: nat)
    requires i <= |t|
    ensures RewriteMarked(t, mark, i) == t[i..]
    decreases |t| - i
  {
    if i < |t| {
      if t[i] == mark && i + 1 < |t| && IsWordChar(t[i + 1]) {
        var j := WordEnd(t, i + 1);
        MarkedIsIdentity(t, mark, j);
        assert [mark] + t[i + 1..j] + t[j..] == t[i..];
      } else {
        MarkedIsIdentity(t, mark, i + 1);
        assert [t[i]] + t[i + 1..] == t[i..];
      }
    }
  }

  /** Text without a backslash is left alone by the frac, sqrt and macro passes. */
  lemma {:induction false} FracWithoutBackslash(t: string, i: nat)
    requires i <= |t| && '\\' !in t
    ensures RewriteFrac(t, i) == t[i..]
    decreases |t| - i
  {
    if i < |t| {
      assert t[i] != '\\';
      FracWithoutBackslash(t, i + 1);
      assert [t[i]] + t[i + 1..] == t[i..];
    }
  }

  lemma {:induction false} SqrtWithoutBackslash(t: string, i: nat)
    requires i <= |t| && '\\' !in t
    ensures RewriteSqrt(t, i) == t[i..]
    decreases |t| - i
  {
    if i < |t| {
      assert t[i] != '\\';
      SqrtWithoutBackslash(t, i + 1);
      assert [t[i]] + t[i + 1..] == t[i..];
    }
  }

  lemma {:induction false} ReplaceAllAbsent(t: string, w: string, rep: string, i: nat)
    requires |w| > 0 && i <= |t| && w[0] !in t
    ensures ReplaceAll(t, w, rep, i) == t[i..]
    decreases |t| - i
  {
    if i < |t| {
      assert t[i] != w[0];
      ReplaceAllAbsent(t, w, rep, i + 1);
      assert [t[i]] + t[i + 1..] == t[i..];
    }
  }

  lemma {:induction false} MacrosWithoutBackslash(t: string, n: nat)
    requires n <= MacroCount && '\\' !in t
    ensures ApplyMacros(t, n) == t
  {
    if n > 0 {
      MacrosWithoutBackslash(t, n - 1);
      var (w, rep) := Macro(n - 1);
      ReplaceAllAbsent(t, w, rep, 0);
    }
  }

  /** Plain text (no backslash) is drawn exactly as written. */
  lemma PlainTextUnchanged(t: string)
    requires '\\' !in t
    ensures LatexToText(t) == t
  {
    FracWithoutBackslash(t, 0);
    LaterStagesPlain(t);
    Chain(t, t, t, t, t);
  }

  /** The rewrites after the fraction rule leave text without a backslash alone. */
  lemma LaterStagesPlain(r: string)
    requires '\\' !in r
    ensures RewriteSqrt(r, 0) == r && ApplyMacros(r, MacroCount) == r
    ensures RewriteMarked(r, '^', 0) == r && RewriteMarked(r, '_', 0) == r
  {
    SqrtWithoutBackslash(r, 0);
    MacrosWithoutBackslash(r, MacroCount);
    MarkedIsIdentity(r, '^', 0);
    MarkedIsIdentity(r, '_', 0);
  }

  /** `\frac{a}{b}` becomes `(a)/(b)` when `a` and `b` are plain text without braces. */
  lemma FracRewrite(a: string, b: string)
    requires |a| > 0 && |b| > 0
    requires '\\' !in a && '\\' !in b && '}' !in a && '}' !in b
    ensures LatexToText("\\frac{" + a + "}{" + b + "}") == "(" + a + ")/(" + b + ")"
  {
    var t := "\\frac{" + a + "}{" + b + "}";
    var r := "(" + a + ")/(" + b + ")";
    FracWhole(a, b);
    assert RewriteFrac(t, 0) == r;
    assert '\\' !in r;
    LaterStagesPlain(r);
    Chain(t, r, r, r, r);
  }

  /** The fraction rule matches all of `\frac{a}{b}`, with groups `a` and `b`. */
  lemma FracWhole(a: string, b: string)
    requires |a| > 0 && |b| > 0 && '}' !in a && '}' !in b
    ensures var t := "\\frac{" + a + "}{" + b + "}"; FracAt(t, 0) == (true, |t|, a, b)
  {
    var t := "\\frac{" + a + "}{" + b + "}";
    var pre1, post1 := "\\frac{", "}{" + b + "}";
    assert t == pre1 + a + post1;
    GroupEnd(pre1, a, post1, '}');
    var pre2 := pre1 + a + "}{";
    assert t == pre2 + b + "}";
    GroupEnd(pre2, b, "}", '}');
    assert t[0..6] == pre1;
    assert t[1..6] == "frac{";
    var j1 := 6 + |a|;
    assert t[j1 + 1] == '{';
    assert FracAt(t, 0) == (true, |t|, a, b);
  }

  /** In `pre + g + post`, the first `c` from the start of `g` is the one `post` starts with. */
  lemma GroupEnd(pre: string, g: string, post: string, c: char)
    requires c !in g && |post| > 0 && post[0] == c
    ensures var t := pre + g + post;
      FindChar(t, c, |pre|) == |pre| + |g| && t[|pre|..|pre| + |g|] == g
  {
    var t := pre + g + post;
    forall m | |pre| <= m < |pre| + |g| ensures t[m] != c {
      assert t[m] == g[m - |pre|];
    }
    assert t[|pre| + |g|] == c;
    assert t[|pre|..|pre| + |g|] == g;
  }

  /** `\sqrt{x}` becomes `√(x)` when `x` is plain text without braces. */
  lemma SqrtRewrite(x: string)
    requires |x| > 0 && '\\' !in x && '}' !in x
    ensures LatexToText("\\sqrt{" + x + "}") == "\U{221A}(" + x + ")"
  {
    var t := "\\sqrt{" + x + "}";
    var r := "\U{221A}(" + x + ")";
    SqrtFracFree(x);
    SqrtWhole(x);
    assert RewriteSqrt(t, 0) == r;
    MacrosWithoutBackslash(r, MacroCount);
    MarkedIsIdentity(r, '^', 0);
    MarkedIsIdentity(r, '_', 0);
    Chain(t, t, r, r, r);
  }

  /** The fraction rule leaves `\sqrt{x}` alone. */
  lemma SqrtFracFree(x: string)
    requires '\\' !in x
    ensures RewriteFrac("\\sqrt{" + x + "}", 0) == "\\sqrt{" + x + "}"
  {
    var t := "\\sqrt{" + x + "}";
    assert t[1] == 's';
    assert forall i :: 1 <= i < |t| ==> t[i] != '\\';
    FracTail(t);
  }

  /** The root rule matches all of `\sqrt{x}`, with group `x`. */
  lemma SqrtWhole(x: string)
    requires |x| > 0 && '}' !in x
    ensures var t := "\\sqrt{" + x + "}"; SqrtAt(t, 0) == (true, |t|, x)
  {
    var t := "\\sqrt{" + x + "}";
    GroupEnd("\\sqrt{", x, "}", '}');
    assert t[1..6] == "sqrt{";
    assert SqrtAt(t, 0) == (true, |t|, x);
  }

  /** A string whose only backslash is its first character, not starting a `\frac`, is left alone. */
  lemma FracTail(t: string)
    requires |t| > 0 && forall i :: 1 <= i < |t| ==> t[i] != '\\'
    requires !FracAt(t, 0).0
    ensures RewriteFrac(t, 0) == t
  {
    var u := t[1..];
    assert '\\' !in u by {
      forall c | c in u ensures c != '\\' {
        var m :| 0 <= m < |u| && u[m] == c;
        assert u[m] == t[m + 1];
      }
    }
    FracShift(t, 1);
    assert [t[0]] + t[1..] == t;
  }

  /** Past every backslash of `t`, the frac pass copies the rest. */
  lemma {:induction false} FracShift(t: string, i: nat)
    requires 1 <= i <= |t| && forall m :: i <= m < |t| ==> t[m] != '\\'
    ensures RewriteFrac(t, i) == t[i..]
    decreases |t| - i
  {
    if i < |t| {
      FracShift(t, i + 1);
      assert [t[i]] + t[i + 1..] == t[i..];
    }
  }

  /**
   * Each macro is rewritten on its own, whatever the order of the table: `\infty` is not read
   * as `\int`, nor `\sigma` as `\sin`.
   */
  lemma InftyText()
    ensures LatexToText("\\infty") == "\U{221E}"
  {
    MacroAlone("\\infty", "\U{221E}", 10);
  }

  lemma IntText()
    ensures LatexToText("\\int") == "\U{222B}"
  {
    IntUnprefixed();
    MacroAlone("\\int", "\U{222B}", 12);
  }

  lemma SigmaText()
    ensures LatexToText("\\sigma") == "\U{03C3}"
  {
    MacroAlone("\\sigma", "\U{03C3}", 7);
  }

  lemma SinText()
    ensures LatexToText("\\sin") == "sin"
  {
    SinUnprefixed();
    MacroAlone("\\sin", "sin", 14);
  }

  /** `\infty`, listed before `\int`, is not a prefix of it. */
  lemma IntUnprefixed()
    ensures NoneStartsAt("\\int", 12)
  {
    assert NoneStartsAt("\\int", 10);
    assert !IsPrefix("\\infty", "\\int");
    UnprefixedStep("\\int", 10);
    UnprefixedStep("\\int", 11);
  }

  /** Neither `\sigma` nor `\sum`, listed before `\sin`, is a prefix of it. */
  lemma SinUnprefixed()
    ensures NoneStartsAt("\\sin", 14)
  {
    SinUnprefixedBelow(7);
    assert !IsPrefix("\\sigma", "\\sin");
    UnprefixedStep("\\sin", 7);
    SinSecondDiffers(8);
    UnprefixedStep("\\sin", 8);
    SinSecondDiffers(9);
    UnprefixedStep("\\sin", 9);
    SinSecondDiffers(10);
    UnprefixedStep("\\sin", 10);
    assert !IsPrefix("\\sum", "\\sin");
    UnprefixedStep("\\sin", 11);
    SinSecondDiffers(12);
    UnprefixedStep("\\sin", 12);
    SinSecondDiffers(13);
    UnprefixedStep("\\sin", 13);
  }

  /** The first `n` macro names (up to `\mu`) differ from `\sin` in their second character. */
  lemma {:induction false} SinUnprefixedBelow(n: nat)
    requires n <= 7
    ensures NoneStartsAt("\\sin", n)
  {
    if n > 0 {
      SinUnprefixedBelow(n - 1);
      SinSecondDiffers(n - 1);
    }
  }

  /** Macro `q` is not a prefix of `\sin`, telling by its second character. */
  lemma SinSecondDiffers(q: nat)
    requires q < MacroCount && q != 7 && q != 11 && q != 14
    ensures !IsPrefix(Macro(q).0, "\\sin")
  {
    var v := Macro(q).0;
    assert v[1] != 's';
    assert "\\sin"[1] == 's';
  }

  /** A lone macro name, which no earlier macro name begins, becomes its replacement. */
  lemma MacroAlone(w: string, rep: string, n: nat)
    requires n < MacroCount && Macro(n) == (w, rep)
    requires NoneStartsAt(w, n)
    requires '\\' !in w[1..] && '{' !in w
    ensures LatexToText(w) == rep
  {
    LoneName(w);
    FrontPassesCopy(w);
    MacroPassesReplace(w, rep, n);
    MarkedIsIdentity(rep, '^', 0);
    MarkedIsIdentity(rep, '_', 0);
    Chain(w, RewriteFrac(w, 0), w, rep, rep);
  }

  /** A name without braces and with no backslash after the first is matched by neither rule. */
  lemma LoneName(w: string)
    requires |w| >= 1 && '\\' !in w[1..] && '{' !in w
    ensures forall m :: 1 <= m < |w| ==> w[m] != '\\'
    ensures !FracAt(w, 0).0 && !SqrtAt(w, 0).0
  {
    forall m | 1 <= m < |w| ensures w[m] != '\\' {
      assert w[m] == w[1..][m - 1];
    }
    if |w| >= 6 {
      assert w[5] != '{';
      assert w[1..6][4] == w[5];
    }
  }

  lemma FrontPassesCopy(w: string)
    requires |w| >= 1 && forall m :: 1 <= m < |w| ==> w[m] != '\\'
    requires !FracAt(w, 0).0 && !SqrtAt(w, 0).0
    ensures RewriteSqrt(RewriteFrac(w, 0), 0) == w
  {
    FracShift(w, 1);
    assert RewriteFrac(w, 0) == [w[0]] + w[1..] == w;
    SqrtShift(w, 1);
    assert RewriteSqrt(w, 0) == [w[0]] + w[1..] == w;
  }

  lemma MacroPassesReplace(w: string, rep: string, n: nat)
    requires n < MacroCount && Macro(n) == (w, rep)
    requires NoneStartsAt(w, n)
    requires forall m :: 1 <= m < |w| ==> w[m] != '\\'
    ensures ApplyMacros(w, MacroCount) == rep
  {
    MacrosBefore(w, n, n);
    MacroStep(w, rep, n);
    MacrosAfter(w, rep, n + 1, MacroCount);
  }

  /** Macro `n` applied to its own name. */
  lemma MacroStep(w: string, rep: string, n: nat)
    requires n < MacroCount && Macro(n) == (w, rep)
    requires ApplyMacros(w, n) == w
    ensures ApplyMacros(w, n + 1) == rep
  {
    ReplaceWhole(w, rep);
  }

  /** `v[i..]` is a prefix of `w[i..]`, compared one character at a time. */
  predicate IsPrefixFrom(v: string, w: string, i: nat)
    decreases |v| - i
  {
    i >= |v| || (i < |w| && v[i] == w[i] && IsPrefixFrom(v, w, i + 1))
  }

  /** `v` is a prefix of `w`. */
  predicate IsPrefix(v: string, w: string) {
    IsPrefixFrom(v, w, 0)
  }

  lemma {:induction false} OccursAtStartIsPrefix(w: string, v: string, i: nat)
    requires OccursAt(w, v, 0)
    ensures IsPrefixFrom(v, w, i)
    decreases |v| - i
  {
    if i < |v| {
      assert w[i] == w[..|v|][i] == v[i];
      OccursAtStartIsPrefix(w, v, i + 1);
    }
  }

  lemma ReplaceWhole(w: string, rep: string)
    requires |w| > 0
    ensures ReplaceAll(w, w, rep, 0) == rep
  {
    assert OccursAt(w, w, 0);
    assert ReplaceAll(w, w, rep, |w|) == "";
  }

  /** None of the first `n` macro names is a prefix of `w`. */
  predicate NoneStartsAt(w: string, n: nat)
    requires n <= MacroCount
  {
    n == 0 || (!IsPrefix(Macro(n - 1).0, w) && NoneStartsAt(w, n - 1))
  }

  lemma UnprefixedStep(w: string, n: nat)
    requires n < MacroCount && NoneStartsAt(w, n) && !IsPrefix(Macro(n).0, w)
    ensures NoneStartsAt(w, n + 1)
  {
  }

  /** The macros listed before entry `n` find nothing in `w`. */
  lemma {:induction false} MacrosBefore(w: string, n: nat, m: nat)
    requires m <= n < MacroCount
    requires NoneStartsAt(w, m)
    requires |w| >= 1 && forall q :: 1 <= q < |w| ==> w[q] != '\\'
    ensures ApplyMacros(w, m) == w
  {
    if m > 0 {
      MacrosBefore(w, n, m - 1);
      var v, r := Macro(m - 1).0, Macro(m - 1).1;
      forall p: nat | 0 < p <= |w| ensures !OccursAt(w, v, p) {
        if p < |w| { assert w[p] != v[0]; }
      }
      if OccursAt(w, v, 0) {
        OccursAtStartIsPrefix(w, v, 0);
      }
      ReplaceAllNowhere(w, v, r, 0);
    }
  }

  /** Once the text holds no backslash, the remaining macros find nothing in it. */
  lemma {:induction false} MacrosAfter(t: string, r: string, m0: nat, m: nat)
    requires m0 <= m <= MacroCount && '\\' !in r
    requires ApplyMacros(t, m0) == r
    ensures ApplyMacros(t, m) == r
    decreases m - m0
  {
    if m > m0 {
      MacrosAfter(t, r, m0, m - 1);
      ReplaceAllAbsent(r, Macro(m - 1).0, Macro(m - 1).1, 0);
    }
  }

  lemma {:induction false} ReplaceAllNowhere(t: string, w: string, rep: string, i: nat)
    requires |w| > 0 && i <= |t|
    requires forall p: nat :: i <= p <= |t| ==> !OccursAt(t, w, p)
    ensures ReplaceAll(t, w, rep, i) == t[i..]
    decreases |t| - i
  {
    if i < |t| {
      ReplaceAllNowhere(t, w, rep, i + 1);
      assert [t[i]] + t[i + 1..] == t[i..];
    }
  }

  /** Past every backslash of `t`, the sqrt pass copies the rest. */
  lemma {:induction false} SqrtShift(t: string, i: nat)
    requires 1 <= i <= |t| && forall m :: i <= m < |t| ==> t[m] != '\\'
    ensures RewriteSqrt(t, i) == t[i..]
    decreases |t| - i
  {
    if i < |t| {
      SqrtShift(t, i + 1);
      assert [t[i]] + t[i + 1..] == t[i..];
    }
  }
}
