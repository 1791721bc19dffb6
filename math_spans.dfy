/**
 * `processMathExpressions` of the PDF exporter: four global regular-expression passes that cut
 * the math spans out of an exercise and leave numbered placeholders behind, one text-based
 * image per span (or none when drawing it fails), and a last pass that turns every
 * placeholder into nothing (an image stands for it) or into `[Math Expression k]`.
 */
module MathSpans {
  import opened Wrappers
  import opened JsString
  import LatexText

  datatype MathType = Inline | Display

  /** The four delimiter forms of script.js:519-524. */
  datatype Delim = DoubleDollar | Dollar | Bracket | Paren

  /** The order the passes run in: `$$` before `$`, so `$$x$$` is never read as two `$` spans. */
  const Passes: seq<Delim> := [DoubleDollar, Dollar, Bracket, Paren]

  function TypeOf(d: Delim): MathType {
    match d
    case DoubleDollar => Display
    case Dollar => Inline
    case Bracket => Display
    case Paren => Inline
  }

  /**
   * A pattern `open([^stop]+)close`: `stop` is the one character the content class excludes
   * and `stopAt` is where it sits in `close`.
   */
  datatype Pattern = Pattern(open: string, close: string, stop: char, stopAt: nat)

  /** The regular expressions of script.js:520-523. */
  function PatternOf(d: Delim): Pattern {
    match d
    case DoubleDollar => Pattern("$$", "$$", '$', 0)
    case Dollar => Pattern("$", "$", '$', 0)
    case Bracket => Pattern("\\[", "\\]", ']', 1)
    case Paren => Pattern("\\(", "\\)", ')', 1)
  }

  function Open(d: Delim): string { PatternOf(d).open }
  function Close(d: Delim): string { PatternOf(d).close }
  function Stop(d: Delim): char { PatternOf(d).stop }

  /** `stop` sits at `stopAt` in `close` and nowhere before it. */
  predicate WellFormed(p: Pattern) {
    |p.open| >= 1 && p.stopAt < |p.close|
    && p.close[p.stopAt] == p.stop
    && forall m :: 0 <= m < p.stopAt ==> p.close[m] != p.stop
  }

  lemma DelimFacts(d: Delim)
    ensures WellFormed(PatternOf(d))
    ensures Open(d)[0] == '$' || Open(d)[0] == '\\'
    ensures Close(d)[|Close(d)| - 1] == '$' || Close(d)[|Close(d)| - 1] == ']' || Close(d)[|Close(d)| - 1] == ')'
  {
  }

  /** `type.toUpperCase()`. */
  function TypeName(m: MathType): string {
    if m == Inline then "INLINE" else "DISPLAY"
  }

  /** `__MATH_${type.toUpperCase()}_${k}__`. */
  function Placeholder(m: MathType, k: nat): string {
    "__MATH_" + TypeName(m) + "_" + NatToString(k) + "__"
  }

  /** One entry of `mathPlaceholders`: the group, the type and the whole match. */
  datatype MathSpan = MathSpan(latex: string, mtype: MathType, original: string)

  /**
   * The pattern matches exactly `t[i..e]`: the opening delimiter, one or more characters
   * other than `stop`, the closing delimiter.
   */
  predicate MatchesAt(p: Pattern, t: string, i: nat, e: nat) {
    i + |p.open| + 1 + |p.close| <= e <= |t|
    && OccursAt(t, p.open, i)
    && OccursAt(t, p.close, e - |p.close|)
    && forall m :: i + |p.open| <= m < e - |p.close| ==> t[m] != p.stop
  }

  /**
   * Where the match that starts at `i` ends, if one does: the content runs to the first
   * `stop`, which must be where the closing delimiter puts it.
   */
  function MatchEnd(p: Pattern, t: string, i: nat): (r: Option<nat>)
    requires i <= |t|
    ensures r.Some? ==> i + |p.open| + 1 + |p.close| <= r.value <= |t|
  {
    var o := |p.open|;
    if OccursAt(t, p.open, i) then
      var j := FindChar(t, p.stop, i + o);
      var s, c := p.stopAt, |p.close|;
      if j < |t| && j >= i + o + 1 + s && j - s + c <= |t| && OccursAt(t, p.close, j - s)
      then Some(j - s + c)
      else None
    else None
  }

  /** `MatchEnd` finds the match at `i` when there is one, and there is at most one. */
  lemma MatchEndIsTheMatch(p: Pattern, t: string, i: nat, e: nat)
    requires i <= |t| && WellFormed(p)
    ensures MatchEnd(p, t, i) == Some(e) <==> MatchesAt(p, t, i, e)
  {
    if MatchesAt(p, t, i, e) {
      var o, s, c := |p.open|, p.stopAt, |p.close|;
      var j := FindChar(t, p.stop, i + o);
      var q := e - c + s;
      assert t[q] == p.stop by {
        assert t[e - c..e][s] == p.close[s];
      }
      forall m | i + o <= m < q ensures t[m] != p.stop {
        if m >= e - c {
          assert t[e - c..e][m - (e - c)] == p.close[m - (e - c)];
        }
      }
      assert j == q;
    }
  }

  /** What a pass produces: the rewritten text and the spans it found, in order. */
  datatype Pass = Pass(text: string, spans: seq<MathSpan>)

  /**
   * `s.replace(pattern, callback)` for the global pattern of `d`, numbering from `k`: a match
   * at the front becomes the placeholder numbered `k` and the scan goes on after it, otherwise
   * the first character is kept. A match only looks forward, so the scan of a suffix is the
   * scan of the whole string from that position.
   */
  function Scan(d: Delim, s: string, k: nat): Pass
    decreases |s|
  {
    if |s| == 0 then Pass([], [])
    else
      match MatchEnd(PatternOf(d), s, 0)
      case None =>
        var r := Scan(d, s[1..], k);
        Pass([s[0]] + r.text, r.spans)
      case Some(e) =>
        var r := Scan(d, s[e..], k + 1);
        Pass(Placeholder(TypeOf(d), k) + r.text, [SpanAt(d, s, 0, e)] + r.spans)
  }

  /** The span a match at `[i, e)` records: the group, the type and the whole match. */
  function SpanAt(d: Delim, t: string, i: nat, e: nat): MathSpan
    requires i + |Open(d)| <= e - |Close(d)| && e <= |t|
  {
    MathSpan(t[i + |Open(d)|..e - |Close(d)|], TypeOf(d), t[i..e])
  }

  lemma ScanSkip(d: Delim, s: string, k: nat)
    requires |s| > 0 && MatchEnd(PatternOf(d), s, 0).None?
    ensures Scan(d, s, k) == Pass([s[0]] + Scan(d, s[1..], k).text, Scan(d, s[1..], k).spans)
  {
  }

  lemma ScanMatch(d: Delim, s: string, k: nat, e: nat)
    requires MatchEnd(PatternOf(d), s, 0) == Some(e)
    ensures MatchesAt(PatternOf(d), s, 0, e)
    ensures var r := Scan(d, s[e..], k + 1);
      Scan(d, s, k) == Pass(Placeholder(TypeOf(d), k) + r.text, [SpanAt(d, s, 0, e)] + r.spans)
  {
    DelimFacts(d);
    MatchEndIsTheMatch(PatternOf(d), s, 0, e);
  }

  /** A span found by the pattern of `d`: its delimiters, a non-empty group, its type. */
  predicate IsSpanOf(d: Delim, s: MathSpan) {
    s.mtype == TypeOf(d) && s.original == Open(d) + s.latex + Close(d)
    && |s.latex| > 0 && Stop(d) !in s.latex
  }

  /** Every span in `spans` is a genuine match of the pattern of `d`. */
  predicate AllSpansOf(d: Delim, spans: seq<MathSpan>) {
    forall j :: 0 <= j < |spans| ==> IsSpanOf(d, spans[j])
  }

  /** Every span a pass records is a genuine match of its pattern. */
  lemma {:induction false} ScanSpans(d: Delim, s: string, k: nat)
    ensures AllSpansOf(d, Scan(d, s, k).spans)
    decreases |s|
  {
    if |s| > 0 {
      match MatchEnd(PatternOf(d), s, 0)
      case None =>
        ScanSkip(d, s, k);
        ScanSpans(d, s[1..], k);
      case Some(e) =>
        ScanMatch(d, s, k, e);
        SpanOfMatch(d, s, 0, e);
        ScanSpans(d, s[e..], k + 1);
        var r := Scan(d, s[e..], k + 1);
        assert Scan(d, s, k).spans == [SpanAt(d, s, 0, e)] + r.spans;
    }
  }

  /** The span built from a match of the pattern of `d`. */
  lemma SpanOfMatch(d: Delim, t: string, i: nat, e: nat)
    requires MatchesAt(PatternOf(d), t, i, e)
    ensures IsSpanOf(d, SpanAt(d, t, i, e))
  {
    MatchParts(PatternOf(d), t, i, e);
  }

  /** A match is its opening delimiter, a non-empty group without `stop`, and its closing delimiter. */
  lemma MatchParts(p: Pattern, t: string, i: nat, e: nat)
    requires MatchesAt(p, t, i, e)
    ensures var latex := t[i + |p.open|..e - |p.close|];
      t[i..e] == p.open + latex + p.close && |latex| > 0 && p.stop !in latex
  {
    var o, c := |p.open|, |p.close|;
    var latex := t[i + o..e - c];
    assert t[i..i + o] == p.open;
    assert t[e - c..e] == p.close;
    SliceThree(t, i, i + o, e - c, e);
    forall m | 0 <= m < |latex| ensures latex[m] != p.stop {
      assert latex[m] == t[i + o + m];
    }
  }

  /** A slice is the three slices it is cut into. */
  lemma SliceThree(t: string, i: nat, j: nat, k: nat, e: nat)
    requires i <= j <= k <= e <= |t|
    ensures t[i..e] == t[i..j] + t[j..k] + t[k..e]
  {
  }

  /** A pass over a text without its opening character leaves it alone and records nothing. */
  lemma {:induction false} ScanNoOpen(d: Delim, s: string, k: nat)
    requires forall m :: 0 <= m < |s| ==> s[m] != Open(d)[0]
    ensures Scan(d, s, k) == Pass(s, [])
    decreases |s|
  {
    if |s| > 0 {
      DelimFacts(d);
      if |Open(d)| <= |s| {
        assert s[..|Open(d)|][0] == s[0];
      }
      ScanNoOpen(d, s[1..], k);
      assert [s[0]] + s[1..] == s;
    }
  }

  /** The text and the spans after the first `n` passes (the loop of script.js:527-534). */
  function ExtractN(text: string, n: nat): Pass
    requires n <= |Passes|
  {
    if n == 0 then Pass(text, [])
    else
      var prev := ExtractN(text, n - 1);
      var r := Scan(Passes[n - 1], prev.text, |prev.spans|);
      Pass(r.text, prev.spans + r.spans)
  }

  /** The text with placeholders and the list `mathPlaceholders`. */
  function Extract(text: string): Pass {
    ExtractN(text, |Passes|)
  }

  /** Pass `n` scans what the earlier passes left, numbering on from the spans they found. */
  lemma ExtractStep(text: string, n: nat)
    requires n < |Passes|
    ensures var prev := ExtractN(text, n); var r := Scan(Passes[n], prev.text, |prev.spans|);
      ExtractN(text, n + 1) == Pass(r.text, prev.spans + r.spans)
  {
  }

  /**
   * The spans come numbered pass by pass: all `$$` spans first, then `$`, `\[` and `\(`.
   */
  lemma ExtractOrder(text: string) returns (n1: nat, n2: nat, n3: nat)
    ensures var spans := Extract(text).spans;
      n1 <= n2 <= n3 <= |spans|
      && (forall j :: 0 <= j < n1 ==> IsSpanOf(DoubleDollar, spans[j]))
      && (forall j :: n1 <= j < n2 ==> IsSpanOf(Dollar, spans[j]))
      && (forall j :: n2 <= j < n3 ==> IsSpanOf(Bracket, spans[j]))
      && (forall j :: n3 <= j < |spans| ==> IsSpanOf(Paren, spans[j]))
  {
    var e0, e1, e2, e3 := ExtractN(text, 0), ExtractN(text, 1), ExtractN(text, 2), ExtractN(text, 3);
    ExtractPassSpans(text, 0);
    ExtractPassSpans(text, 1);
    ExtractPassSpans(text, 2);
    ExtractPassSpans(text, 3);
    n1, n2, n3 := |e1.spans|, |e2.spans|, |e3.spans|;
    var spans := Extract(text).spans;
    assert Passes[0] == DoubleDollar && Passes[1] == Dollar && Passes[2] == Bracket && Passes[3] == Paren;
    assert e0.spans == [];
  }

  /**
   * Pass `n` keeps the spans found before it and appends genuine matches of its own pattern;
   * so do the passes after it.
   */
  lemma ExtractPassSpans(text: string, n: nat)
    requires n < |Passes|
    ensures var before, after, all := ExtractN(text, n).spans, ExtractN(text, n + 1).spans, Extract(text).spans;
      |before| <= |after| <= |all| && all[..|after|] == after && after[..|before|] == before
      && forall j :: |before| <= j < |after| ==> IsSpanOf(Passes[n], all[j])
  {
    var prev := ExtractN(text, n);
    var r := Scan(Passes[n], prev.text, |prev.spans|);
    ScanSpans(Passes[n], prev.text, |prev.spans|);
    ExtractPrefix(text, n + 1, |Passes|);
    var after, all := ExtractN(text, n + 1).spans, Extract(text).spans;
    assert after == prev.spans + r.spans;
    forall j | |prev.spans| <= j < |after| ensures IsSpanOf(Passes[n], all[j]) {
      assert all[j] == after[j] == r.spans[j - |prev.spans|];
    }
  }

  /** Later passes only append. */
  lemma {:induction false} ExtractPrefix(text: string, n: nat, m: nat)
    requires n <= m <= |Passes|
    ensures var a, b := ExtractN(text, n).spans, ExtractN(text, m).spans;
      |a| <= |b| && b[..|a|] == a
    decreases m - n
  {
    if n < m {
      ExtractPrefix(text, n + 1, m);
      var a, a1, b := ExtractN(text, n).spans, ExtractN(text, n + 1).spans, ExtractN(text, m).spans;
      assert a1[..|a|] == a;
      assert b[..|a|] == b[..|a1|][..|a|];
    }
  }

  /** Characters a placeholder is made of. */
  predicate IsPlaceholderChar(c: char) {
    c == '_' || IsAsciiUpper(c) || IsDigit(c)
  }

  /**
   * What every placeholder looks like: `__MATH_` in front, `__` at the end, only underscores,
   * upper-case letters and digits, and its only `M` is the one of `MATH`.
   */
  lemma PlaceholderShape(m: MathType, k: nat)
    ensures var p := Placeholder(m, k);
      |p| >= 17 && p[0] == '_' && p[1] == '_' && p[2] == 'M' && p[3] == 'A' && p[4] == 'T'
      && p[5] == 'H' && p[6] == '_' && p[|p| - 2] == '_' && p[|p| - 1] == '_'
      && p[7] == (if m == Inline then 'I' else 'D')
      && (forall o :: 0 <= o < |p| ==> IsPlaceholderChar(p[o]))
      && (forall o :: 0 <= o < |p| && p[o] == 'M' ==> o == 2)
  {
    var head := "__MATH_" + TypeName(m) + "_";
    var n := NatToString(k);
    var p := Placeholder(m, k);
    assert p == head + n + "__";
    assert |head| == 14 || |head| == 15;
    assert forall o :: 0 <= o < |head| ==> IsPlaceholderChar(head[o]) && (head[o] == 'M' ==> o == 2);
    forall o | 0 <= o < |p|
      ensures IsPlaceholderChar(p[o]) && (p[o] == 'M' ==> o == 2)
    {
      if o < |head| {
        assert p[o] == head[o];
      } else if o < |head| + |n| {
        assert p[o] == n[o - |head|];
      }
    }
  }

  /** `$$x$$` is one display span, never two inline ones. */
  lemma DisplayDollarsOneSpan(x: string)
    requires |x| > 0 && '$' !in x
    ensures Extract("$$" + x + "$$") == Pass(Placeholder(Display, 0), [MathSpan(x, Display, "$$" + x + "$$")])
  {
    var t := "$$" + x + "$$";
    DoubleDollarPass(x);
    PlaceholderShape(Display, 0);
    QuietPass(t, 1);
    QuietPass(t, 2);
    QuietPass(t, 3);
  }

  /** A later pass over a text of placeholder characters changes nothing. */
  lemma QuietPass(text: string, n: nat)
    requires 1 <= n < |Passes|
    requires forall m :: 0 <= m < |ExtractN(text, n).text| ==> IsPlaceholderChar(ExtractN(text, n).text[m])
    ensures ExtractN(text, n + 1) == ExtractN(text, n)
  {
    var prev := ExtractN(text, n);
    var d := Passes[n];
    DelimFacts(d);
    ScanNoOpen(d, prev.text, |prev.spans|);
    assert prev.spans + [] == prev.spans;
  }

  /** A text that is one whole match becomes one placeholder and one span. */
  lemma WholeMatch(d: Delim, t: string, k: nat)
    requires MatchEnd(PatternOf(d), t, 0) == Some(|t|)
    ensures Scan(d, t, k) == Pass(Placeholder(TypeOf(d), k), [SpanAt(d, t, 0, |t|)])
  {
    ScanMatch(d, t, k, |t|);
    assert t[|t|..] == [];
    var p := Placeholder(TypeOf(d), k);
    assert p + [] == p;
  }

  /** `open + x + close` is one whole match of the pattern of `d`, whose group is `x`. */
  lemma DelimitedMatch(d: Delim, x: string)
    requires |x| > 0 && Stop(d) !in x
    ensures var t := Open(d) + x + Close(d);
      && MatchEnd(PatternOf(d), t, 0) == Some(|t|)
      && SpanAt(d, t, 0, |t|) == MathSpan(x, TypeOf(d), t)
  {
    var t := Open(d) + x + Close(d);
    DelimFacts(d);
    WrappedMatches(PatternOf(d), x);
    MatchEndIsTheMatch(PatternOf(d), t, 0, |t|);
  }

  /** `open + x + close`, for a group `x` without `stop`, is one whole match whose group is `x`. */
  lemma WrappedMatches(p: Pattern, x: string)
    requires |x| > 0 && p.stop !in x
    ensures var t := p.open + x + p.close;
      MatchesAt(p, t, 0, |t|) && t[|p.open|..|t| - |p.close|] == x && t[0..|t|] == t
  {
    var o, c := p.open, p.close;
    var t := o + x + c;
    var e := |t|;
    forall m | |o| <= m < e - |c| ensures t[m] != p.stop {
      assert t[m] == x[m - |o|];
    }
    assert e - |c| == |o + x| && t == (o + x) + c;
    assert t[e - |c|..e] == c;
    assert t[0..|o|] == o;
  }

  /** The pass of `d` over `open + x + close` leaves one placeholder and records `x`. */
  lemma DelimitedScan(d: Delim, x: string, k: nat)
    requires |x| > 0 && Stop(d) !in x
    ensures var t := Open(d) + x + Close(d);
      Scan(d, t, k) == Pass(Placeholder(TypeOf(d), k), [MathSpan(x, TypeOf(d), t)])
  {
    DelimitedMatch(d, x);
    WholeMatch(d, Open(d) + x + Close(d), k);
  }

  /** The `$$` pass turns `$$x$$` into one placeholder. */
  lemma DoubleDollarPass(x: string)
    requires |x| > 0 && '$' !in x
    ensures ExtractN("$$" + x + "$$", 1) == Pass(Placeholder(Display, 0), [MathSpan(x, Display, "$$" + x + "$$")])
  {
    var t := "$$" + x + "$$";
    DelimitedMatch(DoubleDollar, x);
    WholeMatch(DoubleDollar, t, 0);
    FirstPass(t);
  }

  /** The first pass is the `$$` scan of the input, numbering from 0. */
  lemma FirstPass(t: string)
    ensures ExtractN(t, 1) == Scan(DoubleDollar, t, 0)
  {
    assert Passes[0] == DoubleDollar;
    var r := Scan(DoubleDollar, t, 0);
    assert ExtractN(t, 1) == Pass(r.text, [] + r.spans);
    assert [] + r.spans == r.spans;
  }

  /** The size and data of one image (the fields of `mathImages` the exporter reads). */
  datatype MathImage = MathImage(width: real, height: real, latex: string, mtype: MathType)

  /** The font size `createTextBasedMathImage` draws with. */
  function FontSize(m: MathType): int {
    if m == Inline then 14 else 18
  }

  /** `Math.round`: half-way cases go up. */
  function Round(x: real): int {
    (x + 0.5).Floor
  }

  /**
   * The image for one span, sized as script.js:558-581 sizes it: the measured text width of
   * the rewritten LaTeX plus 2 of padding on each side, the font size plus 4 high, and inline
   * images scaled to 8 high. `measure` stands for the canvas: `None` when drawing fails.
   */
  function RenderSpan(s: MathSpan, measure: (string, int) -> Option<real>): (r: Option<MathImage>)
    ensures r.Some? <==> measure(LatexText.LatexToText(s.latex), FontSize(s.mtype)).Some?
    ensures r.Some? ==> r.value.latex == s.latex && r.value.mtype == s.mtype
  {
    match measure(LatexText.LatexToText(s.latex), FontSize(s.mtype))
    case None => None
    case Some(textWidth) =>
      var w, h := textWidth + 4.0, FontSize(s.mtype) as real + 4.0;
      if s.mtype == Inline && h > 8.0 then
        var scale := 8.0 / h;
        Some(MathImage(Round(w * scale) as real, Round(h * scale) as real, s.latex, s.mtype))
      else Some(MathImage(w, h, s.latex, s.mtype))
  }

  /**
   * Inline images come out 8 high and 4/9 of the padded text width, rounded; display images
   * keep the padded text width and are 22 high.
   */
  lemma ImageSize(s: MathSpan, measure: (string, int) -> Option<real>)
    requires RenderSpan(s, measure).Some?
    ensures var img := RenderSpan(s, measure).value;
      var w := measure(LatexText.LatexToText(s.latex), FontSize(s.mtype)).value + 4.0;
      && (s.mtype == Inline ==> img.height == 8.0 && -0.5 < img.width - w * 4.0 / 9.0 <= 0.5)
      && (s.mtype == Display ==> img.height == 22.0 && img.width == w)
  {
    var w := measure(LatexText.LatexToText(s.latex), FontSize(s.mtype)).value + 4.0;
    if s.mtype == Inline {
      assert 18.0 * (8.0 / 18.0) == 8.0;
      assert w * (8.0 / 18.0) == w * 4.0 / 9.0;
    }
  }

  /** The image list entry a span contributes: its image, or nothing when drawing failed. */
  function Drawn(s: MathSpan, measure: (string, int) -> Option<real>): seq<MathImage> {
    match RenderSpan(s, measure)
    case Some(img) => [img]
    case None => []
  }

  /** The images of the first `n` spans, in span order, skipping the ones that failed. */
  function RenderN(spans: seq<MathSpan>, measure: (string, int) -> Option<real>, n: nat): seq<MathImage>
    requires n <= |spans|
  {
    if n == 0 then []
    else
      RenderN(spans, measure, n - 1) + Drawn(spans[n - 1], measure)
  }

  /** Some span among the first `n` has group `latex` and was drawn. */
  predicate DrawnAmong(spans: seq<MathSpan>, measure: (string, int) -> Option<real>, n: nat, latex: string)
    requires n <= |spans|
  {
    exists j :: 0 <= j < n && spans[j].latex == latex && RenderSpan(spans[j], measure).Some?
  }

  /** There is an image for `latex` exactly when some span with that group was drawn. */
  lemma {:induction false} RenderNImages(spans: seq<MathSpan>, measure: (string, int) -> Option<real>, n: nat, latex: string)
    requires n <= |spans|
    ensures HasImage(RenderN(spans, measure, n), latex) <==> DrawnAmong(spans, measure, n, latex)
  {
    if n > 0 {
      RenderNImages(spans, measure, n - 1, latex);
      HasImageStep(spans, measure, n, latex);
      DrawnAmongStep(spans, measure, n, latex);
    }
  }

  /** The images of the first `n` spans hold `latex` when those of the first `n - 1` do or span `n - 1` adds it. */
  lemma HasImageStep(spans: seq<MathSpan>, measure: (string, int) -> Option<real>, n: nat, latex: string)
    requires 0 < n <= |spans|
    ensures HasImage(RenderN(spans, measure, n), latex)
        <==> HasImage(RenderN(spans, measure, n - 1), latex)
             || (spans[n - 1].latex == latex && RenderSpan(spans[n - 1], measure).Some?)
  {
    HasImageAppend(RenderN(spans, measure, n - 1), Drawn(spans[n - 1], measure), latex);
    DrawnHasImage(spans[n - 1], measure, latex);
  }

  lemma DrawnHasImage(s: MathSpan, measure: (string, int) -> Option<real>, latex: string)
    ensures HasImage(Drawn(s, measure), latex) <==> RenderSpan(s, measure).Some? && s.latex == latex
  {
    if RenderSpan(s, measure).Some? {
      assert Drawn(s, measure)[0].latex == s.latex;
    }
  }

  lemma DrawnAmongStep(spans: seq<MathSpan>, measure: (string, int) -> Option<real>, n: nat, latex: string)
    requires 0 < n <= |spans|
    ensures DrawnAmong(spans, measure, n, latex)
        <==> DrawnAmong(spans, measure, n - 1, latex)
             || (spans[n - 1].latex == latex && RenderSpan(spans[n - 1], measure).Some?)
  {
    if DrawnAmong(spans, measure, n, latex) {
      var j :| 0 <= j < n && spans[j].latex == latex && RenderSpan(spans[j], measure).Some?;
      if j < n - 1 {
        assert DrawnAmong(spans, measure, n - 1, latex);
      }
    }
  }

  lemma HasImageAppend(a: seq<MathImage>, b: seq<MathImage>, latex: string)
    ensures HasImage(a + b, latex) <==> HasImage(a, latex) || HasImage(b, latex)
  {
    if HasImage(a + b, latex) {
      var i :| 0 <= i < |a + b| && (a + b)[i].latex == latex;
      if i < |a| {
        assert a[i].latex == latex;
      } else {
        assert b[i - |a|].latex == latex;
      }
    }
    if HasImage(a, latex) {
      var i :| 0 <= i < |a| && a[i].latex == latex;
      assert (a + b)[i].latex == latex;
    }
    if HasImage(b, latex) {
      var i :| 0 <= i < |b| && b[i].latex == latex;
      assert (a + b)[|a| + i].latex == latex;
    }
  }

  /** `mathImages.some(img => img.latex === mathItem.latex)`. */
  predicate HasImage(images: seq<MathImage>, latex: string) {
    exists i :: 0 <= i < |images| && images[i].latex == latex
  }

  /** What placeholder `k` turns into: nothing when an image stands for it, else a numbered note. */
  function Replacement(spans: seq<MathSpan>, images: seq<MathImage>, k: nat): string
    requires k < |spans|
  {
    if HasImage(images, spans[k].latex) then "" else "[Math Expression " + NatToString(k + 1) + "]"
  }

  /** A placeholder is erased exactly when some span with the same group, maybe another one, was drawn. */
  lemma ReplacementIsBlankIff(spans: seq<MathSpan>, measure: (string, int) -> Option<real>, k: nat)
    requires k < |spans|
    ensures Replacement(spans, RenderN(spans, measure, |spans|), k) == ""
        <==> DrawnAmong(spans, measure, |spans|, spans[k].latex)
  {
    RenderNImages(spans, measure, |spans|, spans[k].latex);
  }

  /** The last pass (script.js:590-599) applied to the first `n` placeholders, in index order. */
  function ResolveN(t: string, spans: seq<MathSpan>, images: seq<MathImage>, n: nat): string
    requires n <= |spans|
  {
    if n == 0 then t
    else
      JsReplace(ResolveN(t, spans, images, n - 1), Placeholder(spans[n - 1].mtype, n - 1), Replacement(spans, images, n - 1))
  }

  /**
   * `processMathExpressions(text)`: the text with its math resolved and the list of images.
   * `measure(mathText, fontSize)` is the canvas measuring the rewritten LaTeX, `None` when
   * `createTextBasedMathImage` fails.
   */
  method ProcessMathExpressions(text: string, measure: (string, int) -> Option<real>)
    returns (processed: string, mathImages: seq<MathImage>)
    ensures var Pass(t, spans) := Extract(text);
      mathImages == RenderN(spans, measure, |spans|)
      && processed == ResolveN(t, spans, mathImages, |spans|)
  {
    var mathPlaceholders: seq<MathSpan> := [];
    var processedText := text;
    for p := 0 to |Passes|
      invariant Pass(processedText, mathPlaceholders) == ExtractN(text, p)
    {
      var r := Scan(Passes[p], processedText, |mathPlaceholders|);
      ExtractStep(text, p);
      processedText := r.text;
      mathPlaceholders := mathPlaceholders + r.spans;
    }
    mathImages := [];
    for k := 0 to |mathPlaceholders|
      invariant mathImages == RenderN(mathPlaceholders, measure, k)
    {
      var image := RenderSpan(mathPlaceholders[k], measure);
      if image.Some? {
        mathImages := mathImages + [image.value];
      }
      assert image.Some? ==> Drawn(mathPlaceholders[k], measure) == [image.value];
    }
    ghost var extracted := processedText;
    for k := 0 to |mathPlaceholders|
      invariant processedText == ResolveN(extracted, mathPlaceholders, mathImages, k)
    {
      var placeholder := Placeholder(mathPlaceholders[k].mtype, k);
      if HasImage(mathImages, mathPlaceholders[k].latex) {
        processedText := JsReplace(processedText, placeholder, "");
      } else {
        processedText := JsReplace(processedText, placeholder, "[Math Expression " + NatToString(k + 1) + "]");
      }
    }
    processed := processedText;
  }
}
