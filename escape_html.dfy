/**
 * What `escapeHtml` of the student page (student.js:157-207) computes: the math spans are
 * set aside behind placeholders, the rest is HTML-escaped, and the spans are put back with
 * `String.prototype.replace`, whose replacement argument is a template (`$$` stands for `$`).
 *
 * The first pass of the source, for `\(...\)` (student.js:164), is not a valid regular
 * expression (an unmatched `)`): the script does not parse as written. The three valid passes
 * are modelled, in their order: `\[...\]`, `$$...$$`, `$...$`, sharing one counter.
 */
module HtmlEscape {
  import opened Wrappers
  import opened JsString
  import opened MathSpans

  /** One more pass of `d` over the text so far, numbering on from the spans found so far. */
  function AfterPass(d: Delim, prev: Pass): Pass {
    var r := Scan(d, prev.text, |prev.spans|);
    Pass(r.text, prev.spans + r.spans)
  }

  /** One pass as the callbacks see it: its text, and its whole spans pushed after the earlier ones. */
  lemma AfterPassPushes(d: Delim, prev: Pass)
    ensures AfterPass(d, prev).text == Scan(d, prev.text, |prev.spans|).text
    ensures Originals(AfterPass(d, prev).spans) == Originals(prev.spans) + Originals(Scan(d, prev.text, |prev.spans|).spans)
  {
  }

  /** The passes of student.js:171-188, in their order: `\[...\]`, then `$$...$$`, then `$...$`. */
  function Protect(text: string): Pass {
    AfterPass(Dollar, AfterPass(DoubleDollar, AfterPass(Bracket, Pass(text, []))))
  }

  /** A pass that finds nothing changes nothing. */
  lemma NothingFound(d: Delim, prev: Pass)
    requires Scan(d, prev.text, |prev.spans|) == Pass(prev.text, [])
    ensures AfterPass(d, prev) == prev
  {
    assert prev.spans + [] == prev.spans;
  }

  /** The passes leave exactly the placeholder `p` and the one span `s`. */
  predicate ProtectsAs(text: string, p: string, s: MathSpan) {
    Protect(text).text == p && Protect(text).spans == [s]
  }

  /** A span found by the first pass, and nothing by the two others. */
  lemma FirstPassOnly(t: string, p: string, s: MathSpan)
    requires Scan(Bracket, t, 0) == Pass(p, [s])
    requires Scan(DoubleDollar, p, 1) == Pass(p, [])
    requires Scan(Dollar, p, 1) == Pass(p, [])
    ensures ProtectsAs(t, p, s)
  {
    assert [] + [s] == [s];
    NothingFound(DoubleDollar, Pass(p, [s]));
    NothingFound(Dollar, Pass(p, [s]));
  }

  /** A span found by the second pass, and nothing by the two others. */
  lemma SecondPassOnly(t: string, p: string, s: MathSpan)
    requires Scan(Bracket, t, 0) == Pass(t, [])
    requires Scan(DoubleDollar, t, 0) == Pass(p, [s])
    requires Scan(Dollar, p, 1) == Pass(p, [])
    ensures ProtectsAs(t, p, s)
  {
    NothingFound(Bracket, Pass(t, []));
    assert [] + [s] == [s];
    NothingFound(Dollar, Pass(p, [s]));
  }

  /** A span found by the third pass, and nothing by the two others. */
  lemma ThirdPassOnly(t: string, p: string, s: MathSpan)
    requires Scan(Bracket, t, 0) == Pass(t, [])
    requires Scan(DoubleDollar, t, 0) == Pass(t, [])
    requires Scan(Dollar, t, 0) == Pass(p, [s])
    ensures ProtectsAs(t, p, s)
  {
    NothingFound(Bracket, Pass(t, []));
    NothingFound(DoubleDollar, Pass(t, []));
    assert [] + [s] == [s];
  }

  /** The entity a character is replaced by, or the character itself. */
  function EscapeChar(c: char): string {
    if c == '&' then "&amp;"
    else if c == '<' then "&lt;"
    else if c == '>' then "&gt;"
    else if c == '"' then "&quot;"
    else if c == '\'' then "&#39;"
    else [c]
  }

  /** Every character escaped on its own. */
  function EscapeAll(s: string): string {
    if |s| == 0 then [] else EscapeChar(s[0]) + EscapeAll(s[1..])
  }

  /**
   * `s.replace(/c/g, rep)` for a replacement without `$`: every `c` becomes `rep`, and what
   * was inserted is not looked at again.
   */
  function ReplaceAllChar(s: string, c: char, rep: string): string {
    if |s| == 0 then [] else (if s[0] == c then rep else [s[0]]) + ReplaceAllChar(s[1..], c, rep)
  }

  /** The five replacements of student.js:191-196, in their order. */
  function EscapeChain(s: string): string {
    var amp := ReplaceAllChar(s, '&', "&amp;");
    var lt := ReplaceAllChar(amp, '<', "&lt;");
    var gt := ReplaceAllChar(lt, '>', "&gt;");
    var quot := ReplaceAllChar(gt, '"', "&quot;");
    ReplaceAllChar(quot, '\'', "&#39;")
  }

  lemma {:induction false} ReplaceAllCharAppend(a: string, b: string, c: char, rep: string)
    ensures ReplaceAllChar(a + b, c, rep) == ReplaceAllChar(a, c, rep) + ReplaceAllChar(b, c, rep)
    decreases |a|
  {
    if |a| == 0 {
      assert a + b == b;
    } else {
      assert (a + b)[1..] == a[1..] + b;
      ReplaceAllCharAppend(a[1..], b, c, rep);
    }
  }

  lemma {:induction false} ReplaceAllCharAbsent(s: string, c: char, rep: string)
    requires c !in s
    ensures ReplaceAllChar(s, c, rep) == s
    decreases |s|
  {
    if |s| > 0 {
      ReplaceAllCharAbsent(s[1..], c, rep);
      assert [s[0]] + s[1..] == s;
    }
  }

  lemma EscapeChainAppend(a: string, b: string)
    ensures EscapeChain(a + b) == EscapeChain(a) + EscapeChain(b)
  {
    var a1, b1 := ReplaceAllChar(a, '&', "&amp;"), ReplaceAllChar(b, '&', "&amp;");
    ReplaceAllCharAppend(a, b, '&', "&amp;");
    var a2, b2 := ReplaceAllChar(a1, '<', "&lt;"), ReplaceAllChar(b1, '<', "&lt;");
    ReplaceAllCharAppend(a1, b1, '<', "&lt;");
    var a3, b3 := ReplaceAllChar(a2, '>', "&gt;"), ReplaceAllChar(b2, '>', "&gt;");
    ReplaceAllCharAppend(a2, b2, '>', "&gt;");
    var a4, b4 := ReplaceAllChar(a3, '"', "&quot;"), ReplaceAllChar(b3, '"', "&quot;");
    ReplaceAllCharAppend(a3, b3, '"', "&quot;");
    ReplaceAllCharAppend(a4, b4, '\'', "&#39;");
  }

  lemma ReplaceAllCharOne(c: char, x: char, rep: string)
    ensures ReplaceAllChar([c], x, rep) == if c == x then rep else [c]
  {
    assert [c][1..] == [];
  }

  /** One character through the five replacements comes out as its entity, escaped once. */
  lemma EscapeChainChar(c: char)
    ensures EscapeChain([c]) == EscapeChar(c)
  {
    if c == '&' {
      ChainAmp(c);
    } else if c == '<' {
      ChainLt(c);
    } else if c == '>' {
      ChainGt(c);
    } else if c == '"' {
      ChainQuot(c);
    } else {
      ChainRest(c);
    }
  }

  lemma ChainAmp(c: char)
    requires c == '&'
    ensures EscapeChain([c]) == "&amp;"
  {
    ReplaceAllCharOne(c, '&', "&amp;");
    EntityUntouched("&amp;");
  }

  lemma ChainLt(c: char)
    requires c == '<'
    ensures EscapeChain([c]) == "&lt;"
  {
    ReplaceAllCharOne(c, '&', "&amp;");
    ReplaceAllCharOne(c, '<', "&lt;");
    LtUntouched("&lt;");
  }

  /** `&lt;` goes through the three later replacements unchanged. */
  lemma LtUntouched(e: string)
    requires e == "&lt;"
    ensures ReplaceAllChar(ReplaceAllChar(ReplaceAllChar(e, '>', "&gt;"), '"', "&quot;"), '\'', "&#39;") == e
  {
    ReplaceAllCharAbsent(e, '>', "&gt;");
    ReplaceAllCharAbsent(e, '"', "&quot;");
    ReplaceAllCharAbsent(e, '\'', "&#39;");
  }

  lemma ChainGt(c: char)
    requires c == '>'
    ensures EscapeChain([c]) == "&gt;"
  {
    ReplaceAllCharOne(c, '&', "&amp;");
    ReplaceAllCharOne(c, '<', "&lt;");
    ReplaceAllCharOne(c, '>', "&gt;");
    ReplaceAllCharAbsent("&gt;", '"', "&quot;");
    ReplaceAllCharAbsent("&gt;", '\'', "&#39;");
  }

  lemma ChainQuot(c: char)
    requires c == '"'
    ensures EscapeChain([c]) == "&quot;"
  {
    ReplaceAllCharOne(c, '&', "&amp;");
    ReplaceAllCharOne(c, '<', "&lt;");
    ReplaceAllCharOne(c, '>', "&gt;");
    ReplaceAllCharOne(c, '"', "&quot;");
    ReplaceAllCharAbsent("&quot;", '\'', "&#39;");
  }

  lemma ChainRest(c: char)
    requires c != '&' && c != '<' && c != '>' && c != '"'
    ensures EscapeChain([c]) == EscapeChar(c)
  {
    ReplaceAllCharOne(c, '&', "&amp;");
    ReplaceAllCharOne(c, '<', "&lt;");
    ReplaceAllCharOne(c, '>', "&gt;");
    ReplaceAllCharOne(c, '"', "&quot;");
    ReplaceAllCharOne(c, '\'', "&#39;");
  }

  /** `&amp;` goes through the four later replacements unchanged. */
  lemma EntityUntouched(e: string)
    requires e == "&amp;"
    ensures ReplaceAllChar(ReplaceAllChar(ReplaceAllChar(ReplaceAllChar(e, '<', "&lt;"), '>', "&gt;"), '"', "&quot;"), '\'', "&#39;") == e
  {
    ReplaceAllCharAbsent(e, '<', "&lt;");
    ReplaceAllCharAbsent(e, '>', "&gt;");
    ReplaceAllCharAbsent(e, '"', "&quot;");
    ReplaceAllCharAbsent(e, '\'', "&#39;");
  }

  /**
   * Because `&` is replaced first, the chain of five global replacements escapes every
   * character of the original exactly once: the `&` of an inserted entity is never escaped again.
   */
  lemma {:induction false} EscapeChainIsCharMap(s: string)
    ensures EscapeChain(s) == EscapeAll(s)
    decreases |s|
  {
    if |s| > 0 {
      assert s == [s[0]] + s[1..];
      EscapeChainAppend([s[0]], s[1..]);
      EscapeChainChar(s[0]);
      EscapeChainIsCharMap(s[1..]);
    } else {
      ReplaceAllCharAbsent(s, '&', "&amp;");
      ReplaceAllCharAbsent(s, '<', "&lt;");
      ReplaceAllCharAbsent(s, '>', "&gt;");
      ReplaceAllCharAbsent(s, '"', "&quot;");
      ReplaceAllCharAbsent(s, '\'', "&#39;");
    }
  }

  /** Characters that end or open markup. */
  predicate IsMarkup(c: char) {
    c == '<' || c == '>' || c == '"' || c == '\''
  }

  /** The escaped text holds no `<`, `>`, `"` or `'`, and every `&` in it starts an entity the escaping wrote. */
  lemma {:induction false} EscapedIsInert(s: string)
    ensures forall i :: 0 <= i < |EscapeAll(s)| ==> !IsMarkup(EscapeAll(s)[i])
    ensures |EscapeAll(s)| >= |s|
    decreases |s|
  {
    if |s| > 0 {
      EscapedIsInert(s[1..]);
      var h, t := EscapeChar(s[0]), EscapeAll(s[1..]);
      assert forall i :: 0 <= i < |h| ==> !IsMarkup(h[i]);
      assert forall i :: 0 <= i < |h + t| ==> (h + t)[i] == if i < |h| then h[i] else t[i - |h|];
    }
  }

  /** A text without `&` and markup characters is left as it is. */
  lemma {:induction false} EscapeAllPlain(s: string)
    requires forall i :: 0 <= i < |s| ==> s[i] != '&' && !IsMarkup(s[i])
    ensures EscapeAll(s) == s
    decreases |s|
  {
    if |s| > 0 {
      EscapeAllPlain(s[1..]);
      assert [s[0]] + s[1..] == s;
    }
  }

  /** The placeholder a span is looked up under when it is put back (student.js:200-202). */
  function RestoreTarget(expression: string, index: nat): string {
    if Includes(expression, "$$") then Placeholder(Display, index) else Placeholder(Inline, index)
  }

  /** The first `n` spans put back, in index order, each through `replace` and its template. */
  function RestoreN(t: string, expressions: seq<string>, n: nat): string
    requires n <= |expressions|
  {
    if n == 0 then t
    else JsReplace(RestoreN(t, expressions, n - 1), RestoreTarget(expressions[n - 1], n - 1), expressions[n - 1])
  }

  /** `mathPlaceholders`: the whole text of every span, as the callbacks push it back together. */
  function Originals(spans: seq<MathSpan>): (r: seq<string>)
    ensures |r| == |spans| && forall i :: 0 <= i < |spans| ==> r[i] == spans[i].original
  {
    seq(|spans|, i requires 0 <= i < |spans| => spans[i].original)
  }

  /** `escapeHtml(text)`. */
  function Escaped(text: string): string {
    var p := Protect(text);
    RestoreN(EscapeAll(p.text), Originals(p.spans), |p.spans|)
  }

  /** Text without math delimiters is escaped character by character and nothing else. */
  lemma PlainTextEscaped(text: string)
    requires '$' !in text && '\\' !in text
    ensures Escaped(text) == EscapeAll(text)
  {
    DelimFacts(Bracket);
    DelimFacts(DoubleDollar);
    DelimFacts(Dollar);
    ScanNoOpen(Bracket, text, 0);
    ScanNoOpen(DoubleDollar, text, 0);
    ScanNoOpen(Dollar, text, 0);
    NothingFound(Bracket, Pass(text, []));
    NothingFound(DoubleDollar, Pass(text, []));
    NothingFound(Dollar, Pass(text, []));
  }

  /** A character in none of three parts is nowhere in their concatenation. */
  lemma Wrapped(o: string, x: string, c: string, ch: char)
    requires ch !in o && ch !in x && ch !in c
    ensures forall m :: 0 <= m < |o + x + c| ==> (o + x + c)[m] != ch
  {
    forall m | 0 <= m < |o + x + c| ensures (o + x + c)[m] != ch {
      if m < |o| {
        assert (o + x + c)[m] == o[m];
      } else if m < |o| + |x| {
        assert (o + x + c)[m] == x[m - |o|];
      } else {
        assert (o + x + c)[m] == c[m - |o| - |x|];
      }
    }
  }

  /** A text without `$` does not include `$$`. */
  lemma NoDollarNoDoubleDollar(t: string)
    requires '$' !in t
    ensures !Includes(t, "$$")
  {
    NoDollarPair(t);
  }

  /** Placeholders hold no character the escaping touches. */
  lemma EscapePlaceholder(m: MathType, k: nat)
    ensures EscapeAll(Placeholder(m, k)) == Placeholder(m, k)
    ensures '$' !in Placeholder(m, k) && '\\' !in Placeholder(m, k)
  {
    PlaceholderShape(m, k);
    EscapeAllPlain(Placeholder(m, k));
  }

  /** A text without two `$` in a row does not include `$$`. */
  lemma NoDollarPair(t: string)
    requires forall i :: 0 <= i < |t| - 1 ==> !(t[i] == '$' && t[i + 1] == '$')
    ensures forall q: nat :: !OccursAt(t, "$$", q)
    ensures !Includes(t, "$$")
  {
    forall q: nat | q + 2 <= |t| ensures !OccursAt(t, "$$", q) {
      assert t[q..q + 2][0] == t[q] && t[q..q + 2][1] == t[q + 1];
    }
  }

  /** A text that the passes turn into one placeholder is that span, put back through its template. */
  lemma OneSpanRestored(text: string, m: MathType, s: MathSpan)
    requires ProtectsAs(text, Placeholder(m, 0), s)
    requires RestoreTarget(s.original, 0) == Placeholder(m, 0)
    ensures var p := Placeholder(m, 0);
      Escaped(text) == GetSubstitution(p, p, 0, s.original)
  {
    var p := Placeholder(m, 0);
    EscapePlaceholder(m, 0);
    var o := Originals([s]);
    assert o == [s.original];
    assert RestoreN(EscapeAll(p), o, 0) == p;
    assert IndexOf(p, p) == Some(0);
    assert JsReplace(p, p, s.original) == p[..0] + GetSubstitution(p, p, 0, s.original) + p[|p|..];
    assert p[..0] == [] && p[|p|..] == [];
    assert Escaped(text) == RestoreN(EscapeAll(p), o, 1);
  }

  /** A pass over a single placeholder finds nothing. */
  lemma QuietWithoutDollar(d: Delim, t: string, j: nat)
    requires d == DoubleDollar || d == Dollar
    requires '$' !in t
    ensures Scan(d, t, j) == Pass(t, [])
  {
    DelimFacts(d);
    ScanNoOpen(d, t, j);
  }

  /** Without two `$` in a row the `$$` pass finds nothing. */
  lemma {:induction false} NoDoubleDollarScan(s: string, k: nat)
    requires forall i :: 0 <= i < |s| - 1 ==> !(s[i] == '$' && s[i + 1] == '$')
    ensures Scan(DoubleDollar, s, k) == Pass(s, [])
    decreases |s|
  {
    if |s| > 0 {
      NoDollarPair(s);
      NoDoubleDollarScan(s[1..], k);
      assert [s[0]] + s[1..] == s;
    }
  }

  /** `$$x$$` is one display span, looked up under its display placeholder. */
  lemma DisplayProtected(x: string) returns (s: MathSpan)
    requires |x| > 0 && '$' !in x && '\\' !in x
    ensures var t := "$$" + x + "$$";
      && s == MathSpan(x, Display, t)
      && ProtectsAs(t, Placeholder(Display, 0), s)
  {
    var t := "$$" + x + "$$";
    var p := Placeholder(Display, 0);
    s := MathSpan(x, Display, t);
    DelimFacts(Bracket);
    Wrapped("$$", x, "$$", '\\');
    ScanNoOpen(Bracket, t, 0);
    DelimitedScan(DoubleDollar, x, 0);
    EscapePlaceholder(Display, 0);
    QuietWithoutDollar(Dollar, p, 1);
    SecondPassOnly(t, p, s);
  }

  /** An expression that starts with `$$` is looked up under its display placeholder. */
  lemma DisplayTarget(t: string, k: nat)
    requires |t| >= 2 && t[0] == '$' && t[1] == '$'
    ensures RestoreTarget(t, k) == Placeholder(Display, k)
  {
    assert OccursAt(t, "$$", 0) by {
      assert t[0..2] == "$$";
    }
    IncludesIffOccurs(t, "$$", 0);
  }

  /**
   * `$$x$$` comes back as `$x$`: the expression is used as a replacement template, where `$$`
   * stands for one `$`, so a display formula is shown as an inline one.
   */
  lemma DisplayDollarsUnwrapped(x: string)
    requires |x| > 0 && '$' !in x && '\\' !in x
    ensures Escaped("$$" + x + "$$") == "$" + x + "$"
  {
    var s := DisplayProtected(x);
    DisplayTarget("$$" + x + "$$", 0);
    OneSpanRestored("$$" + x + "$$", Display, s);
    var p := Placeholder(Display, 0);
    DoubleDollarTemplate(p, p, 0, x);
  }

  /** `\\[x\\]` is one display span, and it holds no `$`. */
  lemma BracketProtected(x: string) returns (s: MathSpan)
    requires |x| > 0 && ']' !in x && '$' !in x
    ensures var t := "\\[" + x + "\\]";
      && s == MathSpan(x, Display, t)
      && ProtectsAs(t, Placeholder(Display, 0), s)
  {
    var t := "\\[" + x + "\\]";
    var p := Placeholder(Display, 0);
    s := MathSpan(x, Display, t);
    DelimitedScan(Bracket, x, 0);
    EscapePlaceholder(Display, 0);
    QuietWithoutDollar(DoubleDollar, p, 1);
    QuietWithoutDollar(Dollar, p, 1);
    FirstPassOnly(t, p, s);
  }

  /** The inline placeholder does not occur in the display placeholder of the same number. */
  lemma InlineNotInDisplay()
    ensures IndexOf(Placeholder(Display, 0), Placeholder(Inline, 0)) == None
  {
    var p, q := Placeholder(Display, 0), Placeholder(Inline, 0);
    PlaceholderShape(Inline, 0);
    PlaceholderShape(Display, 0);
    assert NatToString(0) == "0";
    assert |p| == 18 && |q| == 17;
    forall j: nat ensures !OccursAt(p, q, j) {
      if j + 17 <= 18 {
        assert p[j..j + 17][7 - j] == p[7] && q[7 - j] != p[7];
      }
    }
  }

  /**
   * `\[x\]` is stored under the display placeholder but looked up under the inline one, so
   * it is never put back: the placeholder itself is what the page shows.
   */
  lemma BracketNeverRestored(x: string)
    requires |x| > 0 && ']' !in x && '$' !in x
    ensures Escaped("\\[" + x + "\\]") == Placeholder(Display, 0)
  {
    var t := "\\[" + x + "\\]";
    var p := Placeholder(Display, 0);
    var s := BracketProtected(x);
    Wrapped("\\[", x, "\\]", '$');
    NoDollarNoDoubleDollar(t);
    EscapePlaceholder(Display, 0);
    var o := Originals([s]);
    assert o == [t];
    assert RestoreN(EscapeAll(p), o, 0) == p;
    InlineNotInDisplay();
    assert Escaped(t) == RestoreN(EscapeAll(p), o, 1);
  }

  /** `$x$` comes back as it was when `x` does not start with a character `$` gives a meaning to. */
  lemma InlineDollarsRestored(x: string)
    requires |x| > 0 && '$' !in x && '\\' !in x && x[0] != '&' && x[0] != '`' && x[0] != '\''
    ensures Escaped("$" + x + "$") == "$" + x + "$"
  {
    var t := "$" + x + "$";
    var s := InlineProtected(x);
    OneSpanRestored(t, Inline, s);
    var p := Placeholder(Inline, 0);
    SingleDollarTemplate(p, p, 0, x);
  }

  /** `$&$` loses its formula: `$&` in the template inserts the placeholder being replaced. */
  lemma AmpersandFormulaLost()
    ensures Escaped("$&$") == Placeholder(Inline, 0) + "$"
  {
    var s := InlineProtected("&");
    assert "$" + "&" + "$" == "$&$";
    OneSpanRestored("$&$", Inline, s);
    var p := Placeholder(Inline, 0);
    MatchedTemplate(p, p, 0);
  }

  /** `$x$` is one inline span, looked up under its inline placeholder. */
  lemma InlineProtected(x: string) returns (s: MathSpan)
    requires |x| > 0 && '$' !in x && '\\' !in x
    ensures var t := "$" + x + "$";
      && s == MathSpan(x, Inline, t)
      && ProtectsAs(t, Placeholder(Inline, 0), s)
      && RestoreTarget(t, 0) == Placeholder(Inline, 0)
  {
    var t := "$" + x + "$";
    var p := Placeholder(Inline, 0);
    s := MathSpan(x, Inline, t);
    DelimFacts(Bracket);
    Wrapped("$", x, "$", '\\');
    ScanNoOpen(Bracket, t, 0);
    forall i | 0 <= i < |t| - 1 ensures !(t[i] == '$' && t[i + 1] == '$') {
      if i == 0 {
        assert t[1] == x[0];
      } else {
        assert t[i] == x[i - 1];
      }
    }
    NoDoubleDollarScan(t, 0);
    DelimitedScan(Dollar, x, 0);
    ThirdPassOnly(t, p, s);
    NoDollarPair(t);
  }
}
