/**
 * What the placeholder scheme of `processMathExpressions` (script.js:514-605) guarantees:
 * the four passes lose nothing (putting every recorded match back for its placeholder,
 * highest number first, gives the input back), and the last step replaces each placeholder
 * exactly where that placeholder was put, so none is left behind. Both are proved for inputs
 * in which every `M` is followed by `a`.
 *
 * The proofs see a text during the passes as a sequence of pieces: characters of the input,
 * placeholders, and (in the last step) the notes that replaced placeholders. With every `M`
 * of the input followed by `a`, an `M` followed by `A` can only be the `M` of a placeholder
 * piece, so every occurrence of a placeholder's text is one of the pieces.
 */
module MathRoundTrip {
  import opened Wrappers
  import opened JsString
  import opened MathSpans

  /** Two placeholders that both occur at the same position are the same placeholder. */
  lemma SamePos(x: string, c: nat, t1: MathType, m1: nat, t2: MathType, m2: nat)
    requires OccursAt(x, Placeholder(t1, m1), c) && OccursAt(x, Placeholder(t2, m2), c)
    ensures t1 == t2 && m1 == m2
  {
    if |NatToString(m1)| <= |NatToString(m2)| {
      SamePosOrdered(x, c, t1, m1, t2, m2);
    } else {
      SamePosOrdered(x, c, t2, m2, t1, m1);
    }
  }

  lemma SamePosOrdered(x: string, c: nat, t1: MathType, m1: nat, t2: MathType, m2: nat)
    requires OccursAt(x, Placeholder(t1, m1), c) && OccursAt(x, Placeholder(t2, m2), c)
    requires |NatToString(m1)| <= |NatToString(m2)|
    ensures t1 == t2 && m1 == m2
  {
    SameType(x, c, t1, m1, t2, m2);
    SameLength(x, c, t1, m1, m2);
    SameDigits(x, c, t1, m1, m2);
    NatToStringInjective(m1, m2);
  }

  lemma SameType(x: string, c: nat, t1: MathType, m1: nat, t2: MathType, m2: nat)
    requires OccursAt(x, Placeholder(t1, m1), c) && OccursAt(x, Placeholder(t2, m2), c)
    ensures t1 == t2
  {
    HeadFacts(t1);
    HeadFacts(t2);
    assert Placeholder(t1, m1)[7] == Head(t1)[7];
    assert Placeholder(t2, m2)[7] == Head(t2)[7];
    Agree(x, c, Placeholder(t1, m1), Placeholder(t2, m2), 7);
  }

  lemma SameLength(x: string, c: nat, t: MathType, m1: nat, m2: nat)
    requires OccursAt(x, Placeholder(t, m1), c) && OccursAt(x, Placeholder(t, m2), c)
    requires |NatToString(m1)| <= |NatToString(m2)|
    ensures |NatToString(m1)| == |NatToString(m2)|
  {
    var p1, p2 := Placeholder(t, m1), Placeholder(t, m2);
    var h, n1, n2 := Head(t), NatToString(m1), NatToString(m2);
    HeadFacts(t);
    if |n1| < |n2| {
      var q := |h| + |n1|;
      assert p1[q] == '_';
      assert p2[q] == n2[|n1|] && IsDigit(n2[|n1|]);
      Agree(x, c, p1, p2, q);
      assert false;
    }
  }

  lemma SameDigits(x: string, c: nat, t: MathType, m1: nat, m2: nat)
    requires OccursAt(x, Placeholder(t, m1), c) && OccursAt(x, Placeholder(t, m2), c)
    requires |NatToString(m1)| == |NatToString(m2)|
    ensures NatToString(m1) == NatToString(m2)
  {
    HeadFacts(t);
    SameMiddle(x, c, Head(t), NatToString(m1), NatToString(m2), "__");
  }

  /** Two words with the same ends and middles of one length, at one position, are one word. */
  lemma SameMiddle(x: string, c: nat, h: string, n1: string, n2: string, tail: string)
    requires OccursAt(x, h + n1 + tail, c) && OccursAt(x, h + n2 + tail, c) && |n1| == |n2|
    ensures n1 == n2
  {
    var p1, p2 := h + n1 + tail, h + n2 + tail;
    forall i | 0 <= i < |n1| ensures n1[i] == n2[i] {
      assert p1[|h| + i] == n1[i] && p2[|h| + i] == n2[i];
      Agree(x, c, p1, p2, |h| + i);
    }
  }

  /** The part of a placeholder before its number. */
  function Head(t: MathType): string {
    "__MATH_" + TypeName(t) + "_"
  }

  lemma HeadFacts(t: MathType)
    ensures |Head(t)| >= 8 && Head(t)[7] == (if t == Inline then 'I' else 'D')
    ensures forall m: nat :: Placeholder(t, m) == Head(t) + NatToString(m) + "__"
  {
  }

  /** Two words occurring at the same position agree where both are defined. */
  lemma Agree(x: string, c: nat, a: string, b: string, i: nat)
    requires OccursAt(x, a, c) && OccursAt(x, b, c) && i < |a| && i < |b|
    ensures a[i] == b[i]
  {
    assert x[c..c + |a|][i] == x[c + i] == x[c..c + |b|][i];
  }

  /** The character at offset `i` of a word occurring at `c`. */
  lemma CharOf(x: string, w: string, c: nat, i: nat)
    requires OccursAt(x, w, c) && i < |w|
    ensures x[c + i] == w[i]
  {
    assert x[c..c + |w|][i] == x[c + i];
  }

  /** An occurrence inside the left part of a concatenation. */
  lemma OccursLeft(a: string, b: string, w: string, q: nat)
    requires q + |w| <= |a|
    ensures OccursAt(a + b, w, q) <==> OccursAt(a, w, q)
  {
    assert (a + b)[q..q + |w|] == a[q..q + |w|];
  }

  /** An occurrence inside the right part of a concatenation. */
  lemma OccursRight(a: string, b: string, w: string, q: nat)
    ensures OccursAt(a + b, w, |a| + q) <==> OccursAt(b, w, q)
  {
    if q + |w| <= |b| {
      assert (a + b)[|a| + q..|a| + q + |w|] == b[q..q + |w|];
    }
  }

  /** A character that no placeholder contains lies outside every placeholder occurrence. */
  lemma Outside(x: string, t: MathType, m: nat, q: nat, p: nat)
    requires OccursAt(x, Placeholder(t, m), q) && p < |x| && !IsPlaceholderChar(x[p])
    ensures p < q || q + |Placeholder(t, m)| <= p
  {
    PlaceholderShape(t, m);
    if q <= p < q + |Placeholder(t, m)| {
      CharOf(x, Placeholder(t, m), q, p - q);
    }
  }

  // ---------------------------------------------------------------------------------------
  // Texts as pieces

  /** One piece of a text: a character of the input, a placeholder, or a note put in for one. */
  datatype Piece = Chr(c: char) | Hole(mtype: MathType, k: nat) | Note(s: string)

  function Show(p: Piece): string {
    match p
    case Chr(c) => [c]
    case Hole(m, k) => Placeholder(m, k)
    case Note(s) => s
  }

  /** The text the pieces spell. */
  function Render(ps: seq<Piece>): string
    decreases |ps|
  {
    if |ps| == 0 then "" else Show(ps[0]) + Render(ps[1..])
  }

  /** The characters of a string, one piece each. */
  function Chars(x: string): (ps: seq<Piece>)
    ensures |ps| == |x| && forall i :: 0 <= i < |x| ==> ps[i] == Chr(x[i])
    decreases |x|
  {
    if |x| == 0 then [] else [Chr(x[0])] + Chars(x[1..])
  }

  lemma {:induction false} RenderChars(x: string)
    ensures Render(Chars(x)) == x
    decreases |x|
  {
    if |x| > 0 {
      assert Chars(x)[1..] == Chars(x[1..]);
      RenderChars(x[1..]);
      assert [x[0]] + x[1..] == x;
    }
  }

  lemma {:induction false} RenderAppend(a: seq<Piece>, b: seq<Piece>)
    ensures Render(a + b) == Render(a) + Render(b)
    decreases |a|
  {
    if |a| == 0 {
      assert a + b == b;
    } else {
      assert (a + b)[1..] == a[1..] + b;
      RenderAppend(a[1..], b);
    }
  }

  /** Where piece `i` starts in the text. */
  function Pos(ps: seq<Piece>, i: nat): nat
    requires i <= |ps|
  {
    |Render(ps[..i])|
  }

  /** The text splits where a piece starts. */
  lemma SplitAt(ps: seq<Piece>, i: nat)
    requires i <= |ps|
    ensures Render(ps) == Render(ps[..i]) + Render(ps[i..])
  {
    assert ps == ps[..i] + ps[i..];
    RenderAppend(ps[..i], ps[i..]);
  }

  /** Piece `i` occurs where it starts, between the pieces before and after it. */
  lemma PieceAt(ps: seq<Piece>, i: nat)
    requires i < |ps|
    ensures Render(ps) == Render(ps[..i]) + Show(ps[i]) + Render(ps[i + 1..])
    ensures OccursAt(Render(ps), Show(ps[i]), Pos(ps, i))
  {
    SplitAt(ps, i);
    var u := ps[i..];
    assert u[0] == ps[i] && u[1..] == ps[i + 1..];
    var a, h, b := Render(ps[..i]), Show(ps[i]), Render(ps[i + 1..]);
    assert Render(u) == h + b;
    assert Render(ps) == a + h + b;
    assert (a + h + b)[|a|..|a| + |h|] == h;
  }

  /** Where piece `j + 1` starts, counted from the second piece. */
  lemma PosStep(ps: seq<Piece>, j: nat)
    requires j < |ps|
    ensures Pos(ps, j + 1) == |Show(ps[0])| + Pos(ps[1..], j)
  {
    assert ps[..j + 1][1..] == ps[1..][..j];
  }

  /** Every `M` of the note is followed by `a`. */
  predicate PlainNote(s: string) {
    forall o :: 0 <= o < |s| && s[o] == 'M' ==> o + 1 < |s| && s[o + 1] == 'a'
  }

  /** Every `M` of the input is followed by `a`. */
  predicate PlainM(x: string) {
    PlainNote(x)
  }

  /** Every `M` character piece is followed by an `a` piece; notes keep to the same rule. */
  predicate PlainPieces(ps: seq<Piece>) {
    && (forall i :: 0 <= i < |ps| && ps[i] == Chr('M') ==> i + 1 < |ps| && ps[i + 1] == Chr('a'))
    && (forall i :: 0 <= i < |ps| && ps[i].Note? ==> PlainNote(ps[i].s))
  }

  /** No number is used by two placeholder pieces. */
  predicate UniqueHoles(ps: seq<Piece>) {
    forall a, b :: 0 <= a < b < |ps| && ps[a].Hole? && ps[b].Hole? ==> ps[a].k != ps[b].k
  }

  /** Every placeholder piece names a recorded span of its own type. */
  predicate Typed(ps: seq<Piece>, spans: seq<MathSpan>) {
    forall i :: 0 <= i < |ps| && ps[i].Hole? ==> ps[i].k < |spans| && spans[ps[i].k].mtype == ps[i].mtype
  }

  /** Only characters and placeholders: the passes have not put any note in yet. */
  predicate Unresolved(ps: seq<Piece>) {
    forall i :: 0 <= i < |ps| ==> !ps[i].Note?
  }

  /** Every `M` of the text is followed by `a` (`i == -1`) or is the `M` of placeholder piece `i`. */
  lemma {:induction false} MAnchored(ps: seq<Piece>, p: nat) returns (i: int)
    requires PlainPieces(ps) && p < |Render(ps)| && Render(ps)[p] == 'M'
    ensures i == -1 ==> p + 1 < |Render(ps)| && Render(ps)[p + 1] == 'a'
    ensures i != -1 ==> 0 <= i < |ps| && ps[i].Hole? && Pos(ps, i) + 2 == p
    decreases |ps|
  {
    var h := Show(ps[0]);
    assert Render(ps) == h + Render(ps[1..]);
    if p < |h| {
      match ps[0]
      case Chr(c) =>
        assert ps[1..][1..] == ps[2..];
        assert Render(ps[1..]) == Show(ps[1]) + Render(ps[2..]);
        i := -1;
      case Hole(m, k) =>
        PlaceholderShape(m, k);
        assert ps[..0] == [];
        i := 0;
      case Note(s) =>
        i := -1;
    } else {
      var j := MAnchored(ps[1..], p - |h|);
      if j == -1 {
        i := -1;
      } else {
        i := j + 1;
        PosStep(ps, j);
      }
    }
  }

  /** An occurrence of a placeholder's text is a placeholder piece, starting where it does. */
  lemma HoleAt(ps: seq<Piece>, m: MathType, k: nat, q: nat) returns (i: nat)
    requires PlainPieces(ps) && OccursAt(Render(ps), Placeholder(m, k), q)
    ensures i < |ps| && ps[i] == Hole(m, k) && Pos(ps, i) == q
  {
    var t, w := Render(ps), Placeholder(m, k);
    PlaceholderShape(m, k);
    CharOf(t, w, q, 2);
    CharOf(t, w, q, 3);
    var j := MAnchored(ps, q + 2);
    i := j;
    PieceAt(ps, i);
    SamePos(t, q, ps[i].mtype, ps[i].k, m, k);
  }

  /** `HoleAt` as an implication. */
  lemma HoleIfOccurs(ps: seq<Piece>, m: MathType, k: nat, q: nat)
    requires PlainPieces(ps)
    ensures OccursAt(Render(ps), Placeholder(m, k), q) ==>
              exists i :: 0 <= i < |ps| && ps[i] == Hole(m, k) && Pos(ps, i) == q
  {
    if OccursAt(Render(ps), Placeholder(m, k), q) {
      var i := HoleAt(ps, m, k, q);
    }
  }

  /** How many times `w` occurs in `t` at or after position `i`. */
  function Occurrences(t: string, w: string, i: nat): nat
    decreases |t| - i
  {
    if i + |w| > |t| then 0 else (if OccursAt(t, w, i) then 1 else 0) + Occurrences(t, w, i + 1)
  }

  /** `w` occurs at most once in `t`. */
  predicate Once(t: string, w: string) {
    Occurrences(t, w, 0) <= 1
  }

  /** An occurrence at or after `i` is counted. */
  lemma {:induction false} OccurrenceCounted(t: string, w: string, i: nat, q: nat)
    ensures i <= q && OccursAt(t, w, q) ==> Occurrences(t, w, i) >= 1
    decreases |t| - i
  {
    if i + |w| <= |t| {
      OccurrenceCounted(t, w, i + 1, q);
    }
  }

  /** Two occurrences at or after `i` are both counted. */
  lemma {:induction false} OccurrencesCounted(t: string, w: string, i: nat, q1: nat, q2: nat)
    ensures i <= q1 < q2 && OccursAt(t, w, q1) && OccursAt(t, w, q2) ==> Occurrences(t, w, i) >= 2
    decreases |t| - i
  {
    if i + |w| <= |t| {
      OccurrencesCounted(t, w, i + 1, q1, q2);
      OccurrenceCounted(t, w, i + 1, q2);
    }
  }

  /** Counting finds at most the one occurrence there is. */
  lemma {:induction false} OccurrencesAtMost(t: string, w: string, i: nat, q: nat)
    requires forall p: nat :: i <= p && OccursAt(t, w, p) ==> p == q
    ensures Occurrences(t, w, i) <= (if i <= q then 1 else 0)
    decreases |t| - i
  {
    if i + |w| <= |t| {
      OccurrencesAtMost(t, w, i + 1, q);
    }
  }

  /** Two occurrences of a word that occurs once are at the same place. */
  lemma OnceAt(t: string, w: string, q1: nat, q2: nat)
    requires Once(t, w)
    ensures OccursAt(t, w, q1) && OccursAt(t, w, q2) ==> q1 == q2
  {
    OccurrencesCounted(t, w, 0, q1, q2);
    OccurrencesCounted(t, w, 0, q2, q1);
  }

  /** A word whose occurrences are all at one place occurs once. */
  lemma OnceIfUnique(t: string, w: string)
    requires forall q1: nat, q2: nat :: OccursAt(t, w, q1) && OccursAt(t, w, q2) ==> q1 == q2
    ensures Once(t, w)
  {
    var r := IndexOf(t, w);
    OccurrencesAtMost(t, w, 0, if r.Some? then r.value else 0);
  }

  /** With numbers used once, a placeholder's text occurs at most once. */
  lemma OccursOnce(ps: seq<Piece>, m: MathType, k: nat)
    requires PlainPieces(ps) && UniqueHoles(ps)
    ensures Once(Render(ps), Placeholder(m, k))
  {
    forall q1: nat, q2: nat | OccursAt(Render(ps), Placeholder(m, k), q1) && OccursAt(Render(ps), Placeholder(m, k), q2)
      ensures q1 == q2
    {
      SamePlace(ps, m, k, q1, q2);
    }
    OnceIfUnique(Render(ps), Placeholder(m, k));
  }

  /** Two occurrences of a placeholder's text are at the same place. */
  lemma SamePlace(ps: seq<Piece>, m: MathType, k: nat, q1: nat, q2: nat)
    requires PlainPieces(ps) && UniqueHoles(ps)
    requires OccursAt(Render(ps), Placeholder(m, k), q1) && OccursAt(Render(ps), Placeholder(m, k), q2)
    ensures q1 == q2
  {
    var i1 := HoleAt(ps, m, k, q1);
    var i2 := HoleAt(ps, m, k, q2);
  }

  /** Without a placeholder piece numbered `k`, no placeholder numbered `k` is in the text. */
  lemma NoHoleNoOccurrence(ps: seq<Piece>, m: MathType, k: nat)
    requires PlainPieces(ps)
    requires forall i :: 0 <= i < |ps| && ps[i].Hole? ==> ps[i].k != k
    ensures IndexOf(Render(ps), Placeholder(m, k)).None?
  {
    var r := IndexOf(Render(ps), Placeholder(m, k));
    HoleIfOccurs(ps, m, k, if r.Some? then r.value else 0);
  }

  // ---------------------------------------------------------------------------------------
  // The passes on pieces

  /** No match starts at a character other than the pattern's first one. */
  lemma NoMatchAt(d: Delim, t: string)
    requires |t| > 0 && t[0] != Open(d)[0]
    ensures MatchEnd(PatternOf(d), t, 0).None?
  {
    DelimFacts(d);
    if |Open(d)| <= |t| {
      assert t[..|Open(d)|][0] == t[0];
    }
  }

  /** A match starts with the pattern's first character. */
  lemma MatchOpens(d: Delim, t: string)
    requires MatchEnd(PatternOf(d), t, 0).Some?
    ensures t[0] == Open(d)[0]
  {
    DelimFacts(d);
    assert t[..|Open(d)|][0] == t[0];
  }

  /** A pass copies a first character that does not open a match. */
  lemma ScanCons(d: Delim, c: char, s: string, k: nat)
    requires IsPlaceholderChar(c)
    ensures Scan(d, [c] + s, k).text == [c] + Scan(d, s, k).text
    ensures Scan(d, [c] + s, k).spans == Scan(d, s, k).spans
  {
    DelimFacts(d);
    var cs := [c] + s;
    NoMatchAt(d, cs);
    ScanSkip(d, cs, k);
    assert cs[1..] == s;
  }

  /** `w + s` with the first character of `w` split off. */
  lemma ConsSplit(w: string, s: string)
    requires |w| > 0
    ensures w + s == [w[0]] + (w[1..] + s)
  {
    assert w == [w[0]] + w[1..];
  }

  /** A pass copies placeholder characters in front of the text. */
  lemma {:induction false} ScanCopy(d: Delim, w: string, s: string, k: nat)
    requires forall o :: 0 <= o < |w| ==> IsPlaceholderChar(w[o])
    ensures Scan(d, w + s, k).text == w + Scan(d, s, k).text
    ensures Scan(d, w + s, k).spans == Scan(d, s, k).spans
    decreases |w|
  {
    if |w| == 0 {
      assert w + s == s;
      assert w + Scan(d, s, k).text == Scan(d, s, k).text;
    } else {
      var c, tail := w[0], w[1..];
      ConsSplit(w, s);
      ScanCons(d, c, tail + s, k);
      ScanCopy(d, tail, s, k);
      ConsSplit(w, Scan(d, s, k).text);
    }
  }

  /** A position just after a character no placeholder has is where some piece starts. */
  lemma {:induction false} Boundary(ps: seq<Piece>, e: nat) returns (i: nat)
    requires Unresolved(ps)
    requires 0 < e <= |Render(ps)| && !IsPlaceholderChar(Render(ps)[e - 1])
    ensures 0 < i <= |ps| && Pos(ps, i) == e
    decreases |ps|
  {
    var h := Show(ps[0]);
    assert Render(ps) == h + Render(ps[1..]);
    if ps[0].Chr? && e == 1 {
      i := 1;
      var one := ps[..1];
      assert one[0] == ps[0] && one[1..] == [];
      assert Render(one) == h + Render([]);
    } else {
      if ps[0].Hole? {
        PlaceholderShape(ps[0].mtype, ps[0].k);
      }
      assert e > |h|;
      var j := Boundary(ps[1..], e - |h|);
      i := j + 1;
      PosStep(ps, j);
    }
  }

  /** Placeholder pieces numbered below `n`. */
  predicate HolesBelow(ps: seq<Piece>, n: nat) {
    forall i :: 0 <= i < |ps| && ps[i].Hole? ==> ps[i].k < n
  }

  /** A piece in front of pieces with other numbers keeps the numbers unique. */
  lemma ConsUnique(p: Piece, rest: seq<Piece>)
    requires UniqueHoles(rest)
    requires p.Hole? ==> forall i :: 0 <= i < |rest| && rest[i].Hole? ==> rest[i].k != p.k
    ensures UniqueHoles([p] + rest)
  {
    var qs := [p] + rest;
    forall a, b | 0 <= a < b < |qs| && qs[a].Hole? && qs[b].Hole? ensures qs[a].k != qs[b].k {
      assert qs[b] == rest[b - 1];
      if a > 0 {
        assert qs[a] == rest[a - 1];
      }
    }
  }

  /** What the pieces after position `i` inherit. */
  lemma TailFacts(ps: seq<Piece>, i: nat, n: nat)
    requires i <= |ps|
    ensures PlainPieces(ps) ==> PlainPieces(ps[i..])
    ensures Unresolved(ps) ==> Unresolved(ps[i..])
    ensures UniqueHoles(ps) ==> UniqueHoles(ps[i..])
    ensures HolesBelow(ps, n) ==> HolesBelow(ps[i..], n + 1)
    ensures forall p :: p in ps[i..] ==> p in ps
  {
    assert forall j :: 0 <= j < |ps| - i ==> ps[i..][j] == ps[i + j];
  }

  lemma RenderCons(p: Piece, rest: seq<Piece>)
    ensures Render([p] + rest) == Show(p) + Render(rest)
  {
    assert ([p] + rest)[1..] == rest;
  }

  /** A pass keeps a first placeholder, and a first character that opens no match. */
  lemma ScanKeeps(d: Delim, ps: seq<Piece>, k: nat)
    requires |ps| > 0 && Unresolved(ps)
    requires ps[0].Hole? || MatchEnd(PatternOf(d), Render(ps), 0).None?
    ensures Scan(d, Render(ps), k).text == Show(ps[0]) + Scan(d, Render(ps[1..]), k).text
    ensures Scan(d, Render(ps), k).spans == Scan(d, Render(ps[1..]), k).spans
  {
    var t, h := Render(ps), Show(ps[0]);
    assert t == h + Render(ps[1..]);
    if ps[0].Hole? {
      PlaceholderShape(ps[0].mtype, ps[0].k);
      ScanCopy(d, h, Render(ps[1..]), k);
    } else {
      ScanSkip(d, t, k);
      assert t[1..] == Render(ps[1..]);
    }
  }

  /** A match ends with a character no placeholder has. */
  lemma MatchCloses(d: Delim, t: string, e: nat)
    requires MatchesAt(PatternOf(d), t, 0, e)
    ensures 0 < e && !IsPlaceholderChar(t[e - 1])
  {
    DelimFacts(d);
    var c := Close(d);
    assert t[e - |c|..e] == c;
    assert t[e - 1] == c[|c| - 1];
  }

  /** A match at the front of the pieces ends where piece `i` starts. */
  lemma ScanReplaces(d: Delim, ps: seq<Piece>, k: nat) returns (i: nat)
    requires |ps| > 0 && Unresolved(ps) && ps[0].Chr?
    requires MatchEnd(PatternOf(d), Render(ps), 0).Some?
    ensures 0 < i <= |ps| && ps[0].c == Open(d)[0]
    ensures Scan(d, Render(ps), k).text == Placeholder(TypeOf(d), k) + Scan(d, Render(ps[i..]), k + 1).text
    ensures |Scan(d, Render(ps), k).spans| == 1 + |Scan(d, Render(ps[i..]), k + 1).spans|
  {
    var t := Render(ps);
    var e := MatchEnd(PatternOf(d), t, 0).value;
    assert t == Show(ps[0]) + Render(ps[1..]);
    ScanMatch(d, t, k, e);
    MatchOpens(d, t);
    MatchCloses(d, t, e);
    i := Boundary(ps, e);
    SplitAt(ps, i);
    assert t[e..] == Render(ps[i..]);
  }

  /** The pieces after a kept first piece. */
  lemma KeepFirst(ps: seq<Piece>, rest: seq<Piece>, open: char, mt: MathType, lo: nat, hi: nat)
    requires |ps| > 0 && PlainPieces(ps) && PlainPieces(rest) && open != 'a'
    requires forall i :: 0 <= i < |rest| ==>
               rest[i] in ps[1..] || (rest[i].Hole? && rest[i].mtype == mt && lo <= rest[i].k < hi)
    requires |ps| > 1 && ps[1].Chr? && ps[1].c != open ==> |rest| > 0 && rest[0] == ps[1]
    requires UniqueHoles(ps[1..]) && HolesBelow(ps[1..], lo) ==> UniqueHoles(rest)
    ensures var qs := [ps[0]] + rest;
      && PlainPieces(qs)
      && (forall i :: 0 <= i < |qs| ==> qs[i] in ps || (qs[i].Hole? && qs[i].mtype == mt && lo <= qs[i].k < hi))
    ensures UniqueHoles(ps) && HolesBelow(ps, lo) ==> UniqueHoles([ps[0]] + rest)
  {
    var qs := [ps[0]] + rest;
    TailFacts(ps, 1, lo);
    assert forall i :: 1 <= i < |qs| ==> qs[i] == rest[i - 1];
    if UniqueHoles(ps) && HolesBelow(ps, lo) {
      forall i | 0 <= i < |rest| && rest[i].Hole? && ps[0].Hole? ensures rest[i].k != ps[0].k {
        if rest[i] in ps[1..] {
          var l :| 0 <= l < |ps[1..]| && ps[1..][l] == rest[i];
          assert ps[l + 1] == rest[i];
        }
      }
      ConsUnique(ps[0], rest);
    }
  }

  /** The pieces after a new placeholder numbered `k` that stands for `ps[..i]`. */
  lemma NewFirst(ps: seq<Piece>, i: nat, rest: seq<Piece>, mt: MathType, k: nat, hi: nat)
    requires 0 < i <= |ps| && PlainPieces(rest) && k < hi
    requires forall j :: 0 <= j < |rest| ==>
               rest[j] in ps[i..] || (rest[j].Hole? && rest[j].mtype == mt && k + 1 <= rest[j].k < hi)
    requires UniqueHoles(ps[i..]) && HolesBelow(ps[i..], k + 1) ==> UniqueHoles(rest)
    ensures var qs := [Hole(mt, k)] + rest;
      && PlainPieces(qs)
      && (forall j :: 0 <= j < |qs| ==> qs[j] in ps || (qs[j].Hole? && qs[j].mtype == mt && k <= qs[j].k < hi))
    ensures UniqueHoles(ps) && HolesBelow(ps, k) ==> UniqueHoles([Hole(mt, k)] + rest)
  {
    var qs := [Hole(mt, k)] + rest;
    TailFacts(ps, i, k);
    assert forall j :: 1 <= j < |qs| ==> qs[j] == rest[j - 1];
    if UniqueHoles(ps) && HolesBelow(ps, k) {
      forall j | 0 <= j < |rest| && rest[j].Hole? ensures rest[j].k != k {
        if rest[j] in ps[i..] {
          var l :| 0 <= l < |ps[i..]| && ps[i..][l] == rest[j];
          assert ps[i + l] == rest[j];
        }
      }
      ConsUnique(Hole(mt, k), rest);
    }
  }

  /** What a pass over the pieces `ps` numbering from `k` gives, as the pieces `qs`. */
  predicate PassPieces(d: Delim, ps: seq<Piece>, k: nat, qs: seq<Piece>) {
    var r := Scan(d, Render(ps), k);
    && r.text == Render(qs)
    && PlainPieces(qs)
    && (forall i :: 0 <= i < |qs| ==>
          qs[i] in ps || (qs[i].Hole? && qs[i].mtype == TypeOf(d) && k <= qs[i].k < k + |r.spans|))
    && (|ps| > 0 && ps[0].Chr? && ps[0].c != Open(d)[0] ==> |qs| > 0 && qs[0] == ps[0])
    && (UniqueHoles(ps) && HolesBelow(ps, k) ==> UniqueHoles(qs))
  }

  /**
   * A pass over a text made of pieces gives a text made of pieces: the old ones it kept and
   * one new placeholder per span it recorded, numbered from `k`, each number once.
   */
  lemma {:induction false} ScanPieces(d: Delim, ps: seq<Piece>, k: nat) returns (qs: seq<Piece>)
    requires PlainPieces(ps) && Unresolved(ps)
    ensures PassPieces(d, ps, k, qs)
    decreases |ps|, 1
  {
    if |ps| == 0 {
      qs := [];
    } else if ps[0].Hole? || MatchEnd(PatternOf(d), Render(ps), 0).None? {
      qs := ScanPiecesKept(d, ps, k);
    } else {
      qs := ScanPiecesNew(d, ps, k);
    }
  }

  lemma {:induction false} ScanPiecesKept(d: Delim, ps: seq<Piece>, k: nat) returns (qs: seq<Piece>)
    requires PlainPieces(ps) && Unresolved(ps) && |ps| > 0
    requires ps[0].Hole? || MatchEnd(PatternOf(d), Render(ps), 0).None?
    ensures PassPieces(d, ps, k, qs)
    decreases |ps|, 0
  {
    DelimFacts(d);
    TailFacts(ps, 1, k);
    ScanKeeps(d, ps, k);
    var rest := ScanPieces(d, ps[1..], k);
    KeepFirst(ps, rest, Open(d)[0], TypeOf(d), k, k + |Scan(d, Render(ps), k).spans|);
    qs := [ps[0]] + rest;
    RenderCons(ps[0], rest);
  }

  lemma {:induction false} ScanPiecesNew(d: Delim, ps: seq<Piece>, k: nat) returns (qs: seq<Piece>)
    requires PlainPieces(ps) && Unresolved(ps) && |ps| > 0
    requires ps[0].Chr? && MatchEnd(PatternOf(d), Render(ps), 0).Some?
    ensures PassPieces(d, ps, k, qs)
    decreases |ps|, 0
  {
    var i := ScanReplaces(d, ps, k);
    TailFacts(ps, i, k);
    var rest := ScanPieces(d, ps[i..], k + 1);
    NewFirst(ps, i, rest, TypeOf(d), k, k + |Scan(d, Render(ps), k).spans|);
    qs := [Hole(TypeOf(d), k)] + rest;
    RenderCons(Hole(TypeOf(d), k), rest);
  }

  // ---------------------------------------------------------------------------------------
  // The four passes

  /** The input as pieces: one character each, every `M` followed by `a`. */
  lemma InputPieces(x: string)
    requires PlainM(x)
    ensures Render(Chars(x)) == x
    ensures PlainPieces(Chars(x)) && Unresolved(Chars(x)) && UniqueHoles(Chars(x))
  {
    RenderChars(x);
  }

  /**
   * After `n` passes the text is made of pieces; each placeholder piece names a recorded span
   * of its own type, and none is used twice.
   */
  lemma {:induction false} StagePieces(x: string, n: nat) returns (ps: seq<Piece>)
    requires PlainM(x) && n <= |Passes|
    ensures Render(ps) == ExtractN(x, n).text
    ensures PlainPieces(ps) && Unresolved(ps) && UniqueHoles(ps) && Typed(ps, ExtractN(x, n).spans)
    decreases n
  {
    if n == 0 {
      ps := Chars(x);
      InputPieces(x);
    } else {
      var prev := StagePieces(x, n - 1);
      var e0 := ExtractN(x, n - 1);
      var d, b := Passes[n - 1], |e0.spans|;
      ExtractStep(x, n - 1);
      var r := Scan(d, e0.text, b);
      ps := ScanPieces(d, prev, b);
      ScanSpans(d, e0.text, b);
      var all := e0.spans + r.spans;
      assert ExtractN(x, n).spans == all;
      forall i | 0 <= i < |ps|
        ensures !ps[i].Note?
        ensures ps[i].Hole? ==> ps[i].k < |all| && all[ps[i].k].mtype == ps[i].mtype
      {
        if ps[i] in prev {
          var l :| 0 <= l < |prev| && prev[l] == ps[i];
        } else {
          assert IsSpanOf(d, r.spans[ps[i].k - b]);
        }
      }
    }
  }

  // ---------------------------------------------------------------------------------------
  // The round trip

  /**
   * Puts back the recorded matches of spans `lo` to `hi - 1`, the highest number first, each
   * for the first occurrence of its placeholder.
   */
  function RestoreRange(t: string, spans: seq<MathSpan>, lo: nat, hi: nat): string
    requires lo <= hi <= |spans|
    decreases hi - lo
  {
    if hi == lo then t else RestoreRange(Put(t, spans, hi - 1), spans, lo, hi - 1)
  }

  /** The recorded match of span `j` put back for the first occurrence of its placeholder. */
  function Put(t: string, spans: seq<MathSpan>, j: nat): string
    requires j < |spans|
  {
    ReplaceFirst(t, Placeholder(spans[j].mtype, j), spans[j].original)
  }

  /** Every recorded match put back, the last one first. */
  function Restore(t: string, spans: seq<MathSpan>): string {
    RestoreRange(t, spans, 0, |spans|)
  }

  /** Putting back the higher numbers first, then the lower ones. */
  lemma {:induction false} RestoreSplit(t: string, spans: seq<MathSpan>, lo: nat, mid: nat, hi: nat)
    requires lo <= mid <= hi <= |spans|
    ensures RestoreRange(t, spans, lo, hi) == RestoreRange(RestoreRange(t, spans, mid, hi), spans, lo, mid)
    decreases hi - mid
  {
    if hi > mid {
      var t1 := Put(t, spans, hi - 1);
      RestoreSplit(t1, spans, lo, mid, hi - 1);
      assert RestoreRange(t, spans, lo, hi) == RestoreRange(t1, spans, lo, hi - 1);
      assert RestoreRange(t, spans, mid, hi) == RestoreRange(t1, spans, mid, hi - 1);
    }
  }

  /** Replacing the first occurrence, when it is known where that is. */
  lemma ReplaceFirstAt(t: string, w: string, q: nat, rep: string)
    requires OccursAt(t, w, q) && forall p: nat :: p < q ==> !OccursAt(t, w, p)
    ensures ReplaceFirst(t, w, rep) == t[..q] + rep + t[q + |w|..]
  {
    assert IndexOf(t, w) == Some(q);
  }

  /** Restoring a single number. */
  lemma RestoreOne(t: string, spans: seq<MathSpan>, k: nat)
    requires k < |spans|
    ensures RestoreRange(t, spans, k, k + 1) == ReplaceFirst(t, Placeholder(spans[k].mtype, k), spans[k].original)
  {
  }

  /** A pass's text and spans when no match starts it. */
  lemma SkipFacts(d: Delim, s: string, k: nat)
    requires |s| > 0 && MatchEnd(PatternOf(d), s, 0).None?
    ensures Scan(d, s, k).text == [s[0]] + Scan(d, s[1..], k).text
    ensures Scan(d, s, k).spans == Scan(d, s[1..], k).spans
  {
    ScanSkip(d, s, k);
  }

  /** A pass's text and spans when a match `s[..e]` starts it. */
  lemma MatchFacts(d: Delim, s: string, k: nat, e: nat)
    requires MatchEnd(PatternOf(d), s, 0) == Some(e)
    ensures e <= |s|
    ensures Scan(d, s, k).text == Placeholder(TypeOf(d), k) + Scan(d, s[e..], k + 1).text
    ensures Scan(d, s, k).spans == [MathSpan(s[|Open(d)|..e - |Close(d)|], TypeOf(d), s[..e])] + Scan(d, s[e..], k + 1).spans
  {
    ScanMatch(d, s, k, e);
    assert s[0..e] == s[..e];
  }

  /** `pre + [c] + rest` regrouped. */
  lemma Regroup(pre: string, s: string, a: string)
    requires |s| > 0
    ensures pre + ([s[0]] + a) == (pre + [s[0]]) + a
    ensures (pre + [s[0]]) + s[1..] == pre + s
  {
    assert [s[0]] + s[1..] == s;
  }

  /**
   * Putting back the spans one pass recorded, last one first, undoes the pass, provided each
   * of its placeholders occurs once in what the pass gave.
   */
  lemma {:induction false} UndoScan(d: Delim, pre: string, s: string, k: nat, spans: seq<MathSpan>)
    requires var r := Scan(d, s, k);
      && k + |r.spans| <= |spans| && spans[k..k + |r.spans|] == r.spans
      && AllOnce(pre + r.text, spans, k, k + |r.spans|)
    ensures RestoreRange(pre + Scan(d, s, k).text, spans, k, k + |Scan(d, s, k).spans|) == pre + s
    decreases |s|, 1
  {
    if |s| == 0 {
      assert pre + Scan(d, s, k).text == pre + s;
    } else {
      match MatchEnd(PatternOf(d), s, 0)
      case None =>
        SkipFacts(d, s, k);
        Regroup(pre, s, Scan(d, s[1..], k).text);
        UndoScan(d, pre + [s[0]], s[1..], k, spans);
      case Some(e) =>
        UndoMatch(d, pre, s, k, spans, e);
    }
  }

  /**
   * A word that occurs once in `pre + w + a` occurs first after `pre` in `pre + w + s[e..]`,
   * and putting `s[..e]` there gives `pre + s`.
   */
  lemma ReplaceAfter(pre: string, w: string, a: string, s: string, e: nat)
    requires Once(pre + w + a, w) && e <= |s|
    ensures ReplaceFirst(pre + w + s[e..], w, s[..e]) == pre + s
  {
    var b := s[e..];
    var u := pre + w + b;
    OccursLeft(pre + w, a, w, |pre|);
    OccursLeft(pre + w, b, w, |pre|);
    assert OccursAt(pre + w, w, |pre|) by {
      assert (pre + w)[|pre|..|pre| + |w|] == w;
    }
    forall p: nat | p < |pre| ensures !OccursAt(u, w, p) {
      OccursLeft(pre + w, a, w, p);
      OccursLeft(pre + w, b, w, p);
      OnceAt(pre + w + a, w, p, |pre|);
    }
    ReplaceFirstAt(u, w, |pre|, s[..e]);
    assert u[..|pre|] == pre && u[|pre| + |w|..] == b;
    assert s[..e] + b == s;
  }

  /** `UndoScan` when a match starts the text. */
  lemma {:induction false} UndoMatch(d: Delim, pre: string, s: string, k: nat, spans: seq<MathSpan>, e: nat)
    requires MatchEnd(PatternOf(d), s, 0) == Some(e)
    requires var r := Scan(d, s, k);
      && k + |r.spans| <= |spans| && spans[k..k + |r.spans|] == r.spans
      && AllOnce(pre + r.text, spans, k, k + |r.spans|)
    ensures RestoreRange(pre + Scan(d, s, k).text, spans, k, k + |Scan(d, s, k).spans|) == pre + s
    decreases |s|, 0
  {
    MatchFacts(d, s, k, e);
    var r, r' := Scan(d, s, k), Scan(d, s[e..], k + 1);
    var w := Placeholder(TypeOf(d), k);
    var t := pre + r.text;
    var m := |r.spans|;
    assert t == (pre + w) + r'.text;
    SliceCons(spans, k, m, r.spans[0], r'.spans);
    assert spans[k].mtype == TypeOf(d) && spans[k].original == s[..e];
    AllOnceSplit(t, spans, k, k + m);
    assert Placeholder(spans[k].mtype, k) == w;
    assert Once(pre + w + r'.text, w);
    UndoScan(d, pre + w, s[e..], k + 1, spans);
    UndoFirst(pre, w, r'.text, s, e, spans, k, k + 1 + |r'.spans|);
    assert k + m == k + 1 + |r'.spans|;
  }

  /**
   * With the later numbers undone, putting the first match back for its placeholder, which
   * occurs once, gives `pre + s`.
   */
  lemma UndoFirst(pre: string, w: string, rest: string, s: string, e: nat, spans: seq<MathSpan>, k: nat, hi: nat)
    requires e <= |s| && k < hi <= |spans|
    requires Placeholder(spans[k].mtype, k) == w && spans[k].original == s[..e]
    requires RestoreRange(pre + w + rest, spans, k + 1, hi) == pre + w + s[e..]
    requires Once(pre + w + rest, w)
    ensures RestoreRange(pre + w + rest, spans, k, hi) == pre + s
  {
    ReplaceAfter(pre, w, rest, s, e);
    MatchGlue(pre + w + rest, pre + w + s[e..], spans, k, hi, pre + s);
  }

  /** The first number of a range, and the rest of it. */
  lemma AllOnceSplit(t: string, spans: seq<MathSpan>, lo: nat, hi: nat)
    requires lo < hi <= |spans| && AllOnce(t, spans, lo, hi)
    ensures Once(t, Placeholder(spans[lo].mtype, lo)) && AllOnce(t, spans, lo + 1, hi)
  {
    assert OnceNumbered(t, spans, lo);
  }

  /** Undoing the numbers after `k`, then `k` itself, undoes `k..hi`. */
  lemma MatchGlue(t: string, u: string, spans: seq<MathSpan>, k: nat, hi: nat, target: string)
    requires k < hi <= |spans|
    requires RestoreRange(t, spans, k + 1, hi) == u
    requires ReplaceFirst(u, Placeholder(spans[k].mtype, k), spans[k].original) == target
    ensures RestoreRange(t, spans, k, hi) == target
  {
    RestoreSplit(t, spans, k, k + 1, hi);
    RestoreOne(u, spans, k);
  }

  lemma SliceCons<T>(a: seq<T>, k: nat, m: nat, x: T, rest: seq<T>)
    requires k + m <= |a| && a[k..k + m] == [x] + rest
    ensures a[k] == x && a[k + 1..k + m] == rest
  {
    assert a[k..k + m][0] == a[k];
    forall i | 0 <= i < |rest| ensures a[k + 1..k + m][i] == rest[i] {
      assert a[k..k + m][i + 1] == ([x] + rest)[i + 1];
    }
  }

  /** After each pass, putting back what the passes so far recorded gives the input. */
  lemma {:induction false} RestoreStages(x: string, n: nat)
    requires PlainM(x) && n <= |Passes|
    ensures var e := ExtractN(x, n);
      |e.spans| <= |Extract(x).spans| && RestoreRange(e.text, Extract(x).spans, 0, |e.spans|) == x
    decreases n
  {
    var all := Extract(x).spans;
    ExtractPrefix(x, n, |Passes|);
    if n > 0 {
      RestoreStages(x, n - 1);
      var prev := ExtractN(x, n - 1);
      var d, b := Passes[n - 1], |prev.spans|;
      ExtractStep(x, n - 1);
      var r := Scan(d, prev.text, b);
      var m := |r.spans|;
      ExtractPrefix(x, n - 1, |Passes|);
      assert all[..b + m] == prev.spans + r.spans;
      assert all[b..b + m] == r.spans;
      var ps := StagePieces(x, n);
      UndoStage(ps, d, prev.text, b, all);
      RestoreGlue(r.text, all, b, b + m, prev.text, x);
      var e := ExtractN(x, n);
      assert e.text == r.text && |e.spans| == b + m;
    }
  }

  /** Every placeholder numbered `lo..hi`, with the type its span records, occurs at most once in `t`. */
  predicate AllOnce(t: string, spans: seq<MathSpan>, lo: nat, hi: nat) {
    forall j :: lo <= j < hi ==> OnceNumbered(t, spans, j)
  }

  /** The placeholder numbered `j`, with the type span `j` records, occurs at most once in `t`. */
  predicate OnceNumbered(t: string, spans: seq<MathSpan>, j: nat) {
    j < |spans| && Once(t, Placeholder(spans[j].mtype, j))
  }

  /** With numbers used once, every placeholder numbered `lo..hi` occurs at most once. */
  lemma PiecesOnce(ps: seq<Piece>, spans: seq<MathSpan>, lo: nat, hi: nat)
    requires PlainPieces(ps) && UniqueHoles(ps) && hi <= |spans|
    ensures AllOnce(Render(ps), spans, lo, hi)
  {
    forall j | lo <= j < hi ensures OnceNumbered(Render(ps), spans, j) {
      OccursOnce(ps, spans[j].mtype, j);
    }
  }

  /** A pass whose output the pieces spell is undone by putting its matches back. */
  lemma UndoStage(ps: seq<Piece>, d: Delim, s: string, k: nat, spans: seq<MathSpan>)
    requires var r := Scan(d, s, k);
      && k + |r.spans| <= |spans| && spans[k..k + |r.spans|] == r.spans
      && Render(ps) == r.text && PlainPieces(ps) && UniqueHoles(ps)
    ensures RestoreRange(Scan(d, s, k).text, spans, k, k + |Scan(d, s, k).spans|) == s
  {
    PiecesOnce(ps, spans, k, k + |Scan(d, s, k).spans|);
    UndoScanAlone(d, s, k, spans);
  }

  /** `UndoScan` with nothing in front. */
  lemma UndoScanAlone(d: Delim, s: string, k: nat, spans: seq<MathSpan>)
    requires var r := Scan(d, s, k);
      && k + |r.spans| <= |spans| && spans[k..k + |r.spans|] == r.spans
      && AllOnce(r.text, spans, k, k + |r.spans|)
    ensures RestoreRange(Scan(d, s, k).text, spans, k, k + |Scan(d, s, k).spans|) == s
  {
    var r := Scan(d, s, k);
    assert "" + r.text == r.text && "" + s == s;
    UndoScan(d, "", s, k, spans);
  }

  /** Undoing the later numbers and then the earlier ones undoes them all. */
  lemma RestoreGlue(t: string, spans: seq<MathSpan>, mid: nat, hi: nat, between: string, x: string)
    requires mid <= hi <= |spans|
    requires RestoreRange(t, spans, mid, hi) == between && RestoreRange(between, spans, 0, mid) == x
    ensures RestoreRange(t, spans, 0, hi) == x
  {
    RestoreSplit(t, spans, 0, mid, hi);
  }

  /**
   * The passes lose nothing: putting every recorded match back for its placeholder, the last
   * one first, gives the input back.
   */
  lemma RoundTrip(x: string)
    requires PlainM(x)
    ensures Restore(Extract(x).text, Extract(x).spans) == x
  {
    RestoreStages(x, |Passes|);
  }

  // ---------------------------------------------------------------------------------------
  // The last step

  /** What a piece is once the placeholders numbered below `n` are resolved. */
  function ResolvedPiece(p: Piece, spans: seq<MathSpan>, images: seq<MathImage>, n: nat): Piece
    requires n <= |spans|
  {
    if p.Hole? && p.k < n then Note(Replacement(spans, images, p.k)) else p
  }

  /** The pieces with every placeholder numbered below `n` turned into its note. */
  function Resolved(ps: seq<Piece>, spans: seq<MathSpan>, images: seq<MathImage>, n: nat): seq<Piece>
    requires n <= |spans|
  {
    seq(|ps|, i requires 0 <= i < |ps| => ResolvedPiece(ps[i], spans, images, n))
  }

  /** The notes the last step puts in have no `$`, and their `M` is followed by `a`. */
  lemma ReplacementPlain(spans: seq<MathSpan>, images: seq<MathImage>, k: nat)
    requires k < |spans|
    ensures PlainNote(Replacement(spans, images, k)) && '$' !in Replacement(spans, images, k)
  {
    var head, n := "[Math Expression ", NatToString(k + 1);
    var r := head + n + "]";
    assert |head| == 17 && head[1] == 'M' && head[2] == 'a';
    forall o | 0 <= o < |r| ensures r[o] != '$' && (r[o] == 'M' ==> o + 1 < |r| && r[o + 1] == 'a') {
      if o < |head| {
        assert r[o] == head[o];
        assert r[2] == head[2];
      } else if o < |head| + |n| {
        assert r[o] == n[o - |head|];
      }
    }
  }

  /** Every placeholder piece numbered `k` turned into the note `rep`. */
  function Fill(qs: seq<Piece>, k: nat, rep: string): seq<Piece> {
    seq(|qs|, i requires 0 <= i < |qs| => if qs[i].Hole? && qs[i].k == k then Note(rep) else qs[i])
  }

  /** A word that occurs once, and occurs at `q`, is first found at `q`. */
  lemma IndexOfOnce(t: string, w: string, q: nat)
    requires Once(t, w) && OccursAt(t, w, q)
    ensures IndexOf(t, w) == Some(q)
  {
    var r := IndexOf(t, w);
    assert r.Some?;
    OnceAt(t, w, r.value, q);
  }

  lemma RenderNote(a: seq<Piece>, rep: string, b: seq<Piece>)
    ensures Render(a + [Note(rep)] + b) == Render(a) + rep + Render(b)
  {
    RenderAppend(a + [Note(rep)], b);
    RenderAppend(a, [Note(rep)]);
    assert [Note(rep)][1..] == [];
  }

  /**
   * `text.replace(placeholder, rep)` on a text made of pieces replaces the placeholder piece
   * with that number, wherever it is, and does nothing when there is none.
   */
  lemma ReplaceHole(qs: seq<Piece>, m: MathType, k: nat, rep: string)
    requires PlainPieces(qs) && UniqueHoles(qs) && '$' !in rep
    requires forall i :: 0 <= i < |qs| && qs[i].Hole? && qs[i].k == k ==> qs[i].mtype == m
    ensures JsReplace(Render(qs), Placeholder(m, k), rep) == Render(Fill(qs, k, rep))
  {
    if exists i :: 0 <= i < |qs| && qs[i].Hole? && qs[i].k == k {
      var i :| 0 <= i < |qs| && qs[i].Hole? && qs[i].k == k;
      ReplaceHoleAt(qs, m, k, rep, i);
    } else {
      NoHoleNoOccurrence(qs, m, k);
      assert Fill(qs, k, rep) == qs;
    }
  }

  /** `ReplaceHole` when piece `i` is the placeholder. */
  lemma ReplaceHoleAt(qs: seq<Piece>, m: MathType, k: nat, rep: string, i: nat)
    requires PlainPieces(qs) && UniqueHoles(qs) && '$' !in rep
    requires i < |qs| && qs[i] == Hole(m, k)
    ensures JsReplace(Render(qs), Placeholder(m, k), rep) == Render(Fill(qs, k, rep))
  {
    var t, w := Render(qs), Placeholder(m, k);
    var q := Pos(qs, i);
    var a, b := qs[..i], qs[i + 1..];
    PieceAt(qs, i);
    OccursOnce(qs, m, k);
    IndexOfOnce(t, w, q);
    SubstitutionWithoutDollar(w, t, q, rep);
    assert JsReplace(t, w, rep) == t[..q] + rep + t[q + |w|..];
    assert t[..q] == Render(a) && t[q + |w|..] == Render(b);
    FillAt(qs, k, rep, i);
    RenderNote(a, rep, b);
  }

  /** With numbers used once, only piece `i` is filled. */
  lemma FillAt(qs: seq<Piece>, k: nat, rep: string, i: nat)
    requires UniqueHoles(qs) && i < |qs| && qs[i].Hole? && qs[i].k == k
    ensures Fill(qs, k, rep) == qs[..i] + [Note(rep)] + qs[i + 1..]
  {
    var f, g := Fill(qs, k, rep), qs[..i] + [Note(rep)] + qs[i + 1..];
    forall j | 0 <= j < |qs| ensures f[j] == g[j] {
      if j < i {
        assert g[j] == qs[j];
      } else if j > i {
        assert g[j] == qs[i + 1..][j - i - 1];
      }
    }
  }

  /** Resolving keeps the pieces plain and the numbers unique, and leaves only numbers `n` and up. */
  lemma ResolvedFacts(ps: seq<Piece>, spans: seq<MathSpan>, images: seq<MathImage>, n: nat)
    requires n <= |spans| && PlainPieces(ps) && UniqueHoles(ps) && Typed(ps, spans)
    ensures var qs := Resolved(ps, spans, images, n);
      && PlainPieces(qs) && UniqueHoles(qs) && Typed(qs, spans)
      && forall i :: 0 <= i < |qs| && qs[i].Hole? ==> qs[i] == ps[i] && qs[i].k >= n
  {
    var qs := Resolved(ps, spans, images, n);
    forall i | 0 <= i < |qs| && qs[i].Note? ensures PlainNote(qs[i].s) {
      if ps[i].Hole? {
        ReplacementPlain(spans, images, ps[i].k);
      }
    }
  }

  /**
   * The last step, up to number `n`, turns each placeholder piece numbered below `n` into its
   * note, where it stands.
   */
  lemma {:induction false} ResolvePieces(ps: seq<Piece>, spans: seq<MathSpan>, images: seq<MathImage>, n: nat)
    requires n <= |spans| && PlainPieces(ps) && UniqueHoles(ps) && Typed(ps, spans)
    ensures ResolveN(Render(ps), spans, images, n) == Render(Resolved(ps, spans, images, n))
    decreases n
  {
    if n == 0 {
      assert Resolved(ps, spans, images, 0) == ps;
    } else {
      ResolvePieces(ps, spans, images, n - 1);
      ResolveNext(ps, spans, images, n);
    }
  }

  /** One more number: the text and the pieces keep in step. */
  lemma ResolveNext(ps: seq<Piece>, spans: seq<MathSpan>, images: seq<MathImage>, n: nat)
    requires 0 < n <= |spans| && PlainPieces(ps) && UniqueHoles(ps) && Typed(ps, spans)
    requires ResolveN(Render(ps), spans, images, n - 1) == Render(Resolved(ps, spans, images, n - 1))
    ensures ResolveN(Render(ps), spans, images, n) == Render(Resolved(ps, spans, images, n))
  {
    var k := n - 1;
    ResolveStep(ps, spans, images, k);
    assert ResolveN(Render(ps), spans, images, n)
        == JsReplace(ResolveN(Render(ps), spans, images, k), Placeholder(spans[k].mtype, k), Replacement(spans, images, k));
  }

  /** Replacing placeholder `k` in the text of the pieces resolved below `k` resolves it too. */
  lemma ResolveStep(ps: seq<Piece>, spans: seq<MathSpan>, images: seq<MathImage>, k: nat)
    requires k < |spans| && PlainPieces(ps) && UniqueHoles(ps) && Typed(ps, spans)
    ensures JsReplace(Render(Resolved(ps, spans, images, k)), Placeholder(spans[k].mtype, k), Replacement(spans, images, k))
              == Render(Resolved(ps, spans, images, k + 1))
  {
    var qs := Resolved(ps, spans, images, k);
    var rep := Replacement(spans, images, k);
    ResolvedFacts(ps, spans, images, k);
    ReplacementPlain(spans, images, k);
    ReplaceHole(qs, spans[k].mtype, k, rep);
    FillStep(ps, spans, images, k);
  }

  /** Filling placeholder `k` with its note is resolving one number further. */
  lemma FillStep(ps: seq<Piece>, spans: seq<MathSpan>, images: seq<MathImage>, k: nat)
    requires k < |spans|
    ensures Fill(Resolved(ps, spans, images, k), k, Replacement(spans, images, k)) == Resolved(ps, spans, images, k + 1)
  {
  }

  /**
   * The last step of `processMathExpressions` replaces each placeholder where the passes put
   * it: the extracted text, seen as pieces, with every placeholder piece turned into its note.
   */
  lemma Resolution(x: string, images: seq<MathImage>) returns (ps: seq<Piece>)
    requires PlainM(x)
    ensures var Pass(t, spans) := Extract(x);
      && Render(ps) == t && PlainPieces(ps) && UniqueHoles(ps) && Typed(ps, spans)
      && ResolveN(t, spans, images, |spans|) == Render(Resolved(ps, spans, images, |spans|))
  {
    ps := StagePieces(x, |Passes|);
    var e := Extract(x);
    ResolvePieces(ps, e.spans, images, |e.spans|);
  }

  /** No placeholder text is left in what `processMathExpressions` returns. */
  lemma NoPlaceholderSurvives(x: string, images: seq<MathImage>)
    requires PlainM(x)
    ensures var Pass(t, spans) := Extract(x);
      forall m, j :: !Includes(ResolveN(t, spans, images, |spans|), Placeholder(m, j))
  {
    var ps := Resolution(x, images);
    var e := Extract(x);
    var n := |e.spans|;
    var qs := Resolved(ps, e.spans, images, n);
    ResolvedFacts(ps, e.spans, images, n);
    forall m, j ensures !Includes(Render(qs), Placeholder(m, j)) {
      NoHoleNoOccurrence(qs, m, j);
    }
  }
}
