/**
 * The parts of JavaScript's String API that the application relies on, on `seq<char>`
 * (one `char` per Unicode scalar value of the original): first-occurrence search,
 * `String.prototype.replace` with a string pattern (including the `$`-patterns of the
 * replacement template), `trim`, `split` on one character, `join`, and decimal printing
 * of numbers as template literals do it.
 */
module JsString {
  import opened Wrappers

  /** `w` occurs in `t` at position `p`. */
  predicate OccursAt(t: string, w: string, p: nat) {
    p + |w| <= |t| && t[p..p + |w|] == w
  }

  /** The first position at or after `i` where `w` occurs in `t`. */
  function IndexOfFrom(t: string, w: string, i: nat): (r: Option<nat>)
    decreases |t| - i
    ensures r.Some? ==> i <= r.value && OccursAt(t, w, r.value)
    ensures r.Some? ==> forall q: nat :: i <= q < r.value ==> !OccursAt(t, w, q)
    ensures r.None? ==> forall q: nat :: i <= q ==> !OccursAt(t, w, q)
  {
    if i + |w| > |t| then None
    else if t[i..i + |w|] == w then Some(i)
    else IndexOfFrom(t, w, i + 1)
  }

  /** `t.indexOf(w)`, with `None` for JavaScript's -1. */
  function IndexOf(t: string, w: string): Option<nat> {
    IndexOfFrom(t, w, 0)
  }

  /** The first index at or after `j` holding `c`, or `|t|`. */
  function FindChar(t: string, c: char, j: nat): (r: nat)
    requires j <= |t|
    decreases |t| - j
    ensures j <= r <= |t| && (r < |t| ==> t[r] == c)
    ensures forall m :: j <= m < r ==> t[m] != c
  {
    if j == |t| || t[j] == c then j else FindChar(t, c, j + 1)
  }

  /** `t.includes(w)`. */
  predicate Includes(t: string, w: string) {
    IndexOf(t, w).Some?
  }

  lemma IncludesIffOccurs(t: string, w: string, p: nat)
    requires OccursAt(t, w, p)
    ensures Includes(t, w)
  {
  }

  /** Replaces the first occurrence of `w` by `rep`, taken literally. */
  function ReplaceFirst(t: string, w: string, rep: string): string {
    match IndexOf(t, w)
    case None => t
    case Some(k) => t[..k] + rep + t[k + |w|..]
  }

  /**
   * ECMAScript's GetSubstitution for a string pattern (no capture groups, no named groups):
   * `$$` inserts `$`, `$&` the matched text, `` $` `` the text before the match, `$'` the text
   * after it; every other character, including any other `$`, stands for itself.
   */
  function GetSubstitution(matched: string, str: string, position: nat, template: string): string
    requires position + |matched| <= |str|
    decreases |template|
  {
    if |template| == 0 then ""
    else if template[0] == '$' && |template| >= 2 && template[1] == '$' then
      "$" + GetSubstitution(matched, str, position, template[2..])
    else if template[0] == '$' && |template| >= 2 && template[1] == '&' then
      matched + GetSubstitution(matched, str, position, template[2..])
    else if template[0] == '$' && |template| >= 2 && template[1] == '`' then
      str[..position] + GetSubstitution(matched, str, position, template[2..])
    else if template[0] == '$' && |template| >= 2 && template[1] == '\'' then
      str[position + |matched|..] + GetSubstitution(matched, str, position, template[2..])
    else
      [template[0]] + GetSubstitution(matched, str, position, template[1..])
  }

  /** `t.replace(w, template)` for a string `w`: only the first occurrence, through GetSubstitution. */
  function JsReplace(t: string, w: string, template: string): string {
    match IndexOf(t, w)
    case None => t
    case Some(k) => t[..k] + GetSubstitution(w, t, k, template) + t[k + |w|..]
  }

  /** A template without `$` is inserted as it is. */
  lemma {:induction false} SubstitutionWithoutDollar(matched: string, str: string, position: nat, template: string)
    requires position + |matched| <= |str|
    requires '$' !in template
    ensures GetSubstitution(matched, str, position, template) == template
    decreases |template|
  {
    if |template| > 0 {
      assert template[0] != '$';
      SubstitutionWithoutDollar(matched, str, position, template[1..]);
      assert [template[0]] + template[1..] == template;
    }
  }

  /** `$$` in a template stands for a single `$`: `$$x$$` is inserted as `$x$`. */
  lemma DoubleDollarTemplate(matched: string, str: string, position: nat, x: string)
    requires position + |matched| <= |str|
    requires '$' !in x
    ensures GetSubstitution(matched, str, position, "$$" + x + "$$") == "$" + x + "$"
  {
    var t := "$$" + x + "$$";
    assert t[2..] == x + "$$";
    SubstitutionsAppend(matched, str, position, x, "$$");
    SubstitutionWithoutDollar(matched, str, position, x);
    assert ("$$")[2..] == "";
  }

  /**
   * A `$` followed by anything but `$`, `&`, `` ` `` or `'` stands for itself: `$x$` is inserted
   * as it is when `x` holds no `$` and does not start with one of those.
   */
  lemma SingleDollarTemplate(matched: string, str: string, position: nat, x: string)
    requires position + |matched| <= |str|
    requires |x| > 0 && '$' !in x && x[0] != '&' && x[0] != '`' && x[0] != '\''
    ensures GetSubstitution(matched, str, position, "$" + x + "$") == "$" + x + "$"
  {
    var t := "$" + x + "$";
    assert t[0] == '$' && t[1] == x[0];
    assert t[1..] == x + "$";
    SubstitutionsAppend(matched, str, position, x, "$");
    assert GetSubstitution(matched, str, position, "$") == "$" by {
      assert ("$")[1..] == "";
    }
  }

  /** `$&` in a template inserts the matched text itself. */
  lemma MatchedTemplate(matched: string, str: string, position: nat)
    requires position + |matched| <= |str|
    ensures GetSubstitution(matched, str, position, "$&$") == matched + "$"
  {
    var t := "$&$";
    assert t[2..] == "$";
    assert GetSubstitution(matched, str, position, "$") == "$" by {
      assert ("$")[1..] == "";
    }
  }

  /** A template `x + y` whose `x` holds no `$` is substituted piecewise. */
  lemma {:induction false} SubstitutionsAppend(matched: string, str: string, position: nat, x: string, y: string)
    requires position + |matched| <= |str|
    requires '$' !in x
    ensures GetSubstitution(matched, str, position, x + y)
         == x + GetSubstitution(matched, str, position, y)
    decreases |x|
  {
    if |x| > 0 {
      assert (x + y)[0] == x[0] && x[0] != '$';
      assert (x + y)[1..] == x[1..] + y;
      SubstitutionsAppend(matched, str, position, x[1..], y);
      assert [x[0]] + x[1..] == x;
    } else {
      assert x + y == y;
    }
  }

  /** JavaScript's WhiteSpace and LineTerminator characters, the set `trim` removes. */
  predicate IsWhite(c: char) {
    var n := c as int;
    n == 0x09 || n == 0x0A || n == 0x0B || n == 0x0C || n == 0x0D || n == 0x20 || n == 0xA0
    || n == 0x1680 || (0x2000 <= n <= 0x200A) || n == 0x2028 || n == 0x2029 || n == 0x202F
    || n == 0x205F || n == 0x3000 || n == 0xFEFF
  }

  predicate AllWhite(s: string) {
    forall i :: 0 <= i < |s| ==> IsWhite(s[i])
  }

  function TrimStart(s: string): (r: string)
    ensures |r| <= |s| && r == s[|s| - |r|..]
    ensures AllWhite(s[..|s| - |r|])
    ensures r == [] || !IsWhite(r[0])
  {
    if |s| > 0 && IsWhite(s[0]) then TrimStart(s[1..]) else s
  }

  function TrimEnd(s: string): (r: string)
    ensures |r| <= |s| && r == s[..|r|]
    ensures AllWhite(s[|r|..])
    ensures r == [] || !IsWhite(r[|r| - 1])
  {
    if |s| > 0 && IsWhite(s[|s| - 1]) then TrimEnd(s[..|s| - 1]) else s
  }

  /** `s.trim()`. */
  function Trim(s: string): string {
    TrimEnd(TrimStart(s))
  }

  /** `s.trim()` strips exactly white characters off both ends and keeps the rest. */
  lemma TrimSpec(s: string)
    ensures var r := Trim(s);
      exists a, b :: 0 <= a <= b <= |s| && r == s[a..b] && AllWhite(s[..a]) && AllWhite(s[b..])
    ensures var r := Trim(s); r == [] || (!IsWhite(r[0]) && !IsWhite(r[|r| - 1]))
  {
    var t := TrimStart(s);
    var r := TrimEnd(t);
    var a := |s| - |t|;
    var b := a + |r|;
    assert r == s[a..b];
    assert s[b..] == t[|r|..];
    if r != [] {
      assert r[0] == t[0];
    }
  }

  /** `!s.trim()`: the string is blank. */
  lemma BlankIffAllWhite(s: string)
    ensures Trim(s) == [] <==> AllWhite(s)
  {
    var t := TrimStart(s);
    if AllWhite(s) {
      AllWhiteTrimStart(s);
    }
    if Trim(s) == [] {
      assert t[0..] == t;
      assert t == [];
      assert s[..|s|] == s;
    }
  }

  lemma {:induction false} AllWhiteTrimStart(s: string)
    requires AllWhite(s)
    ensures TrimStart(s) == []
  {
    if |s| > 0 {
      AllWhiteTrimStart(s[1..]);
    }
  }

  lemma {:induction false} TrimIdempotent(s: string)
    ensures Trim(Trim(s)) == Trim(s)
  {
    var r := Trim(s);
    if r != [] {
      TrimSpec(s);
      assert !IsWhite(r[0]) && !IsWhite(r[|r| - 1]);
      assert TrimStart(r) == r;
      assert TrimEnd(r) == r;
    }
  }

  predicate IsDigit(c: char) {
    '0' <= c <= '9'
  }

  function DigitChar(d: nat): (c: char)
    requires d < 10
    ensures IsDigit(c) && c as int - '0' as int == d
  {
    ('0' as int + d) as char
  }

  /** The decimal text of `n`, as `${n}` prints a non-negative integer. */
  function NatToString(n: nat): (s: string)
    ensures |s| >= 1 && forall i :: 0 <= i < |s| ==> IsDigit(s[i])
    decreases n
  {
    if n < 10 then [DigitChar(n)] else NatToString(n / 10) + [DigitChar(n % 10)]
  }

  /** `${n}` for an integer. */
  function IntToString(n: int): string {
    if n < 0 then "-" + NatToString(-n) else NatToString(n)
  }

  /** The value of a string of decimal digits. */
  function DigitsValue(s: string): nat
    requires forall i :: 0 <= i < |s| ==> IsDigit(s[i])
  {
    if s == [] then 0
    else
      var last := s[|s| - 1];
      assert IsDigit(last);
      DigitsValue(s[..|s| - 1]) * 10 + (last as int - '0' as int)
  }

  /** Reading the printed decimal back gives the number. */
  lemma {:induction false} NatToStringValue(n: nat)
    ensures DigitsValue(NatToString(n)) == n
    decreases n
  {
    if n >= 10 {
      NatToStringValue(n / 10);
      var s := NatToString(n);
      assert s[..|s| - 1] == NatToString(n / 10);
    }
  }

  lemma NatToStringInjective(a: nat, b: nat)
    requires NatToString(a) == NatToString(b)
    ensures a == b
  {
    NatToStringValue(a);
    NatToStringValue(b);
  }

  /** Larger numbers never print shorter. */
  lemma {:induction false} NatToStringLengthMonotone(a: nat, b: nat)
    requires a <= b
    ensures |NatToString(a)| <= |NatToString(b)|
    decreases b
  {
    if a >= 10 {
      NatToStringLengthMonotone(a / 10, b / 10);
    }
  }

  /**
   * `s.split(sep)` for a one-character separator: the pieces between separators, in order;
   * joining them with the separator gives `s` back.
   */
  function Split(s: string, sep: char): (parts: seq<string>)
    ensures |parts| >= 1
    ensures Join(parts, [sep]) == s
    ensures forall i :: 0 <= i < |parts| ==> sep !in parts[i]
    decreases |s|
  {
    if |s| == 0 then [""]
    else if s[0] == sep then
      var rest := Split(s[1..], sep);
      assert [s[0]] + s[1..] == s;
      [""] + rest
    else
      var rest := Split(s[1..], sep);
      assert [s[0]] + s[1..] == s;
      [[s[0]] + rest[0]] + rest[1..]
  }

  /** `parts.join(sep)`. */
  function Join(parts: seq<string>, sep: string): string {
    if |parts| == 0 then ""
    else if |parts| == 1 then parts[0]
    else parts[0] + sep + Join(parts[1..], sep)
  }

  /** A string without the separator splits into itself alone. */
  lemma {:induction false} SplitNoSep(a: string, sep: char)
    requires sep !in a
    ensures Split(a, sep) == [a]
    decreases |a|
  {
    if |a| > 0 {
      SplitNoSep(a[1..], sep);
      assert [a[0]] + a[1..] == a;
    }
  }

  /** The text up to the first separator is the first piece; the rest splits on its own. */
  lemma {:induction false} SplitPrefix(a: string, b: string, sep: char)
    requires sep !in a
    ensures Split(a + [sep] + b, sep) == [a] + Split(b, sep)
    decreases |a|
  {
    if |a| == 0 {
      assert a + [sep] + b == [sep] + b;
      assert ([sep] + b)[1..] == b;
    } else {
      var t := a + [sep] + b;
      assert t[0] == a[0] && t[1..] == a[1..] + [sep] + b;
      SplitPrefix(a[1..], b, sep);
      assert [a[0]] + a[1..] == a;
    }
  }

  /** Splitting undoes joining when no piece holds the separator. */
  lemma {:induction false} SplitJoin(parts: seq<string>, sep: char)
    requires |parts| >= 1
    requires forall i :: 0 <= i < |parts| ==> sep !in parts[i]
    ensures Split(Join(parts, [sep]), sep) == parts
    decreases |parts|
  {
    if |parts| == 1 {
      SplitNoSep(parts[0], sep);
    } else {
      SplitJoin(parts[1..], sep);
      SplitPrefix(parts[0], Join(parts[1..], [sep]), sep);
      assert [parts[0]] + parts[1..] == parts;
    }
  }

  /** A string with no white character at either end is its own trim. */
  lemma TrimKeeps(s: string)
    requires s == [] || (!IsWhite(s[0]) && !IsWhite(s[|s| - 1]))
    ensures Trim(s) == s
  {
  }

  predicate IsAsciiUpper(c: char) { 'A' <= c <= 'Z' }
  predicate IsAsciiLower(c: char) { 'a' <= c <= 'z' }
  predicate IsAsciiAlnum(c: char) { IsAsciiUpper(c) || IsAsciiLower(c) || IsDigit(c) }

  function ToLowerAscii(c: char): char {
    if IsAsciiUpper(c) then (c as int + 32) as char else c
  }

  function ToUpperAscii(c: char): char {
    if IsAsciiLower(c) then (c as int - 32) as char else c
  }
}
