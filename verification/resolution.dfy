/**
 * The resolution dialog of the launcher (ResolutionForm): each available
 * resolution is listed as "X x Y", marked " *" when it is not 4:3; picking a
 * label fills the width and height boxes; OK validates and commits the two
 * numbers, Cancel commits nothing; ShowDialog reports the outcome.
 */
module ResolutionDialog {
  import opened Wrappers

  // ---------------------------------------------------------------- integers

  const INT32_MIN: int := -0x8000_0000
  const INT32_MAX: int := 0x7FFF_FFFF

  predicate InInt32(x: int) { INT32_MIN <= x <= INT32_MAX }

  /** System.Drawing.Point: two 32-bit coordinates. */
  datatype Point = Point(x: int, y: int)

  predicate IsDigit(c: char) { '0' <= c <= '9' }

  function DigitChar(d: nat): (c: char)
    requires d < 10
    ensures IsDigit(c)
  {
    ('0' as int + d) as char
  }

  function DigitValue(c: char): nat
    requires IsDigit(c)
  {
    (c as int) - ('0' as int)
  }

  predicate AllDigits(s: string)
  {
    forall i :: 0 <= i < |s| ==> IsDigit(s[i])
  }

  /** The number a run of decimal digits denotes. */
  function DecimalValue(s: string): nat
    requires AllDigits(s)
  {
    if |s| == 0 then 0 else 10 * DecimalValue(s[..|s| - 1]) + DigitValue(s[|s| - 1])
  }

  /** Decimal digits of a natural number, without leading zeros. */
  function NatToDecimal(n: nat): (s: string)
    ensures |s| >= 1 && AllDigits(s)
    ensures DecimalValue(s) == n
    ensures s[0] == '0' ==> n == 0
  {
    if n < 10 then [DigitChar(n)]
    else
      var p := NatToDecimal(n / 10);
      var s := p + [DigitChar(n % 10)];
      assert s[..|s| - 1] == p;
      s
  }

  /** Int32.ToString(): an optional minus sign, then the digits. */
  function IntToDecimal(x: int): (s: string)
    ensures |s| >= 1
    ensures IsDigit(s[|s| - 1])
    ensures IsDigit(s[0]) || (s[0] == '-' && x < 0)
    ensures forall i :: 0 < i < |s| ==> IsDigit(s[i])
    ensures (s[0] == '-') <==> x < 0
    ensures var d := if x < 0 then s[1..] else s;
      |d| >= 1 && AllDigits(d) && DecimalValue(d) == (if x < 0 then -x else x)
  {
    if x < 0 then "-" + NatToDecimal(-x) else NatToDecimal(x)
  }

  // ---------------------------------------------------------------- trimming

  /** Drops leading characters satisfying `drop`. */
  function TrimStart(s: string, drop: char -> bool): (r: string)
    ensures |r| <= |s| && r == s[|s| - |r|..]
    ensures forall i :: 0 <= i < |s| - |r| ==> drop(s[i])
    ensures |r| > 0 ==> !drop(r[0])
  {
    if |s| > 0 && drop(s[0]) then
      var r := TrimStart(s[1..], drop);
      assert forall i :: 1 <= i < |s| ==> s[i] == s[1..][i - 1];
      r
    else s
  }

  /** Drops trailing characters satisfying `drop`. */
  function TrimEnd(s: string, drop: char -> bool): (r: string)
    ensures |r| <= |s| && r == s[..|r|]
    ensures forall i :: |r| <= i < |s| ==> drop(s[i])
    ensures |r| > 0 ==> !drop(r[|r| - 1])
  {
    if |s| > 0 && drop(s[|s| - 1]) then
      var r := TrimEnd(s[..|s| - 1], drop);
      assert forall i :: 0 <= i < |s| - 1 ==> s[i] == s[..|s| - 1][i];
      r
    else s
  }

  /** String.Trim(chars): both ends. */
  function Trim(s: string, drop: char -> bool): (r: string)
  {
    TrimEnd(TrimStart(s, drop), drop)
  }

  /** Trimming peels off exactly the droppable padding around a core with firm ends. */
  lemma {:induction false} TrimExact(pre: string, core: string, post: string, drop: char -> bool)
    requires forall i :: 0 <= i < |pre| ==> drop(pre[i])
    requires forall i :: 0 <= i < |post| ==> drop(post[i])
    requires |core| > 0 && !drop(core[0]) && !drop(core[|core| - 1])
    ensures Trim(pre + core + post, drop) == core
  {
    TrimStartExact(pre, core + post, drop);
    Associate(pre, core, post);
    TrimEndExact(core, post, drop);
  }

  lemma {:induction false} TrimStartExact(pre: string, rest: string, drop: char -> bool)
    requires forall i :: 0 <= i < |pre| ==> drop(pre[i])
    requires |rest| > 0 && !drop(rest[0])
    ensures TrimStart(pre + rest, drop) == rest
  {
    if |pre| > 0 {
      assert (pre + rest)[1..] == pre[1..] + rest;
      TrimStartExact(pre[1..], rest, drop);
    } else {
      assert pre + rest == rest;
    }
  }

  lemma {:induction false} TrimEndExact(rest: string, post: string, drop: char -> bool)
    requires forall i :: 0 <= i < |post| ==> drop(post[i])
    requires |rest| > 0 && !drop(rest[|rest| - 1])
    ensures TrimEnd(rest + post, drop) == rest
  {
    if |post| > 0 {
      var s := rest + post;
      assert s[..|s| - 1] == rest + post[..|post| - 1];
      TrimEndExact(rest, post[..|post| - 1], drop);
    } else {
      assert rest + post == rest;
    }
  }

  /** Char.IsWhiteSpace: the characters String.Trim() removes. */
  predicate IsWhiteSpace(c: char)
  {
    || '\U{0009}' <= c <= '\U{000D}'
    || c == ' ' || c == '\U{0085}' || c == '\U{00A0}' || c == '\U{1680}'
    || '\U{2000}' <= c <= '\U{200A}'
    || c == '\U{2028}' || c == '\U{2029}' || c == '\U{202F}' || c == '\U{205F}' || c == '\U{3000}'
  }

  /** The white space Int32 parsing tolerates around a number (NumberStyles.Integer). */
  predicate IsNumberWhite(c: char)
  {
    '\U{0009}' <= c <= '\U{000D}' || c == ' '
  }

  /** The padding stripped from a label before it is split: spaces and the non-4:3 marker. */
  predicate IsLabelPad(c: char)
  {
    c == ' ' || c == '*'
  }

  // --------------------------------------------------------------- splitting

  /** String.Split(sep): the pieces between separators, empty ones included. */
  function Split(s: string, sep: char): (r: seq<string>)
    ensures |r| >= 1
    ensures forall k :: 0 <= k < |r| ==> sep !in r[k]
  {
    var e: string := [];
    if |s| == 0 then [e]
    else
      var rest := Split(s[1..], sep);
      if s[0] == sep then [e] + rest
      else [[s[0]] + rest[0]] + rest[1..]
  }

  /** The pieces glued back with the separator between them. */
  function Join(parts: seq<string>, sep: char): string
    requires |parts| >= 1
  {
    if |parts| == 1 then parts[0] else parts[0] + [sep] + Join(parts[1..], sep)
  }

  /** Splitting loses nothing: joining the pieces gives the string back. */
  lemma {:induction false} JoinSplit(s: string, sep: char)
    ensures Join(Split(s, sep), sep) == s
  {
    if |s| > 0 {
      JoinSplit(s[1..], sep);
      var rest := Split(s[1..], sep);
      if s[0] == sep {
        var e: string := [];
        assert ([e] + rest)[1..] == rest;
      } else {
        var r := [[s[0]] + rest[0]] + rest[1..];
        if |rest| > 1 {
          assert r[1..] == rest[1..];
          assert Join(rest, sep) == rest[0] + [sep] + Join(rest[1..], sep);
        }
        assert s == [s[0]] + s[1..];
      }
    }
  }

  /** Pieces free of the separator are exactly what splitting their join gives. */
  lemma {:induction false} SplitJoin(parts: seq<string>, sep: char)
    requires |parts| >= 1
    requires forall k :: 0 <= k < |parts| ==> sep !in parts[k]
    ensures Split(Join(parts, sep), sep) == parts
  {
    if |parts| == 1 {
      SplitNoSep(parts[0], sep);
    } else {
      SplitJoin(parts[1..], sep);
      SplitPrefix(parts[0], Join(parts[1..], sep), sep);
      assert [parts[0]] + parts[1..] == parts;
    }
  }

  lemma {:induction false} SplitNoSep(s: string, sep: char)
    requires sep !in s
    ensures Split(s, sep) == [s]
  {
    if |s| > 0 {
      SplitNoSep(s[1..], sep);
      assert [s[0]] + s[1..] == s;
    }
  }

  lemma {:induction false} SplitPrefix(a: string, b: string, sep: char)
    requires sep !in a
    ensures Split(a + [sep] + b, sep) == [a] + Split(b, sep)
  {
    if |a| == 0 {
      assert a + [sep] + b == [sep] + b;
      assert ([sep] + b)[1..] == b;
    } else {
      var s := a + [sep] + b;
      assert s[1..] == a[1..] + [sep] + b;
      SplitPrefix(a[1..], b, sep);
      assert [a[0]] + a[1..] == a;
    }
  }

  // ----------------------------------------------------------------- labels

  /** (float)Y / (float)X == 0.75f, taken over the integers. */
  predicate IsFourThree(x: int, y: int)
  {
    x != 0 && 4 * y == 3 * x
  }

  /** The list entry for one resolution. */
  function FormatLabel(p: Point): (s: string)
    ensures var core := IntToDecimal(p.x) + " x " + IntToDecimal(p.y);
      && |s| >= |core| && s[..|core|] == core
      && (IsFourThree(p.x, p.y) ==> s == core)
      && (!IsFourThree(p.x, p.y) ==> s == core + " *")
  {
    var s := IntToDecimal(p.x) + " x " + IntToDecimal(p.y);
    if !IsFourThree(p.x, p.y) then s + " *" else s
  }

  /** The labels the constructor adds to the list, in order. */
  function Labels(ps: seq<Point>): (r: seq<string>)
    ensures |r| == |ps|
    ensures forall i :: 0 <= i < |ps| ==> r[i] == FormatLabel(ps[i])
  {
    if |ps| == 0 then []
    else
      var rest := Labels(ps[1..]);
      assert forall i :: 1 <= i < |ps| ==> ps[i] == ps[1..][i - 1];
      [FormatLabel(ps[0])] + rest
  }

  /**
   * Parsing a picked label: both texts, or, when the label holds no 'x', the
   * width text alone, after which the handler throws (index out of range).
   */
  datatype Picked = Picked(widthText: string, heightText: string) | MissingHeight(widthText: string)

  function ParseLabel(text: string): (r: Picked)
    ensures var parts := Split(Trim(text, IsLabelPad), 'x');
      && r.widthText == Trim(parts[0], IsWhiteSpace)
      && (r.Picked? <==> |parts| >= 2)
      && (r.Picked? ==> r.heightText == Trim(parts[1], IsWhiteSpace))
  {
    var parts := Split(Trim(text, IsLabelPad), 'x');
    var w := Trim(parts[0], IsWhiteSpace);
    if |parts| < 2 then MissingHeight(w) else Picked(w, Trim(parts[1], IsWhiteSpace))
  }

  lemma {:induction false} NoXInDecimal(x: int)
    ensures 'x' !in IntToDecimal(x)
  {
    var s := IntToDecimal(x);
    forall i | 0 <= i < |s|
      ensures s[i] != 'x'
    {
      assert IsDigit(s[i]) || s[i] == '-';
    }
  }

  lemma {:induction false} SplitCore(X: string, Y: string)
    requires 'x' !in X && 'x' !in Y
    ensures Split(X + " x " + Y, 'x') == [X + " ", " " + Y]
  {
    var a, b := X + " ", " " + Y;
    assert 'x' !in a && 'x' !in b;
    assert Join([a, b], 'x') == X + " x " + Y;
    SplitJoin([a, b], 'x');
  }

  lemma {:induction false} TrimTrailingSpace(X: string)
    requires |X| > 0 && !IsWhiteSpace(X[0]) && !IsWhiteSpace(X[|X| - 1])
    ensures Trim(X + " ", IsWhiteSpace) == X
  {
    TrimExact("", X, " ", IsWhiteSpace);
    assert "" + X + " " == X + " ";
  }

  lemma {:induction false} TrimLeadingSpace(Y: string)
    requires |Y| > 0 && !IsWhiteSpace(Y[0]) && !IsWhiteSpace(Y[|Y| - 1])
    ensures Trim(" " + Y, IsWhiteSpace) == Y
  {
    TrimExact(" ", Y, "", IsWhiteSpace);
    assert " " + Y + "" == " " + Y;
  }

  lemma {:induction false} TrimMark(core: string, mark: string)
    requires |core| > 0 && !IsLabelPad(core[0]) && !IsLabelPad(core[|core| - 1])
    requires mark == "" || mark == " *"
    ensures Trim(core + mark, IsLabelPad) == core
  {
    TrimExact("", core, mark, IsLabelPad);
    assert "" + core + mark == core + mark;
  }

  lemma {:induction false} ParseTwoParts(text: string, a: string, b: string)
    requires Split(Trim(text, IsLabelPad), 'x') == [a, b]
    ensures ParseLabel(text) == Picked(Trim(a, IsWhiteSpace), Trim(b, IsWhiteSpace))
  {
  }

  /** Any two x-free texts with firm ends, shown as "X x Y" and maybe marked, parse back. */
  lemma {:induction false} ParseLabelOf(X: string, Y: string, mark: string)
    requires |X| > 0 && |Y| > 0 && 'x' !in X && 'x' !in Y
    requires !IsLabelPad(X[0]) && !IsWhiteSpace(X[0]) && !IsWhiteSpace(X[|X| - 1])
    requires !IsWhiteSpace(Y[0]) && !IsWhiteSpace(Y[|Y| - 1]) && !IsLabelPad(Y[|Y| - 1])
    requires mark == "" || mark == " *"
    ensures ParseLabel(X + " x " + Y + mark) == Picked(X, Y)
  {
    var core := X + " x " + Y;
    assert core[0] == X[0] && core[|core| - 1] == Y[|Y| - 1];
    TrimMark(core, mark);
    SplitCore(X, Y);
    TrimTrailingSpace(X);
    TrimLeadingSpace(Y);
    ParseTwoParts(core + mark, X + " ", " " + Y);
  }

  /** A formatted label parses back into the decimal texts of both coordinates. */
  lemma {:induction false} ParseFormattedLabel(p: Point)
    ensures ParseLabel(FormatLabel(p)) == Picked(IntToDecimal(p.x), IntToDecimal(p.y))
  {
    var X, Y := IntToDecimal(p.x), IntToDecimal(p.y);
    NoXInDecimal(p.x);
    NoXInDecimal(p.y);
    var mark := if IsFourThree(p.x, p.y) then "" else " *";
    assert FormatLabel(p) == X + " x " + Y + mark;
    ParseLabelOf(X, Y, mark);
  }

  // ------------------------------------------------------------ Int32 parse

  /**
   * Convert.ToInt32(string): optional white space around an optional sign
   * and at least one decimal digit; the value must fit in 32 bits.  None
   * stands for the FormatException or OverflowException it throws.
   */
  function ParseInt32(s: string): (r: Option<int>)
    ensures r.Some? ==> InInt32(r.value)
    ensures Trim(s, IsNumberWhite) == [] ==> r.None?
    ensures r.Some? ==> Int32Text(s, r.value)
    ensures forall v :: Int32Text(s, v) ==> r == Some(v)
  {
    ParseFound(s);
    TextsParse(s);
    ParseNumber(Trim(s, IsNumberWhite))
  }

  predicate AllNumberWhite(t: string)
  {
    forall i :: 0 <= i < |t| ==> IsNumberWhite(t[i])
  }

  predicate IsSign(t: string)
  {
    t == "" || t == "-" || t == "+"
  }

  /**
   * The text Convert.ToInt32 accepts for `v`: white space, a sign or none,
   * one or more digits, white space, with the signed value in 32 bits.
   * `i`, `k` and `j` cut the text into those four parts.
   */
  ghost predicate Int32Text(s: string, v: int)
  {
    exists i, k, j :: Int32Parts(s, v, i, k, j)
  }

  ghost predicate Int32Parts(s: string, v: int, i: int, k: int, j: int)
  {
    && 0 <= i <= k < j <= |s|
    && AllNumberWhite(s[..i]) && IsSign(s[i..k]) && AllDigits(s[k..j]) && AllNumberWhite(s[j..])
    && v == Signed(s[i..k] == "-", s[k..j]) && InInt32(v)
  }

  /** A successful parse comes from text of the accepted shape, cut where trimming cut it. */
  lemma {:induction false} ParseFound(s: string)
    ensures ParseNumber(Trim(s, IsNumberWhite)).Some? ==>
              Int32Text(s, ParseNumber(Trim(s, IsNumberWhite)).value)
  {
    var t := Trim(s, IsNumberWhite);
    if ParseNumber(t).Some? {
      var v := ParseNumber(t).value;
      var i, j := TrimCut(s);
      var c := SignCut(t);
      PartsFromCuts(s, t, v, i, c, j);
    }
  }

  lemma {:induction false} PartsFromCuts(s: string, t: string, v: int, i: nat, c: nat, j: nat)
    requires i <= j <= |s| && t == s[i..j]
    requires AllNumberWhite(s[..i]) && AllNumberWhite(s[j..])
    requires c < |t| && IsSign(t[..c]) && AllDigits(t[c..])
    requires v == Signed(t[..c] == "-", t[c..]) && InInt32(v)
    ensures Int32Parts(s, v, i, i + c, j)
  {
    assert s[i..i + c] == t[..c];
    assert s[i + c..j] == t[c..];
  }

  /** Where trimming cuts: white space before `i`, white space from `j` on. */
  lemma {:induction false} TrimCut(s: string) returns (i: nat, j: nat)
    ensures i <= j <= |s| && Trim(s, IsNumberWhite) == s[i..j]
    ensures AllNumberWhite(s[..i]) && AllNumberWhite(s[j..])
  {
    var a := TrimStart(s, IsNumberWhite);
    var t := TrimEnd(a, IsNumberWhite);
    i, j := CutsOf(s, a, t);
  }

  /** The cut points of a core `t` inside a suffix `a` of `s`, padding on both sides. */
  lemma {:induction false} CutsOf(s: string, a: string, t: string) returns (i: nat, j: nat)
    requires |a| <= |s| && a == s[|s| - |a|..]
    requires |t| <= |a| && t == a[..|t|]
    requires forall p :: 0 <= p < |s| - |a| ==> IsNumberWhite(s[p])
    requires forall p :: |t| <= p < |a| ==> IsNumberWhite(a[p])
    ensures i <= j <= |s| && t == s[i..j]
    ensures AllNumberWhite(s[..i]) && AllNumberWhite(s[j..])
  {
    i := |s| - |a|;
    j := i + |t|;
    assert t == s[i..j];
    WhiteBefore(s, i);
    WhiteFrom(a, |t|);
    assert s[j..] == a[|t|..];
  }

  lemma Associate(a: string, b: string, c: string)
    ensures a + b + c == a + (b + c)
  {
  }

  lemma WhiteBefore(s: string, i: nat)
    requires i <= |s|
    requires forall p :: 0 <= p < i ==> IsNumberWhite(s[p])
    ensures AllNumberWhite(s[..i])
  {
    assert forall p :: 0 <= p < i ==> s[..i][p] == s[p];
  }

  lemma WhiteFrom(s: string, j: nat)
    requires j <= |s|
    requires forall p :: j <= p < |s| ==> IsNumberWhite(s[p])
    ensures AllNumberWhite(s[j..])
  {
    assert forall p :: 0 <= p < |s| - j ==> s[j..][p] == s[j + p];
  }

  /** Where a number that parses splits into its sign and its digits. */
  lemma {:induction false} SignCut(t: string) returns (c: nat)
    requires ParseNumber(t).Some?
    ensures c < |t| && IsSign(t[..c]) && AllDigits(t[c..])
    ensures ParseNumber(t).value == Signed(t[..c] == "-", t[c..]) && InInt32(ParseNumber(t).value)
  {
    if t[0] == '-' || t[0] == '+' {
      c := 1;
      assert t[..1] == [t[0]];
    } else {
      c := 0;
      assert t[..0] == "" && t[0..] == t;
    }
  }

  lemma {:induction false} TextsParse(s: string)
    ensures forall v :: Int32Text(s, v) ==> ParseNumber(Trim(s, IsNumberWhite)) == Some(v)
  {
    forall v | Int32Text(s, v)
      ensures ParseNumber(Trim(s, IsNumberWhite)) == Some(v)
    {
      TextParses(s, v);
    }
  }

  /** Text of the accepted shape parses to its value. */
  lemma {:induction false} TextParses(s: string, v: int)
    requires Int32Text(s, v)
    ensures ParseNumber(Trim(s, IsNumberWhite)) == Some(v)
  {
    var i, k, j :| Int32Parts(s, v, i, k, j);
    assert s == s[..i] + s[i..k] + s[k..j] + s[j..];
    PartsParse(s[..i], s[i..k], s[k..j], s[j..], v);
  }

  lemma {:induction false} PartsParse(pre: string, sign: string, digits: string, post: string, v: int)
    requires AllNumberWhite(pre) && AllNumberWhite(post)
    requires IsSign(sign) && |digits| > 0 && AllDigits(digits)
    requires v == Signed(sign == "-", digits) && InInt32(v)
    ensures ParseNumber(Trim(pre + sign + digits + post, IsNumberWhite)) == Some(v)
  {
    TrimNumber(pre, sign, digits, post);
    ParseSignText(sign, digits);
  }

  /** Trimming number white space leaves exactly the signed digits. */
  lemma {:induction false} TrimNumber(pre: string, sign: string, digits: string, post: string)
    requires AllNumberWhite(pre) && AllNumberWhite(post)
    requires IsSign(sign) && |digits| > 0 && AllDigits(digits)
    ensures Trim(pre + sign + digits + post, IsNumberWhite) == sign + digits
  {
    var core := sign + digits;
    assert core[0] == (if sign == "" then digits[0] else sign[0]);
    assert core[|core| - 1] == digits[|digits| - 1];
    TrimExact(pre, core, post, IsNumberWhite);
    Regroup(pre, sign, digits, post);
  }

  lemma Regroup(a: string, b: string, c: string, d: string)
    ensures a + (b + c) + d == a + b + c + d
  {
  }

  /** A sign or none, then digits, parses to its value when that fits in 32 bits. */
  lemma {:induction false} ParseSignText(sign: string, digits: string)
    requires IsSign(sign)
    requires |digits| > 0 && AllDigits(digits)
    requires InInt32(Signed(sign == "-", digits))
    ensures ParseNumber(sign + digits) == Some(Signed(sign == "-", digits))
  {
    var t := sign + digits;
    if sign == "" {
      assert t == digits && IsDigit(t[0]);
    } else {
      assert t[0] == sign[0] && t[1..] == digits;
    }
  }

  /** The value of digits under a sign. */
  function Signed(neg: bool, digits: string): int
    requires AllDigits(digits)
  {
    if neg then -(DecimalValue(digits) as int) else DecimalValue(digits)
  }

  /** The trimmed text: '-' or '+' or nothing, then one or more digits, within 32 bits. */
  function ParseNumber(t: string): (r: Option<int>)
    ensures r.Some? ==> InInt32(r.value)
    ensures t == [] ==> r.None?
  {
    if |t| == 0 then None
    else
      var neg := t[0] == '-';
      var digits := if t[0] == '-' || t[0] == '+' then t[1..] else t;
      if |digits| == 0 || !AllDigits(digits) then None
      else if InInt32(Signed(neg, digits)) then Some(Signed(neg, digits))
      else None
  }

  /** A sign or none, then digits, parses to its value when that fits in 32 bits. */
  lemma {:induction false} ParseSignedDigits(neg: bool, n: string)
    requires |n| > 0 && AllDigits(n)
    requires InInt32(Signed(neg, n))
    ensures ParseNumber((if neg then "-" else "") + n) == Some(Signed(neg, n))
  {
    var s := (if neg then "-" else "") + n;
    if neg {
      assert s[0] == '-' && s[1..] == n;
    } else {
      assert s == n && IsDigit(s[0]);
    }
  }

  lemma {:induction false} DecimalIsTrimmed(x: int)
    ensures Trim(IntToDecimal(x), IsNumberWhite) == IntToDecimal(x)
  {
    var s := IntToDecimal(x);
    TrimExact("", s, "", IsNumberWhite);
    assert "" + s + "" == s;
  }

  lemma {:induction false} DecimalIsNumber(x: int)
    requires InInt32(x)
    ensures ParseNumber(IntToDecimal(x)) == Some(x)
  {
    if x < 0 {
      var n := NatToDecimal(-x);
      assert Signed(true, n) == x;
      ParseSignedDigits(true, n);
    } else {
      var n := NatToDecimal(x);
      assert Signed(false, n) == x;
      ParseSignedDigits(false, n);
      assert "" + n == n;
    }
  }

  /** Every 32-bit value survives a trip through its decimal text. */
  lemma {:induction false} ParseDecimal(x: int)
    requires InInt32(x)
    ensures ParseInt32(IntToDecimal(x)) == Some(x)
  {
    DecimalIsTrimmed(x);
    DecimalIsNumber(x);
  }

  // ------------------------------------------------------------------ dialog

  datatype DialogResult = NoResult | OK | Cancel

  datatype Message = InvalidWidth | InvalidHeight | DimensionError

  /**
   * The dialog's state: the two text boxes, the list entries, the result
   * and whether it has closed, and the committed dimensions (the class's
   * static sWidth and sHeight, loaded before the dialog opens).
   */
  datatype Form = Form(
    widthText: string,
    heightText: string,
    items: seq<string>,
    result: DialogResult,
    closed: bool,
    sWidth: int,
    sHeight: int)

  /** The constructor: boxes show the stored size, the list shows every resolution. */
  function NewForm(sWidth: int, sHeight: int, resolutions: seq<Point>): (f: Form)
    ensures f.widthText == IntToDecimal(sWidth) && f.heightText == IntToDecimal(sHeight)
    ensures |f.items| == |resolutions|
    ensures forall i :: 0 <= i < |resolutions| ==> f.items[i] == FormatLabel(resolutions[i])
    ensures f.result == NoResult && !f.closed && f.sWidth == sWidth && f.sHeight == sHeight
  {
    Form(IntToDecimal(sWidth), IntToDecimal(sHeight), Labels(resolutions), NoResult, false, sWidth, sHeight)
  }

  /** The selection handler's effect, and whether it ended by throwing. */
  datatype Selection = Selection(form: Form, threw: bool)

  /** cmbRes_SelectedIndexChanged with `text` as the combo box's text. */
  function SelectLabel(f: Form, text: string): (r: Selection)
    ensures r.form.widthText == ParseLabel(text).widthText
    ensures r.threw <==> ParseLabel(text).MissingHeight?
    ensures !r.threw ==> r.form.heightText == ParseLabel(text).heightText
    ensures r.threw ==> r.form.heightText == f.heightText
    ensures r.form.(widthText := f.widthText, heightText := f.heightText) == f
  {
    match ParseLabel(text)
    case Picked(w, h) => Selection(f.(widthText := w, heightText := h), false)
    case MissingHeight(w) => Selection(f.(widthText := w), true)
  }

  /**
   * bOK_Click: the width is parsed first, then the height, then both are
   * checked positive; the first failure is reported and changes nothing.
   * Otherwise the result becomes OK, the dimensions are committed and the
   * dialog closes.
   */
  function ClickOk(f: Form): (r: (Form, Option<Message>))
    ensures r.1.Some? ==> r.0 == f
    ensures r.1 == Some(InvalidWidth) <==> ParseInt32(f.widthText).None?
    ensures r.1 == Some(InvalidHeight)
        <==> ParseInt32(f.widthText).Some? && ParseInt32(f.heightText).None?
    ensures r.1 == Some(DimensionError)
        <==> && ParseInt32(f.widthText).Some? && ParseInt32(f.heightText).Some?
             && (ParseInt32(f.widthText).value <= 0 || ParseInt32(f.heightText).value <= 0)
    ensures r.1.None? ==>
        && r.0.result == OK && r.0.closed
        && Some(r.0.sWidth) == ParseInt32(f.widthText) && Some(r.0.sHeight) == ParseInt32(f.heightText)
        && r.0.sWidth > 0 && r.0.sHeight > 0
        && r.0.widthText == f.widthText && r.0.heightText == f.heightText && r.0.items == f.items
  {
    match ParseInt32(f.widthText)
    case None => (f, Some(InvalidWidth))
    case Some(width) =>
      match ParseInt32(f.heightText)
      case None => (f, Some(InvalidHeight))
      case Some(height) =>
        if width <= 0 || height <= 0 then (f, Some(DimensionError))
        else (f.(result := OK, sWidth := width, sHeight := height, closed := true), None)
  }

  /** bCancel_Click: the result becomes Cancel and the dialog closes; nothing is committed. */
  function ClickCancel(f: Form): (r: Form)
    ensures r.result == Cancel && r.closed
    ensures r.(result := f.result, closed := f.closed) == f
  {
    f.(result := Cancel, closed := true)
  }

  /** ShowDialog's return value and out parameter once the dialog has closed. */
  function ShowDialogOutcome(f: Form): (r: (bool, Point))
    ensures r.0 <==> f.result == OK
    ensures r.0 ==> r.1 == Point(f.sWidth, f.sHeight)
    ensures !r.0 ==> r.1 == Point(0, 0)
  {
    if f.result == OK then (true, Point(f.sWidth, f.sHeight)) else (false, Point(0, 0))
  }

  /** Picking any listed positive resolution and pressing OK returns exactly that resolution. */
  lemma {:induction false} PickThenOk(sWidth: int, sHeight: int, resolutions: seq<Point>, i: nat)
    requires i < |resolutions|
    requires InInt32(resolutions[i].x) && InInt32(resolutions[i].y)
    requires resolutions[i].x > 0 && resolutions[i].y > 0
    ensures var sel := SelectLabel(NewForm(sWidth, sHeight, resolutions), NewForm(sWidth, sHeight, resolutions).items[i]);
      && !sel.threw
      && ClickOk(sel.form).1.None?
      && ShowDialogOutcome(ClickOk(sel.form).0) == (true, resolutions[i])
  {
    var p := resolutions[i];
    ParseFormattedLabel(p);
    ParseDecimal(p.x);
    ParseDecimal(p.y);
  }

  /** After Cancel the dialog reports no resolution and keeps the stored one. */
  lemma {:induction false} CancelReturnsNothing(f: Form)
    ensures ShowDialogOutcome(ClickCancel(f)) == (false, Point(0, 0))
    ensures ClickCancel(f).sWidth == f.sWidth && ClickCancel(f).sHeight == f.sHeight
  {
  }

  /** A rejected OK leaves the dialog open with its result unset if it was unset. */
  lemma {:induction false} RejectedOkKeepsOpen(f: Form)
    requires !f.closed && f.result == NoResult
    requires ClickOk(f).1.Some?
    ensures !ClickOk(f).0.closed && !ShowDialogOutcome(ClickOk(f).0).0
  {
  }
}
