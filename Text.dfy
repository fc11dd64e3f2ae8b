/**
 * Text primitives the trimmer relies on: decimal numerals as Python's `str(int)`
 * and `f"{n:02}"` print them, the subset of `float()` / `int()` that reads them
 * back, `str.split` and `str.join`, and the POSIX `os.path` helpers used to
 * name files. Every recursive definition walks its string by index, from the
 * end, rather than by slicing it.
 */
module Text {
  import opened Common

  // ---------------------------------------------------------------- digits

  predicate IsDigit(c: char) { '0' <= c <= '9' }

  /** The digit a character stands for; 0 for anything that is not a digit. */
  function DigitOf(c: char): nat
  {
    if IsDigit(c) then c as int - '0' as int else 0
  }

  function DigitChar(d: nat): (c: char)
    requires d < 10
    ensures IsDigit(c) && DigitOf(c) == d
  {
    ('0' as int + d) as char
  }

  /** Every character of `s[i..j]` is a digit. */
  predicate DigitsBetween(s: string, i: nat, j: nat)
    requires i <= j <= |s|
    decreases j - i
  {
    j == i || (IsDigit(s[j - 1]) && DigitsBetween(s, i, j - 1))
  }

  /** `s[i..j]` read as a decimal numeral, most significant digit first. */
  function ValueBetween(s: string, i: nat, j: nat): nat
    requires i <= j <= |s|
    decreases j - i
  {
    if j == i then 0 else 10 * ValueBetween(s, i, j - 1) + DigitOf(s[j - 1])
  }

  predicate AllDigits(s: string)
  {
    DigitsBetween(s, 0, |s|)
  }

  function DigitsValue(s: string): nat
  {
    ValueBetween(s, 0, |s|)
  }

  function Pow10(k: nat): (p: nat)
    ensures p >= 1
  {
    if k == 0 then 1 else 10 * Pow10(k - 1)
  }

  /** Two runs of `n` equal characters, wherever they sit, read the same. */
  lemma {:induction false} SameRun(s: string, i: nat, t: string, i': nat, n: nat)
    requires i + n <= |s| && i' + n <= |t|
    requires forall k :: i <= k < i + n ==> s[k] == t[k - i + i']
    ensures DigitsBetween(s, i, i + n) == DigitsBetween(t, i', i' + n)
    ensures ValueBetween(s, i, i + n) == ValueBetween(t, i', i' + n)
  {
    if n > 0 {
      SameRun(s, i, t, i', n - 1);
      assert s[i + n - 1] == t[i' + n - 1];
    }
  }

  lemma {:induction false} DigitBetween(s: string, i: nat, j: nat, k: nat)
    requires i <= k < j <= |s| && DigitsBetween(s, i, j)
    ensures IsDigit(s[k])
    decreases j
  {
    if k < j - 1 {
      DigitBetween(s, i, j - 1, k);
    }
  }

  lemma {:induction false} DigitAt(s: string, k: nat)
    requires AllDigits(s) && k < |s|
    ensures IsDigit(s[k])
  {
    DigitBetween(s, 0, |s|, k);
  }

  /** Appending one character: the digits stay digits and the value shifts one place. */
  lemma {:induction false} Snoc(x: string, c: char)
    ensures AllDigits(x + [c]) == (AllDigits(x) && IsDigit(c))
    ensures DigitsValue(x + [c]) == 10 * DigitsValue(x) + DigitOf(c)
  {
    SameRun(x + [c], 0, x, 0, |x|);
  }

  /** Digits are neither the `:` of a timestamp nor a decimal point. */
  lemma {:induction false} NoColonInDigits(s: string)
    requires AllDigits(s)
    ensures ':' !in s && '.' !in s
  {
    forall k | 0 <= k < |s|
      ensures s[k] != ':' && s[k] != '.'
    {
      DigitAt(s, k);
    }
  }

  lemma {:induction false} ShiftDigit(va: int, p: int, vb: int, d: int)
    ensures 10 * (va * p + vb) + d == va * (10 * p) + (10 * vb + d)
  {
  }

  /** The value of a concatenation of numerals. */
  lemma {:induction false} DigitsValueAppend(a: string, b: string)
    ensures AllDigits(a) && AllDigits(b) ==> AllDigits(a + b)
    ensures DigitsValue(a + b) == DigitsValue(a) * Pow10(|b|) + DigitsValue(b)
    decreases |b|
  {
    if b == [] {
      assert a + b == a;
    } else {
      var b', c := b[..|b| - 1], b[|b| - 1];
      assert b == b' + [c];
      assert a + b == (a + b') + [c];
      DigitsValueAppend(a, b');
      Snoc(a + b', c);
      Snoc(b', c);
      ShiftDigit(DigitsValue(a), Pow10(|b'|), DigitsValue(b'), DigitOf(c));
    }
  }

  // ---------------------------------------------------------------- str(int)

  /** `str(n)` for a non-negative Python int. */
  function NatStr(n: nat): (s: string)
    ensures 1 <= |s| && AllDigits(s)
    ensures s[0] == '0' ==> n == 0
  {
    if n < 10 then
      [DigitChar(n)]
    else
      Snoc(NatStr(n / 10), DigitChar(n % 10));
      NatStr(n / 10) + [DigitChar(n % 10)]
  }

  /** `str(i)` for any Python int. */
  function IntStr(i: int): (s: string)
    ensures 1 <= |s|
    ensures s[0] == '-' <==> i < 0
  {
    DigitAt(NatStr(if i < 0 then -i else i), 0);
    if i < 0 then "-" + NatStr(-i) else NatStr(i)
  }

  /** `f"{n:0<w>}"`: the numeral left-padded with zeros to at least `w` characters. */
  function Pad(n: nat, w: nat): (s: string)
    ensures AllDigits(s) && |s| >= w && |s| >= 1
  {
    if w <= |NatStr(n)| then NatStr(n)
    else
      DigitsValueAppend("0", Pad(n, w - 1));
      Snoc([], '0');
      "0" + Pad(n, w - 1)
  }

  lemma {:induction false} NatStrValue(n: nat)
    ensures DigitsValue(NatStr(n)) == n
  {
    if n >= 10 {
      NatStrValue(n / 10);
      Snoc(NatStr(n / 10), DigitChar(n % 10));
    } else {
      assert NatStr(n) == [] + [DigitChar(n)];
      Snoc([], DigitChar(n));
    }
  }

  lemma {:induction false} NatStrShort(n: nat, k: nat)
    requires 1 <= k && n < Pow10(k)
    ensures |NatStr(n)| <= k
  {
    if n >= 10 {
      NatStrShort(n / 10, k - 1);
    }
  }

  lemma {:induction false} PadDigits(n: nat, w: nat)
    ensures DigitsValue(Pad(n, w)) == n
    ensures |Pad(n, w)| == if w <= |NatStr(n)| then |NatStr(n)| else w
  {
    NatStrValue(n);
    if w > |NatStr(n)| {
      PadDigits(n, w - 1);
      DigitsValueAppend("0", Pad(n, w - 1));
      Snoc([], '0');
    }
  }

  /** Zero padding does not change the value read back, and a value below `10^w` fills exactly `w` places. */
  lemma {:induction false} PadValue(n: nat, w: nat)
    ensures DigitsValue(Pad(n, w)) == n
    ensures 1 <= w && n < Pow10(w) ==> |Pad(n, w)| == w
  {
    PadDigits(n, w);
    if n < Pow10(w) && w >= 1 {
      NatStrShort(n, w);
    }
  }

  // ---------------------------------------------------------------- int()

  /** Reads a non-empty run of digits, as `int(text)` does for a plain numeral. */
  function ParseNat(s: string): Option<nat>
  {
    if |s| > 0 && AllDigits(s) then Some(DigitsValue(s)) else None
  }

  /** Reads an optional minus sign followed by at least one digit. */
  function ParseInt(s: string): Option<int>
  {
    if |s| > 0 && s[0] == '-' then
      if |s| > 1 && DigitsBetween(s, 1, |s|) then Some(-(ValueBetween(s, 1, |s|) as int)) else None
    else
      match ParseNat(s)
      case Some(n) => Some(n)
      case None => None
  }

  /** A numeral exactly as `str` prints a non-negative int: no sign, no leading zero. */
  predicate Canonical(s: string)
  {
    ParseNat(s).Some? && NatStr(ParseNat(s).value) == s
  }

  /** Printing a natural number and reading it back gives the number. */
  lemma {:induction false} NatStrRoundTrip(n: nat)
    ensures ParseNat(NatStr(n)) == Some(n)
    ensures Canonical(NatStr(n))
  {
    NatStrValue(n);
  }

  /** A minus sign before a run of digits reads as the negated value. */
  lemma {:induction false} ReadNegative(d: string)
    requires |d| > 0 && AllDigits(d)
    ensures ParseInt("-" + d) == Some(-(DigitsValue(d) as int))
  {
    SameRun("-" + d, 1, d, 0, |d|);
  }

  /** Printing any integer and reading it back gives the integer. */
  lemma {:induction false} IntStrRoundTrip(i: int)
    ensures ParseInt(IntStr(i)) == Some(i)
  {
    if i < 0 {
      NatStrValue(-i);
      ReadNegative(NatStr(-i));
    } else {
      NatStrRoundTrip(i);
      DigitAt(NatStr(i), 0);
    }
  }

  // ---------------------------------------------------------------- str.split / str.join

  /** The pieces of the first `n` characters of `s` cut at every `sep`. */
  function SplitPrefix(s: string, sep: char, n: nat): (parts: seq<string>)
    requires n <= |s|
    ensures |parts| >= 1
  {
    if n == 0 then [""]
    else
      var p := SplitPrefix(s, sep, n - 1);
      if s[n - 1] == sep then p + [""] else p[|p| - 1 := p[|p| - 1] + [s[n - 1]]]
  }

  /** `s.split(sep)`: the pieces between separators, always at least one. */
  function Split(s: string, sep: char): (parts: seq<string>)
    ensures |parts| >= 1
  {
    SplitPrefix(s, sep, |s|)
  }

  lemma {:induction false} SplitPrefixNoSeparator(s: string, sep: char, n: nat)
    requires n <= |s| && sep !in s
    ensures SplitPrefix(s, sep, n) == [s[..n]]
  {
    if n > 0 {
      SplitPrefixNoSeparator(s, sep, n - 1);
      assert s[..n] == s[..n - 1] + [s[n - 1]];
    }
  }

  /** Text without the separator is a single piece. */
  lemma {:induction false} SplitNoSeparator(s: string, sep: char)
    requires sep !in s
    ensures Split(s, sep) == [s]
  {
    SplitPrefixNoSeparator(s, sep, |s|);
    assert s[..|s|] == s;
  }

  /** The pieces of a prefix depend only on the characters in it. */
  lemma {:induction false} SamePieces(s: string, t: string, sep: char, n: nat)
    requires n <= |s| && n <= |t|
    requires forall i :: 0 <= i < n ==> s[i] == t[i]
    ensures SplitPrefix(s, sep, n) == SplitPrefix(t, sep, n)
  {
    if n > 0 {
      SamePieces(s, t, sep, n - 1);
    }
  }

  lemma {:induction false} SplitLastPieceFrom(x: string, sep: char, c: string, k: nat)
    requires sep !in c && k <= |c|
    ensures SplitPrefix(x + [sep] + c, sep, |x| + 1 + k) == Split(x, sep) + [c[..k]]
  {
    var s := x + [sep] + c;
    if k == 0 {
      SamePieces(s, x, sep, |x|);
      assert s[|x|] == sep;
    } else {
      SplitLastPieceFrom(x, sep, c, k - 1);
      assert s[|x| + k] == c[k - 1];
      var p := Split(x, sep) + [c[..k - 1]];
      assert c[..k] == c[..k - 1] + [c[k - 1]];
      assert p[|p| - 1 := p[|p| - 1] + [c[k - 1]]] == Split(x, sep) + [c[..k]];
    }
  }

  /** Text after the last separator is the last piece. */
  lemma {:induction false} SplitLastPiece(x: string, sep: char, c: string)
    requires sep !in c
    ensures Split(x + [sep] + c, sep) == Split(x, sep) + [c]
  {
    SplitLastPieceFrom(x, sep, c, |c|);
    assert c[..|c|] == c;
  }

  /** The first `n` fields with `sep` between them. */
  function JoinPrefix(fields: seq<string>, sep: char, n: nat): string
    requires 1 <= n <= |fields|
  {
    if n == 1 then fields[0] else JoinPrefix(fields, sep, n - 1) + [sep] + fields[n - 1]
  }

  /** `sep.join(fields)`. */
  function JoinWith(sep: char, fields: seq<string>): string
  {
    if fields == [] then "" else JoinPrefix(fields, sep, |fields|)
  }

  lemma {:induction false} SplitJoinPrefix(fields: seq<string>, sep: char, n: nat)
    requires 1 <= n <= |fields|
    requires forall i :: 0 <= i < |fields| ==> sep !in fields[i]
    ensures Split(JoinPrefix(fields, sep, n), sep) == fields[..n]
  {
    if n == 1 {
      SplitNoSeparator(fields[0], sep);
    } else {
      SplitJoinPrefix(fields, sep, n - 1);
      SplitLastPiece(JoinPrefix(fields, sep, n - 1), sep, fields[n - 1]);
      assert fields[..n] == fields[..n - 1] + [fields[n - 1]];
    }
  }

  /** Splitting fields joined by a separator none of them contains gives the fields back. */
  lemma {:induction false} SplitJoin(sep: char, fields: seq<string>)
    requires |fields| >= 1
    requires forall i :: 0 <= i < |fields| ==> sep !in fields[i]
    ensures Split(JoinWith(sep, fields), sep) == fields
  {
    SplitJoinPrefix(fields, sep, |fields|);
    assert fields[..|fields|] == fields;
  }

  // ---------------------------------------------------------------- float()

  predicate IsSpace(c: char)
  {
    c == ' ' || c == '\t' || c == '\n' || c == '\r' || c == '\U{000B}' || c == '\U{000C}'
  }

  /** The first index in `[i, j)` that is not white space, or `j`. */
  function SkipSpaces(s: string, i: nat, j: nat): (k: nat)
    requires i <= j <= |s|
    ensures i <= k <= j
    decreases j - i
  {
    if i < j && IsSpace(s[i]) then SkipSpaces(s, i + 1, j) else i
  }

  /** The end of `s[..j]` once trailing white space is dropped. */
  function TrimEnd(s: string, j: nat): (k: nat)
    requires j <= |s|
    ensures k <= j
  {
    if j > 0 && IsSpace(s[j - 1]) then TrimEnd(s, j - 1) else j
  }

  /** Index of the last `c` in `s[i..j]`, or `i - 1` when there is none. */
  function LastIndexIn(s: string, c: char, i: nat, j: nat): (k: int)
    requires i <= j <= |s|
    ensures i - 1 <= k < j
    ensures k >= i ==> s[k] == c
    decreases j - i
  {
    if j == i then i - 1
    else if s[j - 1] == c then j - 1
    else LastIndexIn(s, c, i, j - 1)
  }

  lemma {:induction false} NoneAfterLastIndex(s: string, c: char, i: nat, j: nat)
    requires i <= j <= |s|
    ensures forall m :: LastIndexIn(s, c, i, j) < m < j ==> s[m] != c
    decreases j - i
  {
    if j > i && s[j - 1] != c {
      NoneAfterLastIndex(s, c, i, j - 1);
    }
  }

  /** `v / 10^k`, one decimal place at a time. */
  function Shift(v: real, k: nat): real
  {
    if k == 0 then v else Shift(v, k - 1) / 10.0
  }

  lemma {:induction false} ShiftFour(v: real)
    ensures Shift(v, 4) == v / 10000.0
  {
    assert Shift(v, 1) == v / 10.0;
    assert Shift(v, 2) == v / 100.0;
    assert Shift(v, 3) == v / 1000.0;
  }

  /**
   * `s[i..j]` as digits with at most one decimal point and at least one digit:
   * `12`, `12.5`, `12.` and `.5` all read.
   */
  function ReadUnsigned(s: string, i: nat, j: nat): Option<real>
    requires i <= j <= |s|
  {
    var d := LastIndexIn(s, '.', i, j);
    if d < i then
      if i < j && DigitsBetween(s, i, j) then Some(ValueBetween(s, i, j) as real) else None
    else if j - i > 1 && DigitsBetween(s, i, d) && DigitsBetween(s, d + 1, j) then
      Some(ValueBetween(s, i, d) as real + Shift(ValueBetween(s, d + 1, j) as real, j - d - 1))
    else None
  }

  /**
   * `float(text)` restricted to plain decimals: surrounding ASCII white space,
   * an optional sign, digits and an optional fraction. `None` stands for the
   * `ValueError` Python raises.
   */
  function ParseNumber(text: string): Option<real>
  {
    var j := TrimEnd(text, |text|);
    var i := SkipSpaces(text, 0, j);
    var signed := i < j && (text[i] == '-' || text[i] == '+');
    var u := ReadUnsigned(text, if signed then i + 1 else i, j);
    if u.None? then None
    else if signed && text[i] == '-' then Some(-u.value)
    else u
  }

  lemma {:induction false} NoPointInDigits(s: string, i: nat, j: nat)
    requires i <= j <= |s| && DigitsBetween(s, i, j)
    ensures LastIndexIn(s, '.', i, j) == i - 1
    decreases j - i
  {
    if j > i {
      NoPointInDigits(s, i, j - 1);
    }
  }

  lemma {:induction false} PointBeforeDigits(s: string, i: nat, d: nat, j: nat)
    requires i <= d < j <= |s| && s[d] == '.' && DigitsBetween(s, d + 1, j)
    ensures LastIndexIn(s, '.', i, j) == d
    decreases j
  {
    if j > d + 1 {
      PointBeforeDigits(s, i, d, j - 1);
    }
  }

  /** Text that starts and ends with a digit is read without stripping or sign. */
  lemma {:induction false} ReadPlain(s: string)
    requires |s| > 0 && IsDigit(s[0]) && IsDigit(s[|s| - 1])
    ensures ParseNumber(s) == ReadUnsigned(s, 0, |s|)
  {
    assert TrimEnd(s, |s|) == |s|;
    assert SkipSpaces(s, 0, |s|) == 0;
  }

  /** A run of digits reads back as its value. */
  lemma {:induction false} ParseDigits(d: string)
    requires |d| > 0 && AllDigits(d)
    ensures ParseNumber(d) == Some(DigitsValue(d) as real)
  {
    DigitAt(d, 0);
    DigitAt(d, |d| - 1);
    ReadPlain(d);
    NoPointInDigits(d, 0, |d|);
  }

  /** `s` is digits, a point at `w`, digits; the two runs read `a` and `b`, the second one `n` long. */
  predicate PointedDecimal(s: string, w: nat, a: nat, b: nat, n: nat)
  {
    0 < w && w + 1 < |s| && s[w] == '.' && n == |s| - w - 1
    && DigitsBetween(s, 0, w) && DigitsBetween(s, w + 1, |s|)
    && ValueBetween(s, 0, w) == a && ValueBetween(s, w + 1, |s|) == b
  }

  /** Digits, one point, digits: read as the whole part plus the scaled fraction. */
  lemma {:induction false} ParsePointed(s: string, w: nat, a: nat, b: nat, n: nat)
    requires PointedDecimal(s, w, a, b, n)
    ensures ParseNumber(s) == Some(a as real + Shift(b as real, n))
  {
    DigitBetween(s, 0, w, 0);
    DigitBetween(s, w + 1, |s|, |s| - 1);
    ReadPlain(s);
    PointBeforeDigits(s, 0, w, |s|);
  }

  lemma {:induction false} DecimalChars(whole: string, frac: string)
    requires |whole| > 0 && |frac| > 0 && AllDigits(whole) && AllDigits(frac)
    ensures PointedDecimal(whole + "." + frac, |whole|, DigitsValue(whole), DigitsValue(frac), |frac|)
  {
    var s := whole + "." + frac;
    SameRun(s, 0, whole, 0, |whole|);
    SameRun(s, |whole| + 1, frac, 0, |frac|);
  }

  /** `whole.frac` reads back as `whole + frac / 10^|frac|`. */
  lemma {:induction false} ParseDecimal(whole: string, frac: string)
    requires |whole| > 0 && |frac| > 0 && AllDigits(whole) && AllDigits(frac)
    ensures ParseNumber(whole + "." + frac)
         == Some(DigitsValue(whole) as real + Shift(DigitsValue(frac) as real, |frac|))
  {
    DecimalChars(whole, frac);
    ParsePointed(whole + "." + frac, |whole|, DigitsValue(whole), DigitsValue(frac), |frac|);
  }

  // ---------------------------------------------------------------- os.path

  function LastIndexOf(s: string, c: char): (k: int)
    ensures -1 <= k < |s|
    ensures k >= 0 ==> s[k] == c
    ensures forall m :: k < m < |s| ==> s[m] != c
  {
    NoneAfterLastIndex(s, c, 0, |s|);
    LastIndexIn(s, c, 0, |s|)
  }

  /** `os.path.split(p)[1]`: what follows the last `/`. */
  function BaseName(p: string): (b: string)
    ensures '/' !in b
    ensures |b| <= |p| && p == p[..|p| - |b|] + b
  {
    p[LastIndexOf(p, '/') + 1..]
  }

  /**
   * `os.path.splitext(b)` on a base name: the extension runs from the last dot,
   * unless every character before that dot is a dot too.
   */
  function SplitExt(b: string): (r: (string, string))
    ensures r.0 + r.1 == b
    ensures r.1 == "" || (r.1[0] == '.' && '.' !in r.1[1..])
  {
    var d := LastIndexOf(b, '.');
    if d >= 0 && !OnlyDots(b, d) then
      ExtensionAt(b, d);
      (b[..d], b[d..])
    else (b, "")
  }

  /** Every character of `s[..j]` is a dot. */
  predicate OnlyDots(s: string, j: nat)
    requires j <= |s|
  {
    j == 0 || (s[j - 1] == '.' && OnlyDots(s, j - 1))
  }

  lemma {:induction false} ExtensionAt(b: string, d: nat)
    requires d < |b| && b[d] == '.' && '.' !in b[d + 1..]
    ensures b[..d] + b[d..] == b && b[d..][0] == '.' && '.' !in b[d..][1..]
  {
    assert b[d..][1..] == b[d + 1..];
  }

  /** `os.path.join(folder, name)` with POSIX separators. */
  function Join(folder: string, name: string): string
  {
    if |name| > 0 && name[0] == '/' then name
    else if folder == [] || folder[|folder| - 1] == '/' then folder + name
    else folder + "/" + name
  }

  /** The file name joined onto a folder is the base name of the result. */
  lemma {:induction false} JoinBaseName(folder: string, name: string)
    requires '/' !in name
    ensures BaseName(Join(folder, name)) == name
  {
    var p := Join(folder, name);
    var k := LastIndexOf(p, '/');
    if folder == [] {
      assert p == name;
      assert k == -1;
    } else {
      var head := if folder[|folder| - 1] == '/' then folder else folder + "/";
      assert p == head + name;
      assert p[|head| - 1] == '/';
      assert k == |head| - 1;
      assert p[|head|..] == name;
    }
  }
}
