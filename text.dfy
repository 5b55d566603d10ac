/** The handful of Python string built-ins the client relies on, restricted to
    ASCII: `str.lower()`, `int(s, base)` for bases 10 and 16, and the question
    whether `float(s)` accepts `s`. */
module Text {
  import opened Wrappers

  /** The white space `int()` and `float()` skip around an ASCII string: tab,
      line feed, vertical tab, form feed, carriage return and space. (The
      information separators 0x1C-0x1F, which `str.isspace()` admits, are
      not skipped.) */
  predicate IsSpace(c: char) {
    (9 <= c as int <= 13) || c == ' '
  }

  function TrimStart(s: string): string {
    if s != [] && IsSpace(s[0]) then TrimStart(s[1..]) else s
  }

  function TrimEnd(s: string): string {
    if s != [] && IsSpace(s[|s| - 1]) then TrimEnd(s[..|s| - 1]) else s
  }

  /** `s` without the white space `int()` and `float()` skip at both ends */
  function Strip(s: string): string {
    TrimEnd(TrimStart(s))
  }

  /** `s[1:]` when `s` starts with a sign, else `s` */
  function Unsigned(t: string): string {
    if |t| > 0 && (t[0] == '+' || t[0] == '-') then t[1..] else t
  }

  function LowerChar(c: char): char {
    if 'A' <= c <= 'Z' then (c as int + 32) as char else c
  }

  /** `s.lower()` */
  function Lower(s: string): (r: string)
    ensures |r| == |s|
    ensures forall i :: 0 <= i < |s| ==> r[i] == LowerChar(s[i])
  {
    if s == [] then [] else [LowerChar(s[0])] + Lower(s[1..])
  }

  /** `s.lower() in {"true", "false"}` */
  predicate IsBoolWord(s: string) {
    Lower(s) == "true" || Lower(s) == "false"
  }

  /** The value of an alphanumeric digit (0-9, then a/A = 10 up to z/Z = 35);
      36 for any other character. */
  function DigitValue(c: char): nat {
    if '0' <= c <= '9' then c as int - '0' as int
    else if 'a' <= c <= 'z' then c as int - 'a' as int + 10
    else if 'A' <= c <= 'Z' then c as int - 'A' as int + 10
    else 36
  }

  predicate IsDigitOf(c: char, base: nat) {
    DigitValue(c) < base
  }

  predicate AllDigits(s: string, base: nat) {
    forall i :: 0 <= i < |s| ==> IsDigitOf(s[i], base)
  }

  /** The value of the digit string `ds` in `base`, most significant digit first. */
  function Num(ds: string, base: nat): nat {
    if ds == [] then 0 else Num(ds[..|ds| - 1], base) * base + DigitValue(ds[|ds| - 1])
  }

  /** A run of digits in which single underscores may separate two digits,
      the digit syntax `int()` and `float()` accept. */
  predicate Grouped(s: string, base: nat) {
    && |s| > 0
    && IsDigitOf(s[0], base)
    && IsDigitOf(s[|s| - 1], base)
    && (forall i :: 0 <= i < |s| ==> IsDigitOf(s[i], base) || s[i] == '_')
    && (forall i :: 0 <= i < |s| - 1 ==> IsDigitOf(s[i], base) || IsDigitOf(s[i + 1], base))
  }

  /** `s` without its underscores */
  function Unscored(s: string): string {
    if s == [] then []
    else Unscored(s[..|s| - 1]) + (if s[|s| - 1] == '_' then [] else [s[|s| - 1]])
  }

  /** The base-16 body of `int(s, 16)`: an optional `0x`/`0X` prefix, which
      may itself be followed by one underscore, is dropped. */
  function DropHexPrefix(u: string): string {
    if |u| >= 2 && u[0] == '0' && (u[1] == 'x' || u[1] == 'X') then
      if |u| >= 3 && u[2] == '_' then u[3..] else u[2..]
    else u
  }

  /** The default of `sys.set_int_max_str_digits`: the most digits `int()`
      converts in a base that is not a power of two, and `str()` writes. */
  const MaxStrDigits := 4300

  /** `int(s, base)` for base 10 or 16, `None` where Python raises ValueError:
      surrounding white space, one optional sign, for base 16 an optional
      `0x` prefix, then underscore-grouped digits (in base 10 no more than
      `MaxStrDigits` of them). */
  function ParseInt(s: string, base: nat): Option<int>
    requires base == 10 || base == 16
  {
    var t := Strip(s);
    var body := if base == 16 then DropHexPrefix(Unsigned(t)) else Unsigned(t);
    match Magnitude(body, base)
    case Some(n) => Some(if |t| > 0 && t[0] == '-' then -(n as int) else n)
    case None => None
  }

  /** The value of an unsigned, underscore-grouped digit run; `None` for a
      decimal run of more than `MaxStrDigits` digits. */
  function Magnitude(body: string, base: nat): Option<nat> {
    if !Grouped(body, base) then None
    else if base == 10 && |Unscored(body)| > MaxStrDigits then None
    else Some(Num(Unscored(body), base))
  }

  /** The index just past the underscore-grouped decimal run starting at `i`;
      `i` itself when `u[i]` is not a digit. */
  function GroupEnd(u: string, i: nat): (j: nat)
    requires i <= |u|
    ensures i <= j <= |u|
    ensures j > i ==> IsDigitOf(u[i], 10)
  {
    if i < |u| && IsDigitOf(u[i], 10) then RunEnd(u, i + 1) else i
  }

  function RunEnd(u: string, i: nat): (j: nat)
    requires i <= |u|
    ensures i <= j <= |u|
    decreases |u| - i
  {
    if i < |u| && IsDigitOf(u[i], 10) then RunEnd(u, i + 1)
    else if i + 1 < |u| && u[i] == '_' && IsDigitOf(u[i + 1], 10) then RunEnd(u, i + 2)
    else i
  }

  /** The decimal form `float()` reads: digits, an optional fraction, an
      optional exponent; at least one digit before the exponent. */
  predicate DecimalFloat(u: string) {
    var i := GroupEnd(u, 0);
    var dot := i < |u| && u[i] == '.';
    var j := if dot then GroupEnd(u, i + 1) else i;
    && (i > 0 || (dot && j > i + 1))
    && if j < |u| && (u[j] == 'e' || u[j] == 'E') then
         var k := if j + 1 < |u| && (u[j + 1] == '+' || u[j + 1] == '-') then j + 2 else j + 1;
         GroupEnd(u, k) > k && GroupEnd(u, k) == |u|
       else j == |u|
  }

  /** The special words `float()` accepts, in any case. */
  predicate IsFloatWord(s: string) {
    var w := Lower(Unsigned(Strip(s)));
    w == "inf" || w == "infinity" || w == "nan"
  }

  /** `float(s)` returns instead of raising ValueError. */
  predicate IsFloatText(s: string) {
    IsFloatWord(s) || DecimalFloat(Unsigned(Strip(s)))
  }

  /** A digit character of `base`, lower-case letters above 9. */
  function DigitChar(d: nat): (c: char)
    requires d < 36
    ensures DigitValue(c) == d
  {
    if d < 10 then ('0' as int + d) as char else ('a' as int + d - 10) as char
  }

  /** `format(n, "x")` for base 16 and `str(n)` for base 10. */
  function ToDigits(n: nat, base: nat): string
    requires 2 <= base <= 36
    decreases n
  {
    if n < base then [DigitChar(n)]
    else
      DivBelow(n, base);
      ToDigits(n / base, base) + [DigitChar(n % base)]
  }

  // ---------------------------------------------------------------------------
  // Lemmas

  lemma {:induction false} UnscoredPlain(s: string)
    requires forall i :: 0 <= i < |s| ==> s[i] != '_'
    ensures Unscored(s) == s
  {
    if s != [] {
      UnscoredPlain(s[..|s| - 1]);
      assert s[..|s| - 1] + [s[|s| - 1]] == s;
    }
  }

  lemma StripOfNoSpace(s: string)
    requires forall i :: 0 <= i < |s| ==> !IsSpace(s[i])
    ensures Strip(s) == s
  {
    assert TrimStart(s) == s;
    assert TrimEnd(s) == s;
  }

  /** A plain digit string, with or without a minus sign, reads back as the
      value of its digits. */
  lemma ParseDigits(full: string, s: string, base: nat, negative: bool)
    requires base == 10 || base == 16
    requires s != [] && AllDigits(s, base)
    requires base == 10 ==> |s| <= MaxStrDigits
    requires full == (if negative then "-" else "") + s
    ensures ParseInt(full, base) == Some(if negative then -(Num(s, base) as int) else Num(s, base))
  {
    var n := Num(s, base);
    assert Strip(full) == full && Unsigned(full) == s && (|full| > 0 && full[0] == '-') == negative by {
      SignedDigitsStrip(full, s, base, negative);
    }
    assert DropHexPrefix(s) == s && Magnitude(s, base) == Some(n) by {
      PlainMagnitude(s, base);
    }
    SignedMagnitude(full, s, base, negative, n);
  }

  /** A plain digit string has no prefix to drop and no underscore to skip. */
  lemma PlainMagnitude(s: string, base: nat)
    requires base == 10 || base == 16
    requires s != [] && AllDigits(s, base)
    requires base == 10 ==> |s| <= MaxStrDigits
    ensures DropHexPrefix(s) == s && Magnitude(s, base) == Some(Num(s, base))
  {
    DigitsGrouped(s, base);
    UnscoredPlain(s);
  }

  lemma SignedMagnitude(full: string, s: string, base: nat, negative: bool, n: nat)
    requires base == 10 || base == 16
    requires Strip(full) == full && Unsigned(full) == s
    requires (|full| > 0 && full[0] == '-') == negative
    requires DropHexPrefix(s) == s
    requires Magnitude(s, base) == Some(n)
    ensures ParseInt(full, base) == Some(if negative then -(n as int) else n)
  {
  }

  lemma SignedDigitsStrip(full: string, s: string, base: nat, negative: bool)
    requires base == 10 || base == 16
    requires s != [] && AllDigits(s, base)
    requires full == (if negative then "-" else "") + s
    ensures Strip(full) == full && Unsigned(full) == s
    ensures (|full| > 0 && full[0] == '-') == negative
  {
    forall i | 0 <= i < |full| ensures !IsSpace(full[i]) {
      if !(negative && i == 0) {
        var k := if negative then i - 1 else i;
        assert full[i] == s[k];
      }
    }
    StripOfNoSpace(full);
    if !negative {
      assert DigitValue(s[0]) < base;
    }
  }

  lemma DigitsGrouped(s: string, base: nat)
    requires base == 10 || base == 16
    requires s != [] && AllDigits(s, base)
    ensures Grouped(DropHexPrefix(s), base) && DropHexPrefix(s) == s
    ensures forall i :: 0 <= i < |s| ==> s[i] != '_'
  {
    assert |s| >= 2 ==> IsDigitOf(s[1], base);
  }

  lemma NumSnoc(p: string, c: char, base: nat)
    ensures Num(p + [c], base) == Num(p, base) * base + DigitValue(c)
  {
    assert (p + [c])[..|p|] == p;
  }

  /** The digits `ToDigits` writes read back as `n`: `int(format(n, "x"), 16) == n`. */
  lemma {:induction false} ToDigitsRoundTrip(n: nat, base: nat)
    requires 2 <= base <= 36
    ensures Num(ToDigits(n, base), base) == n
  {
    if n < base {
      SingleDigit(n, base);
    } else {
      DivBelow(n, base);
      ToDigitsRoundTrip(n / base, base);
      LastDigit(n, base);
    }
  }

  lemma SingleDigit(n: nat, base: nat)
    requires 2 <= base <= 36 && n < base
    ensures Num(ToDigits(n, base), base) == n
  {
    assert ToDigits(n, base) == [DigitChar(n)];
    assert [DigitChar(n)][..0] == [];
  }

  lemma LastDigit(n: nat, base: nat)
    requires 2 <= base <= 36 && n >= base
    requires Num(ToDigits(n / base, base), base) == n / base
    ensures Num(ToDigits(n, base), base) == n
  {
    var q, r := n / base, n % base;
    var prefix := ToDigits(q, base);
    var last := DigitChar(r);
    assert ToDigits(n, base) == prefix + [last];
    NumSnoc(prefix, last, base);
    DivMod(n, base, q, r);
  }

  lemma DivMod(n: nat, base: nat, q: nat, r: nat)
    requires 0 < base && q == n / base && r == n % base
    ensures q * base + r == n
  {
  }

  /** `ToDigits` writes at least one character, each a digit of the base. */
  lemma {:induction false} ToDigitsAreDigits(n: nat, base: nat)
    requires 2 <= base <= 36
    ensures ToDigits(n, base) != [] && AllDigits(ToDigits(n, base), base)
    decreases n
  {
    if n < base {
      assert IsDigitOf(DigitChar(n), base);
    } else {
      DivBelow(n, base);
      ToDigitsAreDigits(n / base, base);
      ToDigitsStep(n, base);
    }
  }

  lemma DivBelow(n: nat, base: nat)
    requires 2 <= base <= n
    ensures n / base < n && n % base < base
  {
  }

  /** The digits of `n` are digits of the base when those of `n / base` are. */
  lemma ToDigitsStep(n: nat, base: nat)
    requires 2 <= base <= 36 && n >= base
    requires AllDigits(ToDigits(n / base, base), base)
    ensures ToDigits(n, base) != [] && AllDigits(ToDigits(n, base), base)
  {
    DivBelow(n, base);
    ToDigitsSnoc(n, base);
    assert IsDigitOf(DigitChar(n % base), base);
    AllDigitsSnoc(ToDigits(n / base, base), DigitChar(n % base), base);
  }

  lemma ToDigitsSnoc(n: nat, base: nat)
    requires 2 <= base <= 36 && n >= base
    ensures ToDigits(n, base) == ToDigits(n / base, base) + [DigitChar(n % base)]
  {
  }

  lemma AllDigitsSnoc(p: string, c: char, base: nat)
    requires AllDigits(p, base) && IsDigitOf(c, base)
    ensures AllDigits(p + [c], base)
  {
    assert forall i :: 0 <= i < |p| ==> (p + [c])[i] == p[i];
  }

  lemma {:induction false} TrimStartSuffix(s: string)
    ensures |TrimStart(s)| <= |s| && TrimStart(s) == s[|s| - |TrimStart(s)|..]
  {
    if s != [] && IsSpace(s[0]) {
      TrimStartSuffix(s[1..]);
    }
  }

  lemma {:induction false} TrimEndPrefix(s: string)
    ensures |TrimEnd(s)| <= |s| && TrimEnd(s) == s[..|TrimEnd(s)|]
  {
    if s != [] && IsSpace(s[|s| - 1]) {
      TrimEndPrefix(s[..|s| - 1]);
    }
  }

  /** Every character of `Unsigned(Strip(s))` is a character of `s`. */
  lemma UnsignedStripWithin(s: string)
    ensures forall c :: c in Unsigned(Strip(s)) ==> c in s
  {
    var a := TrimStart(s);
    var t := TrimEnd(a);
    TrimStartSuffix(s);
    TrimEndPrefix(a);
    forall c | c in Unsigned(t) ensures c in s {
      var i :| 0 <= i < |Unsigned(t)| && Unsigned(t)[i] == c;
      var k := if |t| > 0 && (t[0] == '+' || t[0] == '-') then i + 1 else i;
      assert t[k] == c;
      assert a[k] == c;
      assert s[|s| - |a| + k] == c;
    }
  }

  /** Stripping removes only white space: every other character of `s`
      is still there. */
  lemma StripKeeps(s: string, c: char)
    requires c in s && !IsSpace(c)
    ensures c in Strip(s)
  {
    TrimStartKeeps(s, c);
    TrimEndKeeps(TrimStart(s), c);
  }

  lemma {:induction false} TrimStartKeeps(s: string, c: char)
    requires c in s && !IsSpace(c)
    ensures c in TrimStart(s)
  {
    if s != [] && IsSpace(s[0]) {
      var i :| 0 <= i < |s| && s[i] == c;
      assert s[1..][i - 1] == c;
      TrimStartKeeps(s[1..], c);
    }
  }

  lemma {:induction false} TrimEndKeeps(s: string, c: char)
    requires c in s && !IsSpace(c)
    ensures c in TrimEnd(s)
  {
    if s != [] && IsSpace(s[|s| - 1]) {
      var i :| 0 <= i < |s| && s[i] == c;
      assert s[..|s| - 1][i] == c;
      TrimEndKeeps(s[..|s| - 1], c);
    }
  }

  /** The body `int(s, 16)` reads keeps every character of `s` that is not
      white space, a sign, `x`, `X` or an underscore (a `0` is a digit anyway). */
  lemma HexBodyKeeps(s: string, c: char)
    requires c in s && !IsSpace(c) && c !in "+-_xX0"
    ensures c in DropHexPrefix(Unsigned(Strip(s)))
  {
    StripKeeps(s, c);
    var t := Strip(s);
    var i :| 0 <= i < |t| && t[i] == c;
    var u := Unsigned(t);
    var k := if |t| > 0 && (t[0] == '+' || t[0] == '-') then i - 1 else i;
    assert u[k] == c;
    var b := DropHexPrefix(u);
    var m := |u| - |b|;
    assert b == u[m..];
    assert b[k - m] == c;
  }

  /** Neither `int()` nor the decimal form of `float()` reads a string that
      holds no decimal digit. */
  lemma NoDigitNoNumber(s: string)
    requires forall c :: c in s ==> !IsDigitOf(c, 10)
    ensures ParseInt(s, 10).None?
    ensures !DecimalFloat(Unsigned(Strip(s)))
  {
    UnsignedStripWithin(s);
  }

  /** `int()` refuses a decimal digit run of more than `MaxStrDigits` digits. */
  lemma LongDigitsNoInt(s: string)
    requires AllDigits(s, 10) && |s| > MaxStrDigits
    ensures ParseInt(s, 10).None?
  {
    assert Strip(s) == s && Unsigned(s) == s by {
      SignedDigitsStrip(s, s, 10, false);
    }
    assert Unscored(s) == s by {
      DigitsGrouped(s, 10);
      UnscoredPlain(s);
    }
  }

  /** Every decimal digit run, however long, is a `float()` literal: the
      whole run is one group of digits. */
  lemma DigitsAreDecimalFloat(s: string)
    requires s != [] && AllDigits(s, 10)
    ensures DecimalFloat(s)
  {
    RunEndDigits(s, 1);
  }

  lemma {:induction false} RunEndDigits(s: string, i: nat)
    requires i <= |s| && AllDigits(s, 10)
    ensures RunEnd(s, i) == |s|
    decreases |s| - i
  {
    if i < |s| {
      RunEndDigits(s, i + 1);
    }
  }
}
