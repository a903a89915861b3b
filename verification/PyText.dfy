// Python string operations the modelled code relies on.
module PyText {

  /** One element of a `bytes` object. */
  type byte = b: int | 0 <= b < 256

  /** The characters `str.strip()` removes. */
  predicate IsSpace(c: char) {
    || '\U{9}' <= c <= '\U{d}'
    || '\U{1c}' <= c <= '\U{20}'
    || c == '\U{85}' || c == '\U{a0}' || c == '\U{1680}'
    || '\U{2000}' <= c <= '\U{200a}'
    || c == '\U{2028}' || c == '\U{2029}' || c == '\U{202f}' || c == '\U{205f}' || c == '\U{3000}'
  }

  /** The same characters by their code points. */
  lemma SpaceIff(c: char)
    ensures IsSpace(c) <==>
            || c as int in {9, 10, 11, 12, 13, 28, 29, 30, 31, 32, 133, 160, 5760}
            || 8192 <= c as int <= 8202
            || c as int in {8232, 8233, 8239, 8287, 12288}
  {
  }

  predicate IsSlash(c: char) {
    c == '/'
  }

  predicate IsAscii(s: string) {
    forall i :: 0 <= i < |s| ==> s[i] < '\U{80}'
  }

  /** `s.strip(chars)` for the characters satisfying `drop`. */
  function Strip(s: string, drop: char -> bool): string {
    if s == [] then []
    else if drop(s[0]) then Strip(s[1..], drop)
    else StripRight(s, drop)
  }

  function StripRight(s: string, drop: char -> bool): string {
    if s == [] then []
    else if drop(s[|s| - 1]) then StripRight(s[..|s| - 1], drop)
    else s
  }

  function StripSpace(s: string): string {
    Strip(s, IsSpace)
  }

  function StripSlash(s: string): string {
    Strip(s, IsSlash)
  }

  predicate Trimmed(s: string, drop: char -> bool) {
    s == [] || (!drop(s[0]) && !drop(s[|s| - 1]))
  }

  lemma {:induction false} StripRightShape(s: string, drop: char -> bool)
    ensures StripRight(s, drop) <= s
    ensures forall i :: |StripRight(s, drop)| <= i < |s| ==> drop(s[i])
    ensures StripRight(s, drop) == [] || !drop(StripRight(s, drop)[|StripRight(s, drop)| - 1])
    ensures s != [] && drop(s[|s| - 1]) ==> |StripRight(s, drop)| < |s|
  {
    if s != [] && drop(s[|s| - 1]) {
      StripRightShape(s[..|s| - 1], drop);
    }
  }

  /** Stripping leaves a slice of the input with no dropped character at either end, and
      what it removes are dropped characters only. */
  lemma {:induction false} StripShape(s: string, drop: char -> bool) returns (from: nat, to: nat)
    ensures from <= to <= |s| && Strip(s, drop) == s[from..to]
    ensures forall i :: 0 <= i < from || to <= i < |s| ==> drop(s[i])
    ensures Trimmed(Strip(s, drop), drop)
    ensures Strip(s, drop) == s <==> Trimmed(s, drop)
  {
    if s == [] {
      from, to := 0, 0;
    } else if drop(s[0]) {
      var from', to' := StripShape(s[1..], drop);
      from, to := from' + 1, to' + 1;
    } else {
      StripRightShape(s, drop);
      from, to := 0, |StripRight(s, drop)|;
    }
  }

  lemma StripTwice(s: string, drop: char -> bool)
    ensures Strip(Strip(s, drop), drop) == Strip(s, drop)
  {
    var _, _ := StripShape(s, drop);
    var _, _ := StripShape(Strip(s, drop), drop);
  }

  // ---------- decimal numerals ----------

  function Digit(d: nat): char
    requires d < 10
  {
    "0123456789"[d]
  }

  /** `str(n)` */
  function Decimal(n: nat): string {
    if n < 10 then [Digit(n)] else Decimal(n / 10) + [Digit(n % 10)]
  }

  /** `s.zfill(width)` for a string without a sign */
  function ZeroFill(s: string, width: nat): string
    decreases width - |s|
  {
    if |s| >= width then s else ZeroFill("0" + s, width)
  }

  predicate IsDigit(c: char) {
    '0' <= c <= '9'
  }

  predicate AllDigits(s: string) {
    forall i :: 0 <= i < |s| ==> IsDigit(s[i])
  }

  /** The number a string of digits denotes. */
  function Value(s: string): nat
    requires AllDigits(s)
  {
    if s == [] then 0 else 10 * Value(s[..|s| - 1]) + (s[|s| - 1] as nat - '0' as nat)
  }

  function Power10(k: nat): nat {
    if k == 0 then 1 else 10 * Power10(k - 1)
  }

  lemma DigitValue(d: nat)
    requires d < 10
    ensures IsDigit(Digit(d)) && Digit(d) as nat - '0' as nat == d
  {
    assert Digit(d) == ['0', '1', '2', '3', '4', '5', '6', '7', '8', '9'][d];
  }

  lemma SnocValue(s: string, c: char)
    requires AllDigits(s) && IsDigit(c)
    ensures AllDigits(s + [c]) && Value(s + [c]) == 10 * Value(s) + (c as nat - '0' as nat)
  {
    assert (s + [c])[..|s|] == s;
  }

  lemma {:induction false} DecimalValue(n: nat, k: nat)
    requires n < Power10(k) && k >= 1
    ensures 1 <= |Decimal(n)| <= k && AllDigits(Decimal(n)) && Value(Decimal(n)) == n
  {
    DigitValue(n % 10);
    if n >= 10 {
      assert k >= 2 && n / 10 < Power10(k - 1);
      DecimalValue(n / 10, k - 1);
      SnocValue(Decimal(n / 10), Digit(n % 10));
    } else {
      SnocValue([], Digit(n));
      assert [] + [Digit(n)] == [Digit(n)];
    }
  }

  /** A numeral has no leading zero, but for zero itself. */
  lemma {:induction false} DecimalLead(n: nat)
    ensures Decimal(n) != "" && (n > 0 ==> Decimal(n)[0] != '0')
  {
    if n >= 10 {
      DecimalLead(n / 10);
    } else {
      DigitValue(n);
    }
  }

  lemma {:induction false} LeadingZero(s: string)
    requires AllDigits(s)
    ensures AllDigits("0" + s) && Value("0" + s) == Value(s)
  {
    if s != [] {
      LeadingZero(s[..|s| - 1]);
      assert ("0" + s)[..|s|] == "0" + s[..|s| - 1];
    } else {
      assert "0" + s == "0";
    }
  }

  lemma {:induction false} ZeroFillValue(s: string, width: nat)
    requires AllDigits(s) && |s| <= width
    ensures |ZeroFill(s, width)| == width
    ensures AllDigits(ZeroFill(s, width)) && Value(ZeroFill(s, width)) == Value(s)
    decreases width - |s|
  {
    if |s| < width {
      LeadingZero(s);
      ZeroFillValue("0" + s, width);
    }
  }

  /** Fixed-width numerals: exactly `k` decimal digits that read back as `n`. */
  lemma FixedWidth(n: nat, k: nat)
    requires n < Power10(k) && k >= 1
    ensures var s := ZeroFill(Decimal(n), k); |s| == k && AllDigits(s) && Value(s) == n
  {
    DecimalValue(n, k);
    ZeroFillValue(Decimal(n), k);
  }
}
