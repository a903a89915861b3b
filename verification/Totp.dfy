// The fallback authenticator of src/state.py: time-based one-time codes (section 4.2
// of RFC 6238) over counter-based ones (section 5.3 of RFC 4226).
//
// HMAC-SHA-1 under the decoded secret is a parameter: a function from the eight
// counter bytes to a digest.
module Totp {
  import opened PyText
  import opened Wrappers

  const COUNTER_LIMIT := 0x1_0000_0000_0000_0000

  type Mac = seq<byte> -> seq<byte>

  /** The digest has the 20 bytes of SHA-1, whatever is hashed. */
  ghost predicate IsSha1(mac: Mac) {
    forall message :: |mac(message)| == 20
  }

  // ---------- counters and codes ----------

  /** `struct.pack(">Q", n)`, one byte at a time */
  function BigEndian(n: nat, width: nat): seq<byte> {
    if width == 0 then [] else BigEndian(n / 256, width - 1) + [n % 256]
  }

  function Number(bytes: seq<byte>): nat {
    if bytes == [] then 0 else 256 * Number(bytes[..|bytes| - 1]) + bytes[|bytes| - 1]
  }

  function Power256(k: nat): nat {
    if k == 0 then 1 else 256 * Power256(k - 1)
  }

  lemma {:induction false} BigEndianRoundTrip(n: nat, width: nat)
    requires n < Power256(width)
    ensures |BigEndian(n, width)| == width && Number(BigEndian(n, width)) == n
  {
    if width > 0 {
      BigEndianRoundTrip(n / 256, width - 1);
      var bytes := BigEndian(n, width);
      assert bytes[..|bytes| - 1] == BigEndian(n / 256, width - 1);
    }
  }

  lemma {:induction false} NumberBound(bytes: seq<byte>)
    ensures Number(bytes) < Power256(|bytes|)
  {
    if bytes != [] {
      NumberBound(bytes[..|bytes| - 1]);
    }
  }

  /** Dynamic truncation: the low half of the last byte selects four bytes, of which
      the lowest 31 bits count. */
  function Truncated(digest: seq<byte>): (n: nat)
    requires |digest| == 20
    ensures n < 0x8000_0000
  {
    var offset := digest[19] % 16;
    Number(digest[offset..offset + 4]) % 0x8000_0000
  }

  function Word(b0: int, b1: int, b2: int, b3: int): int {
    b0 * 0x100_0000 + b1 * 0x1_0000 + b2 * 0x100 + b3
  }

  lemma NumberSnoc(bytes: seq<byte>, last: byte)
    ensures Number(bytes + [last]) == 256 * Number(bytes) + last
  {
    assert (bytes + [last])[..|bytes|] == bytes;
  }

  lemma NumberOfFour(b0: byte, b1: byte, b2: byte, b3: byte)
    ensures Number([b0, b1, b2, b3]) == Word(b0, b1, b2, b3)
  {
    NumberSnoc([], b0);
    NumberSnoc([] + [b0], b1);
    NumberSnoc([] + [b0] + [b1], b2);
    NumberSnoc([] + [b0] + [b1] + [b2], b3);
    assert [] + [b0] + [b1] + [b2] + [b3] == [b0, b1, b2, b3];
  }

  /** The same number as RFC 4226 section 5.3 writes it: four bytes from the offset,
      the first without its top bit. */
  lemma TruncatedIsRfc(digest: seq<byte>)
    requires |digest| == 20
    ensures var o := digest[19] % 16;
            Truncated(digest) == Word(digest[o] % 0x80, digest[o + 1], digest[o + 2], digest[o + 3])
  {
    var o := digest[19] % 16;
    NumberOfFour(digest[o], digest[o + 1], digest[o + 2], digest[o + 3]);
    assert digest[o..o + 4] == [digest[o], digest[o + 1], digest[o + 2], digest[o + 3]];
    WithoutTopBit(digest[o], digest[o + 1], digest[o + 2], digest[o + 3]);
  }

  lemma WithoutTopBit(b0: byte, b1: byte, b2: byte, b3: byte)
    ensures Word(b0, b1, b2, b3) % 0x8000_0000 == Word(b0 % 0x80, b1, b2, b3)
  {
    assert Word(b0, b1, b2, b3) == 0x8000_0000 * (b0 / 0x80) + Word(b0 % 0x80, b1, b2, b3);
  }

  /** The worked example of RFC 4226 section 5.4. */
  lemma RfcExample()
    ensures var digest: seq<byte> := [0x1f, 0x86, 0x98, 0x69, 0x0e, 0x02, 0xca, 0x16, 0x61, 0x85,
                                      0x50, 0xef, 0x7f, 0x19, 0xda, 0x8e, 0x94, 0x5b, 0x55, 0x5a];
            Truncated(digest) == 0x50ef7f19 && Truncated(digest) % 1_000_000 == 872921
  {
    TruncatedIsRfc([0x1f, 0x86, 0x98, 0x69, 0x0e, 0x02, 0xca, 0x16, 0x61, 0x85,
                    0x50, 0xef, 0x7f, 0x19, 0xda, 0x8e, 0x94, 0x5b, 0x55, 0x5a]);
  }

  /** The code of one counter value: the truncated value modulo one million. */
  function CodeOf(mac: Mac, counter: nat): string
    requires |mac(BigEndian(counter, 8))| == 20
  {
    ZeroFill(Decimal(Truncated(mac(BigEndian(counter, 8))) % 1_000_000), 6)
  }

  /** Every code is six decimal digits, and denotes the truncated value modulo one
      million of the digest of a message that names the counter. */
  lemma CodeIsSixDigits(mac: Mac, counter: nat)
    requires IsSha1(mac) && counter < COUNTER_LIMIT
    ensures var code := CodeOf(mac, counter);
            && |code| == 6 && AllDigits(code)
            && Value(code) == Truncated(mac(BigEndian(counter, 8))) % 1_000_000
    ensures |BigEndian(counter, 8)| == 8 && Number(BigEndian(counter, 8)) == counter
  {
    assert Power10(6) == 1_000_000;
    FixedWidth(Truncated(mac(BigEndian(counter, 8))) % 1_000_000, 6);
    assert Power256(8) == COUNTER_LIMIT by { assert Power256(4) == 0x1_0000_0000; }
    BigEndianRoundTrip(counter, 8);
  }

  // ---------- time ----------

  /** `int(for_time // 30)`: the number of the thirty-second interval `time` lies in,
      with interval 0 beginning at the epoch (RFC 6238 section 4.2). */
  function Counter(time: real): (c: int)
    ensures c as real * 30.0 <= time < (c as real + 1.0) * 30.0
  {
    (time / 30.0).Floor
  }

  /** There is one such number. */
  lemma CounterIff(time: real, c: int)
    ensures Counter(time) == c <==> c as real * 30.0 <= time < (c as real + 1.0) * 30.0
  {
    if c as real * 30.0 <= time < (c as real + 1.0) * 30.0 {
      assert (c as real) < Counter(time) as real + 1.0 && (Counter(time) as real) < c as real + 1.0;
    }
  }

  /** The times of RFC 6238's test values fall into the intervals it lists for them. */
  lemma RfcTimes()
    ensures Counter(59.0) == 1 && Counter(1111111109.0) == 0x23523EC && Counter(1111111111.0) == 0x23523ED
    ensures Counter(1234567890.0) == 0x273EF07 && Counter(2000000000.0) == 0x3F940AA
    ensures Counter(20000000000.0) == 0x27BC86AA
  {
    CounterIff(59.0, 1);
    CounterIff(1111111109.0, 0x23523EC);
    CounterIff(1111111111.0, 0x23523ED);
    CounterIff(1234567890.0, 0x273EF07);
    CounterIff(2000000000.0, 0x3F940AA);
    CounterIff(20000000000.0, 0x27BC86AA);
  }

  lemma CounterShift(time: real, steps: int)
    ensures Counter(time + steps as real * 30.0) == Counter(time) + steps
  {
    assert (time + steps as real * 30.0) / 30.0 == time / 30.0 + steps as real;
  }

  lemma CounterMonotone(a: real, b: real)
    requires a <= b <= a + 30.0
    ensures Counter(a) <= Counter(b) <= Counter(a) + 1
  {
    assert a / 30.0 <= b / 30.0 <= a / 30.0 + 1.0;
  }

  predicate Packable(counter: int) {
    0 <= counter < COUNTER_LIMIT
  }

  ghost predicate Matches(mac: Mac, otp: string, counter: int)
    requires IsSha1(mac)
  {
    Packable(counter) && otp == CodeOf(mac, counter)
  }

  /** `otp` is the code of a counter within `window` steps of the current one. */
  ghost predicate InWindow(mac: Mac, otp: string, now: real, window: nat)
    requires IsSha1(mac)
  {
    exists c :: Counter(now) - window <= c <= Counter(now) + window && Matches(mac, otp, c)
  }

  /** `at`: packing a negative or too large counter raises. */
  method At(mac: Mac, time: real) returns (r: Result<string>)
    requires IsSha1(mac)
    ensures r == if 0 <= Counter(time) < 0x1_0000_0000_0000_0000 then Ok(CodeOf(mac, Counter(time)))
                 else Err(StructError)
    ensures r.Ok? ==> |r.value| == 6 && AllDigits(r.value)
  {
    var counter := Counter(time);
    if counter < 0 || counter >= COUNTER_LIMIT {
      return Err(StructError);
    }
    CodeIsSixDigits(mac, counter);
    var digest := mac(BigEndian(counter, 8));
    var offset := digest[|digest| - 1] % 16;
    var selected := digest[offset..offset + 4];
    var code := Number(selected) % 0x8000_0000;
    r := Ok(ZeroFill(Decimal(code % 1_000_000), 6));
  }

  /** One turn of the loop: the code is computed before it is compared. */
  method TryOffset(mac: Mac, otp: string, now: real, offset: int) returns (r: Result<bool>)
    requires IsSha1(mac)
    ensures r == if !Packable(Counter(now) + offset) then Err(StructError)
                 else if !IsAscii(otp) then Err(TypeError)
                 else Ok(Matches(mac, otp, Counter(now) + offset))
  {
    CounterShift(now, offset);
    var candidate := At(mac, now + offset as real * 30.0);
    if candidate.Err? {
      return Err(candidate.error);
    }
    if !IsAscii(otp) {
      return Err(TypeError);
    }
    r := Ok(otp == candidate.value);
  }

  /** No match below `stop`, and none is possible from there on. */
  lemma NoMatch(mac: Mac, otp: string, now: real, window: nat, stop: int)
    requires IsSha1(mac)
    requires forall c :: Counter(now) - window <= c < stop ==> !Matches(mac, otp, c)
    requires stop > Counter(now) + window || (stop >= 0 && !Packable(stop))
    ensures !InWindow(mac, otp, now, window)
  {
    forall c | Counter(now) - window <= c <= Counter(now) + window
      ensures !Matches(mac, otp, c)
    {
    }
  }

  /** `verify`: tries the counters from the oldest to the newest. The answer is
      membership in the window; it raises when the oldest counter cannot be packed
      (in the first seconds of 1970), when the text cannot be compared, and when it
      runs past the largest counter without a match. */
  method Verify(mac: Mac, otp: string, now: real, window: nat) returns (r: Result<bool>)
    requires IsSha1(mac)
    ensures Packable(Counter(now) - window) && Packable(Counter(now) + window) && IsAscii(otp) ==>
              (r == Ok(InWindow(mac, otp, now, window)))
    ensures !Packable(Counter(now) - window) ==> r == Err(StructError)
    ensures Packable(Counter(now) - window) && !IsAscii(otp) ==> r == Err(TypeError)
    ensures Packable(Counter(now) - window) && !Packable(Counter(now) + window) && IsAscii(otp) ==>
              r == if InWindow(mac, otp, now, window) then Ok(true) else Err(StructError)
    ensures r.Ok? ==> (r.value <==> InWindow(mac, otp, now, window))
  {
    ghost var counter := Counter(now);
    var offset: int := 0 - window;
    while offset <= window
      invariant 0 <= offset + window <= 2 * window + 1
      invariant offset + window > 0 ==> IsAscii(otp) && Packable(counter - window)
      invariant forall c :: counter - window <= c < counter + offset ==>
                              Packable(c) && !Matches(mac, otp, c)
    {
      r := TryOffset(mac, otp, now, offset);
      if r.Err? {
        if offset + window > 0 {
          NoMatch(mac, otp, now, window, counter + offset);
        }
        return;
      }
      if r.value {
        return;
      }
      offset := offset + 1;
    }
    NoMatch(mac, otp, now, window, counter + offset);
    r := Ok(false);
  }

  // ---------- verify_totp ----------

  function Filtered(s: string, keep: char -> bool): string {
    if s == "" then "" else (if keep(s[0]) then [s[0]] else "") + Filtered(s[1..], keep)
  }

  lemma FilteredFirst(c: char, s: string, keep: char -> bool)
    ensures Filtered([c] + s, keep) == (if keep(c) then [c] else "") + Filtered(s, keep)
  {
    assert ([c] + s)[1..] == s;
  }

  /** What passes the test, in order and nothing else: the filter works part by part ... */
  lemma {:induction false} FilteredParts(a: string, b: string, keep: char -> bool)
    ensures Filtered(a + b, keep) == Filtered(a, keep) + Filtered(b, keep)
  {
    if a == "" {
      assert a + b == b;
    } else {
      var c, rest := a[0], a[1..];
      var first := if keep(c) then [c] else "";
      FilteredParts(rest, b, keep);
      FilteredFirst(c, rest, keep);
      FilteredFirst(c, rest + b, keep);
      Regroup(c, rest, b);
      assert first + (Filtered(rest, keep) + Filtered(b, keep)) == first + Filtered(rest, keep) + Filtered(b, keep);
      assert a == [c] + rest;
    }
  }

  lemma Regroup(c: char, a: string, b: string)
    ensures [c] + (a + b) == ([c] + a) + b
  {
  }

  /** ... and on one character it is the test. */
  lemma FilteredOne(c: char, keep: char -> bool)
    ensures Filtered([c], keep) == if keep(c) then [c] else ""
  {
    assert [c][1..] == "";
  }

  /** A code typed with a gap, as authenticators show it. */
  lemma GapIsIgnored(left: string, right: string, isDigit: char -> bool)
    requires IsDigitTest(isDigit) && AllDigits(left) && AllDigits(right)
    ensures Filtered(left + " " + right, isDigit) == left + right
  {
    FilteredParts(left + " ", right, isDigit);
    GapIsDropped(left, isDigit);
    FilteredKeepsAll(right, isDigit);
  }

  lemma GapIsDropped(left: string, isDigit: char -> bool)
    requires IsDigitTest(isDigit) && AllDigits(left)
    ensures Filtered(left + " ", isDigit) == left
  {
    FilteredParts(left, " ", isDigit);
    FilteredOne(' ', isDigit);
    FilteredKeepsAll(left, isDigit);
    assert left + "" == left;
  }

  /** `str.isdigit` accepts the ten ASCII digits and no other ASCII character; what it
      does beyond ASCII is left open. */
  ghost predicate IsDigitTest(isDigit: char -> bool) {
    forall c :: c < '\U{80}' ==> (isDigit(c) <==> IsDigit(c))
  }

  /** `verify_totp`: anything but six digits is refused before a code is computed. Six
      digits are answered, or raise, as `verify` does with a window of one; the digit
      test lets through characters beyond ASCII, which cannot be compared. */
  method VerifyTotp(mac: Mac, code: string, now: real, isDigit: char -> bool) returns (r: Result<bool>)
    requires IsSha1(mac) && IsDigitTest(isDigit)
    ensures |Filtered(StripSpace(code), isDigit)| != 6 ==> r == Ok(false)
    ensures |Filtered(StripSpace(code), isDigit)| == 6 ==>
              r == if !Packable(Counter(now) - 1) then Err(StructError)
                   else if !IsAscii(Filtered(StripSpace(code), isDigit)) then Err(TypeError)
                   else if InWindow(mac, Filtered(StripSpace(code), isDigit), now, 1) then Ok(true)
                   else if !Packable(Counter(now) + 1) then Err(StructError)
                   else Ok(false)
    ensures r.Ok? ==> (r.value <==> InWindow(mac, Filtered(StripSpace(code), isDigit), now, 1))
    ensures 1 <= Counter(now) < COUNTER_LIMIT - 1 && IsAscii(code) ==> r.Ok?
  {
    var clean := Filtered(StripSpace(code), isDigit);
    if |clean| != 6 {
      forall c | Counter(now) - 1 <= c <= Counter(now) + 1 && Packable(c)
        ensures !Matches(mac, clean, c)
      {
        CodeIsSixDigits(mac, c);
      }
      return Ok(false);
    }
    StripKeepsAscii(code);
    if IsAscii(code) {
      FilteredAscii(StripSpace(code), isDigit);
    }
    r := Verify(mac, clean, now, 1);
  }

  lemma StripKeepsAscii(code: string)
    ensures IsAscii(code) ==> IsAscii(StripSpace(code))
  {
    var from, to := StripShape(code, IsSpace);
    assert forall i :: 0 <= i < to - from ==> StripSpace(code)[i] == code[from + i];
  }

  lemma {:induction false} FilteredAscii(s: string, keep: char -> bool)
    requires IsAscii(s)
    ensures IsAscii(Filtered(s, keep))
  {
    if s != "" {
      FilteredAscii(s[1..], keep);
    }
  }

  lemma {:induction false} FilteredKeepsAll(s: string, keep: char -> bool)
    requires forall i :: 0 <= i < |s| ==> keep(s[i])
    ensures Filtered(s, keep) == s
  {
    if s != "" {
      FilteredKeepsAll(s[1..], keep);
    }
  }

  /** A code shown at one moment and typed in up to 30 seconds later, or before, is
      accepted as it stands. */
  lemma ShownCodeAccepted(mac: Mac, shown: real, typed: real, isDigit: char -> bool)
    requires IsSha1(mac) && IsDigitTest(isDigit)
    requires Packable(Counter(shown))
    requires shown - 30.0 <= typed <= shown + 30.0
    ensures var code := CodeOf(mac, Counter(shown));
            Filtered(StripSpace(code), isDigit) == code && InWindow(mac, code, typed, 1)
  {
    var code := CodeOf(mac, Counter(shown));
    CodeIsSixDigits(mac, Counter(shown));
    var _, _ := StripShape(code, IsSpace);
    FilteredKeepsAll(code, isDigit);
    assert Matches(mac, code, Counter(shown));
    if typed <= shown {
      CounterMonotone(typed, shown);
    } else {
      CounterMonotone(shown, typed);
    }
  }

  /** Acceptance is about counters only: two times in one interval accept the same
      codes, and a code whose digest value occurs at no counter of the window is
      refused. */
  lemma WindowByCounters(mac: Mac, otp: string, now: real, window: nat)
    requires IsSha1(mac)
    ensures InWindow(mac, otp, now, window) <==>
            |otp| == 6 && AllDigits(otp) &&
            exists c :: Counter(now) - window <= c <= Counter(now) + window && Packable(c)
                        && Value(otp) == Truncated(mac(BigEndian(c, 8))) % 1_000_000
  {
    if InWindow(mac, otp, now, window) {
      var c :| Counter(now) - window <= c <= Counter(now) + window && Matches(mac, otp, c);
      CodeIsSixDigits(mac, c);
    }
    if |otp| == 6 && AllDigits(otp) {
      forall c | Counter(now) - window <= c <= Counter(now) + window && Packable(c)
                 && Value(otp) == Truncated(mac(BigEndian(c, 8))) % 1_000_000
        ensures Matches(mac, otp, c)
      {
        CodeIsSixDigits(mac, c);
        SameValue(otp, CodeOf(mac, c));
      }
    }
  }

  lemma {:induction false} SameValue(a: string, b: string)
    requires |a| == |b| && AllDigits(a) && AllDigits(b) && Value(a) == Value(b)
    ensures a == b
  {
    if a != "" {
      var n := |a| - 1;
      assert 0 <= a[n] as nat - '0' as nat < 10 && 0 <= b[n] as nat - '0' as nat < 10;
      SameValue(a[..n], b[..n]);
      assert a == a[..n] + [a[n]] && b == b[..n] + [b[n]];
    }
  }
}
