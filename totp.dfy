/**
 * The passcode derivation of totp/totp.go: HOTP as in RFC 4226 (the counter
 * hashed as 8 big-endian bytes, dynamic truncation as in section 5.3, the
 * value reduced modulo 10^digits and zero-padded), and the window check used
 * for time-based codes.
 *
 * The HMAC-SHA1 signer is abstract: any function from messages to digests of
 * at least 20 bytes. Go's 64-bit integer arithmetic, the reinterpretation of
 * four bytes as a signed 32-bit value and the masks are written out.
 */
module Totp {
  import opened Wrappers

  type byte = x: int | 0 <= x < 256

  const MaxInt64: int := 0x7FFF_FFFF_FFFF_FFFF
  const MinInt64: int := -0x8000_0000_0000_0000
  const TwoTo31: int := 0x8000_0000
  const TwoTo32: int := 0x1_0000_0000
  const TwoTo64: int := 0x1_0000_0000_0000_0000

  /** Go's `int64` (and `int`, which is 64 bits wide on the targets it runs on). */
  type int64 = x: int | MinInt64 <= x <= MaxInt64

  /** The longest passcode the generator produces. */
  const MaxPasscodeLength: int := 9
  /** Seconds per time step, used only by the command-line loop. */
  const Interval: int := 30
  /** The passcode length the command-line loop uses. */
  const PassCodeLength: int := 6
  /** How many steps before and after the current one the loop accepts. */
  const AdjacentIntervals: int := 1

  /** Go's `DIGITS_POWER`. */
  const DigitsPower: seq<int> := [1, 10, 100, 1000, 10000, 100000, 1000000, 10000000, 100000000, 1000000000]

  function Pow10(k: nat): (p: nat)
    ensures p >= 1
  {
    if k == 0 then 1 else 10 * Pow10(k - 1)
  }

  /** Each entry of `DIGITS_POWER` is the power of ten at its index, and
      fits in a signed 32-bit integer. */
  lemma DigitsPowerIsPow10()
    ensures |DigitsPower| == MaxPasscodeLength + 1
    ensures forall k :: 0 <= k < |DigitsPower| ==> DigitsPower[k] == Pow10(k) < TwoTo31
  {
    assert Pow10(1) == 10 && Pow10(2) == 100 && Pow10(3) == 1000;
    assert Pow10(4) == 10000 && Pow10(5) == 100000 && Pow10(6) == 1000000;
    assert Pow10(7) == 10000000 && Pow10(8) == 100000000 && Pow10(9) == 1000000000;
  }

  /** A digest: what the signer returns, at least the 20 bytes of SHA-1. */
  type Digest = d: seq<byte> | |d| >= 20
    witness [0, 0, 0, 0, 0, 0, 0, 0, 0, 0, 0, 0, 0, 0, 0, 0, 0, 0, 0, 0]

  /** The keyed signer (HMAC-SHA1 in the program), left abstract. */
  type Signer = seq<byte> -> Digest

  datatype PasscodeGenerator = PasscodeGenerator(sign: Signer, codeLength: int)

  /** What the constructor guarantees: the length indexes `DIGITS_POWER`. */
  predicate Valid(g: PasscodeGenerator) {
    0 <= g.codeLength <= MaxPasscodeLength
  }

  const LengthError: string := "PassCodeLength must be between 1 and 9 digits."

  /** Go's `NewPasscodeGenerator`: a length outside 0..9 is refused (0 is
      accepted, although the message says 1). */
  function NewPasscodeGenerator(sign: Signer, passCodeLength: int): (r: Result<PasscodeGenerator, string>)
    ensures r.Success? <==> 0 <= passCodeLength <= MaxPasscodeLength
    ensures r.Success? ==> Valid(r.value) && r.value.codeLength == passCodeLength && r.value.sign == sign
    ensures r.Failure? ==> r.error == LengthError
  {
    if passCodeLength < 0 || passCodeLength > MaxPasscodeLength then Failure(LengthError)
    else Success(PasscodeGenerator(sign, passCodeLength))
  }

  // ---------------------------------------------------------------------------
  // Big-endian bytes

  function Pow256(n: nat): (p: nat)
    ensures p >= 1
  {
    if n == 0 then 1 else 256 * Pow256(n - 1)
  }

  /** The number that bytes `b` denote, most significant first. */
  function BigEndian(b: seq<byte>): nat
  {
    if b == [] then 0 else BigEndian(b[..|b| - 1]) * 256 + b[|b| - 1]
  }

  /** The `n` low bytes of `u`, most significant first. */
  function EncodeBigEndian(u: nat, n: nat): (b: seq<byte>)
    ensures |b| == n
  {
    if n == 0 then [] else EncodeBigEndian(u / 256, n - 1) + [u % 256]
  }

  /** `n` bytes denote a number below 256^n. */
  lemma {:induction false} BigEndianBound(b: seq<byte>)
    ensures BigEndian(b) < Pow256(|b|)
  {
    if b != [] {
      BigEndianBound(b[..|b| - 1]);
    }
  }

  /** Decoding what was encoded gives the number modulo 256^n. */
  lemma {:induction false} DecodeEncode(u: nat, n: nat)
    ensures |EncodeBigEndian(u, n)| == n
    ensures BigEndian(EncodeBigEndian(u, n)) == u % Pow256(n)
  {
    if n > 0 {
      var e := EncodeBigEndian(u, n);
      DecodeEncode(u / 256, n - 1);
      assert e[..|e| - 1] == EncodeBigEndian(u / 256, n - 1);
      ModSplit(u, Pow256(n - 1));
    }
  }

  /** `u mod 256p` in terms of the quotient and remainder by 256. */
  lemma ModSplit(u: nat, p: nat)
    requires p >= 1
    ensures (u / 256 % p) * 256 + u % 256 == u % (256 * p)
  {
    var q := u / 256;
    var r := u % 256;
    var q2 := q / p;
    var r2 := q % p;
    assert q == q2 * p + r2;
    assert u == q2 * (256 * p) + (r2 * 256 + r) by {
      assert u == q * 256 + r;
      assert q * 256 == (q2 * p + r2) * 256 == q2 * (256 * p) + r2 * 256;
    }
    DivModUnique(u, 256 * p, q2, r2 * 256 + r);
  }

  /** A positive multiple of `d` is at least `d`. */
  lemma {:induction false} MulAtLeast(k: int, d: int)
    requires k >= 1 && d >= 0
    ensures k * d >= d
    decreases k
  {
    if k > 1 {
      MulAtLeast(k - 1, d);
      assert k * d == (k - 1) * d + d;
    }
  }

  /** The sign of a multiple of a positive `d`. */
  lemma MulSign(k: int, d: int)
    requires d > 0
    ensures k >= 1 ==> k * d >= d
    ensures k <= -1 ==> k * d <= -d
  {
    if k >= 1 {
      MulAtLeast(k, d);
    } else if k <= -1 {
      MulAtLeast(-k, d);
      assert (-k) * d == -(k * d);
    }
  }

  /** Quotient and remainder are determined by the division equation. */
  lemma DivModUnique(u: int, d: int, q: int, r: int)
    requires d > 0 && 0 <= r < d && u == q * d + r
    ensures u / d == q && u % d == r
  {
    var q0 := u / d;
    var r0 := u % d;
    assert u == q0 * d + r0;
    assert (q0 - q) * d == r - r0;
    MulSign(q0 - q, d);
  }

  /** Encoding the number that bytes denote gives the bytes back. */
  lemma {:induction false} EncodeDecode(b: seq<byte>)
    ensures EncodeBigEndian(BigEndian(b), |b|) == b
  {
    if b != [] {
      var init := b[..|b| - 1];
      var u := BigEndian(b);
      assert u / 256 == BigEndian(init) && u % 256 == b[|b| - 1];
      EncodeDecode(init);
      assert b == init + [b[|b| - 1]];
    }
  }

  /** Go's `Int64ToByte`: `binary.BigEndian.PutUint64` of `uint64(value)`. */
  function Int64ToByte(value: int64): (r: seq<byte>)
    ensures |r| == 8
  {
    EncodeBigEndian(value % TwoTo64, 8)
  }

  /** Round trip: the eight bytes decode big-endian to `uint64(value)`, and
      distinct counters give distinct messages. */
  lemma Int64ToByteRoundTrip(value: int64)
    ensures |Int64ToByte(value)| == 8
    ensures BigEndian(Int64ToByte(value)) == value % TwoTo64
  {
    DecodeEncode(value % TwoTo64, 8);
    assert Pow256(8) == TwoTo64;
  }

  /** Different counters are hashed as different messages. */
  lemma Int64ToByteInjective(a: int64, b: int64)
    requires Int64ToByte(a) == Int64ToByte(b)
    ensures a == b
  {
    Int64ToByteRoundTrip(a);
    Int64ToByteRoundTrip(b);
  }

  // ---------------------------------------------------------------------------
  // Dynamic truncation

  /** Go's `HashToInt32`: four bytes from `offset`, read big-endian as
      `binary.BigEndian.Uint32` does and reinterpreted as a signed 32-bit
      value. */
  function HashToInt32(h: seq<byte>, offset: nat): (r: int)
    requires offset + 4 <= |h|
    ensures -TwoTo31 <= r < TwoTo31
    ensures r % TwoTo32 == BigEndian(h[offset..offset + 4])
  {
    var u := h[offset] as int * 0x100_0000 + h[offset + 1] as int * 0x1_0000 + h[offset + 2] as int * 0x100 + h[offset + 3] as int;
    FourBytes(h[offset..offset + 4]);
    if u >= TwoTo31 then u - TwoTo32 else u
  }

  /** The four-byte read agrees with the big-endian reading. */
  lemma FourBytes(b: seq<byte>)
    requires |b| == 4
    ensures BigEndian(b) == b[0] as int * 0x100_0000 + b[1] as int * 0x1_0000 + b[2] as int * 0x100 + b[3] as int
    ensures BigEndian(b) < TwoTo32
  {
    assert b[..1][..0] == [] && b[..2][..1] == b[..1] && b[..3][..2] == b[..2] && b[..4] == b;
    assert BigEndian(b[..1]) == b[0];
    assert BigEndian(b[..2]) == b[0] as int * 0x100 + b[1] as int;
    assert BigEndian(b[..3]) == b[0] as int * 0x1_0000 + b[1] as int * 0x100 + b[2] as int;
  }

  /** The offset of the dynamic truncation: the low four bits of the last
      byte. */
  function Offset(h: Digest): (o: nat)
    ensures o <= 15 && o + 4 <= |h|
  {
    h[|h| - 1] % 16
  }

  /** `HashToInt32(h, offset) & 0x7FFFFFFF`: the sign bit cleared. On a
      two's-complement 32-bit value the mask keeps the remainder modulo
      2^31. */
  function DynamicTruncation(h: Digest): (v: int)
    ensures 0 <= v < TwoTo31
  {
    HashToInt32(h, Offset(h)) % TwoTo31
  }

  /** Section 5.3 of RFC 4226: the truncated value is the last 31 bits of the
      four bytes at the offset. */
  lemma DynamicTruncationIsLast31Bits(h: Digest)
    ensures DynamicTruncation(h) == BigEndian(h[Offset(h)..Offset(h) + 4]) % TwoTo31
  {
    var o := Offset(h);
    var r := HashToInt32(h, o);
    var u := BigEndian(h[o..o + 4]);
    FourBytes(h[o..o + 4]);
    if r < 0 {
      assert r == u - TwoTo32;
      assert r == u - 2 * TwoTo31;
      DivModUnique(r, TwoTo31, u / TwoTo31 - 2, u % TwoTo31);
    } else {
      assert r == u;
    }
  }

  // ---------------------------------------------------------------------------
  // Decimal output

  function DigitChar(d: nat): char
    requires d < 10
  {
    ('0' as int + d) as char
  }

  predicate IsDigit(c: char) {
    '0' <= c <= '9'
  }

  predicate AllDigits(s: string) {
    forall k :: 0 <= k < |s| ==> IsDigit(s[k])
  }

  /** The number a string of decimal digits denotes. */
  function DigitsValue(s: string): nat
    requires AllDigits(s)
  {
    if s == [] then 0 else DigitsValue(s[..|s| - 1]) * 10 + (s[|s| - 1] as int - '0' as int)
  }

  /** `%d` of a non-negative value: its decimal digits, no leading zero. */
  function Decimal(v: nat): (s: string)
    ensures |s| >= 1 && AllDigits(s)
    ensures |s| > 1 ==> s[0] != '0'
  {
    if v < 10 then [DigitChar(v)] else Decimal(v / 10) + [DigitChar(v % 10)]
  }

  /** Reading the digits back gives the value. */
  lemma {:induction false} DecimalRoundTrip(v: nat)
    ensures DigitsValue(Decimal(v)) == v
  {
    var s := Decimal(v);
    if v >= 10 {
      DecimalRoundTrip(v / 10);
      assert s[..|s| - 1] == Decimal(v / 10);
    } else {
      assert s[..0] == [];
    }
  }

  /** A value below 10^n has at most `n` digits (one for zero). */
  lemma {:induction false} DecimalLength(v: nat, n: nat)
    requires n >= 1 && v < Pow10(n)
    ensures |Decimal(v)| <= n
  {
    if v >= 10 {
      DecimalLength(v / 10, n - 1);
    }
  }

  function Zeros(k: nat): (z: string)
    ensures |z| == k && AllDigits(z)
  {
    if k == 0 then [] else Zeros(k - 1) + ['0']
  }

  /** Leading zeros do not change the value. */
  lemma {:induction false} LeadingZeros(k: nat, d: string)
    requires AllDigits(d)
    ensures AllDigits(Zeros(k) + d)
    ensures DigitsValue(Zeros(k) + d) == DigitsValue(d)
    decreases |d|
  {
    var s := Zeros(k) + d;
    if d == [] {
      assert s == Zeros(k);
      ZerosValue(k);
    } else {
      assert s[..|s| - 1] == Zeros(k) + d[..|d| - 1];
      LeadingZeros(k, d[..|d| - 1]);
    }
  }

  lemma {:induction false} ZerosValue(k: nat)
    ensures DigitsValue(Zeros(k)) == 0
  {
    if k > 0 {
      ZerosValue(k - 1);
      assert Zeros(k)[..k - 1] == Zeros(k - 1);
    }
  }

  /** Go's `padOutput`: `fmt.Sprintf("%0<codeLength>d", value)`, the decimal
      digits left-padded with zeros to `codeLength`. A length of 0 sets no
      width. */
  function PadOutput(value: nat, codeLength: nat): (r: string)
    ensures AllDigits(r) && |r| >= 1 && |r| >= codeLength
  {
    var d := Decimal(value);
    if |d| >= codeLength then d else Zeros(codeLength - |d|) + d
  }

  /** A value below 10^codeLength comes out as exactly `codeLength` digits
      that denote the value. */
  lemma PadOutputCorrect(value: nat, codeLength: nat)
    requires codeLength >= 1 && value < Pow10(codeLength)
    ensures |PadOutput(value, codeLength)| == codeLength
    ensures AllDigits(PadOutput(value, codeLength))
    ensures DigitsValue(PadOutput(value, codeLength)) == value
  {
    var d := Decimal(value);
    var s := PadOutput(value, codeLength);
    assert |d| <= codeLength by {
      DecimalLength(value, codeLength);
    }
    assert DigitsValue(d) == value by {
      DecimalRoundTrip(value);
    }
    if |d| < codeLength {
      assert s == Zeros(codeLength - |d|) + d;
      LeadingZeros(codeLength - |d|, d);
    } else {
      assert s == d;
    }
  }

  /** With no width, zero prints as "0". */
  lemma PadOutputZeroWidth()
    ensures PadOutput(0, 0) == "0"
  {
  }

  // ---------------------------------------------------------------------------
  // Passcodes

  /** The numeric passcode for a counter: the truncated value modulo
      `DIGITS_POWER[codeLength]`. */
  function ResponseValue(g: PasscodeGenerator, challenge: int64): (v: nat)
    requires Valid(g)
    ensures v < Pow10(g.codeLength)
  {
    DigitsPowerIsPow10();
    DynamicTruncation(g.sign(Int64ToByte(challenge))) % DigitsPower[g.codeLength]
  }

  /** Go's `GenerateResponseCode`. */
  function GenerateResponseCode(g: PasscodeGenerator, challenge: int64): (code: string)
    requires Valid(g)
    ensures AllDigits(code) && |code| >= 1 && |code| >= g.codeLength
  {
    PadOutput(ResponseValue(g, challenge), g.codeLength)
  }

  /** A passcode of length `n >= 1` is `n` decimal digits whose value is the
      HOTP value of section 5.3 of RFC 4226: the last 31 bits of the four
      digest bytes at the offset, modulo 10^n. */
  lemma ResponseCodeIsHotp(g: PasscodeGenerator, challenge: int64)
    requires Valid(g) && g.codeLength >= 1
    ensures var code := GenerateResponseCode(g, challenge);
      var h := g.sign(Int64ToByte(challenge));
      |code| == g.codeLength && AllDigits(code)
      && DigitsValue(code) == BigEndian(h[Offset(h)..Offset(h) + 4]) % TwoTo31 % Pow10(g.codeLength)
  {
    var h := g.sign(Int64ToByte(challenge));
    DigitsPowerIsPow10();
    DynamicTruncationIsLast31Bits(h);
    PadOutputCorrect(ResponseValue(g, challenge), g.codeLength);
  }

  /** The digest of the example in section 5.4 of RFC 4226. */
  const ExampleDigest: Digest := [
    0x1f, 0x86, 0x98, 0x69, 0x0e, 0x02, 0xca, 0x16, 0x61, 0x85,
    0x50, 0xef, 0x7f, 0x19, 0xda, 0x8e, 0x94, 0x5b, 0x55, 0x5a]

  /** Section 5.4 of RFC 4226: offset 10, value 0x50ef7f19 = 1357872921. */
  lemma ExampleTruncation()
    ensures Offset(ExampleDigest) == 10
    ensures DynamicTruncation(ExampleDigest) == 0x50ef7f19
  {
    var h := ExampleDigest;
    assert h[10..14] == [0x50, 0xef, 0x7f, 0x19];
    FourBytes(h[10..14]);
  }

  /** The six-digit passcode of that digest is "872921". */
  lemma ExampleCode(g: PasscodeGenerator, challenge: int64)
    requires g.codeLength == 6 && g.sign(Int64ToByte(challenge)) == ExampleDigest
    ensures GenerateResponseCode(g, challenge) == "872921"
  {
    ExampleTruncation();
    DigitsPowerIsPow10();
    assert ResponseValue(g, challenge) == 872921;
    assert Decimal(872921) == "872921" by {
      assert Decimal(8) == "8";
      assert Decimal(87) == "87";
      assert Decimal(872) == "872";
      assert Decimal(8729) == "8729";
      assert Decimal(87292) == "87292";
    }
  }

  /** The guard of `NewPasscodeGenerator` lets a length of 0 through. Such a
      generator prints the same passcode, "0", for every counter, so any
      window accepts "0". */
  lemma ZeroLengthAccepted(sign: Signer, challenge: int64)
    ensures NewPasscodeGenerator(sign, 0).Success?
    ensures GenerateResponseCode(NewPasscodeGenerator(sign, 0).value, challenge) == "0"
  {
    var g := NewPasscodeGenerator(sign, 0).value;
    assert ResponseValue(g, challenge) == 0;
    PadOutputZeroWidth();
  }

  /** The constructor as its error message describes it: only lengths 1..9
      are accepted. */
  function NewCheckedPasscodeGenerator(sign: Signer, passCodeLength: int): (r: Result<PasscodeGenerator, string>)
    ensures r.Success? <==> 1 <= passCodeLength <= MaxPasscodeLength
    ensures r.Success? ==> Valid(r.value) && r.value.codeLength == passCodeLength && r.value.sign == sign
    ensures r.Failure? ==> r.error == LengthError
  {
    if passCodeLength < 1 || passCodeLength > MaxPasscodeLength then Failure(LengthError)
    else Success(PasscodeGenerator(sign, passCodeLength))
  }

  /** Every generator the corrected constructor accepts prints passcodes of
      exactly the requested number of digits. */
  lemma CheckedCodesHaveFullLength(sign: Signer, passCodeLength: int, challenge: int64)
    requires NewCheckedPasscodeGenerator(sign, passCodeLength).Success?
    ensures var g := NewCheckedPasscodeGenerator(sign, passCodeLength).value;
      |GenerateResponseCode(g, challenge)| == passCodeLength && AllDigits(GenerateResponseCode(g, challenge))
  {
    ResponseCodeIsHotp(NewCheckedPasscodeGenerator(sign, passCodeLength).value, challenge);
  }

  // ---------------------------------------------------------------------------
  // Verification window

  /** Go's `int64` subtraction, which wraps around. */
  function Wrap64(x: int): (r: int64)
    ensures (r - x) % TwoTo64 == 0
  {
    (x - MinInt64) % TwoTo64 + MinInt64
  }

  /** The passcode for the interval `i` steps before `current`. */
  function CodeAt(g: PasscodeGenerator, current: int64, i: int): string
    requires Valid(g)
  {
    GenerateResponseCode(g, Wrap64(current - i))
  }

  /** What `VerifyTimeoutCode` decides: negative window sizes count as 0, and
      the code is accepted when the interval `current - i` produces it for
      some `i` from `-past` to `future`. So `past` reaches forward to
      `current + past` and `future` reaches back to `current - future`. */
  ghost predicate AcceptedWithin(g: PasscodeGenerator, code: string, current: int64, past: int, future: int)
    requires Valid(g)
  {
    var p := if past < 0 then 0 else past;
    var f := if future < 0 then 0 else future;
    exists i :: -p <= i <= f && CodeAt(g, current, i) == code
  }

  /** Go's `VerifyTimeoutCode`. Go's loop counter would wrap around and never
      stop if `futureIntervals` were the largest `int`, so that value is
      excluded. */
  method VerifyTimeoutCode(g: PasscodeGenerator, timeoutCode: string, currentInterval: int64,
                           pastIntervals: int64, futureIntervals: int64) returns (ok: bool)
    requires Valid(g)
    requires futureIntervals < MaxInt64
    ensures ok == AcceptedWithin(g, timeoutCode, currentInterval, pastIntervals, futureIntervals)
  {
    var past := pastIntervals;
    if past < 0 {
      past := 0;
    }
    var future := futureIntervals;
    if future < 0 {
      future := 0;
    }
    var i: int64 := -past;
    while i <= future
      invariant -past <= i <= future + 1
      invariant forall j :: -past <= j < i ==> CodeAt(g, currentInterval, j) != timeoutCode
      decreases future - i
    {
      var candidate := GenerateResponseCode(g, Wrap64(currentInterval - i));
      if candidate == timeoutCode {
        assert CodeAt(g, currentInterval, i) == timeoutCode;
        return true;
      }
      i := i + 1;
    }
    return false;
  }

  /** With both windows empty only the current interval is checked. */
  lemma ZeroWindow(g: PasscodeGenerator, code: string, current: int64)
    requires Valid(g)
    ensures AcceptedWithin(g, code, current, 0, 0) <==> GenerateResponseCode(g, current) == code
  {
    assert Wrap64(current - 0) == current by {
      DivModUnique(current - MinInt64, TwoTo64, 0, current - MinInt64);
    }
    if GenerateResponseCode(g, current) == code {
      assert CodeAt(g, current, 0) == code;
    }
  }

  /** Negative window sizes behave as empty windows. */
  lemma NegativeWindowsClamp(g: PasscodeGenerator, code: string, current: int64, past: int, future: int)
    requires Valid(g)
    requires past < 0 && future < 0
    ensures AcceptedWithin(g, code, current, past, future) == AcceptedWithin(g, code, current, 0, 0)
  {
  }

  /** Widening the window never rejects a code that was accepted. */
  lemma WideningKeepsAcceptance(g: PasscodeGenerator, code: string, current: int64,
                                past: int, future: int, past': int, future': int)
    requires Valid(g)
    requires past <= past' && future <= future'
    requires AcceptedWithin(g, code, current, past, future)
    ensures AcceptedWithin(g, code, current, past', future')
  {
    var p := if past < 0 then 0 else past;
    var f := if future < 0 then 0 else future;
    var i :| -p <= i <= f && CodeAt(g, current, i) == code;
    var p' := if past' < 0 then 0 else past';
    var f' := if future' < 0 then 0 else future';
    assert -p' <= i <= f';
  }

  /** The window as written: with `pastIntervals` 1 and `futureIntervals` 0
      the code of the NEXT interval is accepted, and with the two swapped the
      code of the previous one. */
  lemma WindowRunsBackwards(g: PasscodeGenerator, current: int64)
    requires Valid(g)
    ensures AcceptedWithin(g, GenerateResponseCode(g, Wrap64(current + 1)), current, 1, 0)
    ensures AcceptedWithin(g, GenerateResponseCode(g, Wrap64(current - 1)), current, 0, 1)
  {
    assert CodeAt(g, current, -1) == GenerateResponseCode(g, Wrap64(current + 1));
    assert CodeAt(g, current, 1) == GenerateResponseCode(g, Wrap64(current - 1));
  }

  /** The window the parameter names describe: the intervals from `past`
      before the current one to `future` after it. */
  ghost predicate AcceptedAsNamed(g: PasscodeGenerator, code: string, current: int64, past: int, future: int)
    requires Valid(g)
  {
    var p := if past < 0 then 0 else past;
    var f := if future < 0 then 0 else future;
    exists i :: -f <= i <= p && CodeAt(g, current, i) == code
  }

  /** The named window is the written one with the two sizes swapped. */
  lemma AsNamedIsSwapped(g: PasscodeGenerator, code: string, current: int64, past: int, future: int)
    requires Valid(g)
    ensures AcceptedAsNamed(g, code, current, past, future) == AcceptedWithin(g, code, current, future, past)
  {
  }

  /** The named window accepts the code of each of the `past` intervals
      before the current one and of each of the `future` intervals after it
      (with 64-bit wrap-around of the interval number). */
  lemma AsNamedAcceptsItsWindow(g: PasscodeGenerator, current: int64, past: int, future: int, k: int)
    requires Valid(g)
    ensures 0 <= k <= past ==> AcceptedAsNamed(g, GenerateResponseCode(g, Wrap64(current - k)), current, past, future)
    ensures 0 <= k <= future ==> AcceptedAsNamed(g, GenerateResponseCode(g, Wrap64(current + k)), current, past, future)
  {
    if 0 <= k <= past {
      assert CodeAt(g, current, k) == GenerateResponseCode(g, Wrap64(current - k));
    }
    if 0 <= k <= future {
      assert CodeAt(g, current, -k) == GenerateResponseCode(g, Wrap64(current + k));
    }
  }

  /** `VerifyTimeoutCode` with the window the parameter names describe. */
  method VerifyWindowAsNamed(g: PasscodeGenerator, timeoutCode: string, currentInterval: int64,
                             pastIntervals: int64, futureIntervals: int64) returns (ok: bool)
    requires Valid(g)
    requires pastIntervals < MaxInt64
    ensures ok == AcceptedAsNamed(g, timeoutCode, currentInterval, pastIntervals, futureIntervals)
  {
    ok := VerifyTimeoutCode(g, timeoutCode, currentInterval, futureIntervals, pastIntervals);
    AsNamedIsSwapped(g, timeoutCode, currentInterval, pastIntervals, futureIntervals);
  }
}
