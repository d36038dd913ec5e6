/** The bounded formatter: `vsnprintf` copies literal bytes of a format
    string into a caller's buffer, expands `%%`, `%d`, `%x` and `%X`, skips
    every other conversion, and never writes more than `cnt` bytes nor a
    terminator. Numbers are rendered by `ntoa`. */
module Printf {
  import opened Cell
  import CString

  /** A 32-bit unsigned machine word. On i386 `size_t` and `long` are 32 bits
      wide and `num % base`, `num /= base` (with `base` a `size_t`) convert
      `num` to unsigned, so every argument is rendered as a value below 2^32. */
  type Word = x: int | 0 <= x < 0x1_0000_0000

  /** PRINTF_NTOA_BUFFER_SIZE: capacity of the local digit buffers. */
  const NtoaBufferSize: nat := 32

  const Percent: Byte := '%' as Byte
  const LowerX: Byte := 'x' as Byte
  const UpperX: Byte := 'X' as Byte
  const LowerD: Byte := 'd' as Byte

  // ---------------------------------------------------------------------
  // Digits

  /** The character `ntoa` emits for one digit value: '0'-'9', then 'a'-'f'. */
  function DigitChar(d: nat): Byte
    requires d < 16
  {
    if d < 10 then '0' as Byte + d else 'a' as Byte + d - 10
  }

  /** The digit value of a character DigitChar can produce. */
  function DigitValue(c: Byte): int
  {
    if c <= '9' as Byte then c - '0' as Byte else c - 'a' as Byte + 10
  }

  /** `is_digit`: holds exactly for the characters ntoa emits in base 10. */
  predicate IsDigit(c: Byte)
    ensures IsDigit(c) <==> exists d :: 0 <= d < 10 && DigitChar(d) == c
  {
    if '0' as Byte <= c <= '9' as Byte then
      assert DigitChar(c - '0' as Byte) == c;
      true
    else
      false
  }

  /** ASCII upper case folded to lower case; every other byte unchanged. */
  function ToLower(c: Byte): Byte
  {
    if 'A' as Byte <= c <= 'Z' as Byte then c + 32 else c
  }

  /** `is_hex`: holds exactly for the bytes that, with ASCII letters folded to
      lower case, are a digit ntoa emits in base 16. */
  predicate IsHex(c: Byte)
    ensures IsHex(c) <==> exists d :: 0 <= d < 16 && DigitChar(d) == ToLower(c)
  {
    if IsDigit(c) then
      assert DigitChar(c - '0' as Byte) == ToLower(c);
      true
    else if 'a' as Byte <= c <= 'f' as Byte then
      assert DigitChar(c - 'a' as Byte + 10) == ToLower(c);
      true
    else if 'A' as Byte <= c <= 'F' as Byte then
      assert DigitChar(c - 'A' as Byte + 10) == ToLower(c);
      true
    else
      false
  }

  /** The base-`base` representation of `n`, most significant digit first,
      with no leading zero; 0 is "0". */
  function Digits(n: nat, base: nat): (ds: seq<Byte>)
    requires 2 <= base <= 16
    ensures |ds| >= 1
    ensures n == 0 ==> ds == ['0' as Byte]
    decreases n
  {
    QuotientZero(n, base);
    (if n < base then [] else Digits(n / base, base)) + [DigitChar(n % base)]
  }

  /** The number a digit string denotes in base `base`. */
  function ValueOf(ds: seq<Byte>, base: nat): int
  {
    if ds == [] then 0 else ValueOf(ds[..|ds| - 1], base) * base + DigitValue(ds[|ds| - 1])
  }

  lemma DivShrinks(n: nat, b: nat)
    requires b >= 2 && n >= 1
    ensures n / b < n
  {
    var q := n / b;
    assert q * b <= n;
    assert q * b >= 2 * q;
  }

  /** Division by `b` splits `n` into quotient and remainder. */
  lemma DivMod(n: nat, b: nat)
    requires b >= 1
    ensures (n / b) * b + n % b == n
  {
  }

  /** The quotient is zero exactly below the divisor, and then the
      remainder is the number itself. */
  lemma QuotientZero(n: nat, b: nat)
    requires b >= 1
    ensures n / b == 0 <==> n < b
    ensures n < b ==> n % b == n
  {
    DivMod(n, b);
  }

  /** Reading the digits back gives the number. */
  lemma {:induction false} DigitsRoundTrip(n: nat, base: nat)
    requires 2 <= base <= 16
    ensures ValueOf(Digits(n, base), base) == n
    decreases n
  {
    var ds := Digits(n, base);
    var high := if n < base then [] else Digits(n / base, base);
    var low := n % base;
    assert ds == high + [DigitChar(low)];
    assert ds[..|ds| - 1] == high;
    assert ValueOf(ds, base) == ValueOf(high, base) * base + low;
    if n >= base {
      DivShrinks(n, base);
      DigitsRoundTrip(n / base, base);
      assert ValueOf(high, base) == n / base;
    } else {
      QuotientZero(n, base);
    }
    DivMod(n, base);
  }

  /** The leading digit is '0' only for the number 0. */
  lemma {:induction false} DigitsHaveNoLeadingZero(n: nat, base: nat)
    requires 2 <= base <= 16
    ensures Digits(n, base)[0] == '0' as Byte <==> n == 0
    decreases n
  {
    if n >= base {
      DivShrinks(n, base);
      DigitsHaveNoLeadingZero(n / base, base);
    }
  }

  /** Decimal digits satisfy is_digit and hexadecimal digits satisfy is_hex;
      in particular no digit is a NUL byte. */
  lemma {:induction false} DigitsAreDigits(n: nat, base: nat)
    requires base == 10 || base == 16
    ensures forall i :: 0 <= i < |Digits(n, base)| ==>
      IsHex(Digits(n, base)[i]) && (base == 10 ==> IsDigit(Digits(n, base)[i])) &&
      !('A' as Byte <= Digits(n, base)[i] <= 'Z' as Byte)
    decreases n
  {
    var d := n % base;
    assert IsHex(DigitChar(d)) && (d < 10 ==> IsDigit(DigitChar(d)));
    if n >= base {
      DivShrinks(n, base);
      DigitsAreDigits(n / base, base);
    }
  }

  function TenTo(k: nat): nat
  {
    if k == 0 then 1 else 10 * TenTo(k - 1)
  }

  /** A number below 10^k has at most k digits in any base from 10 up. */
  lemma {:induction false} DigitsFit(n: nat, base: nat, k: nat)
    requires 10 <= base <= 16 && 1 <= k && n < TenTo(k)
    ensures |Digits(n, base)| <= k
    decreases n
  {
    if n >= base {
      assert TenTo(1) == 10;
      assert n / base <= n / 10;
      DivShrinks(n, base);
      DigitsFit(n / base, base, k - 1);
    }
  }

  /** A machine word has at most ten digits in base 10 or 16, so the 32-byte
      digit buffers of ntoa always keep a terminating NUL. */
  lemma WordDigitsFit(n: Word, base: nat)
    requires 10 <= base <= 16
    ensures |Digits(n, base)| <= 10 < NtoaBufferSize
  {
    assert TenTo(10) == 10000000000;
    DigitsFit(n, base, 10);
  }

  // ---------------------------------------------------------------------
  // out_rev and ntoa

  function Reverse(s: seq<Byte>): seq<Byte>
  {
    seq(|s|, i requires 0 <= i < |s| => s[|s| - 1 - i])
  }

  /** `out_rev`: write the C string in `src`, reversed, to the front of `buf`;
      bytes of `buf` from the string's length on are untouched. */
  method OutRev(buf: array<Byte>, src: array<Byte>)
    requires CString.Terminated(src[..])
    requires CString.Length(src[..]) <= buf.Length
    requires buf != src
    modifies buf
    ensures var len := CString.Length(src[..]);
      buf[..len] == Reverse(src[..len]) && buf[len..] == old(buf[len..])
  {
    var len := CString.StrLen(src);
    var i := 0;
    while i < len
      invariant i <= len
      invariant forall k :: 0 <= k < i ==> buf[k] == src[len - 1 - k]
      invariant buf[i..] == old(buf[i..])
    {
      buf[i] := src[len - 1 - i];
      i := i + 1;
    }
  }

  lemma DigitsAreNonNul(ds: seq<Byte>)
    requires forall i :: 0 <= i < |ds| ==> IsHex(ds[i])
    ensures forall i :: 0 <= i < |ds| ==> ds[i] != 0
  {
  }

  lemma ReverseSnoc(s: seq<Byte>, c: Byte)
    ensures Reverse(s + [c]) == [c] + Reverse(s)
  {
  }

  lemma ReverseReverse(s: seq<Byte>)
    ensures Reverse(Reverse(s)) == s
  {
  }

  /** A buffer holding reversed digits followed by a NUL is a C string of
      exactly that many bytes. */
  lemma DigitStringLength(s: seq<Byte>, count: nat, ds: seq<Byte>)
    requires count < |s| && s[count] == 0
    requires |ds| == count && s[..count] == Reverse(ds)
    requires forall i :: 0 <= i < |ds| ==> ds[i] != 0
    ensures CString.Terminated(s) && CString.Length(s) == count
  {
    forall i | 0 <= i < count
      ensures s[i] != 0
    {
      assert s[i] == s[..count][i] == ds[count - 1 - i];
    }
    CString.LengthIsFirstNul(s, count);
  }

  /** One pass of the digit loop: peeling the lowest digit `d` off `n`
      moves it to the reversed part, leaving the digits of the quotient `q`,
      and `q` is smaller than `n` unless 0. */
  lemma DigitStep(n: nat, base: nat, q: nat, d: nat, done: seq<Byte>)
    requires 2 <= base <= 16 && q == n / base && d == n % base
    ensures d < base
    ensures q == 0 ==> Digits(n, base) + Reverse(done) == Reverse(done + [DigitChar(d)])
    ensures q != 0 ==> Digits(n, base) + Reverse(done) == Digits(q, base) + Reverse(done + [DigitChar(d)])
    ensures q != 0 ==> q < n
  {
    ReverseSnoc(done, DigitChar(d));
    QuotientZero(n, base);
    if n >= base {
      DivShrinks(n, base);
    }
  }

  /** The do-while loop of `ntoa`: the digits of `num`, least significant
      first, in a fresh zero-filled digit buffer. */
  method LeastSignificantFirst(num: Word, base: nat) returns (digits: array<Byte>, count: nat)
    requires base == 10 || base == 16
    ensures fresh(digits) && digits.Length == NtoaBufferSize
    ensures count == |Digits(num, base)| < NtoaBufferSize
    ensures digits[..count] == Reverse(Digits(num, base))
    ensures forall k :: count <= k < NtoaBufferSize ==> digits[k] == 0
  {
    ghost var ds := Digits(num, base);
    WordDigitsFit(num, base);
    digits := new Byte[NtoaBufferSize](_ => 0);
    count := 0;
    var n: nat := num;
    ghost var done: seq<Byte> := [];
    while true
      invariant count == |done| < |ds|
      invariant digits[..count] == done
      invariant ds == Digits(n, base) + Reverse(done)
      invariant forall k :: count <= k < NtoaBufferSize ==> digits[k] == 0
      modifies digits
      decreases n
    {
      var digit := n % base;
      var q := n / base;
      DigitStep(n, base, q, digit, done);
      digits[count] := DigitChar(digit);
      done := done + [DigitChar(digit)];
      count := count + 1;
      n := q;
      if n == 0 {
        break;
      }
    }
    ReverseReverse(done);
  }

  /** The last loop of `ntoa`: copy the C string in `src` to `buf` from
      index `iBuf` on, stopping when the index reaches `cnt`. */
  method AppendBounded(buf: array<Byte>, iBuf: nat, cnt: nat, src: array<Byte>) returns (next: nat)
    requires CString.Terminated(src[..]) && buf != src
    requires iBuf <= cnt <= buf.Length
    modifies buf
    ensures var s := src[..CString.Length(src[..])];
      next == Min(cnt, iBuf + |s|) &&
      buf[..next] == old(buf[..iBuf]) + s[..next - iBuf] &&
      forall k :: next <= k < buf.Length ==> buf[k] == old(buf[k])
  {
    var len := CString.StrLen(src);
    var i := 0;
    next := iBuf;
    while i < len && next < cnt
      invariant i <= len && next == iBuf + i <= cnt
      invariant buf[..next] == old(buf[..iBuf]) + src[..i]
      invariant forall k :: next <= k < buf.Length ==> buf[k] == old(buf[k])
    {
      assert src[..i + 1] == src[..i] + [src[i]];
      buf[next] := src[i];
      next := next + 1;
      i := i + 1;
    }
    assert src[..i] == src[..len][..i];
  }

  /** `ntoa`: append the digits of `num` in base `base` to `buf` at `iBuf`,
      stopping when the index reaches `cnt`. The returned index is the new
      value of `*i_buf`. */
  method Ntoa(buf: array<Byte>, iBuf: nat, cnt: nat, num: Word, base: nat) returns (next: nat)
    requires base == 10 || base == 16
    requires iBuf <= cnt <= buf.Length
    modifies buf
    ensures var ds := Digits(num, base);
      next == Min(cnt, iBuf + |ds|) &&
      buf[..next] == old(buf[..iBuf]) + ds[..next - iBuf] &&
      forall k :: next <= k < buf.Length ==> buf[k] == old(buf[k])
  {
    var tmp := DigitString(num, base);
    // append the digits while there is room
    next := AppendBounded(buf, iBuf, cnt, tmp);
  }

  /** The first two steps of `ntoa`: the digits of `num`, least significant
      first, reversed into a fresh zero-filled buffer, which then holds them
      as a C string. */
  method DigitString(num: Word, base: nat) returns (tmp: array<Byte>)
    requires base == 10 || base == 16
    ensures fresh(tmp) && CString.Terminated(tmp[..])
    ensures tmp[..CString.Length(tmp[..])] == Digits(num, base)
  {
    ghost var ds := Digits(num, base);
    var digits, count := LeastSignificantFirst(num, base);
    tmp := new Byte[NtoaBufferSize](_ => 0);
    DigitsAreDigits(num, base);
    DigitsAreNonNul(ds);
    DigitStringLength(digits[..], count, ds);

    // the digits come least significant first; OutRev stores them reversed in tmp
    OutRev(tmp, digits);
    ReverseReverse(ds);
    DigitStringLength(tmp[..], count, Reverse(ds));
  }

  // ---------------------------------------------------------------------
  // vsnprintf

  /** The byte of the format string at `i`; reading at or past the end gives
      the terminating NUL. The string ends at its first NUL byte. */
  function At(fmt: seq<Byte>, i: nat): Byte
  {
    if i < |fmt| then fmt[i] else 0
  }

  /** The conversions that consume an argument. */
  predicate IsNumeric(spec: Byte)
  {
    spec == LowerD || spec == LowerX || spec == UpperX
  }

  /** Base of a numeric conversion: 16 for `x` and `X`, 10 for `d`. */
  function BaseOf(spec: Byte): nat
  {
    if spec == LowerX || spec == UpperX then 16 else 10
  }

  /** No '%' that starts a conversion is the last byte of the string: such a
      '%' would make the scan step over the terminator. */
  predicate WellFormed(fmt: seq<Byte>, i: nat)
    decreases |fmt| - i
  {
    if At(fmt, i) == 0 then true
    else if fmt[i] != Percent then WellFormed(fmt, i + 1)
    else At(fmt, i + 1) != 0 && WellFormed(fmt, i + 2)
  }

  /** The number of arguments the conversions from `i` on consume. */
  function ArgsNeeded(fmt: seq<Byte>, i: nat): nat
    requires WellFormed(fmt, i)
    decreases |fmt| - i
  {
    if At(fmt, i) == 0 then 0
    else if fmt[i] != Percent then ArgsNeeded(fmt, i + 1)
    else if IsNumeric(fmt[i + 1]) then 1 + ArgsNeeded(fmt, i + 2)
    else ArgsNeeded(fmt, i + 2)
  }

  /** The whole text the format denotes, from index `i` on, with no bound:
      literal bytes as they are, `%%` as '%', `%d` as decimal and `%x`, `%X`
      as lower-case hexadecimal digits of the next argument, and nothing for
      any other conversion. */
  function Render(fmt: seq<Byte>, i: nat, args: seq<Word>): seq<Byte>
    requires WellFormed(fmt, i) && ArgsNeeded(fmt, i) <= |args|
    decreases |fmt| - i
  {
    if At(fmt, i) == 0 then []
    else if fmt[i] != Percent then [fmt[i]] + Render(fmt, i + 1, args)
    else if fmt[i + 1] == Percent then [Percent] + Render(fmt, i + 2, args)
    else if IsNumeric(fmt[i + 1]) then
      Digits(args[0], BaseOf(fmt[i + 1])) + Render(fmt, i + 2, args[1..])
    else Render(fmt, i + 2, args)
  }

  /** The first `cnt` bytes of `s`, or all of it when it is shorter. */
  function Truncate(s: seq<Byte>, cnt: nat): seq<Byte>
  {
    if |s| <= cnt then s else s[..cnt]
  }

  /** Truncating early and then appending changes nothing under the same
      bound: what the bound cut off could never have been written. */
  lemma TruncateThenAppend(a: seq<Byte>, b: seq<Byte>, cnt: nat)
    ensures Truncate(Truncate(a, cnt) + b, cnt) == Truncate(a + b, cnt)
  {
    if |a| > cnt {
      assert (a[..cnt] + b)[..cnt] == (a + b)[..cnt];
    }
  }

  /** Unfolding Render at a literal byte. */
  lemma RenderLiteral(fmt: seq<Byte>, i: nat, args: seq<Word>)
    requires WellFormed(fmt, i) && ArgsNeeded(fmt, i) <= |args|
    requires At(fmt, i) != 0 && fmt[i] != Percent
    ensures WellFormed(fmt, i + 1) && ArgsNeeded(fmt, i + 1) == ArgsNeeded(fmt, i)
    ensures Render(fmt, i, args) == [fmt[i]] + Render(fmt, i + 1, args)
  {
  }

  /** Unfolding Render at a conversion that consumes no argument. */
  lemma RenderNoArgument(fmt: seq<Byte>, i: nat, args: seq<Word>)
    requires WellFormed(fmt, i) && ArgsNeeded(fmt, i) <= |args|
    requires At(fmt, i) != 0 && fmt[i] == Percent && !IsNumeric(fmt[i + 1])
    ensures WellFormed(fmt, i + 2) && ArgsNeeded(fmt, i + 2) == ArgsNeeded(fmt, i)
    ensures Render(fmt, i, args) ==
      (if fmt[i + 1] == Percent then [Percent] else []) + Render(fmt, i + 2, args)
  {
  }

  /** Unfolding Render at a numeric conversion. */
  lemma RenderNumeric(fmt: seq<Byte>, i: nat, args: seq<Word>)
    requires WellFormed(fmt, i) && ArgsNeeded(fmt, i) <= |args|
    requires At(fmt, i) != 0 && fmt[i] == Percent && IsNumeric(fmt[i + 1])
    ensures |args| >= 1 && WellFormed(fmt, i + 2) && ArgsNeeded(fmt, i + 2) == ArgsNeeded(fmt, i) - 1
    ensures Render(fmt, i, args) ==
      Digits(args[0], BaseOf(fmt[i + 1])) + Render(fmt, i + 2, args[1..])
  {
  }

  /** What ntoa leaves in front of its new index is the written text and the
      digits, truncated at `cnt`. */
  lemma TruncatedDigits(written: seq<Byte>, ds: seq<Byte>, cnt: nat)
    requires |written| <= cnt
    ensures Truncate(written + ds, cnt) == written + ds[..Min(cnt, |written| + |ds|) - |written|]
  {
    if |written| + |ds| > cnt {
      assert (written + ds)[..cnt] == written + ds[..cnt - |written|];
    }
  }

  /** Moving a piece of the rendering from the pending text to the written
      text keeps the truncated whole. */
  lemma Regroup(written: seq<Byte>, piece: seq<Byte>, rest: seq<Byte>, cnt: nat)
    ensures Truncate(written + (piece + rest), cnt) == Truncate((written + piece) + rest, cnt)
  {
    assert written + (piece + rest) == (written + piece) + rest;
  }

  /** The state of the vsnprintf scan: `written` is what the buffer holds so
      far, the scan is at `i` with `pending` arguments left, and the bytes
      written followed by what the rest of the format renders to, cut at
      `cnt`, is the final output `out`. */
  predicate Scanned(fmt: seq<Byte>, i: nat, pending: seq<Word>, written: seq<Byte>, cnt: nat, out: seq<Byte>)
  {
    |written| <= cnt && WellFormed(fmt, i) && ArgsNeeded(fmt, i) <= |pending| &&
    Truncate(written + Render(fmt, i, pending), cnt) == out
  }

  /** A '%' that starts a conversion is followed by a conversion byte. */
  lemma PercentIsFollowed(fmt: seq<Byte>, i: nat)
    requires WellFormed(fmt, i) && At(fmt, i) != 0 && fmt[i] == Percent
    ensures i + 1 < |fmt| && fmt[i + 1] != 0
  {
  }

  /** The scan starts with nothing written and the whole format pending. */
  lemma ScanStart(fmt: seq<Byte>, args: seq<Word>, cnt: nat)
    requires WellFormed(fmt, 0) && ArgsNeeded(fmt, 0) <= |args|
    ensures Scanned(fmt, 0, args, [], cnt, Truncate(Render(fmt, 0, args), cnt))
  {
    assert [] + Render(fmt, 0, args) == Render(fmt, 0, args);
  }

  /** The scan ends at the terminator or when the bound is reached; either
      way what was written is the whole output. */
  lemma ScanEnd(fmt: seq<Byte>, i: nat, pending: seq<Word>, written: seq<Byte>, cnt: nat, out: seq<Byte>)
    requires Scanned(fmt, i, pending, written, cnt, out)
    requires At(fmt, i) == 0 || |written| == cnt
    ensures written == out
  {
    if At(fmt, i) == 0 {
      assert written + Render(fmt, i, pending) == written;
    } else {
      assert (written + Render(fmt, i, pending))[..cnt] == written;
    }
  }

  /** A literal byte is copied. */
  lemma LiteralStep(fmt: seq<Byte>, i: nat, pending: seq<Word>, written: seq<Byte>, cnt: nat, out: seq<Byte>)
    requires Scanned(fmt, i, pending, written, cnt, out) && |written| < cnt
    requires At(fmt, i) != 0 && fmt[i] != Percent
    ensures Scanned(fmt, i + 1, pending, written + [fmt[i]], cnt, out)
  {
    RenderLiteral(fmt, i, pending);
    Regroup(written, [fmt[i]], Render(fmt, i + 1, pending), cnt);
  }

  /** `%%` writes one '%'. */
  lemma EscapeStep(fmt: seq<Byte>, i: nat, pending: seq<Word>, written: seq<Byte>, cnt: nat, out: seq<Byte>)
    requires Scanned(fmt, i, pending, written, cnt, out) && |written| < cnt
    requires At(fmt, i) != 0 && fmt[i] == Percent && At(fmt, i + 1) == Percent
    ensures Scanned(fmt, i + 2, pending, written + [Percent], cnt, out)
  {
    RenderNoArgument(fmt, i, pending);
    Regroup(written, [Percent], Render(fmt, i + 2, pending), cnt);
  }

  /** An unknown conversion writes nothing and consumes no argument. */
  lemma SkipStep(fmt: seq<Byte>, i: nat, pending: seq<Word>, written: seq<Byte>, cnt: nat, out: seq<Byte>)
    requires Scanned(fmt, i, pending, written, cnt, out)
    requires At(fmt, i) != 0 && fmt[i] == Percent && At(fmt, i + 1) != Percent && !IsNumeric(At(fmt, i + 1))
    ensures Scanned(fmt, i + 2, pending, written, cnt, out)
  {
    RenderNoArgument(fmt, i, pending);
  }

  /** A numeric conversion has an argument to consume. */
  lemma NumericHasArgument(fmt: seq<Byte>, i: nat, pending: seq<Word>, written: seq<Byte>, cnt: nat, out: seq<Byte>)
    requires Scanned(fmt, i, pending, written, cnt, out)
    requires At(fmt, i) != 0 && fmt[i] == Percent && IsNumeric(At(fmt, i + 1))
    ensures |pending| >= 1
  {
    RenderNumeric(fmt, i, pending);
  }

  /** A numeric conversion appends the digits of the next argument, cut at
      `cnt`, and consumes that argument. */
  lemma NumericStep(fmt: seq<Byte>, i: nat, pending: seq<Word>, written: seq<Byte>, cnt: nat, out: seq<Byte>,
                    value: Word, base: nat, now: seq<Byte>)
    requires Scanned(fmt, i, pending, written, cnt, out)
    requires At(fmt, i) != 0 && fmt[i] == Percent && IsNumeric(At(fmt, i + 1)) && |pending| >= 1
    requires value == pending[0] && base == BaseOf(fmt[i + 1])
    requires var ds := Digits(value, base);
      now == written + ds[..Min(cnt, |written| + |ds|) - |written|]
    ensures Scanned(fmt, i + 2, pending[1..], now, cnt, out)
  {
    RenderNumeric(fmt, i, pending);
    AppendDigits(written, Digits(pending[0], BaseOf(fmt[i + 1])), Render(fmt, i + 2, pending[1..]), cnt, now);
  }

  /** Appending the digits cut at `cnt` and then the rest, cut at `cnt`, is
      the same as cutting the whole. */
  lemma AppendDigits(written: seq<Byte>, ds: seq<Byte>, rest: seq<Byte>, cnt: nat, now: seq<Byte>)
    requires |written| <= cnt
    requires now == written + ds[..Min(cnt, |written| + |ds|) - |written|]
    ensures |now| <= cnt
    ensures Truncate(now + rest, cnt) == Truncate(written + (ds + rest), cnt)
  {
    TruncatedDigits(written, ds, cnt);
    TruncateThenAppend(written + ds, rest, cnt);
    Regroup(written, ds, rest, cnt);
  }

  /** A format without conversions renders to its own bytes and takes no
      argument. */
  lemma {:induction false} RenderPlain(fmt: seq<Byte>, i: nat, args: seq<Word>)
    requires i <= |fmt|
    requires forall k :: i <= k < |fmt| ==> fmt[k] != 0 && fmt[k] != Percent
    ensures WellFormed(fmt, i) && ArgsNeeded(fmt, i) == 0
    ensures Render(fmt, i, args) == fmt[i..]
    decreases |fmt| - i
  {
    if i < |fmt| {
      RenderPlain(fmt, i + 1, args);
      assert fmt[i..] == [fmt[i]] + fmt[i + 1..];
    }
  }

  /** The rendered text never holds a NUL byte: literals stop at the first
      NUL and digits are never NUL. */
  lemma {:induction false} RenderHasNoNul(fmt: seq<Byte>, i: nat, args: seq<Word>)
    requires WellFormed(fmt, i) && ArgsNeeded(fmt, i) <= |args|
    ensures forall k :: 0 <= k < |Render(fmt, i, args)| ==> Render(fmt, i, args)[k] != 0
    decreases |fmt| - i
  {
    if At(fmt, i) == 0 {
    } else if fmt[i] != Percent {
      RenderHasNoNul(fmt, i + 1, args);
    } else if fmt[i + 1] == Percent {
      RenderHasNoNul(fmt, i + 2, args);
    } else if IsNumeric(fmt[i + 1]) {
      var base := BaseOf(fmt[i + 1]);
      DigitsAreDigits(args[0], base);
      DigitsAreNonNul(Digits(args[0], base));
      RenderHasNoNul(fmt, i + 2, args[1..]);
    } else {
      RenderHasNoNul(fmt, i + 2, args);
    }
  }

  /** A literal format is copied and cut at the bound: "1234567" with a
      bound of 5 gives "12345". */
  lemma LiteralIsCut()
    ensures var fmt := CString.Ascii("1234567");
      WellFormed(fmt, 0) && Truncate(Render(fmt, 0, []), 5) == CString.Ascii("12345")
  {
    var fmt := CString.Ascii("1234567");
    RenderPlain(fmt, 0, []);
    assert fmt[0..][..5] == CString.Ascii("12345");
  }

  /** `%d` renders 200 as "200", and `%x` and `%X` both as "c8". */
  lemma NumbersRender()
    ensures Render(CString.Ascii("%d"), 0, [200]) == CString.Ascii("200")
    ensures Render(CString.Ascii("%x"), 0, [200]) == CString.Ascii("c8")
    ensures Render(CString.Ascii("%X"), 0, [200]) == CString.Ascii("c8")
  {
    assert Digits(200, 10) == CString.Ascii("200");
    assert Digits(200, 16) == CString.Ascii("c8");
  }

  /** `%%` gives one '%', and an unknown conversion gives nothing and takes
      no argument. */
  lemma EscapesAndUnknowns()
    ensures var fmt := CString.Ascii("a%%b%qc");
      WellFormed(fmt, 0) && ArgsNeeded(fmt, 0) == 0 && Render(fmt, 0, []) == CString.Ascii("a%bc")
  {
  }

  /** `vsnprintf`: format `fmt` with `args` into `buf`, writing at most `cnt`
      bytes and no terminator. The buffer ends up holding the rendered text
      cut at `cnt`; every byte after it keeps its previous value. */
  method Vsnprintf(buf: array<Byte>, cnt: nat, fmt: seq<Byte>, args: seq<Word>)
    requires cnt <= buf.Length
    requires WellFormed(fmt, 0) && ArgsNeeded(fmt, 0) <= |args|
    modifies buf
    ensures var out := Truncate(Render(fmt, 0, args), cnt);
      buf[..|out|] == out && forall k :: |out| <= k < buf.Length ==> buf[k] == old(buf[k])
  {
    ghost var out := Truncate(Render(fmt, 0, args), cnt);
    ghost var initial := buf[..];
    var iFmt: nat := 0;
    var iBuf: nat := 0;
    var ap: nat := 0;
    ScanStart(fmt, args, cnt);
    assert buf[..iBuf] == [] && args[ap..] == args;
    while At(fmt, iFmt) != 0 && iBuf < cnt
      invariant iBuf <= cnt <= buf.Length && ap <= |args|
      invariant Scanned(fmt, iFmt, args[ap..], buf[..iBuf], cnt, out)
      invariant forall k :: iBuf <= k < buf.Length ==> buf[k] == initial[k]
      decreases |fmt| - iFmt
    {
      ghost var written := buf[..iBuf];
      ghost var pending := args[ap..];
      if fmt[iFmt] != Percent {
        // a byte other than '%' is copied as it is
        LiteralStep(fmt, iFmt, pending, written, cnt, out);
        buf[iBuf] := fmt[iFmt];
        assert buf[..iBuf + 1] == written + [fmt[iFmt]];
        iBuf := iBuf + 1;
        iFmt := iFmt + 1;
      } else {
        PercentIsFollowed(fmt, iFmt);
        var convspec := fmt[iFmt + 1];
        if convspec == Percent {
          // escaped '%'
          EscapeStep(fmt, iFmt, pending, written, cnt, out);
          buf[iBuf] := Percent;
          assert buf[..iBuf + 1] == written + [Percent];
          iBuf := iBuf + 1;
        } else if convspec == LowerD || convspec == LowerX || convspec == UpperX {
          NumericHasArgument(fmt, iFmt, pending, written, cnt, out);
          var value := args[ap];
          var base := if convspec == LowerX || convspec == UpperX then 16 else 10;
          iBuf := Ntoa(buf, iBuf, cnt, value, base);
          NumericStep(fmt, iFmt, pending, written, cnt, out, value, base, buf[..iBuf]);
          ap := ap + 1;
          assert pending[1..] == args[ap..];
        } else {
          // any other conversion is skipped
          SkipStep(fmt, iFmt, pending, written, cnt, out);
        }
        iFmt := iFmt + 2;
      }
    }
    ScanEnd(fmt, iFmt, args[ap..], buf[..iBuf], cnt, out);
  }
}
