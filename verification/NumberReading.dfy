// Reading a formatted number back: for every value, base, width, precision and
// flag set the digits name the value that was written.
module NumberReading {
  import opened Numbers

  // ----- Reading digits -----

  function DigitValue(c: char): nat {
    if '0' <= c <= '9' then (c - '0') as nat
    else if 'A' <= c <= 'Z' then (c - 'A') as nat + 10
    else if 'a' <= c <= 'z' then (c - 'a') as nat + 10
    else 0
  }

  function Value(s: string, base: nat): nat {
    if s == "" then 0 else Value(s[..|s| - 1], base) * base + DigitValue(s[|s| - 1])
  }

  lemma DigitReadsBack(d: nat, small: bool)
    requires d < 36
    ensures DigitValue(DigitChar(d, small)) == d
  {
  }

  lemma ValueOfMore(s: string, c: char, base: nat)
    ensures Value(s + [c], base) == Value(s, base) * base + DigitValue(c)
  {
    assert (s + [c])[..|s|] == s;
  }

  lemma Recombined(u: nat, base: nat, q: nat, r: nat)
    requires base > 0 && q == u / base && r == u % base
    ensures q * base + r == u
  {
  }

  // The digits written for u read as u.
  lemma {:induction false} NumeralReadsBack(u: nat, base: nat, small: bool)
    requires 2 <= base <= 36
    ensures Value(Numeral(u, base, small), base) == u
  {
    QuotientOf(u, base);
    var q, r := u / base, u % base;
    var head := if u < base then "" else Numeral(q, base, small);
    if u >= base { NumeralReadsBack(q, base, small); }
    assert Numeral(u, base, small) == head + [DigitChar(r, small)];
    assert Value(head, base) == q;
    DigitReadsBack(r, small);
    ValueOfMore(head, DigitChar(r, small), base);
    Recombined(u, base, q, r);
  }

  lemma {:induction false} LeadingZeros(n: int, s: string, base: nat)
    ensures Value(Repeat('0', n) + s, base) == Value(s, base)
    decreases |s|, Max(n, 0)
  {
    var t := Repeat('0', n) + s;
    if s != "" {
      assert t[..|t| - 1] == Repeat('0', n) + s[..|s| - 1];
      LeadingZeros(n, s[..|s| - 1], base);
    } else if n > 0 {
      assert t[..|t| - 1] == Repeat('0', n - 1) + "";
      LeadingZeros(n - 1, "", base);
    } else {
      assert t == s;
    }
  }

  predicate IsDigit(c: char, small: bool) {
    '0' <= c <= '9' || if small then 'a' <= c <= 'z' else 'A' <= c <= 'Z'
  }

  // Only digits, and letters of the case asked for.
  lemma {:induction false} NumeralIsDigits(u: nat, base: nat, small: bool)
    requires 2 <= base <= 36
    ensures forall i :: 0 <= i < |Numeral(u, base, small)| ==> IsDigit(Numeral(u, base, small)[i], small)
  {
    if u >= base {
      QuotientOf(u, base);
      NumeralIsDigits(u / base, base, small);
    }
  }

  // ----- Stripping the padding -----

  function TrimLeft(s: string): string {
    if s != "" && s[0] == ' ' then TrimLeft(s[1..]) else s
  }

  function TrimRight(s: string): string {
    if s != "" && s[|s| - 1] == ' ' then TrimRight(s[..|s| - 1]) else s
  }

  lemma {:induction false} TrimLeftPadding(n: int, s: string)
    requires s != "" && s[0] != ' '
    ensures TrimLeft(Repeat(' ', n) + s) == s
    decreases Max(n, 0)
  {
    if n <= 0 {
      assert Repeat(' ', n) + s == s;
    } else {
      assert (Repeat(' ', n) + s)[1..] == Repeat(' ', n - 1) + s;
      TrimLeftPadding(n - 1, s);
    }
  }

  lemma {:induction false} TrimRightPadding(n: int, s: string)
    requires s != "" && s[|s| - 1] != ' '
    ensures TrimRight(s + Repeat(' ', n)) == s
    decreases Max(n, 0)
  {
    var t := s + Repeat(' ', n);
    if n <= 0 {
      assert t == s;
    } else {
      assert t[..|t| - 1] == s + Repeat(' ', n - 1) && t[|t| - 1] == ' ';
      TrimRightPadding(n - 1, s);
    }
  }

  // ----- Reading a number -----

  // Strip the spaces, take the sign, skip a prefix of known length, read the digits.
  function Read(text: string, base: nat, skip: nat): int {
    var t := TrimLeft(TrimRight(text));
    var unsigned := if t != "" && (t[0] == '-' || t[0] == '+') then t[1..] else t;
    var value: int := if skip <= |unsigned| then Value(unsigned[skip..], base) else 0;
    if t != "" && t[0] == '-' then -value else value
  }

  predicate Solid(s: string) {
    s != "" && s[|s| - 1] != ' ' && s[0] != ' ' && s[0] != '-' && s[0] != '+'
  }

  // What is left between the spaces.
  lemma Trimmed(before: nat, core: string, after: int)
    requires core != "" && core[0] != ' ' && core[|core| - 1] != ' '
    ensures TrimLeft(TrimRight(Repeat(' ', before) + core + Repeat(' ', after))) == core
  {
    TrimRightPadding(after, Repeat(' ', before) + core);
    TrimLeftPadding(before, core);
  }

  // What reading makes of the text between the spaces.
  lemma ReadCore(text: string, sign: string, unsigned: string, base: nat, skip: nat)
    requires sign == "" || sign == "-" || sign == "+"
    requires Solid(unsigned) && skip <= |unsigned| && TrimLeft(TrimRight(text)) == sign + unsigned
    ensures var value: int := Value(unsigned[skip..], base);
            Read(text, base, skip) == if sign == "-" then -value else value
  {
    var core := sign + unsigned;
    if sign == "" {
      assert core == unsigned;
    } else {
      assert core[0] == sign[0] && core[1..] == unsigned;
    }
  }

  lemma ReadBlank(before: nat, unsigned: string, after: int, base: nat, skip: nat)
    requires Solid(unsigned) && skip <= |unsigned|
    ensures Read(Repeat(' ', before) + " " + unsigned + Repeat(' ', after), base, skip) == Value(unsigned[skip..], base)
  {
    var blanks := Repeat(' ', before + 1);
    assert blanks == Repeat(' ', before) + " ";
    Trimmed(before + 1, unsigned, after);
    assert "" + unsigned == unsigned;
    ReadCore(blanks + unsigned + Repeat(' ', after), "", unsigned, base, skip);
  }

  lemma ReadSigned(before: nat, sign: string, unsigned: string, after: int, base: nat, skip: nat)
    requires sign == "" || sign == "-" || sign == "+" || sign == " "
    requires Solid(unsigned) && skip <= |unsigned|
    ensures var value: int := Value(unsigned[skip..], base);
            Read(Repeat(' ', before) + sign + unsigned + Repeat(' ', after), base, skip) ==
            if sign == "-" then -value else value
  {
    if sign == " " {
      ReadBlank(before, unsigned, after, base, skip);
    } else {
      Regroup(Repeat(' ', before), sign, unsigned);
      Trimmed(before, sign + unsigned, after);
      ReadCore(Repeat(' ', before) + sign + unsigned + Repeat(' ', after), sign, unsigned, base, skip);
    }
  }

  // The three paddings have one shape: spaces, sign, prefix, zeros, digits, spaces;
  // LEFT puts the padding last, ZEROPAD behind the prefix, neither of them first.
  lemma RenderedShape(num: int, base: nat, size: int, precision: int, flags: Flags)
    returns (before: nat, mid: int, after: int)
    requires 2 <= base <= 36
    ensures Rendered(num, base, size, precision, flags) ==
            Repeat(' ', before) + SignText(num, flags)
            + (Prefix(base, flags) + (Repeat('0', mid) + Digits(num, base, precision, flags))) + Repeat(' ', after)
    ensures (before > 0 ==> !flags.left && !flags.zeropad) && (mid > 0 ==> flags.zeropad && !flags.left)
    ensures after > 0 ==> flags.left
  {
    var sign, prefix, all := SignText(num, flags), Prefix(base, flags), Digits(num, base, precision, flags);
    var pad := size - |sign| - |prefix| - |all|;
    before, mid, after := 0, 0, 0;
    if flags.left {
      after := pad;
    } else if flags.zeropad {
      mid := pad;
    } else {
      before := Max(0, pad);
      assert Repeat(' ', before) == Repeat(' ', pad);
    }
    Flattened(Repeat(' ', before), sign, prefix, Repeat('0', mid), all, Repeat(' ', after));
    NoPadding(sign, prefix, all, Repeat(' ', before), Repeat('0', mid), Repeat(' ', after));
  }

  lemma Flattened(b: string, s: string, p: string, m: string, d: string, a: string)
    ensures b + s + (p + (m + d)) + a == b + s + p + m + d + a
  {
    Regroup(b + s, p, m + d);
    Regroup(b + s + p, m, d);
  }

  // What empty paddings leave.
  lemma NoPadding(s: string, p: string, d: string, b: string, m: string, a: string)
    ensures b == "" && m == "" ==> b + s + p + m + d + a == s + p + d + a
    ensures b == "" && a == "" ==> b + s + p + m + d + a == s + p + m + d
    ensures m == "" && a == "" ==> b + s + p + m + d + a == b + s + p + d
  {
  }

  // A string that ends like `tail` and starts with a zero or like `tail`.
  predicate ZerosBefore(s: string, tail: string) {
    && s != "" && tail != "" && s[|s| - 1] == tail[|tail| - 1]
    && (s[0] == '0' || s[0] == tail[0])
  }

  lemma ZeroPrefix(s: string, n: int, tail: string)
    requires ZerosBefore(s, tail)
    ensures ZerosBefore(Repeat('0', n) + s, tail)
  {
  }

  lemma ZerosSolid(s: string, tail: string, small: bool)
    requires ZerosBefore(s, tail) && IsDigit(tail[0], small) && IsDigit(tail[|tail| - 1], small)
    ensures Solid(s)
  {
  }

  // Prefix, zeros and digits read as the digits.
  lemma DigitsBehindPrefix(num: int, base: nat, precision: int, flags: Flags, mid: int)
    requires 2 <= base <= 36
    ensures var unsigned := Prefix(base, flags) + (Repeat('0', mid) + Digits(num, base, precision, flags));
            && Solid(unsigned) && |Prefix(base, flags)| <= |unsigned|
            && Value(unsigned[|Prefix(base, flags)|..], base) == Magnitude(num, flags)
  {
    var prefix, all := Prefix(base, flags), Digits(num, base, precision, flags);
    var numeral := Numeral(Magnitude(num, flags), base, flags.small);
    var body := Repeat('0', mid) + all;
    NumeralIsDigits(Magnitude(num, flags), base, flags.small);
    ZeroPrefix(numeral, precision - |numeral|, numeral);
    ZeroPrefix(all, mid, numeral);
    ZeroPrefix(body, 0, numeral);
    assert prefix == "" || prefix[0] == '0';
    ZerosSolid(prefix + body, numeral, flags.small);
    assert (prefix + body)[|prefix|..] == body;
    ZerosReadAway(num, base, precision, flags, mid);
  }

  lemma ZerosReadAway(num: int, base: nat, precision: int, flags: Flags, mid: int)
    requires 2 <= base <= 36
    ensures Value(Repeat('0', mid) + Digits(num, base, precision, flags), base) == Magnitude(num, flags)
  {
    var numeral := Numeral(Magnitude(num, flags), base, flags.small);
    NumeralReadsBack(Magnitude(num, flags), base, flags.small);
    LeadingZeros(precision - |numeral|, numeral, base);
    LeadingZeros(mid, Digits(num, base, precision, flags), base);
  }

  // Reading what number writes gives the number back: as an int when SIGN is
  // set, the least int included, and as an unsigned word otherwise.
  lemma NumberReadsBack(num: int, base: nat, size: int, precision: int, flags: Flags)
    requires IsInt(num) && 2 <= base <= 36
    ensures Read(Rendered(num, base, size, precision, flags), base, |Prefix(base, flags)|) ==
            if flags.sign then num else Word(num)
  {
    var before, mid, after := RenderedShape(num, base, size, precision, flags);
    DigitsBehindPrefix(num, base, precision, flags, mid);
    var unsigned := Prefix(base, flags) + (Repeat('0', mid) + Digits(num, base, precision, flags));
    ReadSigned(before, SignText(num, flags), unsigned, after, base, |Prefix(base, flags)|);
    MagnitudeIs(num, flags);
  }

  lemma MagnitudeIs(num: int, flags: Flags)
    requires IsInt(num)
    ensures flags.sign ==> Magnitude(num, flags) == if num < 0 then -num else num
    ensures SignText(num, flags) == "-" <==> flags.sign && num < 0
  {
  }

  // ----- The text in full -----

  // The thirty-six digits.
  lemma DigitLetters(d: nat)
    requires d < 36
    ensures DigitChar(d, false) == "0123456789ABCDEFGHIJKLMNOPQRSTUVWXYZ"[d]
    ensures DigitChar(d, true) == "0123456789abcdefghijklmnopqrstuvwxyz"[d]
  {
  }

  // Digit by digit: the last is that of the remainder, and those before it are the
  // numeral of the quotient.
  lemma DigitByDigit(u: nat, base: nat, small: bool)
    requires 2 <= base <= 36
    ensures u % base < 36 && u / base >= 0
    ensures var s := Numeral(u, base, small);
            && s[|s| - 1] == (if small then "0123456789abcdefghijklmnopqrstuvwxyz"
                              else "0123456789ABCDEFGHIJKLMNOPQRSTUVWXYZ")[u % base]
            && s[..|s| - 1] == if u < base then "" else Numeral(u / base, base, small)
  {
    QuotientOf(u, base);
    DigitLetters(u % base);
  }

  // A numeral has no digit too many.
  lemma {:induction false} NumeralIsShort(u: nat, base: nat, small: bool)
    requires 2 <= base <= 36
    ensures u > 0 ==> Numeral(u, base, small)[0] != '0'
    ensures u == 0 ==> Numeral(u, base, small) == "0"
  {
    if u >= base {
      QuotientOf(u, base);
      NumeralIsShort(u / base, base, small);
    }
  }

  // The parts of the text, by the flags: what stands for the sign, the prefix, the
  // word whose digits are shown, and how many zeros and how much padding there is.
  datatype Parts = Parts(sign: string, prefix: string, zeros: int, digits: string, pad: int)

  ghost predicate PartsOf(p: Parts, num: int, base: nat, size: int, precision: int, flags: Flags)
    requires 2 <= base <= 36
  {
    && p.sign == (if flags.sign && num < 0 then "-" else if flags.plus then "+" else if flags.space then " " else "")
    && p.prefix == (if flags.special && base == 8 then "0"
                    else if flags.special && base == 16 then if flags.small then "0x" else "0X"
                    else "")
    && p.digits == Numeral((if flags.sign && num < 0 then -num else num) % 0x1_0000_0000, base, flags.small)
    && p.zeros == (if |p.digits| < precision then precision - |p.digits| else 0)
    && p.pad == (var n := |p.sign| + |p.prefix| + p.zeros + |p.digits|; if n < size then size - n else 0)
  }

  // n copies of a character.
  ghost predicate Copies(s: string, c: char, n: int) {
    |s| == n && forall i :: 0 <= i < |s| ==> s[i] == c
  }

  lemma PrefixLetter(small: bool)
    ensures DigitChar(33, small) == if small then 'x' else 'X'
  {
  }

  lemma TextOfParts(num: int, base: nat, size: int, precision: int, flags: Flags)
    returns (numeral: string, zeros: string, pad: string)
    requires 2 <= base <= 36
    ensures numeral == Numeral(Magnitude(num, flags), base, flags.small)
    ensures Copies(zeros, '0', Max(0, precision - |numeral|))
    ensures var sign, prefix := SignText(num, flags), Prefix(base, flags);
            && Copies(pad, if flags.zeropad && !flags.left then '0' else ' ',
                      Max(0, size - |sign| - |prefix| - |zeros + numeral|))
            && Rendered(num, base, size, precision, flags) ==
               if flags.left then sign + prefix + (zeros + numeral) + pad
               else if flags.zeropad then sign + prefix + pad + (zeros + numeral)
               else pad + sign + prefix + (zeros + numeral)
  {
    numeral := Numeral(Magnitude(num, flags), base, flags.small);
    zeros := Repeat('0', precision - |numeral|);
    var all := Digits(num, base, precision, flags);
    assert all == zeros + numeral;
    pad := Repeat(if flags.zeropad && !flags.left then '0' else ' ',
                  size - |SignText(num, flags)| - |Prefix(base, flags)| - |all|);
  }

  // The parts come in this order, with the padding last for LEFT, as zeros behind
  // the prefix for ZEROPAD alone, and otherwise first.
  lemma RenderedInFull(num: int, base: nat, size: int, precision: int, flags: Flags)
    returns (p: Parts, zeros: string, pad: string)
    requires 2 <= base <= 36
    ensures PartsOf(p, num, base, size, precision, flags)
    ensures Copies(zeros, '0', p.zeros) && Copies(pad, if flags.zeropad && !flags.left then '0' else ' ', p.pad)
    ensures Rendered(num, base, size, precision, flags) ==
            if flags.left then p.sign + p.prefix + (zeros + p.digits) + pad
            else if flags.zeropad then p.sign + p.prefix + pad + (zeros + p.digits)
            else pad + p.sign + p.prefix + (zeros + p.digits)
  {
    var numeral;
    numeral, zeros, pad := TextOfParts(num, base, size, precision, flags);
    p := Parts(SignText(num, flags), Prefix(base, flags), |zeros|, numeral, |pad|);
    PrefixLetter(flags.small);
  }

  lemma FirstOf(a: string, b: string, c: string)
    requires c != ""
    ensures var s := a + b + c;
            s != "" && s[0] == (if a != "" then a[0] else if b != "" then b[0] else c[0])
  {
  }

  lemma NoneAround(none: string, a: string, b: string, c: string)
    requires none == ""
    ensures a + b + c + none == a + b + c && a + b + none + c == a + b + c && none + a + b + c == a + b + c
  {
    assert none + a == a && a + b + none == a + b;
  }

  lemma DigitsSolid(digits: string, zeros: string, n: int, small: bool)
    requires digits != "" && IsDigit(digits[0], small) && Copies(zeros, '0', n)
    ensures zeros + digits != "" && IsDigit((zeros + digits)[0], small)
  {
  }

  // Without a width the text starts with its sign, or its prefix, or its digits.
  lemma StartsWithSign(num: int, base: nat, precision: int, flags: Flags)
    requires 2 <= base <= 36
    ensures var s := Rendered(num, base, -1, precision, flags);
            var prefixed := flags.special && (base == 8 || base == 16);
            && s != ""
            && (s[0] == '-' <==> flags.sign && num < 0)
            && (s[0] == '+' <==> flags.plus && !(flags.sign && num < 0))
            && (s[0] == ' ' <==> flags.space && !flags.plus && !(flags.sign && num < 0))
            && (prefixed && !flags.plus && !flags.space && !(flags.sign && num < 0) ==> s[0] == '0')
  {
    var p, zeros, pad := RenderedInFull(num, base, -1, precision, flags);
    var u := (if flags.sign && num < 0 then -num else num) % 0x1_0000_0000;
    NumeralIsDigits(u, base, flags.small);
    DigitsSolid(p.digits, zeros, p.zeros, flags.small);
    NoneAround(pad, p.sign, p.prefix, zeros + p.digits);
    FirstOf(p.sign, p.prefix, zeros + p.digits);
  }

  // The length of the text, in numbers.
  lemma LengthInFull(num: int, base: nat, size: int, precision: int, flags: Flags)
    requires 2 <= base <= 36
    ensures var u := (if flags.sign && num < 0 then -num else num) % 0x1_0000_0000;
            var digits := |Numeral(u, base, flags.small)|;
            var n := (if (flags.sign && num < 0) || flags.plus || flags.space then 1 else 0)
                     + (if flags.special && base == 16 then 2 else if flags.special && base == 8 then 1 else 0)
                     + (if digits < precision then precision else digits);
            |Rendered(num, base, size, precision, flags)| == if n < size then size else n
  {
    var p, zeros, pad := RenderedInFull(num, base, size, precision, flags);
  }

  lemma EmptyPieces(none: string, s: string)
    requires none == ""
    ensures none + s == s && none + none == none
  {
  }

  lemma FewDigits(num: nat, base: nat, flags: Flags)
    requires 2 <= base <= 36 && num < 0x1_0000_0000
    ensures Digits(num, base, -1, flags) == Numeral(num, base, flags.small)
  {
    assert Magnitude(num, flags) == num;
    var numeral := Numeral(num, base, flags.small);
    EmptyPieces(Repeat('0', -1 - |numeral|), numeral);
  }

  // Without flags, width and precision the text is the digits alone.
  lemma DigitsAlone(num: nat, base: nat, flags: Flags)
    requires 2 <= base <= 36 && num < 0x1_0000_0000
    requires !flags.plus && !flags.space && !flags.special && !flags.left && !flags.zeropad
    ensures Rendered(num, base, -1, -1, flags) == Numeral(num, base, flags.small)
  {
    FewDigits(num, base, flags);
    var sign, prefix, all := SignText(num, flags), Prefix(base, flags), Digits(num, base, -1, flags);
    var pad := Repeat(' ', -1 - |sign| - |prefix| - |all|);
    assert pad == sign == prefix == "";
    assert Rendered(num, base, -1, -1, flags) == pad + sign + prefix + all;
    EmptyPieces(pad, all);
  }
}
