// `number` (printf.c): one integer in any base from 2 to 36, with its sign,
// prefix, precision and one of three paddings, and reading it back.
module Numbers {
  import opened Bits

  datatype Option<T> = None | Some(value: T)

  datatype Flags = Flags(zeropad: bool, sign: bool, plus: bool, space: bool, left: bool, special: bool, small: bool)

  // ----- Text -----

  function Max(a: int, b: int): int {
    if a < b then b else a
  }

  function Repeat(c: char, n: int): (s: string)
    ensures |s| == Max(0, n) && forall i :: 0 <= i < |s| ==> s[i] == c
  {
    if n <= 0 then "" else Repeat(c, n - 1) + [c]
  }

  function Reversed(s: string): (r: string)
    ensures |r| == |s|
  {
    if s == "" then "" else Reversed(s[1..]) + [s[0]]
  }

  // The buffer held s0; text has been written into it from position `at` on, up to
  // position `end`, and nothing else has changed.
  ghost predicate Wrote(s0: string, s: string, at: nat, text: string, end: nat) {
    end == at + |text| <= |s0| && s == s0[..at] + text + s0[end..]
  }

  // ----- What number writes -----

  // The 32-bit word of an int.
  function Word(num: int): nat {
    num % 0x1_0000_0000
  }

  predicate IsInt(num: int) {
    -0x8000_0000 <= num < 0x8000_0000
  }

  // The word whose digits are written. Negating the least int leaves it alone.
  function Magnitude(num: int, flags: Flags): nat {
    if flags.sign && num < 0 then Word(-num) else Word(num)
  }

  // digits[d]
  function DigitChar(d: nat, small: bool): char
    requires d < 36
  {
    if d < 10 then '0' + d as char
    else if small then 'a' + (d - 10) as char
    else 'A' + (d - 10) as char
  }

  function Numeral(u: nat, base: nat, small: bool): (s: string)
    requires 2 <= base <= 36
    ensures |s| > 0
  {
    if u < base then [DigitChar(u, small)] else Numeral(u / base, base, small) + [DigitChar(u % base, small)]
  }

  function SignText(num: int, flags: Flags): string {
    if flags.sign && num < 0 then "-" else if flags.plus then "+" else if flags.space then " " else ""
  }

  function Prefix(base: nat, flags: Flags): string {
    if !flags.special then ""
    else if base == 8 then "0"
    else if base == 16 then ['0', DigitChar(33, flags.small)]
    else ""
  }

  function Digits(num: int, base: nat, precision: int, flags: Flags): (s: string)
    requires 2 <= base <= 36
    ensures |s| > 0
  {
    var digits := Numeral(Magnitude(num, flags), base, flags.small);
    Repeat('0', precision - |digits|) + digits
  }

  function Rendered(num: int, base: nat, size: int, precision: int, flags: Flags): string
    requires 2 <= base <= 36
  {
    var sign, prefix, digits := SignText(num, flags), Prefix(base, flags), Digits(num, base, precision, flags);
    var pad := size - |sign| - |prefix| - |digits|;
    if flags.left then sign + prefix + digits + Repeat(' ', pad)
    else if flags.zeropad then sign + prefix + Repeat('0', pad) + digits
    else Repeat(' ', pad) + sign + prefix + digits
  }

  // As long as the width or what it holds, whichever is more.
  lemma RenderedLength(num: int, base: nat, size: int, precision: int, flags: Flags)
    requires 2 <= base <= 36
    ensures |Rendered(num, base, size, precision, flags)| ==
            Max(size, |SignText(num, flags)| + |Prefix(base, flags)| +
                      Max(precision, |Numeral(Magnitude(num, flags), base, flags.small)|))
  {
    var digits := Numeral(Magnitude(num, flags), base, flags.small);
    assert |Digits(num, base, precision, flags)| == Max(precision, |digits|);
  }

  // ----- The method -----

  // One character is written and the pointer moves on.
  method Put(buf: array<char>, str: nat, c: char, ghost s0: string, ghost at: nat, ghost text: string)
    returns (end: nat)
    requires str < buf.Length && Wrote(s0, buf[..], at, text, str)
    modifies buf
    ensures Wrote(s0, buf[..], at, text + [c], end)
  {
    ghost var before := buf[..];
    buf[str] := c;
    end := str + 1;
    assert buf[..] == before[..str] + [c] + before[str + 1..];
    assert before[..str] == s0[..at] + text && before[str + 1..] == s0[str + 1..];
  }

  // A padding loop: it counts size down past 0 and writes c each time.
  method Fill(buf: array<char>, str: nat, size: int, c: char, ghost s0: string, ghost at: nat, ghost text: string)
    returns (end: nat, left: int)
    requires str + Max(0, size) <= buf.Length && Wrote(s0, buf[..], at, text, str)
    modifies buf
    ensures left < 0 && Wrote(s0, buf[..], at, text + Repeat(c, size), end)
  {
    end, left := str, size;
    ghost var k := 0;
    assert text + Repeat(c, 0) == text;
    while left > 0
      invariant left == size - k && 0 <= k <= Max(0, size)
      invariant Wrote(s0, buf[..], at, text + Repeat(c, k), end)
    {
      left := left - 1;
      end := Put(buf, end, c, s0, at, text + Repeat(c, k));
      k := k + 1;
      assert text + Repeat(c, k) == text + Repeat(c, k - 1) + [c];
    }
    assert Repeat(c, size) == Repeat(c, k);
    left := left - 1;
  }

  lemma HalvesLeave(u: nat, base: nat, i: nat, limit: nat)
    requires u * Pow2(i) <= limit && base >= 2
    ensures u / base * Pow2(i + 1) <= limit
  {
    assert u / base * base <= u;
    assert u / base * 2 <= u / base * base by { if u / base > 0 { assert 2 * (u / base) <= base * (u / base); } }
    calc {
      u / base * Pow2(i + 1);
    == { assert Pow2(i + 1) == 2 * Pow2(i); }
      u / base * (2 * Pow2(i));
    ==
      (u / base * 2) * Pow2(i);
    <= { assert u / base * 2 <= u; }
      u * Pow2(i);
    }
  }

  lemma ProductOfPositive(u: nat, p: nat)
    requires u > 0
    ensures u * p >= p
  {
  }

  lemma FewDigits(u: nat, i: nat)
    requires u > 0 && u * Pow2(i) < 0x1_0000_0000
    ensures i < 32
  {
    Pow2Values();
    if i >= 32 {
      Pow2Monotone(32, i);
      ProductOfPositive(u, Pow2(i));
    }
  }

  // The digits still to come, while any part of the number is left.
  function Higher(u: nat, base: nat, small: bool): string
    requires 2 <= base <= 36
  {
    if u == 0 then "" else Numeral(u, base, small)
  }

  lemma QuotientOf(u: nat, base: nat)
    requires base >= 2
    ensures u < base ==> u / base == 0 && u % base == u
    ensures u >= base ==> u / base > 0
    ensures u > 0 ==> u / base < u
  {
    var q, r := u / base, u % base;
    assert u == base * q + r && 0 <= r < base;
    ProductAtLeast(base, q);
  }

  lemma {:induction false} ProductAtLeast(base: nat, q: nat)
    requires base >= 2
    ensures q > 0 ==> base * q >= base
    ensures base * q >= 2 * q
  {
    if q > 0 {
      ProductAtLeast(base, q - 1);
      assert base * q == base * (q - 1) + base;
    }
  }

  lemma LastDigit(u: nat, base: nat, small: bool)
    requires 2 <= base <= 36 && u > 0
    ensures Higher(u, base, small) == Higher(u / base, base, small) + [DigitChar(u % base, small)]
  {
    QuotientOf(u, base);
  }

  lemma HigherStep(u: nat, base: nat, small: bool, q: nat, done: string, digit: char)
    requires 2 <= base <= 36
    requires Higher(u, base, small) == Higher(q, base, small) + [digit]
    ensures Higher(u, base, small) + Reversed(done) == Higher(q, base, small) + Reversed(done + [digit])
  {
    ReversedEnd(done, digit);
  }

  // The digits of u, least significant first. At most 32 are needed, so they fit tmp.
  method TakeApart(u: nat, base: nat, small: bool, tmp: array<char>) returns (i: nat)
    requires 2 <= base <= 36 && u < 0x1_0000_0000 && tmp.Length == 36
    modifies tmp
    ensures 1 <= i <= 32 && Reversed(tmp[..i]) == Numeral(u, base, small)
  {
    var num: nat := u;
    i := 0;
    if num == 0 {
      tmp[0] := '0';
      i := 1;
      assert tmp[..1] == "0";
    } else {
      assert Pow2(0) == 1;
      while num != 0
        invariant i <= 32 && num * Pow2(i) <= u && (i == 0 ==> num == u)
        invariant Higher(num, base, small) + Reversed(tmp[..i]) == Higher(u, base, small)
      {
        num, i := PeelDigit(num, base, small, tmp, i, u);
      }
    }
  }

  // One division: the remainder's digit goes into tmp, the quotient remains.
  method PeelDigit(num: nat, base: nat, small: bool, tmp: array<char>, i: nat, ghost u: nat)
    returns (q: nat, next: nat)
    requires 2 <= base <= 36 && num > 0 && num * Pow2(i) <= u < 0x1_0000_0000 && tmp.Length == 36
    modifies tmp
    ensures q < num && next == i + 1 <= 32 && q * Pow2(next) <= u
    ensures Higher(num, base, small) + Reversed(old(tmp[..i])) == Higher(q, base, small) + Reversed(tmp[..next])
  {
    FewDigits(num, i);
    HalvesLeave(num, base, i, u);
    LastDigit(num, base, small);
    QuotientOf(num, base);
    ghost var done := tmp[..i];
    q, next := num / base, i + 1;
    tmp[i] := DigitChar(num % base, small);
    assert tmp[..next] == done + [tmp[i]];
    HigherStep(num, base, small, q, done, tmp[i]);
  }

  lemma {:induction false} ReversedEnd(s: string, c: char)
    ensures Reversed(s + [c]) == [c] + Reversed(s)
  {
    if s == "" {
      assert s + [c] == [c];
      assert [c][1..] == "";
    } else {
      assert (s + [c])[1..] == s[1..] + [c];
      ReversedEnd(s[1..], c);
    }
  }

  // The loop that writes the digits, last one stored first.
  method PutReversed(buf: array<char>, str: nat, tmp: array<char>, n: nat,
                     ghost s0: string, ghost at: nat, ghost text: string) returns (end: nat)
    requires n <= tmp.Length && str + n <= buf.Length && tmp != buf && Wrote(s0, buf[..], at, text, str)
    modifies buf
    ensures Wrote(s0, buf[..], at, text + Reversed(tmp[..n]), end)
  {
    end := str;
    var i := n;
    assert text + Reversed(tmp[n..n]) == text;
    while i > 0
      invariant 0 <= i <= n && end + i == str + n
      invariant Wrote(s0, buf[..], at, text + Reversed(tmp[i..n]), end)
    {
      i := i - 1;
      end := Put(buf, end, tmp[i], s0, at, text + Reversed(tmp[i + 1..n]));
      assert tmp[i..n][1..] == tmp[i + 1..n] && tmp[i..n][0] == tmp[i];
      assert text + Reversed(tmp[i..n]) == text + Reversed(tmp[i + 1..n]) + [tmp[i]];
    }
    assert tmp[0..n] == tmp[..n];
  }

  // Sign and prefix.
  method PutHead(buf: array<char>, str: nat, sign: char, base: nat, flags: Flags,
                 ghost s0: string, ghost at: nat, ghost text: string) returns (end: nat)
    requires str + (if sign == '\0' then 0 else 1) + |Prefix(base, flags)| <= buf.Length
    requires Wrote(s0, buf[..], at, text, str)
    modifies buf
    ensures Wrote(s0, buf[..], at, text + (if sign == '\0' then "" else [sign]) + Prefix(base, flags), end)
  {
    ghost var done := text + if sign == '\0' then "" else [sign];
    end := str;
    if sign != '\0' {
      end := Put(buf, end, sign, s0, at, text);
    } else {
      assert done == text;
    }
    if flags.special {
      if base == 8 {
        end := Put(buf, end, '0', s0, at, done);
      } else if base == 16 {
        end := Put(buf, end, '0', s0, at, done);
        end := Put(buf, end, DigitChar(33, flags.small), s0, at, done + ['0']);
        assert done + ['0'] + [DigitChar(33, flags.small)] == done + Prefix(base, flags);
      } else {
        assert done + Prefix(base, flags) == done;
      }
    } else {
      assert done + Prefix(base, flags) == done;
    }
  }

  // Where the padding goes: before everything, behind the prefix, or at the end.
  lemma Regroup(a: string, b: string, c: string)
    ensures a + b + c == a + (b + c)
  {
  }

  lemma Assembled(num: int, base: nat, size: int, precision: int, flags: Flags, left: int,
                  lead: string, head: string, mid: string, zeros: string, digits: string, trail: string)
    requires 2 <= base <= 36
    requires digits == Numeral(Magnitude(num, flags), base, flags.small)
    requires zeros == Repeat('0', Max(precision, |digits|) - |digits|)
    requires left == size - |SignText(num, flags)| - |Prefix(base, flags)| - Max(precision, |digits|)
    requires lead == Repeat(' ', if flags.zeropad || flags.left then 0 else left)
    requires head == lead + SignText(num, flags) + Prefix(base, flags)
    requires mid == Repeat('0', if flags.zeropad && !flags.left then left else 0)
    requires trail == Repeat(' ', if flags.left then left else 0)
    ensures head + mid + zeros + digits + trail == Rendered(num, base, size, precision, flags)
    ensures |Rendered(num, base, size, precision, flags)| == |head| + |mid| + |zeros| + |digits| + |trail|
  {
    var sign, prefix := SignText(num, flags), Prefix(base, flags);
    var body := zeros + digits;
    assert zeros == Repeat('0', precision - |digits|);
    assert body == Digits(num, base, precision, flags);
    Regroup(head + mid, zeros, digits);
    Regroup(lead, sign, prefix);
    assert "" + (sign + prefix) == sign + prefix;
    assert head + "" == head;
    assert head + mid + body + "" == head + mid + body;
  }

  // A padding loop behind its condition; `piece` is what it writes.
  method Pad(buf: array<char>, str: nat, size: int, c: char, on: bool,
             ghost s0: string, ghost at: nat, ghost text: string, ghost piece: string) returns (end: nat, left: int)
    requires piece == Repeat(c, if on then size else 0)
    requires str + |piece| <= buf.Length && Wrote(s0, buf[..], at, text, str)
    modifies buf
    ensures Wrote(s0, buf[..], at, text + piece, end) && if on then left < 0 else left == size
  {
    end, left := str, size;
    if on {
      end, left := Fill(buf, str, size, c, s0, at, text);
    } else {
      assert text + piece == text;
    }
  }

  // Everything behind the sizes: padding, sign, prefix and digits in their order.
  method PutPieces(buf: array<char>, str: nat, tmp: array<char>, i: nat, sign: char, base: nat, wanted: nat, size: int,
                   flags: Flags, ghost s0: string, ghost lead: string, ghost head: string, ghost mid: string,
                   ghost digits: string, ghost trail: string)
    returns (end: nat)
    requires 1 <= i <= tmp.Length && i <= wanted && tmp != buf && s0 == buf[..]
    requires digits == Reversed(tmp[..i])
    requires head == lead + (if sign == '\0' then "" else [sign]) + Prefix(base, flags)
    requires lead == Repeat(' ', if flags.zeropad || flags.left then 0 else size)
    requires mid == Repeat('0', if flags.zeropad && !flags.left then size else 0)
    requires trail == Repeat(' ', if flags.left then size else 0)
    requires str + |head| + |mid| + wanted + |trail| <= buf.Length
    modifies buf
    ensures Wrote(s0, buf[..], str, head + mid + Repeat('0', wanted - i) + digits + trail, end)
  {
    ghost var zeros := Repeat('0', wanted - i);
    var left, done;
    assert "" + lead == lead;
    end, left := Pad(buf, str, size, ' ', !flags.zeropad && !flags.left, s0, str, "", lead);
    end := PutHead(buf, end, sign, base, flags, s0, str, lead);
    end, left := Pad(buf, end, left, if flags.zeropad then '0' else ' ', !flags.left, s0, str, head, mid);
    end, done := Fill(buf, end, wanted - i, '0', s0, str, head + mid);
    end := PutReversed(buf, end, tmp, i, s0, str, head + mid + zeros);
    end, left := Pad(buf, end, left, ' ', true, s0, str, head + mid + zeros + digits, trail);
  }

  // The sign, the number without it, and the width less sign and prefix.
  method Measure(num: int, base: nat, size: int, flags: Flags) returns (sign: char, magnitude: int, left: int)
    ensures sign == if flags.sign && num < 0 then '-' else if flags.plus then '+' else if flags.space then ' ' else '\0'
    ensures magnitude == if flags.sign && num < 0 then -num else num
    ensures left == size - (if sign == '\0' then 0 else 1)
                    - (if flags.special && base == 16 then 2 else if flags.special && base == 8 then 1 else 0)
    ensures SignText(num, flags) == if sign == '\0' then "" else [sign]
    ensures Word(magnitude) == Magnitude(num, flags) && left == size - |SignText(num, flags)| - |Prefix(base, flags)|
  {
    sign, magnitude, left := '\0', num, size;
    if flags.sign && num < 0 {
      sign, magnitude := '-', -num;
    } else {
      sign := if flags.plus then '+' else if flags.space then ' ' else '\0';
    }
    if sign != '\0' {
      left := left - 1;
    }
    if flags.special {
      if base == 16 {
        left := left - 2;
      } else if base == 8 {
        left := left - 1;
      }
    }
  }

  // With LEFT, ZEROPAD changes nothing.
  lemma LeftClearsZeropad(num: int, base: nat, size: int, precision: int, flags: Flags)
    requires 2 <= base <= 36 && flags.left
    ensures Rendered(num, base, size, precision, flags.(zeropad := false)) ==
            Rendered(num, base, size, precision, flags)
  {
  }

  // `number`: None is the NULL it returns for a base out of range.
  method Number(buf: array<char>, str: nat, num: int, base: int, size: int, precision: int, flags: Flags)
    returns (r: Option<nat>)
    requires IsInt(num)
    requires 2 <= base <= 36 ==> str + |Rendered(num, base, size, precision, flags)| <= buf.Length
    modifies buf
    ensures r.None? <==> base < 2 || base > 36
    ensures r.None? ==> buf[..] == old(buf[..])
    ensures r.Some? ==> Wrote(old(buf[..]), buf[..], str, Rendered(num, base, size, precision, flags), r.value)
  {
    var kind := flags;
    if kind.left {
      kind := kind.(zeropad := false);
    }
    if base < 2 || base > 36 {
      return None;
    }
    if flags.left { LeftClearsZeropad(num, base, size, precision, flags); }
    var end := Convert(buf, str, num, base, size, precision, kind);
    r := Some(end);
  }

  method Convert(buf: array<char>, str: nat, num: int, base: nat, size: int, precision: int, flags: Flags)
    returns (end: nat)
    requires IsInt(num) && 2 <= base <= 36 && !(flags.zeropad && flags.left)
    requires str + |Rendered(num, base, size, precision, flags)| <= buf.Length
    modifies buf
    ensures Wrote(old(buf[..]), buf[..], str, Rendered(num, base, size, precision, flags), end)
  {
    var sign, magnitude, left := Measure(num, base, size, flags);
    var tmp := new char[36];
    var i := TakeApart(Word(magnitude), base, flags.small, tmp);
    var wanted := if i > precision then i else precision;
    left := left - wanted;
    ghost var lead := Repeat(' ', if flags.zeropad || flags.left then 0 else left);
    ghost var mid := Repeat('0', if flags.zeropad && !flags.left then left else 0);
    ghost var trail := Repeat(' ', if flags.left then left else 0);
    ghost var head := lead + (if sign == '\0' then "" else [sign]) + Prefix(base, flags);
    ghost var digits := Reversed(tmp[..i]);
    Assembled(num, base, size, precision, flags, left, lead, head, mid, Repeat('0', wanted - i), digits, trail);
    end := PutPieces(buf, str, tmp, i, sign, base, wanted, left, flags, buf[..], lead, head, mid, digits, trail);
  }
}
