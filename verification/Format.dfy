// `vsprintf` (printf.c): the format scanner, proved to write the concatenation of
// what its literal characters and directives stand for.
module Formats {
  import opened Numbers

  // A 32-bit argument word.
  type Arg = w: int | 0 <= w < 0x1_0000_0000

  function Signed(w: Arg): int {
    if w < 0x8000_0000 then w else w - 0x1_0000_0000
  }

  // ----- Directives -----

  const PLAIN := Flags(false, false, false, false, false, false, false)

  // Width and precision are -1 when absent. `star` says that one of them was a
  // star: its argument is taken, but the star itself is not stepped over, so it
  // is then also the conversion. The conversion is NUL at the end of the format.
  datatype Directive = Directive(flags: Flags, width: int, precision: int, star: bool, conv: char)

  // The character a pointer at the start of s sees.
  function Lead(s: string): char {
    if s == "" then '\0' else s[0]
  }

  predicate IsDecimal(c: char) {
    '0' <= c <= '9'
  }

  predicate IsFlag(c: char) {
    c == '-' || c == '+' || c == ' ' || c == '#' || c == '0'
  }

  function WithFlag(flags: Flags, c: char): Flags {
    match c
    case '-' => flags.(left := true)
    case '+' => flags.(plus := true)
    case ' ' => flags.(space := true)
    case '#' => flags.(special := true)
    case _ => flags.(zeropad := true)
  }

  function TakeFlags(s: string, flags: Flags): (r: (Flags, string))
    ensures |r.1| <= |s|
  {
    if s != "" && IsFlag(s[0]) then TakeFlags(s[1..], WithFlag(flags, s[0])) else (flags, s)
  }

  function TakeDigits(s: string, n: nat): (r: (nat, string))
    ensures |r.1| <= |s|
  {
    if s != "" && IsDecimal(s[0]) then TakeDigits(s[1..], n * 10 + (s[0] - '0') as nat) else (n, s)
  }

  function TakeWidth(s: string): (r: (int, bool, string))
    ensures |r.2| <= |s|
  {
    if IsDecimal(Lead(s)) then var (n, rest) := TakeDigits(s, 0); (n as int, false, rest)
    else (-1, Lead(s) == '*', s)
  }

  function TakePrecision(s: string): (r: (int, bool, string))
    ensures |r.2| <= |s|
  {
    if Lead(s) != '.' then (-1, false, s)
    else if IsDecimal(Lead(s[1..])) then var (n, rest) := TakeDigits(s[1..], 0); (n as int, false, rest)
    else (0, Lead(s[1..]) == '*', s[1..])
  }

  function TakeQualifier(s: string): (rest: string)
    ensures |rest| <= |s|
  {
    if Lead(s) == 'h' || Lead(s) == 'l' || Lead(s) == 'L' then s[1..] else s
  }

  // The directive at the start of s, up to its conversion character.
  function Parse(s: string): (r: (Directive, string))
    requires s != ""
    ensures |r.1| < |s|
  {
    var (flags, s1) := TakeFlags(s[1..], PLAIN);
    var (width, star1, s2) := TakeWidth(s1);
    var (precision, star2, s3) := TakePrecision(s2);
    var s4 := TakeQualifier(s3);
    (Directive(flags, width, precision, star1 || star2, Lead(s4)), if s4 == "" then "" else s4[1..])
  }

  // ----- What a directive stands for -----

  predicate IsNumeric(conv: char) {
    || conv == 'o' || conv == 'p' || conv == 'x' || conv == 'X'
    || conv == 'd' || conv == 'i' || conv == 'u' || conv == 'b'
  }

  function Base(conv: char): (b: nat)
    ensures 2 <= b <= 16
  {
    match conv
    case 'o' => 8
    case 'b' => 2
    case 'p' => 16
    case 'x' => 16
    case 'X' => 16
    case _ => 10
  }

  // A pointer without a width is padded with zeros to eight digits.
  function NumberWidth(d: Directive): int {
    if d.conv == 'p' && d.width == -1 then 8 else d.width
  }

  function NumberFlags(d: Directive): Flags {
    match d.conv
    case 'p' => if d.width == -1 then d.flags.(zeropad := true) else d.flags
    case 'x' => d.flags.(small := true)
    case 'd' => d.flags.(sign := true)
    case 'i' => d.flags.(sign := true)
    case _ => d.flags
  }

  function Padded(text: string, width: int, left: bool): string {
    if left then text + Repeat(' ', width - |text|) else Repeat(' ', width - |text|) + text
  }

  function Cut(text: string, precision: int): string {
    if 0 <= precision < |text| then text[..precision] else text
  }

  function RenderNumber(d: Directive, w: Arg): string {
    Rendered(Signed(w), Base(d.conv), NumberWidth(d), d.precision, NumberFlags(d))
  }

  // The conversions of numbers in full: the bases, what sets SIGN and SMALL, and the
  // pointer of eight digits.
  lemma BaseTable(c: char)
    ensures IsNumeric(c) <==> c in "opxXdiub"
    ensures Base(c) == if c in "pxX" then 16 else if c == 'o' then 8 else if c == 'b' then 2 else 10
  {
  }

  lemma FlagTable(d: Directive)
    ensures var bare := d.conv == 'p' && d.width == -1;
            && NumberWidth(d) == (if bare then 8 else d.width)
            && NumberFlags(d) ==
               Flags(d.flags.zeropad || bare, d.flags.sign || d.conv == 'd' || d.conv == 'i', d.flags.plus,
                     d.flags.space, d.flags.left, d.flags.special, d.flags.small || d.conv == 'x')
  {
  }

  lemma NumberInFull(d: Directive, w: Arg)
    ensures var num := if w < 0x8000_0000 then w else w - 0x1_0000_0000;
            var base := if d.conv in "pxX" then 16 else if d.conv == 'o' then 8 else if d.conv == 'b' then 2 else 10;
            var bare := d.conv == 'p' && d.width == -1;
            RenderNumber(d, w) ==
            Rendered(num, base, if bare then 8 else d.width, d.precision,
                     Flags(d.flags.zeropad || bare, d.flags.sign || d.conv == 'd' || d.conv == 'i', d.flags.plus,
                           d.flags.space, d.flags.left, d.flags.special, d.flags.small || d.conv == 'x'))
  {
    BaseTable(d.conv);
    FlagTable(d);
    var base, num := Base(d.conv), Signed(w);
    assert RenderNumber(d, w) == Rendered(num, base, NumberWidth(d), d.precision, NumberFlags(d));
  }

  // An unknown conversion is copied with its percent sign; `%%` and a lone `%` at
  // the end are one percent sign.
  function RenderOther(conv: char): string {
    (if conv != '%' then "%" else "") + (if conv == '\0' then "" else [conv])
  }

  function Render(d: Directive, words: nat -> Arg, strings: Arg -> string, a: nat): string {
    if IsNumeric(d.conv) then RenderNumber(d, words(a))
    else if d.conv == 'c' then Padded([(words(a) % 256) as char], d.width, d.flags.left)
    else if d.conv == 's' then Padded(Cut(strings(words(a)), d.precision), d.width, d.flags.left)
    else if d.conv == 'n' then ""
    else RenderOther(d.conv)
  }

  // Arguments a directive takes.
  function Takes(d: Directive): nat {
    (if d.star then 1 else 0) + if IsNumeric(d.conv) || d.conv == 'c' || d.conv == 's' || d.conv == 'n' then 1 else 0
  }

  // What a directive stands for, given the number of its first argument.
  type Renderer = (Directive, nat) -> string

  function With(words: nat -> Arg, strings: Arg -> string): Renderer {
    (d: Directive, a: nat) => Render(d, words, strings, a)
  }

  // What a format stands for when its first argument is number a.
  function Output(s: string, render: Renderer, a: nat): string
    decreases |s|
  {
    if s == "" then ""
    else if s[0] != '%' then [s[0]] + Output(s[1..], render, a)
    else
      var (d, rest) := Parse(s);
      render(d, a) + Output(rest, render, a + Takes(d))
  }

  // What %n does: the number of characters written so far goes where its argument
  // points.
  datatype Count = Count(pointer: Arg, chars: nat)

  function CountOf(d: Directive, words: nat -> Arg, a: nat, written: nat): seq<Count> {
    if d.conv == 'n' then [Count(words(a), written)] else []
  }

  // The counts stored by a format whose first argument is number a, in order.
  function Counts(s: string, render: Renderer, words: nat -> Arg, a: nat, written: nat): seq<Count>
    decreases |s|
  {
    if s == "" then []
    else if s[0] != '%' then Counts(s[1..], render, words, a, written + 1)
    else
      var (d, rest) := Parse(s);
      CountOf(d, words, a, written) + Counts(rest, render, words, a + Takes(d), written + |render(d, a)|)
  }

  // ----- The scanner -----

  // *fmt: the NUL behind the format may be read, nothing past it.
  function At(fmt: string, p: nat): char
    requires p <= |fmt|
  {
    if p == |fmt| then '\0' else fmt[p]
  }

  // The `repeat:` loop, from the percent sign at p.
  method ReadFlags(fmt: string, p: nat) returns (flags: Flags, q: nat)
    requires p < |fmt|
    ensures p < q <= |fmt| && (flags, fmt[q..]) == TakeFlags(fmt[p + 1..], PLAIN)
  {
    flags, q := PLAIN, p + 1;
    while IsFlag(At(fmt, q))
      invariant p < q <= |fmt| && TakeFlags(fmt[q..], flags) == TakeFlags(fmt[p + 1..], PLAIN)
      decreases |fmt| - q
    {
      assert fmt[q..][1..] == fmt[q + 1..];
      flags := WithFlag(flags, At(fmt, q));
      q := q + 1;
    }
  }

  // `skip_atoi`
  method SkipAtoi(fmt: string, p: nat) returns (i: nat, q: nat)
    requires p <= |fmt|
    ensures p <= q <= |fmt| && (i, fmt[q..]) == TakeDigits(fmt[p..], 0)
  {
    i, q := 0, p;
    while IsDecimal(At(fmt, q))
      invariant p <= q <= |fmt| && TakeDigits(fmt[q..], i) == TakeDigits(fmt[p..], 0)
      decreases |fmt| - q
    {
      assert fmt[q..][1..] == fmt[q + 1..];
      i := i * 10 + (At(fmt, q) - '0') as nat;
      q := q + 1;
    }
  }

  // The field width. A star takes an argument, whose sign may set LEFT.
  method ReadWidth(fmt: string, p: nat, flags: Flags, words: nat -> Arg, a: nat)
    returns (width: int, flags': Flags, star: bool, q: nat, next: nat)
    requires p <= |fmt|
    ensures p <= q <= |fmt| && TakeWidth(fmt[p..]) == (if star then -1 else width, star, fmt[q..])
    ensures !star ==> flags' == flags
    ensures next == a + if star then 1 else 0
  {
    width, flags', star, q, next := -1, flags, false, p, a;
    if IsDecimal(At(fmt, p)) {
      width, q := SkipAtoi(fmt, p);
    } else if At(fmt, p) == '*' {
      width, star, next := Signed(words(a)), true, a + 1;
      if width < 0 {
        width, flags' := -width, flags.(left := true);
      }
    }
  }

  // The precision; a negative one counts as 0.
  method ReadPrecision(fmt: string, p: nat, words: nat -> Arg, a: nat)
    returns (precision: int, star: bool, q: nat, next: nat)
    requires p <= |fmt|
    ensures p <= q <= |fmt| && TakePrecision(fmt[p..]) == (if star then 0 else precision, star, fmt[q..])
    ensures next == a + if star then 1 else 0
  {
    precision, star, q, next := -1, false, p, a;
    if At(fmt, p) == '.' {
      q := p + 1;
      assert fmt[p..][1..] == fmt[q..];
      if IsDecimal(At(fmt, q)) {
        precision, q := SkipAtoi(fmt, q);
      } else if At(fmt, q) == '*' {
        precision, star, next := Signed(words(a)), true, a + 1;
      }
      if precision < 0 {
        precision := 0;
      }
    }
  }

  // Everything from the percent sign at p to the conversion character at q. With a
  // star, flags, width and precision are what the arguments made of them.
  method ReadDirective(fmt: string, p: nat, words: nat -> Arg, a: nat)
    returns (d: Directive, q: nat, next: nat)
    requires p < |fmt|
    ensures p < q <= |fmt| && d.conv == At(fmt, q) && next == a + if d.star then 1 else 0
    ensures Parse(fmt[p..]).1 == if q == |fmt| then "" else fmt[q + 1..]
    ensures Parse(fmt[p..]).0.star == d.star && Parse(fmt[p..]).0.conv == d.conv
    ensures !d.star ==> Parse(fmt[p..]).0 == d
    ensures d.star ==> d.conv == '*'
  {
    var flags, s1 := ReadFlags(fmt, p);
    var width, flags', star1, s2, a1 := ReadWidth(fmt, s1, flags, words, a);
    var precision, star2, s3, a2 := ReadPrecision(fmt, s2, words, a1);
    q, next := s3, a2;
    if At(fmt, q) == 'h' || At(fmt, q) == 'l' || At(fmt, q) == 'L' {
      q := q + 1;
      assert fmt[s3..][1..] == fmt[q..];
    }
    assert fmt[p..][1..] == fmt[p + 1..];
    assert q < |fmt| ==> fmt[q..][1..] == fmt[q + 1..];
    d := Directive(flags', width, precision, star1 || star2, At(fmt, q));
  }

  // ----- The conversions -----

  lemma WroteMore(s0: string, s1: string, s2: string, at: nat, text: string, mid: nat, piece: string, end: nat)
    requires Wrote(s0, s1, at, text, mid) && Wrote(s1, s2, mid, piece, end)
    ensures Wrote(s0, s2, at, text + piece, end)
  {
    assert s1[..mid] == s0[..at] + text && s1[end..] == s0[end..];
  }

  // `%c`
  method PutChar(buf: array<char>, str: nat, width: int, left: bool, c: char,
                 ghost s0: string, ghost at: nat, ghost text: string) returns (end: nat)
    requires str + |Padded([c], width, left)| <= buf.Length && Wrote(s0, buf[..], at, text, str)
    modifies buf
    ensures Wrote(s0, buf[..], at, text + Padded([c], width, left), end)
  {
    ghost var pad := Repeat(' ', width - 1);
    var gap := width - 1;
    end := str;
    if !left {
      end, gap := Fill(buf, end, gap, ' ', s0, at, text);
    }
    ghost var before := text + if left then "" else pad;
    assert left ==> before == text;
    end := Put(buf, end, c, s0, at, before);
    assert before + [c] + (if left then pad else "") == text + Padded([c], width, left);
    end, gap := Fill(buf, end, gap, ' ', s0, at, before + [c]);
  }

  // The copying loop of `%s`.
  method PutText(buf: array<char>, str: nat, s: string, len: nat, ghost s0: string, ghost at: nat, ghost text: string)
    returns (end: nat)
    requires len <= |s| && str + len <= buf.Length && Wrote(s0, buf[..], at, text, str)
    modifies buf
    ensures Wrote(s0, buf[..], at, text + s[..len], end)
  {
    end := str;
    var i := 0;
    assert text + s[..0] == text;
    while i < len
      invariant 0 <= i <= len && end == str + i && Wrote(s0, buf[..], at, text + s[..i], end)
    {
      end := Put(buf, end, s[i], s0, at, text + s[..i]);
      assert text + s[..i + 1] == text + s[..i] + [s[i]];
      i := i + 1;
    }
  }

  lemma PaddedPieces(text: string, pad: string, cut: string, width: int, left: bool)
    requires pad == Repeat(' ', width - |cut|)
    ensures text + (if left then "" else pad) + cut + (if left then pad else "") == text + Padded(cut, width, left)
  {
  }

  // `%s`
  method PutString(buf: array<char>, str: nat, width: int, precision: int, left: bool, s: string,
                   ghost s0: string, ghost at: nat, ghost text: string) returns (end: nat)
    requires str + |Padded(Cut(s, precision), width, left)| <= buf.Length && Wrote(s0, buf[..], at, text, str)
    modifies buf
    ensures Wrote(s0, buf[..], at, text + Padded(Cut(s, precision), width, left), end)
  {
    var len := |s|;
    if precision >= 0 && len > precision {
      len := precision;
    }
    ghost var cut, pad := s[..len], Repeat(' ', width - len);
    assert cut == Cut(s, precision);
    var gap := width - len;
    end := str;
    if !left {
      end, gap := Fill(buf, end, gap, ' ', s0, at, text);
    }
    ghost var before := text + if left then "" else pad;
    assert left ==> before == text;
    end := PutText(buf, end, s, len, s0, at, before);
    PaddedPieces(text, pad, cut, width, left);
    end, gap := Fill(buf, end, gap, ' ', s0, at, before + cut);
    assert !left ==> before + cut + "" == before + cut;
  }

  // `%o %p %x %X %d %i %u %b`
  method PutNumber(buf: array<char>, str: nat, d: Directive, w: Arg,
                   ghost s0: string, ghost at: nat, ghost text: string)
    returns (end: nat)
    requires IsNumeric(d.conv) && str + |RenderNumber(d, w)| <= buf.Length && Wrote(s0, buf[..], at, text, str)
    modifies buf
    ensures Wrote(s0, buf[..], at, text + RenderNumber(d, w), end)
  {
    ghost var s1 := buf[..];
    var width, flags, base := d.width, d.flags, 10;
    match d.conv {
      case 'o' => base := 8;
      case 'b' => base := 2;
      case 'p' =>
        base := 16;
        if width == -1 {
          width, flags := 8, flags.(zeropad := true);
        }
      case 'x' => base, flags := 16, flags.(small := true);
      case 'X' => base := 16;
      case 'd' => flags := flags.(sign := true);
      case 'i' => flags := flags.(sign := true);
      case _ =>
    }
    var r := Number(buf, str, Signed(w), base, width, d.precision, flags);
    end := r.value;
    WroteMore(s0, s1, buf[..], at, text, str, RenderNumber(d, w), end);
  }

  // The default: the percent sign, unless it is doubled, and the character, unless
  // it is the NUL, before which the scanner then stops.
  method PutOther(buf: array<char>, str: nat, conv: char, ghost s0: string, ghost at: nat, ghost text: string)
    returns (end: nat)
    requires str + |RenderOther(conv)| <= buf.Length && Wrote(s0, buf[..], at, text, str)
    modifies buf
    ensures Wrote(s0, buf[..], at, text + RenderOther(conv), end)
  {
    end := str;
    ghost var before := text + if conv != '%' then "%" else "";
    if conv != '%' {
      end := Put(buf, end, '%', s0, at, text);
    } else {
      assert before == text;
    }
    if conv != '\0' {
      end := Put(buf, end, conv, s0, at, before);
      assert before + [conv] == text + RenderOther(conv);
    } else {
      assert before == text + RenderOther(conv);
    }
  }

  // The switch on the conversion character.
  method PutDirective(buf: array<char>, str: nat, d: Directive, words: nat -> Arg, strings: Arg -> string, a: nat,
                      ghost s0: string, ghost at: nat, ghost text: string)
    returns (end: nat, next: nat, count: seq<Count>)
    requires str + |Render(d, words, strings, a)| <= buf.Length && Wrote(s0, buf[..], at, text, str)
    modifies buf
    ensures Wrote(s0, buf[..], at, text + Render(d, words, strings, a), end)
    ensures next == a + Takes(d.(star := false)) && count == CountOf(d, words, a, str)
  {
    end, next, count := str, a, [];
    if d.conv == 'c' {
      end := PutChar(buf, str, d.width, d.flags.left, (words(a) % 256) as char, s0, at, text);
      next := a + 1;
    } else if d.conv == 's' {
      end := PutString(buf, str, d.width, d.precision, d.flags.left, strings(words(a)), s0, at, text);
      next := a + 1;
    } else if IsNumeric(d.conv) {
      end := PutNumber(buf, str, d, words(a), s0, at, text);
      next := a + 1;
    } else if d.conv == 'n' {
      assert text + "" == text;
      next, count := a + 1, [Count(words(a), str)];
    } else {
      end := PutOther(buf, str, d.conv, s0, at, text);
    }
  }

  // With a star only the conversion matters: the star itself, which is unknown.
  lemma SameRendering(d: Directive, read: Directive, words: nat -> Arg, strings: Arg -> string, a: nat, str: nat)
    requires read.conv == d.conv && read.star == d.star
    requires if d.star then d.conv == '*' else read == d
    ensures Render(read, words, strings, a) == Render(d, words, strings, a)
    ensures Takes(d) == (if d.star then 1 else 0) + Takes(read.(star := false))
    ensures d.star ==> forall b :: Render(read, words, strings, b) == Render(d, words, strings, a)
    ensures CountOf(read, words, a, str) == CountOf(d, words, a, str)
    ensures d.star ==> forall b :: CountOf(read, words, b, str) == []
  {
  }

  // The format has directive d at p, and rest behind it.
  datatype DirectiveClause = ReadsAs

  ghost predicate DirectsHolds(c: DirectiveClause, fmt: string, p: nat, d: Directive, rest: string) {
    match c
    case ReadsAs => p < |fmt| && Parse(fmt[p..]) == (d, rest)
  }

  ghost predicate Directs(fmt: string, p: nat, d: Directive, rest: string) {
    forall c :: DirectsHolds(c, fmt, p, d, rest)
  }

  // ReadDirective, with what was to be read known before.
  method ReadAs(fmt: string, p: nat, words: nat -> Arg, strings: Arg -> string, a: nat, ghost str: nat,
                ghost d: Directive, ghost rest: string)
    returns (read: Directive, q: nat, next: nat)
    requires p < |fmt| && Directs(fmt, p, d, rest)
    ensures p < q <= |fmt| && read.conv == At(fmt, q) && rest == (if q == |fmt| then "" else fmt[q + 1..])
    ensures Render(read, words, strings, next) == Render(d, words, strings, a)
    ensures next + Takes(read.(star := false)) == a + Takes(d)
    ensures CountOf(read, words, next, str) == CountOf(d, words, a, str)
  {
    assert DirectsHolds(ReadsAs, fmt, p, d, rest);
    read, q, next := ReadDirective(fmt, p, words, a);
    SameRendering(d, read, words, strings, a, str);
  }

  // One directive, from its percent sign at p; the loop goes on behind position q.
  method FormatDirective(buf: array<char>, str: nat, fmt: string, p: nat, words: nat -> Arg, strings: Arg -> string,
                         a: nat, ghost s0: string, ghost at: nat, ghost text: string,
                         ghost d: Directive, ghost rest: string)
    returns (q: nat, end: nat, next: nat, count: seq<Count>)
    requires p < |fmt| && '\0' !in fmt && Directs(fmt, p, d, rest)
    requires str + |Render(d, words, strings, a)| <= buf.Length && Wrote(s0, buf[..], at, text, str)
    modifies buf
    ensures p <= q < |fmt| && fmt[q + 1..] == rest && next == a + Takes(d)
    ensures Wrote(s0, buf[..], at, text + Render(d, words, strings, a), end) && count == CountOf(d, words, a, str)
  {
    var read, a1;
    read, q, a1 := ReadAs(fmt, p, words, strings, a, str, d, rest);
    end, next, count := PutDirective(buf, str, read, words, strings, a1, s0, at, text);
    if At(fmt, q) == '\0' {
      q := q - 1;
    }
  }

  // One character or directive, moved from what is to come to what is done.
  lemma LiteralStep(s: string, render: Renderer, words: nat -> Arg, a: nat, written: nat, done: string, all: string)
    requires s != "" && s[0] != '%' && done + Output(s, render, a) == all
    ensures done + [s[0]] + Output(s[1..], render, a) == all && |done| < |all|
    ensures Counts(s, render, words, a, written) == Counts(s[1..], render, words, a, written + 1)
  {
    Regroup(done, [s[0]], Output(s[1..], render, a));
  }

  lemma DirectiveStep(s: string, render: Renderer, words: nat -> Arg, a: nat, written: nat, done: string, all: string)
    returns (piece: string, rest: string, next: nat)
    requires s != "" && s[0] == '%' && done + Output(s, render, a) == all
    ensures piece == render(Parse(s).0, a) && rest == Parse(s).1 && next == a + Takes(Parse(s).0)
    ensures done + piece + Output(rest, render, next) == all && |done| + |piece| <= |all|
    ensures Counts(s, render, words, a, written) ==
            CountOf(Parse(s).0, words, a, written) + Counts(rest, render, words, next, written + |piece|)
  {
    piece, rest, next := render(Parse(s).0, a), Parse(s).1, a + Takes(Parse(s).0);
    Regroup(done, piece, Output(rest, render, next));
  }

  // Where the loop is: done is written and counted, and what p sees is to come.
  datatype ReachedClause = Text | Counting

  ghost predicate ReachedHolds(c: ReachedClause, fmt: string, p: nat, render: Renderer, words: nat -> Arg, a: nat,
                               done: string, all: string, counts: seq<Count>)
  {
    match c
    case Text => p <= |fmt| && done + Output(fmt[p..], render, a) == all
    case Counting => p <= |fmt| && Counts(fmt[p..], render, words, a, |done|) == counts
  }

  ghost predicate Reached(fmt: string, p: nat, render: Renderer, words: nat -> Arg, a: nat,
                          done: string, all: string, counts: seq<Count>)
  {
    forall c :: ReachedHolds(c, fmt, p, render, words, a, done, all, counts)
  }

  lemma OverLiteral(fmt: string, p: nat, render: Renderer, words: nat -> Arg, a: nat,
                    done: string, all: string, counts: seq<Count>)
    requires p < |fmt| && fmt[p] != '%' && Reached(fmt, p, render, words, a, done, all, counts)
    ensures Reached(fmt, p + 1, render, words, a, done + [fmt[p]], all, counts) && |done| < |all|
  {
    assert ReachedHolds(Text, fmt, p, render, words, a, done, all, counts);
    assert ReachedHolds(Counting, fmt, p, render, words, a, done, all, counts);
    assert fmt[p..][1..] == fmt[p + 1..];
    LiteralStep(fmt[p..], render, words, a, |done|, done, all);
    var p' := p + 1;
    forall c ensures ReachedHolds(c, fmt, p', render, words, a, done + [fmt[p]], all, counts) { }
  }

  // What stands at a percent sign, and how its text goes on from done.
  lemma AtDirective(fmt: string, p: nat, render: Renderer, words: nat -> Arg, a: nat,
                    done: string, all: string, counts: seq<Count>)
    returns (d: Directive, rest: string, piece: string, later: seq<Count>)
    requires p < |fmt| && fmt[p] == '%' && Reached(fmt, p, render, words, a, done, all, counts)
    ensures Directs(fmt, p, d, rest) && piece == render(d, a) && |done| + |piece| <= |all|
    ensures later == Counts(rest, render, words, a + Takes(d), |done + piece|)
    ensures counts == CountOf(d, words, a, |done|) + later
    ensures done + piece + Output(rest, render, a + Takes(d)) == all
  {
    assert ReachedHolds(Text, fmt, p, render, words, a, done, all, counts);
    assert ReachedHolds(Counting, fmt, p, render, words, a, done, all, counts);
    var next;
    piece, rest, next := DirectiveStep(fmt[p..], render, words, a, |done|, done, all);
    d := Parse(fmt[p..]).0;
    later := Counts(rest, render, words, next, |done + piece|);
    forall c ensures DirectsHolds(c, fmt, p, d, rest) { }
  }

  lemma ReachedFold(fmt: string, p: nat, render: Renderer, words: nat -> Arg, a: nat,
                    done: string, all: string, counts: seq<Count>, rest: string)
    requires p <= |fmt| && fmt[p..] == rest && done + Output(rest, render, a) == all
    requires Counts(rest, render, words, a, |done|) == counts
    ensures Reached(fmt, p, render, words, a, done, all, counts)
  {
    forall c ensures ReachedHolds(c, fmt, p, render, words, a, done, all, counts) { }
  }

  // One round of the loop: a literal character or a directive.
  method FormatOne(buf: array<char>, str: nat, fmt: string, p: nat, words: nat -> Arg, strings: Arg -> string, a: nat,
                   ghost s0: string, ghost done: string, ghost all: string, ghost counts: seq<Count>)
    returns (q: nat, end: nat, next: nat, count: seq<Count>, ghost more: string, ghost later: seq<Count>)
    requires p < |fmt| && '\0' !in fmt && |all| < buf.Length && Wrote(s0, buf[..], 0, done, str)
    requires Reached(fmt, p, With(words, strings), words, a, done, all, counts)
    modifies buf
    ensures p < q <= |fmt| && Wrote(s0, buf[..], 0, more, end)
    ensures Reached(fmt, q, With(words, strings), words, next, more, all, later) && counts == count + later
  {
    count, later := [], counts;
    if At(fmt, p) != '%' {
      OverLiteral(fmt, p, With(words, strings), words, a, done, all, counts);
      end := Put(buf, str, At(fmt, p), s0, 0, done);
      q, next, more := p, a, done + [fmt[p]];
    } else {
      ghost var d, rest, piece;
      d, rest, piece, later := AtDirective(fmt, p, With(words, strings), words, a, done, all, counts);
      q, end, next, count := FormatDirective(buf, str, fmt, p, words, strings, a, s0, 0, done, d, rest);
      more := done + piece;
      ReachedFold(fmt, q + 1, With(words, strings), words, next, more, all, later, rest);
    }
    q := q + 1;
  }

  lemma JoinCounts(a: seq<Count>, b: seq<Count>, c: seq<Count>)
    ensures (a + b) + c == a + (b + c)
  {
  }

  lemma WroteFromStart(s0: string, s: string, text: string, end: nat)
    requires Wrote(s0, s, 0, text + ['\0'], end)
    ensures s == text + ['\0'] + s0[|text| + 1..]
  {
    assert s0[..0] == "";
  }

  // `vsprintf`: the buffer holds the output and a NUL, and is otherwise unchanged;
  // the counts are what %n stores.
  method VSprintf(buf: array<char>, fmt: string, words: nat -> Arg, strings: Arg -> string)
    returns (len: nat, counts: seq<Count>)
    requires '\0' !in fmt && |Output(fmt, With(words, strings), 0)| < buf.Length
    modifies buf
    ensures len == |Output(fmt, With(words, strings), 0)|
    ensures counts == Counts(fmt, With(words, strings), words, 0, 0)
    ensures buf[..] == Output(fmt, With(words, strings), 0) + ['\0'] + old(buf[..])[len + 1..]
  {
    ghost var s0, all, done := buf[..], Output(fmt, With(words, strings), 0), "";
    ghost var stores := Counts(fmt, With(words, strings), words, 0, 0);
    ghost var later := stores;
    var str, p, a, count := 0, 0, 0, [];
    counts := [];
    ReachedFold(fmt, p, With(words, strings), words, a, done, all, stores, fmt);
    while At(fmt, p) != '\0'
      invariant 0 <= p <= |fmt| && 0 <= str && 0 <= a && Wrote(s0, buf[..], 0, done, str)
      invariant Reached(fmt, p, With(words, strings), words, a, done, all, later) && counts + later == stores
      decreases |fmt| - p
    {
      ghost var before := counts;
      p, str, a, count, done, later := FormatOne(buf, str, fmt, p, words, strings, a, s0, done, all, later);
      counts := counts + count;
      JoinCounts(before, count, later);
    }
    assert ReachedHolds(Text, fmt, p, With(words, strings), words, a, done, all, later);
    assert ReachedHolds(Counting, fmt, p, With(words, strings), words, a, done, all, later);
    assert fmt[p..] == "" && done + "" == done;
    var end := Put(buf, str, '\0', s0, 0, done);
    WroteFromStart(s0, buf[..], done, end);
    len := str;
  }
}
