// What formats mean: they split at directive boundaries, directives are read as
// they are spelled, literal text is copied, and printed numbers read back.
module FormatTheorems {
  import opened Numbers
  import opened NumberReading
  import opened Formats

  // ----- Splitting -----

  // What is left of a directive from its conversion character on; empty when the
  // format ends before one.
  function AtConversion(s: string): (rest: string)
    requires s != ""
    ensures |rest| < |s|
    ensures Parse(s).0.conv == Lead(rest) && Parse(s).1 == if rest == "" then "" else rest[1..]
  {
    TakeQualifier(TakePrecision(TakeWidth(TakeFlags(s[1..], PLAIN).1).2).2)
  }

  // Every directive of s has its conversion character in s.
  predicate Complete(s: string)
    decreases |s|
  {
    s == "" ||
    if s[0] != '%' then Complete(s[1..])
    else AtConversion(s) != "" && Complete(Parse(s).1)
  }

  // Arguments taken by a whole format.
  function Taken(s: string): nat
    decreases |s|
  {
    if s == "" then 0
    else if s[0] != '%' then Taken(s[1..])
    else Takes(Parse(s).0) + Taken(Parse(s).1)
  }

  // Formatting s and then t is formatting s + t.
  ghost predicate Splits(s: string, t: string, render: Renderer, a: nat) {
    Output(s + t, render, a) == Output(s, render, a) + Output(t, render, a + Taken(s))
  }

  // Text that no part of a directive but its conversion can start with.
  predicate Inert(t: string) {
    Lead(t) == '%'
  }

  lemma {:induction false} FlagsMore(s: string, t: string, flags: Flags)
    requires TakeFlags(s, flags).1 != "" || Inert(t)
    ensures TakeFlags(s + t, flags) == (TakeFlags(s, flags).0, TakeFlags(s, flags).1 + t)
    decreases |s|
  {
    if s == "" {
      assert s + t == t;
    } else if IsFlag(s[0]) {
      assert (s + t)[1..] == s[1..] + t;
      FlagsMore(s[1..], t, WithFlag(flags, s[0]));
    }
  }

  lemma {:induction false} DigitsMore(s: string, t: string, n: nat)
    requires TakeDigits(s, n).1 != "" || Inert(t)
    ensures TakeDigits(s + t, n) == (TakeDigits(s, n).0, TakeDigits(s, n).1 + t)
    decreases |s|
  {
    if s == "" {
      assert s + t == t;
    } else if IsDecimal(s[0]) {
      assert (s + t)[1..] == s[1..] + t;
      DigitsMore(s[1..], t, n * 10 + (s[0] - '0') as nat);
    }
  }

  lemma WidthMore(s: string, t: string)
    requires TakeWidth(s).2 != "" || Inert(t)
    ensures TakeWidth(s + t) == (TakeWidth(s).0, TakeWidth(s).1, TakeWidth(s).2 + t)
  {
    if s == "" { assert s + t == t; }
    if IsDecimal(Lead(s)) { DigitsMore(s, t, 0); }
  }

  lemma PrecisionMore(s: string, t: string)
    requires TakePrecision(s).2 != "" || Inert(t)
    ensures TakePrecision(s + t) == (TakePrecision(s).0, TakePrecision(s).1, TakePrecision(s).2 + t)
  {
    if s == "" { assert s + t == t; }
    if Lead(s) == '.' {
      var u := s[1..];
      assert (s + t)[1..] == u + t;
      if u == "" { assert u + t == t; }
      if IsDecimal(Lead(u)) { DigitsMore(u, t, 0); }
    }
  }

  lemma QualifierMore(s: string, t: string)
    requires TakeQualifier(s) != "" || Inert(t)
    ensures TakeQualifier(s + t) == TakeQualifier(s) + t
  {
    if s == "" {
      assert s + t == t;
    } else {
      assert (s + t)[1..] == s[1..] + t;
    }
  }

  // More text behind a directive that has its conversion, or behind one that lacks
  // it when the text supplies a percent sign, does not change what was read before.
  lemma ParseMore(s: string, t: string)
    requires s != "" && (AtConversion(s) != "" || Inert(t))
    ensures AtConversion(s + t) == AtConversion(s) + t
    ensures Parse(s + t).0 == Parse(s).0.(conv := Lead(AtConversion(s) + t))
    ensures AtConversion(s) != "" ==> Parse(s + t) == (Parse(s).0, Parse(s).1 + t)
  {
    assert (s + t)[1..] == s[1..] + t;
    var s1 := TakeFlags(s[1..], PLAIN).1;
    var s2 := TakeWidth(s1).2;
    var s3 := TakePrecision(s2).2;
    FlagsMore(s[1..], t, PLAIN);
    WidthMore(s1, t);
    PrecisionMore(s2, t);
    QualifierMore(s3, t);
    var s4 := AtConversion(s);
    assert s4 != "" ==> (s4 + t)[1..] == s4[1..] + t;
  }

  lemma DirectiveOutput(s: string, render: Renderer, a: nat)
    requires s != "" && s[0] == '%'
    ensures var (d, rest) := Parse(s);
            Output(s, render, a) == render(d, a) + Output(rest, render, a + Takes(d))
  {
  }

  lemma LiteralSplits(s: string, t: string, render: Renderer, a: nat)
    requires s != "" && s[0] != '%' && Splits(s[1..], t, render, a)
    ensures Splits(s, t, render, a)
  {
    assert (s + t)[1..] == s[1..] + t;
    Regroup([s[0]], Output(s[1..], render, a), Output(t, render, a + Taken(s)));
  }

  // A directive that has its conversion, with more text behind it.
  lemma DirectiveBefore(s: string, t: string, render: Renderer, a: nat)
    requires s != "" && s[0] == '%' && AtConversion(s) != ""
    ensures var (d, rest) := Parse(s);
            Output(s + t, render, a) == render(d, a) + Output(rest + t, render, a + Takes(d))
  {
    ParseMore(s, t);
    DirectiveOutput(s + t, render, a);
  }

  // The format s starts with the directive d.
  ghost predicate Leads(s: string, d: Directive, rest: string, render: Renderer, a: nat) {
    && Output(s, render, a) == render(d, a) + Output(rest, render, a + Takes(d))
    && Taken(s) == Takes(d) + Taken(rest)
  }

  lemma LeadsSplits(s: string, st: string, d: Directive, rest: string, t: string, render: Renderer, a: nat)
    requires Leads(s, d, rest, render, a) && Splits(rest, t, render, a + Takes(d))
    requires Output(st, render, a) == render(d, a) + Output(rest + t, render, a + Takes(d))
    ensures Output(st, render, a) == Output(s, render, a) + Output(t, render, a + Taken(s))
  {
    Regroup(render(d, a), Output(rest, render, a + Takes(d)), Output(t, render, a + Taken(s)));
  }

  lemma DirectiveSplits(s: string, t: string, render: Renderer, a: nat)
    requires s != "" && s[0] == '%' && AtConversion(s) != ""
    requires Splits(Parse(s).1, t, render, a + Takes(Parse(s).0))
    ensures Splits(s, t, render, a)
  {
    DirectiveBefore(s, t, render, a);
    assert Leads(s, Parse(s).0, Parse(s).1, render, a);
    LeadsSplits(s, s + t, Parse(s).0, Parse(s).1, t, render, a);
  }

  lemma {:induction false} CompleteSplits(s: string, t: string, render: Renderer, a: nat)
    requires Complete(s)
    ensures Splits(s, t, render, a)
    decreases |s|
  {
    if s == "" {
      assert s + t == t;
    } else if s[0] != '%' {
      CompleteSplits(s[1..], t, render, a);
      LiteralSplits(s, t, render, a);
    } else {
      CompleteSplits(Parse(s).1, t, render, a + Takes(Parse(s).0));
      DirectiveSplits(s, t, render, a);
    }
  }

  // ----- Counting -----

  lemma DirectiveCounts(s: string, render: Renderer, words: nat -> Arg, a: nat, w: nat)
    requires s != "" && s[0] == '%'
    ensures var (d, rest) := Parse(s);
            Counts(s, render, words, a, w) ==
            CountOf(d, words, a, w) + Counts(rest, render, words, a + Takes(d), w + |render(d, a)|)
  {
  }

  // The counts of a directive that has its conversion, with more text behind it.
  lemma DirectiveCountsMore(s: string, t: string, render: Renderer, words: nat -> Arg, a: nat, w: nat)
    requires s != "" && s[0] == '%' && AtConversion(s) != ""
    ensures var (d, rest) := Parse(s);
            Counts(s + t, render, words, a, w) ==
            CountOf(d, words, a, w) + Counts(rest + t, render, words, a + Takes(d), w + |render(d, a)|)
  {
    ParseMore(s, t);
    DirectiveCounts(s + t, render, words, a, w);
  }

  // s + t stores the counts of s, and then those of t from where s stopped writing.
  ghost predicate CountsSplit(s: string, t: string, render: Renderer, words: nat -> Arg, a: nat, w: nat) {
    Counts(s + t, render, words, a, w) ==
    Counts(s, render, words, a, w) + Counts(t, render, words, a + Taken(s), w + |Output(s, render, a)|)
  }

  lemma LiteralCounts(s: string, t: string, render: Renderer, words: nat -> Arg, a: nat, w: nat)
    requires s != "" && s[0] != '%' && CountsSplit(s[1..], t, render, words, a, w + 1)
    ensures CountsSplit(s, t, render, words, a, w)
  {
    assert (s + t)[1..] == s[1..] + t;
  }

  // What the directive d at the start of s stores, writes and takes.
  ghost predicate LeadsCounts(s: string, d: Directive, rest: string, render: Renderer, words: nat -> Arg,
                              a: nat, w: nat)
  {
    && Counts(s, render, words, a, w) ==
       CountOf(d, words, a, w) + Counts(rest, render, words, a + Takes(d), w + |render(d, a)|)
    && |Output(s, render, a)| == |render(d, a)| + |Output(rest, render, a + Takes(d))|
    && Taken(s) == Takes(d) + Taken(rest)
  }

  lemma LeadsCountsSplit(s: string, st: string, d: Directive, rest: string, t: string, render: Renderer,
                         words: nat -> Arg, a: nat, w: nat)
    requires LeadsCounts(s, d, rest, render, words, a, w)
    requires CountsSplit(rest, t, render, words, a + Takes(d), w + |render(d, a)|)
    requires Counts(st, render, words, a, w) ==
             CountOf(d, words, a, w) + Counts(rest + t, render, words, a + Takes(d), w + |render(d, a)|)
    ensures Counts(st, render, words, a, w) ==
            Counts(s, render, words, a, w) + Counts(t, render, words, a + Taken(s), w + |Output(s, render, a)|)
  {
    JoinCounts(CountOf(d, words, a, w), Counts(rest, render, words, a + Takes(d), w + |render(d, a)|),
               Counts(t, render, words, a + Taken(s), w + |Output(s, render, a)|));
  }

  lemma DirectiveCountsSplit(s: string, t: string, render: Renderer, words: nat -> Arg, a: nat, w: nat)
    requires s != "" && s[0] == '%' && AtConversion(s) != ""
    requires var (d, rest) := Parse(s); CountsSplit(rest, t, render, words, a + Takes(d), w + |render(d, a)|)
    ensures CountsSplit(s, t, render, words, a, w)
  {
    DirectiveCountsMore(s, t, render, words, a, w);
    assert LeadsCounts(s, Parse(s).0, Parse(s).1, render, words, a, w);
    LeadsCountsSplit(s, s + t, Parse(s).0, Parse(s).1, t, render, words, a, w);
  }

  // A complete first part stores its own counts, and the rest goes on counting
  // behind what the first part wrote.
  lemma {:induction false} CountsGoOn(s: string, t: string, render: Renderer, words: nat -> Arg, a: nat, w: nat)
    requires Complete(s)
    ensures CountsSplit(s, t, render, words, a, w)
    decreases |s|
  {
    if s == "" {
      assert s + t == t;
    } else if s[0] != '%' {
      CountsGoOn(s[1..], t, render, words, a, w + 1);
      LiteralCounts(s, t, render, words, a, w);
    } else {
      var d := Parse(s).0;
      CountsGoOn(Parse(s).1, t, render, words, a + Takes(d), w + |render(d, a)|);
      DirectiveCountsSplit(s, t, render, words, a, w);
    }
  }

  // %n itself stores how much was written before it.
  lemma CountsHere(t: string, render: Renderer, words: nat -> Arg, a: nat, w: nat)
    ensures var d := Directive(PLAIN, -1, -1, false, 'n');
            Counts("%n" + t, render, words, a, w) ==
            [Count(words(a), w)] + Counts(t, render, words, a + 1, w + |render(d, a)|)
  {
    var u := "%n" + t;
    assert u[1..] == "n" + t && ("n" + t)[1..] == t;
    assert Parse(u) == (Directive(PLAIN, -1, -1, false, 'n'), t);
    DirectiveCounts(u, render, words, a, w);
  }

  // A doubled percent sign and one at the end of the format are one percent sign.
  ghost predicate ShowsPercents(render: Renderer) {
    forall d: Directive, a: nat :: d.conv == '%' || d.conv == '\0' ==> render(d, a) == "%"
  }

  // A percent sign behind an unfinished directive finishes it.
  lemma Finished(s: string, t: string, render: Renderer, a: nat)
    requires ShowsPercents(render)
    requires s != "" && s[0] == '%' && AtConversion(s) == "" && t == "%"
    ensures Output(s, render, a) == "%" && Output(s + t, render, a) == "%"
  {
    ParseMore(s, t);
    DirectiveOutput(s, render, a);
    DirectiveOutput(s + t, render, a);
    assert Parse(s).0.conv == '\0' && Parse(s).1 == "";
    assert AtConversion(s) + t == t;
    assert Parse(s + t).0.conv == '%' && Parse(s + t).1 == "";
  }

  lemma LengthsAgree(s: string, t: string, render: Renderer, a: nat)
    requires s != "" && s[0] == '%' && AtConversion(s) != ""
    requires |Output(Parse(s).1 + t, render, a + Takes(Parse(s).0))| ==
             |Output(Parse(s).1, render, a + Takes(Parse(s).0))|
    ensures |Output(s + t, render, a)| == |Output(s, render, a)|
  {
    ParseMore(s, t);
    DirectiveOutput(s, render, a);
    DirectiveOutput(s + t, render, a);
  }

  lemma {:induction false} UnfinishedDiffers(s: string, t: string, render: Renderer, a: nat)
    requires ShowsPercents(render) && !Complete(s) && t == "%"
    ensures |Output(s + t, render, a)| == |Output(s, render, a)|
    decreases |s|
  {
    if s[0] != '%' {
      assert (s + t)[1..] == s[1..] + t;
      UnfinishedDiffers(s[1..], t, render, a);
    } else if AtConversion(s) != "" {
      UnfinishedDiffers(Parse(s).1, t, render, a + Takes(Parse(s).0));
      LengthsAgree(s, t, render, a);
    } else {
      Finished(s, t, render, a);
    }
  }

  lemma LonePercent(render: Renderer, a: nat)
    requires ShowsPercents(render)
    ensures Output("%", render, a) == "%"
  {
    var s := "%";
    assert s[1..] == "";
    assert AtConversion(s) == "";
    DirectiveOutput(s, render, a);
  }

  // A format splits before every continuation exactly when it is complete.
  lemma SplitsExactlyAtBoundaries(s: string, words: nat -> Arg, strings: Arg -> string, a: nat)
    ensures Complete(s) <==> forall t :: Splits(s, t, With(words, strings), a)
  {
    var render := With(words, strings);
    if Complete(s) {
      forall t ensures Splits(s, t, render, a) { CompleteSplits(s, t, render, a); }
    } else {
      var t := "%";
      assert ShowsPercents(render);
      UnfinishedDiffers(s, t, render, a);
      LonePercent(render, a + Taken(s));
      assert !Splits(s, t, render, a);
    }
  }

  // Text without a percent sign comes out as it is and takes no argument.
  lemma {:induction false} LiteralText(s: string, render: Renderer, a: nat)
    requires '%' !in s
    ensures Output(s, render, a) == s && Taken(s) == 0 && Complete(s)
  {
    if s != "" { LiteralText(s[1..], render, a); }
  }

  // ----- Spelling a directive -----

  // A directive the format language can express without arguments of its own: the
  // width is positive, and the conversion is not taken for anything before it.
  predicate Expressible(d: Directive) {
    && !d.flags.sign && !d.flags.small && !d.star
    && (d.width == -1 || d.width > 0) && d.precision >= -1
    && d.conv !in "-+ #0123456789.*hlL"
  }

  function SpellFlags(f: Flags): string {
    (if f.left then "-" else "") + ((if f.plus then "+" else "") + ((if f.space then " " else "") +
    ((if f.special then "#" else "") + (if f.zeropad then "0" else ""))))
  }

  function SpellCount(n: int): string {
    if n < 0 then "" else Numeral(n, 10, false)
  }

  function SpellPrecision(n: int): string {
    if n < 0 then "" else "." + SpellCount(n)
  }

  function Spell(d: Directive): (s: string)
    ensures s != ""
  {
    "%" + (SpellFlags(d.flags) + (SpellCount(d.width) + (SpellPrecision(d.precision) + [d.conv])))
  }

  // Decimal digits in front of t continue the count at their value.
  lemma {:induction false} TakeNumeral(u: nat, t: string)
    ensures TakeDigits(Numeral(u, 10, false) + t, 0) == TakeDigits(t, u)
  {
    var digit := DigitChar(u % 10, false);
    assert ([digit] + t)[1..] == t;
    if u >= 10 {
      assert Numeral(u, 10, false) + t == Numeral(u / 10, 10, false) + ([digit] + t);
      TakeNumeral(u / 10, [digit] + t);
    }
  }

  lemma {:induction false} NoLeadingZero(u: nat)
    requires u > 0
    ensures Numeral(u, 10, false)[0] != '0' && IsDecimal(Numeral(u, 10, false)[0])
  {
    if u >= 10 { NoLeadingZero(u / 10); }
  }

  lemma {:induction false} StartsDecimal(u: nat)
    ensures IsDecimal(Numeral(u, 10, false)[0])
  {
    if u >= 10 { StartsDecimal(u / 10); }
  }

  lemma OneFlag(on: bool, c: char, t: string, flags: Flags)
    requires IsFlag(c)
    ensures TakeFlags((if on then [c] else "") + t, flags) == TakeFlags(t, if on then WithFlag(flags, c) else flags)
  {
    if on { assert ([c] + t)[1..] == t; } else { assert "" + t == t; }
  }

  lemma FlagsAsSpelled(f: Flags, t: string)
    requires !f.sign && !f.small && !IsFlag(Lead(t))
    ensures TakeFlags(SpellFlags(f) + t, PLAIN) == (f, t)
  {
    var z := (if f.zeropad then "0" else "") + t;
    var h := (if f.special then "#" else "") + z;
    var b := (if f.space then " " else "") + h;
    var p := (if f.plus then "+" else "") + b;
    SpellFlagsApart(f, t, z, h, b, p);
    var f1 := PLAIN.(left := f.left);
    var f2 := f1.(plus := f.plus);
    var f3 := f2.(space := f.space);
    var f4 := f3.(special := f.special);
    OneFlag(f.left, '-', p, PLAIN);
    OneFlag(f.plus, '+', b, f1);
    OneFlag(f.space, ' ', h, f2);
    OneFlag(f.special, '#', z, f3);
    OneFlag(f.zeropad, '0', t, f4);
  }

  lemma SpellFlagsApart(f: Flags, t: string, z: string, h: string, b: string, p: string)
    requires z == (if f.zeropad then "0" else "") + t && h == (if f.special then "#" else "") + z
    requires b == (if f.space then " " else "") + h && p == (if f.plus then "+" else "") + b
    ensures SpellFlags(f) + t == (if f.left then "-" else "") + p
  {
  }

  lemma WidthAsSpelled(width: int, t: string)
    requires (width == -1 || width > 0) && !IsDecimal(Lead(t)) && Lead(t) != '*'
    ensures TakeWidth(SpellCount(width) + t) == (width, false, t)
    ensures IsFlag(Lead(SpellCount(width) + t)) ==> width == -1 && IsFlag(Lead(t))
  {
    if width > 0 {
      NoLeadingZero(width);
      TakeNumeral(width, t);
    } else {
      assert "" + t == t;
    }
  }

  lemma PrecisionAsSpelled(precision: int, t: string)
    requires precision >= -1 && !IsDecimal(Lead(t)) && Lead(t) != '*' && Lead(t) != '.'
    ensures TakePrecision(SpellPrecision(precision) + t) == (precision, false, t)
  {
    if precision >= 0 {
      var digits := Numeral(precision, 10, false);
      var u := digits + t;
      BehindDot(digits, t);
      StartsDecimal(precision);
      TakeNumeral(precision, t);
      assert TakeDigits(t, precision) == (precision, t);
      assert IsDecimal(Lead(u)) && TakeDigits(u, 0) == (precision, t);
    } else {
      assert "" + t == t;
    }
  }

  lemma BehindDot(digits: string, t: string)
    ensures ("." + digits + t)[1..] == digits + t && ("." + digits + t)[0] == '.'
  {
  }

  // The stages of reading, put together.
  lemma ParseStages(s: string, d: Directive, t2: string, t3: string, t4: string, t: string)
    requires s != "" && TakeFlags(s[1..], PLAIN) == (d.flags, t2)
    requires TakeWidth(t2) == (d.width, false, t3) && TakePrecision(t3) == (d.precision, false, t4)
    requires t4 != "" && t4[0] == d.conv && t4[1..] == t && !d.star
    requires d.conv != 'h' && d.conv != 'l' && d.conv != 'L'
    ensures Parse(s) == (d, t)
  {
  }

  // Reading a spelled directive gives the directive and leaves what follows.
  lemma ParseAsSpelled(d: Directive, t: string)
    requires Expressible(d)
    ensures Parse(Spell(d) + t) == (d, t)
  {
    var t4 := [d.conv] + t;
    var t3 := SpellPrecision(d.precision) + t4;
    var t2 := SpellCount(d.width) + t3;
    SpellApart(d, t, t2, t3, t4);
    WidthAsSpelled(d.width, t3);
    FlagsAsSpelled(d.flags, t2);
    PrecisionAsSpelled(d.precision, t4);
    ParseStages(Spell(d) + t, d, t2, t3, t4, t);
  }

  lemma SpellApart(d: Directive, t: string, t2: string, t3: string, t4: string)
    requires t4 == [d.conv] + t && t3 == SpellPrecision(d.precision) + t4 && t2 == SpellCount(d.width) + t3
    ensures (Spell(d) + t)[1..] == SpellFlags(d.flags) + t2
    ensures Lead(t3) == (if d.precision < 0 then d.conv else '.') && t4[1..] == t
  {
    Regroup(SpellCount(d.width), SpellPrecision(d.precision), t4);
  }

  // So a format made of directives and text means what it spells: the directive's
  // text, then the rest with the arguments that follow.
  lemma SpelledOutput(d: Directive, t: string, render: Renderer, a: nat)
    requires Expressible(d)
    ensures Output(Spell(d) + t, render, a) ==
            render(d, a) + Output(t, render, a + Takes(d))
  {
    ParseAsSpelled(d, t);
    assert (Spell(d) + t)[0] == '%';
  }

  // ----- Numbers and strings through a format -----

  lemma WordOfSigned(w: Arg)
    ensures IsInt(Signed(w)) && Word(Signed(w)) == w
  {
  }

  // A format of one directive.
  lemma OneDirective(d: Directive, words: nat -> Arg, strings: Arg -> string, a: nat)
    requires Expressible(d)
    ensures Output(Spell(d), With(words, strings), a) == Render(d, words, strings, a)
  {
    SpelledOutput(d, "", With(words, strings), a);
    assert Spell(d) + "" == Spell(d);
    assert Render(d, words, strings, a) + "" == Render(d, words, strings, a);
  }

  lemma NumberRead(d: Directive, w: Arg)
    requires IsNumeric(d.conv) && !d.flags.sign
    ensures Read(RenderNumber(d, w), Base(d.conv), |Prefix(Base(d.conv), NumberFlags(d))|) ==
            if (d.conv == 'd' || d.conv == 'i') && w >= 0x8000_0000 then w - 0x1_0000_0000 else w
    ensures |Prefix(Base(d.conv), NumberFlags(d))| ==
            if d.flags.special && Base(d.conv) == 16 then 2 else if d.flags.special && Base(d.conv) == 8 then 1 else 0
  {
    FlagTable(d);
    NumberReadsBack(Signed(w), Base(d.conv), NumberWidth(d), d.precision, NumberFlags(d));
    WordOfSigned(w);
  }

  // The argument of a numeric directive can be read back from the output, in the
  // base and behind the prefix of its conversion: as a signed int for %d and %i, as
  // an unsigned word for the others.
  lemma FormattedReadsBack(d: Directive, words: nat -> Arg, strings: Arg -> string, a: nat)
    requires Expressible(d) && d.conv in "opxXdiub"
    ensures var base := if d.conv in "pxX" then 16 else if d.conv == 'o' then 8 else if d.conv == 'b' then 2 else 10;
            var prefix := if d.flags.special && base == 16 then 2 else if d.flags.special && base == 8 then 1 else 0;
            Read(Output(Spell(d), With(words, strings), a), base, prefix) ==
            if (d.conv == 'd' || d.conv == 'i') && words(a) >= 0x8000_0000 then words(a) - 0x1_0000_0000 else words(a)
  {
    OneDirective(d, words, strings, a);
    BaseTable(d.conv);
    NumberRead(d, words(a));
  }

  // A string directive fills its width with the string, cut at the precision.
  lemma FormattedString(d: Directive, words: nat -> Arg, strings: Arg -> string, a: nat)
    requires Expressible(d) && d.conv == 's'
    ensures FillsField(Output(Spell(d), With(words, strings), a), strings(words(a)), d.width, d.precision, d.flags.left)
  {
    OneDirective(d, words, strings, a);
    PaddedFills(strings(words(a)), d.width, d.precision, d.flags.left);
  }

  // text is s, cut at the precision, and spaces up to the width on one side of it.
  ghost predicate FillsField(text: string, s: string, width: int, precision: int, left: bool) {
    var n := if 0 <= precision < |s| then precision else |s|;
    && |text| == Max(width, n)
    && (left ==> s[..n] <= text && forall i :: n <= i < |text| ==> text[i] == ' ')
    && (!left ==> text[|text| - n..] == s[..n] && forall i :: 0 <= i < |text| - n ==> text[i] == ' ')
  }

  lemma PaddedFills(s: string, width: int, precision: int, left: bool)
    ensures FillsField(Padded(Cut(s, precision), width, left), s, width, precision, left)
  {
    var n := if 0 <= precision < |s| then precision else |s|;
    assert Cut(s, precision) == s[..n];
  }

  // A character directive fills its width with the low byte of its argument.
  lemma FormattedChar(d: Directive, words: nat -> Arg, strings: Arg -> string, a: nat)
    requires Expressible(d) && d.conv == 'c'
    ensures FillsField(Output(Spell(d), With(words, strings), a), [(words(a) % 256) as char], d.width, -1, d.flags.left)
  {
    OneDirective(d, words, strings, a);
    PaddedFills([(words(a) % 256) as char], d.width, -1, d.flags.left);
  }

  lemma StarredWidth(t: string)
    ensures Parse("%*" + t) == (Directive(PLAIN, -1, -1, true, '*'), t)
  {
    var s := "%*" + t;
    assert s[1..] == "*" + t && ("*" + t)[1..] == t;
  }

  lemma StarredPrecision(t: string)
    ensures Parse("%.*" + t) == (Directive(PLAIN, -1, 0, true, '*'), t)
  {
    var s := "%.*" + t;
    assert s[1..] == ".*" + t && (".*" + t)[1..] == "*" + t && ("*" + t)[1..] == t;
  }

  // A star takes its argument but is not stepped over: `%*` and everything behind
  // it come out as text, whatever conversion was meant.
  lemma StarIsCopied(t: string, words: nat -> Arg, strings: Arg -> string, a: nat)
    ensures Output("%*" + t, With(words, strings), a) == "%*" + Output(t, With(words, strings), a + 1)
    ensures Output("%.*" + t, With(words, strings), a) == "%*" + Output(t, With(words, strings), a + 1)
  {
    StarredWidth(t);
    StarredPrecision(t);
    DirectiveOutput("%*" + t, With(words, strings), a);
    DirectiveOutput("%.*" + t, With(words, strings), a);
    assert RenderOther('*') == "%*";
  }

  // ----- The directive language in full -----

  ghost predicate Only(s: string, letters: string) {
    forall i :: 0 <= i < |s| ==> s[i] in letters
  }

  lemma FlagLetters(c: char)
    ensures c in "-+ #0" <==> c == '-' || c == '+' || c == ' ' || c == '#' || c == '0'
  {
  }

  lemma DigitCharacters(c: char)
    ensures c in "0123456789" <==> IsDecimal(c)
  {
  }

  lemma OnlyMore(s: string, letters: string)
    requires s != "" && Only(s, letters)
    ensures s[0] in letters && Only(s[1..], letters)
  {
  }

  lemma InMore(c: char, s: string)
    requires s != ""
    ensures c in s <==> s[0] == c || c in s[1..]
  {
    assert s == [s[0]] + s[1..];
  }

  // The flag letters of s added to those of f.
  ghost predicate Gathers(g: Flags, f: Flags, s: string) {
    && (g.zeropad <==> f.zeropad || '0' in s) && (g.plus <==> f.plus || '+' in s)
    && (g.space <==> f.space || ' ' in s) && (g.left <==> f.left || '-' in s)
    && (g.special <==> f.special || '#' in s) && g.sign == f.sign && g.small == f.small
  }

  lemma FlagAdds(f: Flags, c: char)
    requires IsFlag(c)
    ensures var g := WithFlag(f, c);
            && g.zeropad == (f.zeropad || c == '0') && g.plus == (f.plus || c == '+')
            && g.space == (f.space || c == ' ') && g.left == (f.left || c == '-')
            && g.special == (f.special || c == '#') && g.sign == f.sign && g.small == f.small
  {
    match c
    case '-' =>
    case '+' =>
    case ' ' =>
    case '#' =>
    case _ => assert c == '0';
  }

  lemma GathersMore(g: Flags, f: Flags, s: string)
    requires s != "" && IsFlag(s[0]) && Gathers(g, WithFlag(f, s[0]), s[1..])
    ensures Gathers(g, f, s)
  {
    FlagAdds(f, s[0]);
    InMore('0', s);
    InMore('+', s);
    InMore(' ', s);
    InMore('-', s);
    InMore('#', s);
  }

  // Flags may come in any order and any number of times.
  lemma {:induction false} FlagsGathered(s: string, t: string, f: Flags)
    requires Only(s, "-+ #0") && !IsFlag(Lead(t))
    ensures TakeFlags(s + t, f).1 == t && Gathers(TakeFlags(s + t, f).0, f, s)
  {
    if s == "" {
      assert s + t == t;
    } else {
      assert (s + t)[1..] == s[1..] + t;
      OnlyMore(s, "-+ #0");
      FlagLetters(s[0]);
      FlagsGathered(s[1..], t, WithFlag(f, s[0]));
      GathersMore(TakeFlags(s + t, f).0, f, s);
    }
  }

  lemma FirstDigit(done: string, s: string, t: string)
    requires s != "" && IsDecimal(s[0])
    ensures TakeDigits(s + t, Value(done, 10)) == TakeDigits(s[1..] + t, Value(done + [s[0]], 10))
    ensures done + s == done + [s[0]] + s[1..]
  {
    assert (s + t)[1..] == s[1..] + t;
    ValueOfMore(done, s[0], 10);
    assert DigitValue(s[0]) == (s[0] - '0') as nat;
  }

  lemma {:induction false} DigitsGathered(done: string, s: string, t: string)
    requires Only(s, "0123456789") && !IsDecimal(Lead(t))
    ensures TakeDigits(s + t, Value(done, 10)) == (Value(done + s, 10), t)
    decreases |s|
  {
    if s == "" {
      assert s + t == t && done + s == done;
    } else {
      OnlyMore(s, "0123456789");
      DigitCharacters(s[0]);
      DigitsGathered(done + [s[0]], s[1..], t);
      FirstDigit(done, s, t);
    }
  }

  lemma WidthGathered(s: string, t: string)
    requires Only(s, "0123456789") && !IsDecimal(Lead(t)) && Lead(t) != '*'
    ensures TakeWidth(s + t) == (if s == "" then -1 else Value(s, 10), false, t)
  {
    if s == "" {
      assert s + t == t;
    } else {
      DigitCharacters(s[0]);
      assert "" + s == s;
      DigitsGathered("", s, t);
    }
  }

  lemma PrecisionGathered(s: string, t: string)
    requires s == "" || (s[0] == '.' && Only(s[1..], "0123456789"))
    requires !IsDecimal(Lead(t)) && Lead(t) != '.' && Lead(t) != '*'
    ensures TakePrecision(s + t) == (if s == "" then -1 else Value(s[1..], 10), false, t)
  {
    if s == "" {
      assert s + t == t;
    } else {
      var u := s[1..];
      assert (s + t)[1..] == u + t && "" + u == u;
      if u == "" {
        assert u + t == t;
      } else {
        DigitCharacters(u[0]);
        DigitsGathered("", u, t);
      }
    }
  }

  // The text of a directive from behind its percent sign on.
  lemma ReadInParts(flags: string, width: string, precision: string, size: string, t: string)
    returns (t1: string, t2: string, t3: string)
    ensures t3 == size + t && t2 == precision + t3 && t1 == width + t2
    ensures ("%" + flags + width + precision + size + t)[1..] == flags + t1
  {
    t3 := size + t;
    t2 := precision + t3;
    t1 := width + t2;
    Regroup(flags + width + precision, size, t);
    Regroup(flags + width, precision, t3);
    Regroup(flags, width, t2);
    var s := "%" + flags + width + precision + size + t;
    assert s == "%" + (flags + width + precision + size + t);
  }

  // Flags, width, precision and a size letter in front of a conversion.
  ghost predicate Directed(flags: string, width: string, precision: string, size: string, conv: char) {
    && Only(flags, "-+ #0") && Only(width, "0123456789") && (width == "" || width[0] != '0')
    && (precision == "" || (precision[0] == '.' && Only(precision[1..], "0123456789")))
    && (size == "" || size == "h" || size == "l" || size == "L") && conv !in "-+ #0123456789.*hlL"
  }

  lemma NoFlagsMore(flags: Flags, letters: string)
    requires Gathers(flags, PLAIN, letters)
    ensures flags == Flags('0' in letters, false, '+' in letters, ' ' in letters, '-' in letters, '#' in letters, false)
  {
  }

  // What no conversion is, so that it is not taken for anything before it.
  lemma ConversionLetters(c: char)
    requires c !in "-+ #0123456789.*hlL"
    ensures !IsFlag(c) && !IsDecimal(c) && c != '.' && c != '*' && c != 'h' && c != 'l' && c != 'L'
  {
  }

  // What each part is followed by.
  lemma PartsEnd(flags: string, width: string, precision: string, size: string, conv: char, t: string,
                 t1: string, t2: string, t3: string)
    requires Directed(flags, width, precision, size, conv)
    requires t3 == size + ([conv] + t) && t2 == precision + t3 && t1 == width + t2
    ensures !IsFlag(Lead(t1)) && !IsDecimal(Lead(t2)) && Lead(t2) != '*'
    ensures !IsDecimal(Lead(t3)) && Lead(t3) != '.' && Lead(t3) != '*'
    ensures TakeQualifier(t3) == [conv] + t
  {
    ConversionLetters(conv);
    assert size == "" ==> t3 == [conv] + t;
    assert size != "" ==> t3[0] == size[0] && t3[1..] == [conv] + t;
    assert precision == "" ==> t2 == t3;
    assert width == "" ==> t1 == t2;
    if width != "" { DigitCharacters(width[0]); }
  }

  // Every directive without a star is read so: a dot without digits is precision 0,
  // and the size letter has no meaning.
  lemma ParsedInFull(flags: string, width: string, precision: string, size: string, conv: char, t: string)
    requires Directed(flags, width, precision, size, conv)
    ensures Parse("%" + flags + width + precision + size + ([conv] + t)) ==
            (Directive(Flags('0' in flags, false, '+' in flags, ' ' in flags, '-' in flags, '#' in flags, false),
                       if width == "" then -1 else Value(width, 10),
                       if precision == "" then -1 else Value(precision[1..], 10), false, conv), t)
  {
    var t1, t2, t3 := ReadInParts(flags, width, precision, size, [conv] + t);
    PartsEnd(flags, width, precision, size, conv, t, t1, t2, t3);
    FlagsGathered(flags, t1, PLAIN);
    NoFlagsMore(TakeFlags(flags + t1, PLAIN).0, flags);
    WidthGathered(width, t2);
    PrecisionGathered(precision, t3);
    assert ([conv] + t)[1..] == t;
  }

  // A numeric conversion is number in its base, with SIGN for %d and %i, SMALL for
  // %x, and eight digits for a pointer without a width.
  lemma NumericInFull(d: Directive, words: nat -> Arg, strings: Arg -> string, a: nat)
    requires d.conv in "opxXdiub"
    ensures var num := if words(a) < 0x8000_0000 then words(a) else words(a) - 0x1_0000_0000;
            var base := if d.conv in "pxX" then 16 else if d.conv == 'o' then 8 else if d.conv == 'b' then 2 else 10;
            var bare := d.conv == 'p' && d.width == -1;
            Render(d, words, strings, a) ==
            Rendered(num, base, if bare then 8 else d.width, d.precision,
                     Flags(d.flags.zeropad || bare, d.flags.sign || d.conv == 'd' || d.conv == 'i', d.flags.plus,
                           d.flags.space, d.flags.left, d.flags.special, d.flags.small || d.conv == 'x'))
  {
    BaseTable(d.conv);
    NumberInFull(d, words(a));
  }

  // What the other conversions write.
  lemma OthersInFull(d: Directive, words: nat -> Arg, strings: Arg -> string, a: nat)
    requires d.conv !in "opxXdiub"
    ensures var s := Render(d, words, strings, a);
            && (d.conv == 'n' ==> s == "") && (d.conv == '%' || d.conv == '\0' ==> s == "%")
            && (d.conv == 'c' ==> FillsField(s, [(words(a) % 0x100) as char], d.width, -1, d.flags.left))
            && (d.conv == 's' ==> FillsField(s, strings(words(a)), d.width, d.precision, d.flags.left))
            && (d.conv !in "nsc%\0" ==> s == ['%', d.conv])
  {
    PaddedFills([(words(a) % 256) as char], d.width, -1, d.flags.left);
    PaddedFills(strings(words(a)), d.width, d.precision, d.flags.left);
  }

  // A directive writes what its parts say and takes one argument if it has a
  // conversion of arguments, and the rest of the format follows.
  lemma DirectiveInFull(flags: string, width: string, precision: string, size: string, conv: char, t: string,
                        words: nat -> Arg, strings: Arg -> string, a: nat)
    returns (d: Directive)
    requires Directed(flags, width, precision, size, conv)
    ensures d.flags == Flags('0' in flags, false, '+' in flags, ' ' in flags, '-' in flags, '#' in flags, false)
    ensures d.width == if width == "" then -1 else Value(width, 10)
    ensures d.precision == if precision == "" then -1 else Value(precision[1..], 10)
    ensures d.conv == conv
    ensures Output("%" + flags + width + precision + size + ([conv] + t), With(words, strings), a) ==
            Render(d, words, strings, a)
            + Output(t, With(words, strings), a + if conv in "csnopxXdiub" then 1 else 0)
  {
    ParsedInFull(flags, width, precision, size, conv, t);
    var s := "%" + flags + width + precision + size + ([conv] + t);
    d := Parse(s).0;
    assert s[0] == '%';
    DirectiveOutput(s, With(words, strings), a);
  }

  lemma HexDigits()
    ensures Numeral(255, 16, true) == "ff"
  {
    DigitByDigit(255, 16, true);
    DigitByDigit(15, 16, true);
  }

  lemma HexOutput(d: Directive, words: nat -> Arg, strings: Arg -> string)
    requires words(0) == 255 && d == Directive(PLAIN, -1, -1, false, 'x')
    ensures Output(Spell(d), With(words, strings), 0) == "ff"
  {
    OneDirective(d, words, strings, 0);
    FlagTable(d);
    BaseTable('x');
    DigitsAlone(255, 16, NumberFlags(d));
    HexDigits();
  }

  // What the kernel prints an address with.
  lemma HexExample(words: nat -> Arg, strings: Arg -> string)
    requires words(0) == 255
    ensures Output("0x%x", With(words, strings), 0) == "0xff"
  {
    var d, s := Directive(PLAIN, -1, -1, false, 'x'), "0x";
    LiteralText(s, With(words, strings), 0);
    CompleteSplits(s, Spell(d), With(words, strings), 0);
    HexOutput(d, words, strings);
    assert s + Spell(d) == "0x%x";
  }
}
