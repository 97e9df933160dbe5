/** What the texts of numbers and of format strings look like, and what is read of a text, said without
    the functions the loops are proved against (abstract-machine/klib/src/stdio.c:27-125,
    stdlib.c:20-45). */
module TextLaws {
  import opened Wrappers
  import opened Words64
  import opened Numbers
  import opened FormattedOutput

  // ---- digits and padding ----

  /** Decimal digits, and for base 16 letters of the case asked for; no leading zeros */
  lemma {:induction false} DigitsLook(value: nat, base: nat, upper: bool)
    requires base in {8, 10, 16}
    ensures Digits(value, base, upper) != ""
    ensures forall c | c in Digits(value, base, upper) :: Looks(c, base, upper)
    ensures value > 0 ==> Digits(value, base, upper)[0] != '0'
    ensures value == 0 ==> Digits(value, base, upper) == "0"
  {
    var q, r := value / base, value % base;
    DigitLook(r, base, upper);
    DigitLook(if value < base then value else 0, base, upper);
    if value < base {
      assert Digits(value, base, upper) == [Digit(value, upper)];
    } else {
      QuotientPositive(value, base);
      DigitsLook(q, base, upper);
      assert Digits(value, base, upper) == Digits(q, base, upper) + [Digit(r, upper)];
      hide *;
      MoreDigits(Digits(q, base, upper), Digit(r, upper), base, upper);
    }
  }

  predicate Looks(c: char, base: nat, upper: bool) {
    '0' <= c <= '9' || (base == 16 && if upper then 'A' <= c <= 'F' else 'a' <= c <= 'f')
  }

  lemma MoreDigits(s: string, c: char, base: nat, upper: bool)
    requires s != "" && Looks(c, base, upper) && forall x | x in s :: Looks(x, base, upper)
    ensures (s + [c])[0] == s[0] && forall x | x in s + [c] :: Looks(x, base, upper)
  {}

  lemma DigitLook(d: nat, base: nat, upper: bool)
    requires base in {8, 10, 16} && d < base
    ensures Looks(Digit(d, upper), base, upper)
    ensures Digit(d, upper) == '0' <==> d == 0
  {}

  predicate All(s: string, c: char) { forall x | x in s :: x == c }

  /** The text of a number is as wide as asked for, and wider only if its digits are. */
  lemma NumberWidth(value: nat, base: nat, upper: bool, width: nat, padding: char, left: bool, prefix: string)
    requires 2 <= base <= 16 && padding in {' ', '0'}
    ensures var bare: int := |prefix| + |Digits(value, base, upper)|;
            |Number(value, base, upper, width, padding, left, prefix)| == if width > bare then width else bare
  {}

  /** Where the padding is: behind the number, or before it, where zeros stand behind the prefix. */
  lemma NumberLook(value: nat, base: nat, upper: bool, width: nat, padding: char, left: bool, prefix: string)
    returns (before: string, zeros: string, after: string)
    requires 2 <= base <= 16 && padding in {' ', '0'}
    ensures Number(value, base, upper, width, padding, left, prefix)
         == before + prefix + zeros + Digits(value, base, upper) + after
    ensures All(before, ' ') && All(zeros, '0') && All(after, ' ')
    ensures (left || padding == '0' ==> before == "") && (left || padding == ' ' ==> zeros == "")
    ensures !left ==> after == ""
  {
    var pad := Padding(width, Digits(value, base, upper), prefix);
    before := if !left && padding == ' ' then Repeat(' ', pad) else "";
    zeros := if !left && padding == '0' then Zeros(pad) else "";
    after := if left then Repeat(' ', pad) else "";
  }

  /** A text with a width, too, is padded with spaces on the side asked for. */
  lemma PadTextLook(s: string, width: nat, left: bool)
    ensures |PadText(s, width, left)| == if width > |s| then width else |s|
    ensures if left then PadText(s, width, left)[..|s|] == s && All(PadText(s, width, left)[|s|..], ' ')
            else
              var k := |PadText(s, width, left)| - |s|;
              PadText(s, width, left)[k..] == s && All(PadText(s, width, left)[..k], ' ')
  {}

  // ---- arguments ----

  /** The bits of a conversion's type: long long has 64, long and size_t have 64 or 32, int has 32. */
  function BitsOf(length: nat, lp64: bool): nat {
    match length
    case 0 => 32
    case 1 => if lp64 then 64 else 32
    case _ => 64
  }

  /** Both readings are the word modulo the type, one from zero on and one around zero. */
  lemma ArgMeaning(word: U64, length: nat, lp64: bool)
    requires length <= 2
    ensures var range := if BitsOf(length, lp64) == 64 then 0x1_0000_0000_0000_0000 else 0x1_0000_0000;
            && 0 <= Unsigned(word, length, lp64) < range && -range <= 2 * Signed(word, length, lp64) < range
            && Unsigned(word, length, lp64) % range == word % range
            && (Signed(word, length, lp64) - Unsigned(word, length, lp64)) in {0, -range}
  {}

  // ---- conversions ----

  /** Without flags and width: the bare text of each conversion */
  lemma BareConversions(length: nat, arg: Arg, lp64: bool)
    ensures var unsigned, signed := Unsigned(arg.word, length, lp64), Signed(arg.word, length, lp64);
            && Converted('u', false, ' ', 0, length, arg, lp64) == Digits(unsigned, 10, false)
            && Converted('x', false, ' ', 0, length, arg, lp64) == Digits(unsigned, 16, false)
            && Converted('X', false, ' ', 0, length, arg, lp64) == Digits(unsigned, 16, true)
            && (signed >= 0 ==> Converted('d', false, ' ', 0, length, arg, lp64) == Digits(signed, 10, false))
            && (signed < 0 ==> Converted('d', false, ' ', 0, length, arg, lp64) == "-" + Digits(-signed, 10, false))
            && Converted('i', false, ' ', 0, length, arg, lp64) == Converted('d', false, ' ', 0, length, arg, lp64)
            && (arg.text.Some? ==> Converted('s', false, ' ', 0, length, arg, lp64) == arg.text.value)
            && (arg.text.None? ==> Converted('s', false, ' ', 0, length, arg, lp64) == "(null)")
  {
    BareUnsigned(length, arg, lp64);
    BareSigned(length, arg, lp64);
    BareText(length, arg, lp64);
    hide *;
  }

  lemma BareUnsigned(length: nat, arg: Arg, lp64: bool)
    ensures var unsigned := Unsigned(arg.word, length, lp64);
            && Converted('u', false, ' ', 0, length, arg, lp64) == Digits(unsigned, 10, false)
            && Converted('x', false, ' ', 0, length, arg, lp64) == Digits(unsigned, 16, false)
            && Converted('X', false, ' ', 0, length, arg, lp64) == Digits(unsigned, 16, true)
  {
    Bare(Unsigned(arg.word, length, lp64), 0);
    hide Number, Digits, PadText, Unsigned, Signed;
  }

  lemma BareSigned(length: nat, arg: Arg, lp64: bool)
    ensures var signed := Signed(arg.word, length, lp64);
            && (signed >= 0 ==> Converted('d', false, ' ', 0, length, arg, lp64) == Digits(signed, 10, false))
            && (signed < 0 ==> Converted('d', false, ' ', 0, length, arg, lp64) == "-" + Digits(-signed, 10, false))
            && Converted('i', false, ' ', 0, length, arg, lp64) == Converted('d', false, ' ', 0, length, arg, lp64)
  {
    Bare(0, Signed(arg.word, length, lp64));
    hide Number, Digits, PadText, Unsigned, Signed;
  }

  lemma BareText(length: nat, arg: Arg, lp64: bool)
    ensures arg.text.Some? ==> Converted('s', false, ' ', 0, length, arg, lp64) == arg.text.value
    ensures arg.text.None? ==> Converted('s', false, ' ', 0, length, arg, lp64) == "(null)"
  {
    assert arg.text.Some? ==> PadText(arg.text.value, 0, false) == arg.text.value;
    assert PadText("(null)", 0, false) == "(null)";
  }

  lemma Bare(unsigned: U64, signed: int)
    ensures Number(unsigned, 10, false, 0, ' ', false, "") == Digits(unsigned, 10, false)
    ensures Number(unsigned, 16, false, 0, ' ', false, "") == Digits(unsigned, 16, false)
    ensures Number(unsigned, 16, true, 0, ' ', false, "") == Digits(unsigned, 16, true)
    ensures signed >= 0 ==> Number(signed, 10, false, 0, ' ', false, "") == Digits(signed, 10, false)
    ensures signed < 0 ==> Number(-signed, 10, false, 0, ' ', false, "-") == "-" + Digits(-signed, 10, false)
  {
    hide Digits;
    assert Repeat(' ', 0) == "";
  }

  /** A pointer has 0x and all its digits; a character is the lowest byte; other letters stay visible. */
  lemma OtherConversions(spec: char, left: bool, padding: char, width: nat, length: nat, arg: Arg, lp64: bool)
    requires spec !in {'s', 'd', 'i', 'u', 'x', 'X'}
    ensures spec == 'p' && width == 0 ==>
              var digits := Digits(if lp64 then arg.word else arg.word % 0x1_0000_0000, 16, false);
              |digits| <= (if lp64 then 16 else 8) ==>
                Converted('p', left, padding, width, length, arg, lp64)
                == "0x" + Repeat('0', (if lp64 then 16 else 8) - |digits|) + digits
    ensures spec == 'c' ==> Converted(spec, left, padding, width, length, arg, lp64) == [(arg.word % 256) as char]
    ensures spec !in {'p', 'c'} ==> Converted(spec, left, padding, width, length, arg, lp64) == ['%', spec]
  {}

  // ---- format strings ----

  /** Text without a percent sign stands for itself. */
  lemma {:induction false} PlainText(fmt: string, rest: string, args: seq<Arg>, lp64: bool)
    requires '%' !in fmt
    ensures Formatted(fmt + rest, args, lp64) == fmt + Formatted(rest, args, lp64)
  {
    if fmt == "" {
      assert fmt + rest == rest;
    } else {
      assert (fmt + rest)[0] == fmt[0] && (fmt + rest)[1..] == fmt[1..] + rest;
      PlainText(fmt[1..], rest, args, lp64);
      assert fmt == [fmt[0]] + fmt[1..];
    }
  }

  lemma PercentSign(rest: string, args: seq<Arg>, lp64: bool)
    ensures Formatted("%%" + rest, args, lp64) == "%" + Formatted(rest, args, lp64)
  {
    assert ("%%" + rest)[2..] == rest;
  }

  /** '-' and '0' as flags */
  lemma {:induction false} FlagsMeaning(flags: string, rest: string, left: bool, padding: char)
    requires forall c | c in flags :: c == '-' || c == '0'
    requires rest == "" || (rest[0] != '-' && rest[0] != '0')
    ensures Flags(flags + rest, left, padding)
         == (left || '-' in flags, if '0' in flags then '0' else padding, rest)
  {
    if flags == "" {
      assert flags + rest == rest;
    } else {
      assert (flags + rest)[0] == flags[0] && (flags + rest)[1..] == flags[1..] + rest;
      assert forall c :: c in flags <==> c == flags[0] || c in flags[1..];
      assert '-' in flags <==> flags[0] == '-' || '-' in flags[1..];
      assert '0' in flags <==> flags[0] == '0' || '0' in flags[1..];
      var left', padding' := left || flags[0] == '-', if flags[0] == '0' then '0' else padding;
      FlagsMeaning(flags[1..], rest, left', padding');
      assert flags[0] in flags;
      assert Flags(flags + rest, left, padding) == Flags(flags[1..] + rest, left', padding');
    }
  }

  /** The width is a decimal number. */
  lemma WidthMeaning(width: nat, rest: string)
    requires width > 0 && (rest == "" || !('0' <= rest[0] <= '9'))
    ensures Width(Digits(width, 10, false) + rest, 0) == (width, rest)
  {
    WidthDigits(width, rest, 0);
  }

  function Pow10(n: nat): nat { if n == 0 then 1 else 10 * Pow10(n - 1) }

  lemma {:induction false} WidthDigits(value: nat, rest: string, w: nat)
    requires rest == "" || !('0' <= rest[0] <= '9')
    ensures Width(Digits(value, 10, false) + rest, w) == (w * Pow10(|Digits(value, 10, false)|) + value, rest)
    decreases value
  {
    DigitsRead(value, 10, false);
    WidthRun(Digits(value, 10, false), rest, w);
  }

  lemma {:induction false} WidthRun(digits: string, rest: string, w: nat)
    requires AllAccepted(digits, 10) && (rest == "" || !('0' <= rest[0] <= '9'))
    ensures Width(digits + rest, w) == (w * Pow10(|digits|) + ValueOf(digits, 10), rest)
  {
    if digits == "" {
      assert digits + rest == rest;
    } else {
      var d := (digits[0] - '0') as nat;
      assert Accepted(digits[0], 10);
      assert (digits + rest)[0] == digits[0] && (digits + rest)[1..] == digits[1..] + rest;
      assert AllAccepted(digits[1..], 10) by {
        forall i | 0 <= i < |digits[1..]| ensures Accepted(digits[1..][i], 10) { assert Accepted(digits[i + 1], 10); }
      }
      WidthRun(digits[1..], rest, w * 10 + d);
      FirstDigitCounts(digits);
      Distributes(w, d, Pow10(|digits| - 1));
    }
  }

  lemma Distributes(w: nat, d: nat, p: nat)
    ensures (w * 10 + d) * p == w * (10 * p) + d * p
  {}

  lemma {:induction false} FirstDigitCounts(digits: string)
    requires digits != "" && AllAccepted(digits, 10)
    ensures ValueOf(digits, 10) == ValueOfDigit(digits[0]) * Pow10(|digits| - 1) + ValueOf(digits[1..], 10)
  {
    assert Accepted(digits[0], 10);
    if |digits| == 1 {
      assert digits[..0] == "" && digits[1..] == "";
    } else {
      var front := digits[..|digits| - 1];
      assert AllAccepted(front, 10);
      FirstDigitCounts(front);
      assert front[1..] == digits[1..][..|digits| - 2];
      Distributes(0, ValueOfDigit(digits[0]), Pow10(|digits| - 2));
      TimesTen(ValueOfDigit(digits[0]), Pow10(|digits| - 2));
    }
  }

  lemma TimesTen(d: nat, p: nat)
    ensures (d * p) * 10 == d * (10 * p)
  {}

  /** A length in front of a letter that is neither l nor z */
  lemma LengthMeaning(spec: char, rest: string)
    requires spec != 'l' && spec != 'z'
    ensures LengthOf([spec] + rest) == (0, [spec] + rest)
    ensures LengthOf("l" + ([spec] + rest)) == (1, [spec] + rest) == LengthOf("z" + ([spec] + rest))
    ensures LengthOf("ll" + ([spec] + rest)) == (2, [spec] + rest)
  {
    assert ("ll" + ([spec] + rest))[2..] == [spec] + rest;
    assert ("l" + ([spec] + rest))[1..] == [spec] + rest && ("z" + ([spec] + rest))[1..] == [spec] + rest;
  }

  predicate IsLength(length: string, code: nat) {
    (length == "" && code == 0) || (length in {"l", "z"} && code == 1) || (length == "ll" && code == 2)
  }

  /** The letters of the conversions that take an argument */
  predicate Consumes(spec: char) { spec in {'s', 'c', 'd', 'i', 'u', 'x', 'X', 'p'} }

  /** A whole conversion: percent sign, flags, width, length and letter; every letter that takes an
      argument takes the next one. */
  lemma ConversionMeaning(flags: string, width: nat, length: string, code: nat, spec: char, rest: string,
                          args: seq<Arg>, lp64: bool)
    requires (forall c | c in flags :: c == '-' || c == '0') && IsLength(length, code)
    requires spec !in {'l', 'z', '-', '%'} && !('0' <= spec <= '9')
    ensures var digits := if width == 0 then "" else Digits(width, 10, false);
            Formatted("%" + (flags + (digits + (length + ([spec] + rest)))), args, lp64)
            == Converted(spec, '-' in flags, if '0' in flags then '0' else ' ', width, code,
                         if args == [] then Arg(None, 0) else args[0], lp64)
             + Formatted(rest, if Consumes(spec) && args != [] then args[1..] else args, lp64)
  {
    var digits := if width == 0 then "" else Digits(width, 10, false);
    var last := [spec] + rest;
    var tail := length + last;
    var body := flags + (digits + tail);
    StartOf(flags, width, length, code, spec, rest);
    LengthMeaning(spec, rest);
    if width > 0 { WidthMeaning(width, tail); } else { NoWidth(tail); }
    FlagsMeaning(flags, digits + tail, false, ' ');
    ConversionStep("%" + body, args, lp64, "");
    assert ("%" + body)[1..] == body && last[1..] == rest && "" + last == last;
    assert Consumes(spec) == TakesArg(spec);
    hide *;
    FromNothing(Formatted("%" + body, args, lp64));
  }

  lemma FromNothing(s: string)
    ensures "" + s == s
  {}

  lemma NoWidth(tail: string)
    requires tail != "" && !IsDigit(tail[0])
    ensures Width("" + tail, 0) == (0, tail)
  {
    assert "" + tail == tail;
  }

  /** The parts of a conversion start with characters that end the part before. */
  lemma StartOf(flags: string, width: nat, length: string, code: nat, spec: char, rest: string)
    requires (forall c | c in flags :: c == '-' || c == '0') && IsLength(length, code)
    requires spec !in {'l', 'z', '-', '%'} && !('0' <= spec <= '9')
    ensures var digits := if width == 0 then "" else Digits(width, 10, false);
            var tail := length + ([spec] + rest);
            && tail != "" && !('0' <= tail[0] <= '9') && tail[0] != '-' && tail[0] != '%'
            && digits + tail != "" && (digits + tail)[0] != '-' && (digits + tail)[0] != '0'
            && flags + (digits + tail) != "" && (flags + (digits + tail))[0] != '%'
  {
    var digits := if width == 0 then "" else Digits(width, 10, false);
    var tail := length + ([spec] + rest);
    assert tail[0] == if length == "" then spec else length[0];
    if width > 0 {
      DigitsLook(width, 10, false);
      assert digits[0] in digits && (digits + tail)[0] == digits[0];
    } else {
      assert digits + tail == tail;
    }
    if flags != "" { assert flags[0] in flags; }
  }

  // ---- reading ----

  /** The white space of isspace, in the order of its cases */
  predicate White(c: char) { c == ' ' || c == '\U{c}' || c == '\n' || c == '\r' || c == '\t' || c == '\U{b}' }

  lemma {:induction false} WhiteSkipped(w: string, rest: string, i: nat)
    requires i <= |w| && (forall c | c in w :: White(c)) && (rest == "" || !White(rest[0]))
    ensures SpacesEnd(w + rest, i) == |w|
    decreases |w| - i
  {
    if i < |w| {
      assert (w + rest)[i] == w[i] && w[i] in w;
      WhiteSkipped(w, rest, i + 1);
    } else if rest != "" {
      assert (w + rest)[i] == rest[0];
    }
  }

  /** What base 0 makes of a text: behind any white space, 0x or 0X starts a hexadecimal number, another
      zero an octal one, and any other digit a decimal one. */
  lemma GuessedBase(w: string, prefix: string, value: U64, upper: bool, tail: string)
    requires (forall c | c in w :: White(c)) && prefix in {"", "0", "0x", "0X"} && (prefix == "" ==> value > 0)
    requires tail != "" ==> !('0' <= tail[0] <= '9' || 'a' <= tail[0] <= 'z' || 'A' <= tail[0] <= 'Z')
    ensures var base := if prefix == "" then 10 else if prefix == "0" then 8 else 16;
            var digits := Digits(value, base, upper);
            Parsed(w + (prefix + (digits + tail)), 0) == (value, |w| + |prefix| + |digits|)
  {
    var base := if prefix == "" then 10 else if prefix == "0" then 8 else 16;
    hide *;
    DigitsRead(value, base, upper);
    DigitsLook(value, base, upper);
    NoLetter(tail);
    Small(value);
    ReadsDigits(w, prefix, Digits(value, base, upper), tail, base);
  }

  lemma NoLetter(tail: string)
    requires tail != "" ==> !('0' <= tail[0] <= '9' || 'a' <= tail[0] <= 'z' || 'A' <= tail[0] <= 'Z')
    ensures tail != "" ==> !IsAlnum(tail[0])
  {}

  lemma Small(value: U64)
    ensures value % B64 == value
  {}

  lemma ReadsDigits(w: string, prefix: string, digits: string, tail: string, base: nat)
    requires (forall c | c in w :: White(c)) && prefix in {"", "0", "0x", "0X"}
    requires base == if prefix == "" then 10 else if prefix == "0" then 8 else 16
    requires digits != "" && 'x' !in digits && 'X' !in digits && (prefix == "" ==> digits[0] != '0')
    requires AllAccepted(digits, base) && (tail != "" ==> !IsAlnum(tail[0]))
    ensures Parsed(w + (prefix + (digits + tail)), 0) == (ValueOf(digits, base) % B64, |w| + |prefix| + |digits|)
  {
    hide *;
    var rest := prefix + (digits + tail);
    StartOfNumber(prefix, digits, tail, base);
    WhiteSkipped(w, rest, 0);
    PrefixShift(w, rest, 0);
    PrefixShift(w, rest, base);
    ThreeParts(w, prefix, digits, tail);
    if prefix == "0" {
      ZeroInFront(digits);
      DigitsWithin(w, prefix + digits, tail, 8);
      ParsedIs(w + rest, 0, |w|, 8, |w|, |w| + |prefix + digits|, prefix + digits);
    } else {
      DigitsWithin(w + prefix, digits, tail, base);
      ParsedIs(w + rest, 0, |w|, base, |w + prefix|, |w + prefix| + |digits|, digits);
    }
  }

  lemma ParsedIs(s: string, base0: nat, i: nat, base: nat, j: nat, e: nat, digits: string)
    requires SpacesEnd(s, 0) == i && ActualBase(s, i, base0) == base && AfterPrefix(s, i, base) == j
    requires j <= |s| && DigitsEnd(s, j, base) == e && s[j..e] == digits
    ensures Parsed(s, base0) == (ValueOf(digits, base) % B64, e)
  {}

  lemma ThreeParts(w: string, prefix: string, digits: string, tail: string)
    ensures w + (prefix + (digits + tail)) == (w + prefix) + digits + tail == w + (prefix + digits) + tail
    ensures |prefix + digits| == |prefix| + |digits| && |w + prefix| == |w| + |prefix|
  {}

  /** The first characters of a number decide its base. */
  lemma StartOfNumber(prefix: string, digits: string, tail: string, base: nat)
    requires digits != "" && 'x' !in digits && 'X' !in digits && (prefix == "" ==> digits[0] != '0')
    requires AllAccepted(digits, base) && base == if prefix == "" then 10 else if prefix == "0" then 8 else 16
    requires prefix in {"", "0", "0x", "0X"}
    ensures var rest := prefix + (digits + tail);
            && rest != "" && !White(rest[0]) && ActualBase(rest, 0, 0) == base
            && AfterPrefix(rest, 0, base) == if prefix == "0" then 0 else |prefix|
  {
    var rest := prefix + (digits + tail);
    assert rest[0] == if prefix == "" then digits[0] else prefix[0];
    assert digits[0] in digits && Accepted(digits[0], base);
    if prefix == "0" { assert rest[1] == digits[0]; }
  }

  /** The leading zero of an octal number is read as a digit. */
  lemma ZeroInFront(digits: string)
    requires AllAccepted(digits, 8)
    ensures AllAccepted("0" + digits, 8) && ValueOf("0" + digits, 8) == ValueOf(digits, 8)
  {
    LeadingZeros(1, digits, 8);
    assert Zeros(1) == "0";
    hide *;
  }

  /** A base of its own takes letters and digits as they come: base 8 up to 7, base 10 digits only, base 16
      up to f, and any other base every letter and digit. */
  lemma AcceptedMeaning(c: char, base: nat)
    ensures var digit, letter := '0' <= c <= '9', 'a' <= c <= 'z' || 'A' <= c <= 'Z';
            Accepted(c, base) <==>
              match base
              case 8 => '0' <= c <= '7'
              case 10 => digit
              case 16 => digit || 'a' <= c <= 'f' || 'A' <= c <= 'F'
              case _ => digit || letter
  {}

  lemma LetterValues(k: nat)
    requires k < 26
    ensures ValueOfDigit('a' + k as char) == 10 + k == ValueOfDigit('A' + k as char)
  {}
}
