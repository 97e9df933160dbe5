/** The formatter behind printf and vsnprintf (abstract-machine/klib/src/stdio.c:6-143). */
module FormattedOutput {
  import opened Wrappers
  import opened Words64
  import opened Numbers

  /** One slot of a va_list: the string it may point to, and its bits */
  datatype Arg = Arg(text: Option<string>, word: U64)

  function Slot(args: seq<Arg>): Arg { if args == [] then Arg(None, 0) else args[0] }

  function Rest(args: seq<Arg>): seq<Arg> { if args == [] then [] else args[1..] }

  // ---- what a format string asks for ----

  /** The flags '-' and '0', in any number and order */
  function Flags(fmt: string, left: bool, padding: char): (r: (bool, char, string))
    ensures |r.2| <= |fmt| && (padding in {' ', '0'} ==> r.1 in {' ', '0'})
  {
    if fmt != "" && fmt[0] == '-' then Flags(fmt[1..], true, padding)
    else if fmt != "" && fmt[0] == '0' then Flags(fmt[1..], left, '0')
    else (left, padding, fmt)
  }

  function Width(fmt: string, width: nat): (r: (nat, string))
    ensures |r.1| <= |fmt|
  {
    if fmt != "" && IsDigit(fmt[0]) then Width(fmt[1..], width * 10 + (fmt[0] - '0') as nat) else (width, fmt)
  }

  /** l, ll or z: 1 for long and size_t, 2 for long long */
  function LengthOf(fmt: string): (r: (nat, string))
    ensures r.0 <= 2 && |r.1| <= |fmt|
  {
    if fmt != "" && fmt[0] == 'l' then
      (if |fmt| > 1 && fmt[1] == 'l' then (2, fmt[2..]) else (1, fmt[1..]))
    else if fmt != "" && fmt[0] == 'z' then (1, fmt[1..])
    else (0, fmt)
  }

  /** The bits of an argument: long has 64 bits with lp64, and 32 otherwise. */
  function Unsigned(word: U64, length: nat, lp64: bool): U64 {
    if length == 2 || (length == 1 && lp64) then word else word % 0x1_0000_0000
  }

  function Signed(word: U64, length: nat, lp64: bool): int {
    var w := Unsigned(word, length, lp64);
    if length == 2 || (length == 1 && lp64) then (if w >= 0x8000_0000_0000_0000 then w - B64 else w)
    else (if w >= 0x8000_0000 then w - 0x1_0000_0000 else w)
  }

  function PadText(s: string, width: nat, left: bool): string {
    var pad := Repeat(' ', if width > |s| then width - |s| else 0);
    if left then s + pad else pad + s
  }

  /** The text of one conversion */
  function Converted(spec: char, left: bool, padding: char, width: nat, length: nat, arg: Arg, lp64: bool): string {
    if spec == 's' then PadText(if arg.text == None then "(null)" else arg.text.value, width, left)
    else if spec == 'c' then [(arg.word % 256) as char]
    else if spec == 'd' || spec == 'i' then
      var v := Signed(arg.word, length, lp64);
      Number(if v < 0 then -v else v, 10, false, width, padding, left, if v < 0 then "-" else "")
    else if spec == 'u' then Number(Unsigned(arg.word, length, lp64), 10, false, width, padding, left, "")
    else if spec == 'x' || spec == 'X' then
      Number(Unsigned(arg.word, length, lp64), 16, spec == 'X', width, padding, left, "")
    else if spec == 'p' then
      var chars := if width == 0 then (if lp64 then 18 else 10) else width;
      Number(Unsigned(arg.word, 1, lp64), 16, false, chars, '0', false, "0x")
    else ['%', spec]
  }

  /** %d and %i, with any flags and width and any text behind that does not go on with a letter or a
      digit, are read back exactly when the argument is not negative. */
  lemma SignedConversionReadsBack(spec: char, left: bool, padding: char, width: nat, length: nat, arg: Arg, lp64: bool,
                                  tail: string)
    requires spec == 'd' || spec == 'i'
    requires (padding == ' ' || padding == '0') && (tail != "" ==> !IsAlnum(tail[0]))
    ensures var v := Signed(arg.word, length, lp64);
            ReadBack(Converted(spec, left, padding, width, length, arg, lp64) + tail, 10) == v % B64 <==> v >= 0
  {
    hide ReadBack, Number, IsAlnum;
    SignedReadsBack(Signed(arg.word, length, lp64), width, padding, left, tail);
  }

  /** The base in which an unsigned conversion writes, and 0 for the others */
  function UnsignedBase(spec: char): nat {
    if spec == 'u' then 10 else if spec in {'x', 'X', 'p'} then 16 else 0
  }

  /** The unsigned conversions are always read back. */
  lemma UnsignedConversionReadsBack(spec: char, left: bool, padding: char, width: nat, length: nat, arg: Arg,
                                    lp64: bool, tail: string)
    requires UnsignedBase(spec) != 0
    requires (padding == ' ' || padding == '0') && (tail != "" ==> !IsAlnum(tail[0]))
    ensures ReadBack(Converted(spec, left, padding, width, length, arg, lp64) + tail, UnsignedBase(spec))
         == Unsigned(arg.word, if spec == 'p' then 1 else length, lp64)
  {
    hide ReadBack, Number, IsAlnum;
    if spec == 'p' {
      var pointerWidth := if width == 0 then (if lp64 then 18 else 10) else width;
      NumberReadsBack(Unsigned(arg.word, 1, lp64), 16, false, pointerWidth, '0', false, "0x", tail);
    } else {
      var value := Unsigned(arg.word, length, lp64);
      NumberReadsBack(value, UnsignedBase(spec), spec == 'X', width, padding, left, "", tail);
    }
  }

  predicate TakesArg(spec: char) { spec in {'s', 'c', 'd', 'i', 'u', 'x', 'X', 'p'} }

  /** The whole text of a format string and its arguments */
  function Formatted(fmt: string, args: seq<Arg>, lp64: bool): string
    decreases |fmt|
  {
    if fmt == "" then ""
    else if fmt[0] != '%' then [fmt[0]] + Formatted(fmt[1..], args, lp64)
    else if |fmt| > 1 && fmt[1] == '%' then "%" + Formatted(fmt[2..], args, lp64)
    else
      var (left, padding, f1) := Flags(fmt[1..], false, ' ');
      var (width, f2) := Width(f1, 0);
      var (length, f3) := LengthOf(f2);
      if f3 == "" then ""
      else
        Converted(f3[0], left, padding, width, length, Slot(args), lp64)
        + Formatted(f3[1..], if TakesArg(f3[0]) then Rest(args) else args, lp64)
  }

  // ---- the output ----

  class Output {
    const buffer: array<char>
    const size: nat
    const console: bool
    var count: nat
    /** All that was emitted, whether it fitted or not */
    ghost var text: string

    constructor (buffer: array<char>, size: nat, console: bool)
      requires size <= buffer.Length
      ensures Valid() && text == "" && this.buffer == buffer && this.size == size && this.console == console
    {
      this.buffer := buffer;
      this.size := size;
      this.console := console;
      count := 0;
      text := "";
    }

    /** A bounded buffer holds as much of the text as leaves room for a NUL. */
    ghost predicate Valid()
      reads this, buffer
    {
      && size <= buffer.Length && count == |text|
      && (!console ==> forall i | 0 <= i < count && i + 1 < size :: buffer[i] == text[i])
    }

    /** A bounded buffer after the closing NUL */
    ghost predicate Terminated(s: string)
      requires size > 0 && size <= buffer.Length
      reads buffer
    {
      var end := if |s| < size then |s| else size - 1;
      buffer[..end] == s[..end] && buffer[end] == '\0'
    }

    method Emit(ch: char)
      requires Valid()
      modifies this, buffer
      ensures Valid() && text == old(text) + [ch]
      ensures forall i | size <= i < buffer.Length :: buffer[i] == old(buffer[i])
    {
      if !console && size > 0 && count + 1 < size {
        buffer[count] := ch;
      }
      count := count + 1;
      text := text + [ch];
    }

    method EmitRepeat(ch: char, n: int)
      requires Valid()
      modifies this, buffer
      ensures Valid() && text == old(text) + Repeat(ch, if n > 0 then n else 0)
      ensures forall i | size <= i < buffer.Length :: buffer[i] == old(buffer[i])
    {
      var k := 0;
      while k < n
        invariant 0 <= k && (n > 0 ==> k <= n) && (n <= 0 ==> k == 0)
        invariant Valid() && text == old(text) + Repeat(ch, k)
        invariant forall i | size <= i < buffer.Length :: buffer[i] == old(buffer[i])
      {
        Emit(ch);
        assert Repeat(ch, k + 1) == Repeat(ch, k) + [ch];
        k := k + 1;
      }
    }

    method EmitText(s: string)
      requires Valid()
      modifies this, buffer
      ensures Valid() && text == old(text) + s
      ensures forall i | size <= i < buffer.Length :: buffer[i] == old(buffer[i])
    {
      var k := 0;
      while k < |s|
        invariant 0 <= k <= |s| && Valid() && text == old(text) + s[..k]
        invariant forall i | size <= i < buffer.Length :: buffer[i] == old(buffer[i])
      {
        Emit(s[k]);
        assert s[..k + 1] == s[..k] + [s[k]];
        k := k + 1;
      }
      assert s[..k] == s;
    }

    /** The digits from the last to the first; twenty are enough for 64 bits. */
    method ReverseDigits(value0: U64, base: nat, upper: bool) returns (reversed: array<char>, length: nat)
      requires base == 10 || base == 16
      ensures fresh(reversed) && length <= 20 && reversed.Length == 32
      ensures Backwards(reversed[..length]) == Digits(value0, base, upper)
    {
      hide *;
      LimitStart(value0);
      reversed := new char[32];
      length := 0;
      var value: nat := value0;
      FirstDigit(value, base, upper, reversed[..0]);
      while true
        invariant length < 20 && value <= Limit(length) && (length > 0 ==> value > 0)
        invariant Digits(value, base, upper) + Backwards(reversed[..length]) == Digits(value0, base, upper)
        decreases value
      {
        DigitMoves(value, base, upper, reversed[..length]);
        SmallerLimit(value, base, length);
        ghost var before := reversed[..length];
        var digit := Digit(value % base, upper);
        reversed[length] := digit;
        assert reversed[..length + 1] == before + [digit];
        length := length + 1;
        value := value / base;
        if value == 0 { break; }
      }
    }

    method EmitUnsigned(value: U64, base: nat, upper: bool, width: nat, padding: char, left: bool, prefix: string)
      requires Valid() && (base == 10 || base == 16) && padding in {' ', '0'}
      modifies this, buffer
      ensures Valid() && text == old(text) + Number(value, base, upper, width, padding, left, prefix)
      ensures forall i | size <= i < buffer.Length :: buffer[i] == old(buffer[i])
    {
      hide Digits, Valid;
      var reversed, length := ReverseDigits(value, base, upper);
      BackwardsLength(reversed[..length]);
      var pad := if width > length + |prefix| then width - length - |prefix| else 0;
      ghost var t0 := text;
      ghost var before := if !left && padding == ' ' then Repeat(' ', pad) else "";
      ghost var zeros := if !left && padding == '0' then Zeros(pad) else "";
      ghost var after := if left then Repeat(' ', pad) else "";
      if !left && padding == ' ' {
        EmitRepeat(' ', pad);
      }
      assert text == t0 + before;
      EmitText(prefix);
      if !left && padding == '0' {
        EmitRepeat('0', pad);
      }
      assert text == t0 + before + prefix + zeros;
      EmitBackwards(reversed, length);
      if left {
        EmitRepeat(' ', pad);
      }
      Parts(t0, before, prefix, zeros, Digits(value, base, upper), after);
    }

    /** while (length > 0) emit(out, reversed[--length]) */
    method EmitBackwards(reversed: array<char>, n: nat)
      requires Valid() && n <= reversed.Length && reversed != buffer
      modifies this, buffer
      ensures Valid() && text == old(text) + Backwards(reversed[..n])
      ensures forall i | size <= i < buffer.Length :: buffer[i] == old(buffer[i])
    {
      var length := n;
      ghost var all := reversed[..n];
      assert all[..n] == all;
      while length > 0
        invariant 0 <= length <= n && Valid() && reversed[..n] == all
        invariant text + Backwards(all[..length]) == old(text) + Backwards(all)
        invariant forall i | size <= i < buffer.Length :: buffer[i] == old(buffer[i])
      {
        length := length - 1;
        assert all[..length + 1][..length] == all[..length];
        assert reversed[length] == all[length];
        Emit(reversed[length]);
      }
    }

    /** One conversion */
    method Convert(spec: char, left: bool, padding: char, width: nat, length: nat, arg: Arg, lp64: bool)
      requires Valid() && padding in {' ', '0'}
      modifies this, buffer
      ensures Valid() && text == old(text) + Converted(spec, left, padding, width, length, arg, lp64)
      ensures forall i | size <= i < buffer.Length :: buffer[i] == old(buffer[i])
    {
      hide Number, Valid;
      ghost var t0 := text;
      if spec == 's' {
        var str := if arg.text == None then "(null)" else arg.text.value;
        if !left {
          EmitRepeat(' ', width - |str|);
        }
        EmitText(str);
        if left {
          EmitRepeat(' ', width - |str|);
        }
        PadIs(t0, str, width, left);
      } else if spec == 'c' {
        Emit((arg.word % 256) as char);
      } else if spec == 'd' || spec == 'i' {
        var value := Signed(arg.word, length, lp64);
        var negative := value < 0;
        var magnitude := if negative then -(value + 1) + 1 else value;
        EmitUnsigned(magnitude, 10, false, width, padding, left, if negative then "-" else "");
      } else if spec == 'u' || spec == 'x' || spec == 'X' {
        var base := if spec == 'u' then 10 else 16;
        EmitUnsigned(Unsigned(arg.word, length, lp64), base, spec == 'X', width, padding, left, "");
      } else if spec == 'p' {
        var pointerWidth := if width == 0 then (if lp64 then 8 else 4) * 2 + 2 else width;
        EmitUnsigned(Unsigned(arg.word, 1, lp64), 16, false, pointerWidth, '0', false, "0x");
      } else {
        Emit('%');
        Emit(spec);
        TwoCharacters(t0, '%', spec);
      }
    }

    /** format: the text asked for, a NUL where the buffer ends, and the length of the text */
    method Format(fmt0: string, args0: seq<Arg>, lp64: bool) returns (result: nat)
      requires Valid()
      modifies this, buffer
      ensures size <= buffer.Length && text == old(text) + Formatted(fmt0, args0, lp64) && result == |text|
      ensures !console && size > 0 ==> Terminated(text)
      ensures forall i | size <= i < buffer.Length :: buffer[i] == old(buffer[i])
    {
      hide Formatted, Converted, Flags, Width, LengthOf;
      var fmt, args := fmt0, args0;
      ghost var t0 := text;
      while fmt != ""
        invariant Valid() && text + Formatted(fmt, args, lp64) == t0 + Formatted(fmt0, args0, lp64)
        invariant forall i | size <= i < buffer.Length :: buffer[i] == old(buffer[i])
        decreases |fmt|
      {
        PlainStep(fmt, args, lp64, text);
        if fmt[0] != '%' {
          Emit(fmt[0]);
          fmt := fmt[1..];
          continue;
        }
        if |fmt| > 1 && fmt[1] == '%' {
          Emit('%');
          fmt := fmt[2..];
          continue;
        }
        ConversionStep(fmt, args, lp64, text);
        var left, padding, width, length;
        left, padding, fmt := ParseFlags(fmt[1..]);
        width, fmt := ParseWidth(fmt);
        var parsed := LengthOf(fmt);
        length, fmt := parsed.0, parsed.1;
        if fmt == "" {
          assert text + "" == text;
          break;
        }
        var spec := fmt[0];
        fmt := fmt[1..];
        Convert(spec, left, padding, width, length, Slot(args), lp64);
        if TakesArg(spec) {
          args := Rest(args);
        }
      }
      FormatNothing(args, lp64);
      assert text + "" == text;
      if !console && size > 0 {
        var end := if count < size then count else size - 1;
        buffer[end] := '\0';
      }
      result := count;
    }
  }

  method ParseFlags(fmt0: string) returns (left: bool, padding: char, fmt: string)
    ensures (left, padding, fmt) == Flags(fmt0, false, ' ')
  {
    left, padding, fmt := false, ' ', fmt0;
    while fmt != "" && (fmt[0] == '-' || fmt[0] == '0')
      invariant Flags(fmt, left, padding) == Flags(fmt0, false, ' ')
      decreases |fmt|
    {
      if fmt[0] == '-' { left := true; } else { padding := '0'; }
      fmt := fmt[1..];
    }
  }

  method ParseWidth(fmt0: string) returns (width: nat, fmt: string)
    ensures (width, fmt) == Width(fmt0, 0)
  {
    width, fmt := 0, fmt0;
    while fmt != "" && IsDigit(fmt[0])
      invariant Width(fmt, width) == Width(fmt0, 0)
      decreases |fmt|
    {
      width := width * 10 + (fmt[0] - '0') as nat;
      fmt := fmt[1..];
    }
  }

  lemma PadIs(t: string, s: string, width: nat, left: bool)
    ensures var pad := Repeat(' ', if width - |s| > 0 then width - |s| else 0);
            t + PadText(s, width, left) == if left then t + s + pad else t + pad + s
  {}

  lemma FormatNothing(args: seq<Arg>, lp64: bool)
    ensures Formatted("", args, lp64) == ""
  {}

  lemma TwoCharacters(t: string, a: char, b: char)
    ensures t + [a] + [b] == t + [a, b]
  {}

  /** What one round of format adds, and what is left to do */
  lemma PlainStep(fmt: string, args: seq<Arg>, lp64: bool, t: string)
    requires fmt != ""
    ensures fmt[0] != '%' ==> t + Formatted(fmt, args, lp64) == t + [fmt[0]] + Formatted(fmt[1..], args, lp64)
    ensures fmt[0] == '%' && |fmt| > 1 && fmt[1] == '%' ==>
              t + Formatted(fmt, args, lp64) == t + ['%'] + Formatted(fmt[2..], args, lp64)
  {
    hide Converted, Flags, Width, LengthOf;
    if fmt[0] != '%' {
      Regroup(t, [fmt[0]], Formatted(fmt[1..], args, lp64));
    } else if |fmt| > 1 {
      Regroup(t, ['%'], Formatted(fmt[2..], args, lp64));
    }
  }

  lemma ConversionStep(fmt: string, args: seq<Arg>, lp64: bool, t: string)
    requires fmt != "" && fmt[0] == '%' && !(|fmt| > 1 && fmt[1] == '%')
    ensures var (left, padding, f1) := Flags(fmt[1..], false, ' ');
            var (width, f2) := Width(f1, 0);
            var (length, f3) := LengthOf(f2);
            && padding in {' ', '0'}
            && (f3 == "" ==> Formatted(fmt, args, lp64) == "")
            && (f3 != "" ==>
                  t + Formatted(fmt, args, lp64)
                    == t + Converted(f3[0], left, padding, width, length, Slot(args), lp64)
                         + Formatted(f3[1..], if TakesArg(f3[0]) then Rest(args) else args, lp64))
  {
    hide Converted, Flags, Width, LengthOf;
    var (left, padding, f1) := Flags(fmt[1..], false, ' ');
    var (width, f2) := Width(f1, 0);
    var (length, f3) := LengthOf(f2);
    if f3 != "" {
      Regroup(t, Converted(f3[0], left, padding, width, length, Slot(args), lp64),
              Formatted(f3[1..], if TakesArg(f3[0]) then Rest(args) else args, lp64));
    }
  }

  lemma Parts(t: string, a: string, b: string, c: string, d: string, e: string)
    ensures t + a + b + c + d + e == t + (a + b + c + d + e)
  {}

  function Backwards(s: string): string { if s == "" then "" else [s[|s| - 1]] + Backwards(s[..|s| - 1]) }

  lemma {:induction false} BackwardsLength(s: string)
    ensures |Backwards(s)| == |s|
  {
    if s != "" { BackwardsLength(s[..|s| - 1]); }
  }

  /** 2^64 divided by ten so many times */
  function Limit(n: nat): nat { if n == 0 then B64 else Limit(n - 1) / 10 }

  lemma LimitStart(value: U64)
    ensures value <= Limit(0)
  {}

  lemma SmallerLimit(value: nat, base: nat, length: nat)
    requires value <= Limit(length) && base >= 10 && length < 20
    ensures value / base <= Limit(length + 1) && (value / base > 0 ==> length + 1 < 20)
    ensures value > 0 ==> value / base < value
  {
    assert Limit(4) == 1844674407370955;
    assert Limit(8) == 184467440737;
    assert Limit(12) == 18446744;
    assert Limit(16) == 1844;
    assert Limit(20) == 0;
    LargerDivisor(value, Limit(length), base);
  }

  lemma LargerDivisor(a: nat, b: nat, base: nat)
    requires a <= b && base >= 10
    ensures a / base <= b / 10 && (a > 0 ==> a / base < a)
  {
    var q := a / base;
    assert a >= base * q >= 10 * q;
  }

  lemma FirstDigit(value: nat, base: nat, upper: bool, s: string)
    requires s == "" && (base == 10 || base == 16)
    ensures Digits(value, base, upper) + Backwards(s) == Digits(value, base, upper)
  {}

  /** The last digit goes behind the ones already found. */
  lemma DigitMoves(value: nat, base: nat, upper: bool, s: string)
    requires base == 10 || base == 16
    ensures var d := Digit(value % base, upper);
            Digits(value, base, upper) + Backwards(s)
              == (if value / base == 0 then "" else Digits(value / base, base, upper)) + Backwards(s + [d])
  {
    hide Digits;
    var d := Digit(value % base, upper);
    DigitsStep(value, base, upper);
    assert (s + [d])[..|s|] == s;
    Regroup(if value / base == 0 then "" else Digits(value / base, base, upper), [d], Backwards(s));
  }

  lemma Regroup(a: string, b: string, c: string)
    ensures (a + b) + c == a + (b + c)
  {}

  lemma DigitsStep(value: nat, base: nat, upper: bool)
    requires base == 10 || base == 16
    ensures Digits(value, base, upper)
         == (if value / base == 0 then "" else Digits(value / base, base, upper)) + [Digit(value % base, upper)]
  {
    if value < base {
      assert value / base == 0 && value % base == value;
    } else {
      QuotientPositive(value, base);
    }
  }

  lemma QuotientPositive(a: nat, b: nat)
    requires 0 < b <= a
    ensures a / b > 0
  {}

  /** vsnprintf: the first n - 1 characters of the text and a NUL; the result is the length of the
      whole text, whatever n is. */
  method Vsnprintf(buffer: array<char>, n: nat, fmt: string, args: seq<Arg>, lp64: bool) returns (result: nat)
    requires n <= buffer.Length
    modifies buffer
    ensures result == |Formatted(fmt, args, lp64)|
    ensures n > 0 ==>
              var text := Formatted(fmt, args, lp64);
              var end := if |text| < n then |text| else n - 1;
              buffer[..end] == text[..end] && buffer[end] == '\0'
    ensures buffer[n..] == old(buffer[n..])
  {
    var output := new Output(buffer, n, false);
    result := output.Format(fmt, args, lp64);
    assert "" + Formatted(fmt, args, lp64) == Formatted(fmt, args, lp64);
  }
}
