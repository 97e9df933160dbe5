/** Numbers as text: the digits emit_unsigned writes and strtoXXX reads
    (abstract-machine/klib/src/stdio.c:27-46, stdlib.c:20-45, ctypes.c). */
module Numbers {
  import opened Words64

  // ---- character classes ----

  predicate IsSpace(c: char) { c in {' ', '\U{c}', '\n', '\r', '\t', '\U{b}'} }

  predicate IsDigit(c: char) { '0' <= c <= '9' }

  predicate IsXDigit(c: char) { IsDigit(c) || 'A' <= c <= 'F' || 'a' <= c <= 'f' }

  predicate IsAlpha(c: char) { 'a' <= c <= 'z' || 'A' <= c <= 'Z' }

  predicate IsAlnum(c: char) { IsAlpha(c) || IsDigit(c) }

  function ToLower(c: char): char { if 'A' <= c <= 'Z' then c + ('a' - 'A') else c }

  /** A C string ends with a NUL, which is read but never passed. */
  function CharAt(s: string, i: nat): char { if i < |s| then s[i] else '\0' }

  // ---- digits ----

  function Digit(d: nat, upper: bool): char
    requires d < 16
  {
    (if upper then "0123456789ABCDEF" else "0123456789abcdef")[d]
  }

  /** The digits of a number, the most significant first */
  function Digits(value: nat, base: nat, upper: bool): (r: string)
    requires 2 <= base <= 16
  {
    if value < base then [Digit(value, upper)] else Digits(value / base, base, upper) + [Digit(value % base, upper)]
  }

  /** What strtoXXX takes a letter or a digit for */
  function ValueOfDigit(c: char): nat {
    if IsAlpha(c) then (ToLower(c) - 'a') as nat + 10 else if IsDigit(c) then (c - '0') as nat else 0
  }

  predicate Accepted(c: char, base: nat) {
    && IsAlnum(c)
    && (base == 8 ==> '0' <= c <= '7')
    && (base == 10 ==> IsDigit(c))
    && (base == 16 ==> IsXDigit(c))
  }

  predicate AllAccepted(s: string, base: nat) { forall i | 0 <= i < |s| :: Accepted(s[i], base) }

  /** The number a text of digits stands for */
  function ValueOf(s: string, base: nat): nat {
    if s == "" then 0 else ValueOf(s[..|s| - 1], base) * base + ValueOfDigit(s[|s| - 1])
  }

  lemma DigitReads(d: nat, upper: bool, base: nat)
    requires d < base && base in {8, 10, 16}
    ensures Accepted(Digit(d, upper), base) && ValueOfDigit(Digit(d, upper)) == d
    ensures Digit(d, upper) != 'x' && Digit(d, upper) != 'X'
  {}

  lemma ValueOfMore(front: string, d: char, base: nat)
    requires AllAccepted(front, base) && Accepted(d, base)
    ensures AllAccepted(front + [d], base)
    ensures ValueOf(front + [d], base) == ValueOf(front, base) * base + ValueOfDigit(d)
  {
    var s := front + [d];
    assert s[..|s| - 1] == front;
  }

  lemma NoDigit(s: string, base: nat)
    requires s == ""
    ensures AllAccepted(s, base) && ValueOf(s, base) == 0
  {}

  /** Reading the digits of a number gives the number. */
  lemma {:induction false} DigitsRead(value: nat, base: nat, upper: bool)
    requires base in {8, 10, 16}
    ensures AllAccepted(Digits(value, base, upper), base) && ValueOf(Digits(value, base, upper), base) == value
    ensures 'x' !in Digits(value, base, upper) && 'X' !in Digits(value, base, upper)
  {
    hide ValueOf, AllAccepted, Accepted, ValueOfDigit, Digit;
    if value < base {
      NoDigit("", base);
      DigitReads(value, upper, base);
      ValueOfMore("", Digit(value, upper), base);
      assert "" + [Digit(value, upper)] == [Digit(value, upper)];
    } else {
      var q, r := value / base, value % base;
      DigitsRead(q, base, upper);
      DigitReads(r, upper, base);
      ValueOfMore(Digits(q, base, upper), Digit(r, upper), base);
      var product := q * base;
      assert product + r == value;
    }
  }

  /** Leading zeros do not count. */
  lemma {:induction false} LeadingZeros(n: nat, s: string, base: nat)
    requires AllAccepted(s, base) && base >= 8
    ensures AllAccepted(Zeros(n) + s, base) && ValueOf(Zeros(n) + s, base) == ValueOf(s, base)
    decreases |s|, n
  {
    if s == "" {
      if n > 0 {
        LeadingZeros(n - 1, s, base);
        assert (Zeros(n) + s)[..n - 1] == Zeros(n - 1) + s;
      } else {
        assert Zeros(0) + s == "";
      }
    } else {
      var front := s[..|s| - 1];
      LeadingZeros(n, front, base);
      assert (Zeros(n) + s)[..n + |s| - 1] == Zeros(n) + front;
    }
  }

  function Repeat(c: char, n: nat): string { seq(n, _ => c) }

  function Zeros(n: nat): string { Repeat('0', n) }

  // ---- strtoXXX ----

  /** The end of the run of characters with a property */
  function SpacesEnd(s: string, i: nat): (e: nat)
    requires i <= |s|
    ensures i <= e <= |s| && (forall k | i <= k < e :: IsSpace(s[k])) && (e < |s| ==> !IsSpace(s[e]))
    decreases |s| - i
  {
    if i < |s| && IsSpace(s[i]) then SpacesEnd(s, i + 1) else i
  }

  function DigitsEnd(s: string, i: nat, base: nat): (e: nat)
    requires i <= |s|
    ensures i <= e <= |s| && AllAccepted(s[i..e], base) && (e < |s| ==> !Accepted(s[e], base))
    decreases |s| - i
  {
    if i < |s| && Accepted(s[i], base) then
      var e := DigitsEnd(s, i + 1, base);
      assert s[i..e] == [s[i]] + s[i + 1..e];
      e
    else i
  }

  /** The base, where 0 asks for a guess from the first characters */
  function ActualBase(s: string, i: nat, base: nat): nat {
    if base != 0 then base
    else if CharAt(s, i) != '0' then 10
    else if ToLower(CharAt(s, i + 1)) == 'x' then 16
    else 8
  }

  function AfterPrefix(s: string, i: nat, base: nat): (j: nat)
    requires i <= |s|
    ensures i <= j <= |s|
  {
    if base == 16 && CharAt(s, i) == '0' && ToLower(CharAt(s, i + 1)) == 'x' then i + 2 else i
  }

  /** What strtoull makes of a text, in 64 bits */
  function ReadBack(s: string, base: nat): U64 {
    var j := AfterPrefix(s, SpacesEnd(s, 0), base);
    ValueOf(s[j..DigitsEnd(s, j, base)], base) % B64
  }

  /** The value and the end of what strtoull reads */
  function Parsed(s: string, base0: nat): (U64, nat) {
    var i := SpacesEnd(s, 0);
    var base := ActualBase(s, i, base0);
    var j := AfterPrefix(s, i, base);
    var e := DigitsEnd(s, j, base);
    (ValueOf(s[j..e], base) % B64, e)
  }

  /** strtoull: the run of digits behind spaces and an optional 0x, in 64 bits */
  method Strtoull(s: string, base0: nat) returns (x: U64, end: nat)
    requires '\0' !in s
    ensures var i := SpacesEnd(s, 0);
            var base := ActualBase(s, i, base0);
            var j := AfterPrefix(s, i, base);
            && end == DigitsEnd(s, j, base)
            && x == ValueOf(s[j..end], base) % B64
            && x == ReadBack(s, base)
    ensures (x, end) == Parsed(s, base0)
  {
    hide ValueOf, Accepted;
    var p := 0;
    while IsSpace(CharAt(s, p))
      invariant p <= |s| && SpacesEnd(s, 0) == SpacesEnd(s, p)
      decreases |s| - p
    {
      p := p + 1;
    }
    var base := base0;
    if base == 0 {
      base := if CharAt(s, p) != '0' then 10 else if ToLower(CharAt(s, p + 1)) == 'x' then 16 else 8;
    }
    if base == 16 && CharAt(s, p) == '0' && ToLower(CharAt(s, p + 1)) == 'x' {
      p := p + 2;
    }
    x, end := ReadDigits(s, p, base);
  }

  /** The digit loop of strtoXXX */
  method ReadDigits(s: string, j: nat, base: nat) returns (x: U64, end: nat)
    requires j <= |s| && '\0' !in s
    ensures end == DigitsEnd(s, j, base) && x == ValueOf(s[j..end], base) % B64
  {
    hide ValueOf, ValueOfDigit, AllAccepted;
    x, end := 0, j;
    NoDigit(s[j..j], base);
    while IsAlnum(CharAt(s, end))
      invariant j <= end <= |s| && DigitsEnd(s, j, base) == DigitsEnd(s, end, base)
      invariant AllAccepted(s[j..end], base) && x == ValueOf(s[j..end], base) % B64
      decreases |s| - end
    {
      if !Accepted(CharAt(s, end), base) { break; }
      var d := ValueOfDigit(CharAt(s, end));
      NextDigit(s, j, end, base);
      WrapsOnce(ValueOf(s[j..end], base), base, d);
      x := (x * base + d) % B64;
      end := end + 1;
    }
  }

  lemma NextDigit(s: string, j: nat, p: nat, base: nat)
    requires j <= p < |s| && AllAccepted(s[j..p], base) && Accepted(s[p], base)
    ensures AllAccepted(s[j..p + 1], base)
    ensures ValueOf(s[j..p + 1], base) == ValueOf(s[j..p], base) * base + ValueOfDigit(s[p])
  {
    ValueOfMore(s[j..p], s[p], base);
    assert s[j..p + 1] == s[j..p] + [s[p]];
  }

  /** Wrapping at each digit is wrapping once. */
  lemma WrapsOnce(v: nat, base: nat, d: nat)
    ensures ((v % B64) * base + d) % B64 == (v * base + d) % B64
  {
    var q, r := v / B64, v % B64;
    assert v * base == (B64 * q) * base + r * base;
    assert (B64 * q) * base == B64 * (q * base);
    Congruent(r * base + d, q * base);
  }

  lemma Congruent(z: nat, k: nat)
    ensures (z + B64 * k) % B64 == z % B64
  {
    var q, r := z / B64, z % B64;
    assert z + B64 * k == B64 * (q + k) + r;
  }

  // ---- the text of a number, with padding, and reading it back ----

  function Padding(width: nat, digits: string, prefix: string): nat {
    if width > |digits| + |prefix| then width - |digits| - |prefix| else 0
  }

  /** What emit_unsigned writes */
  function Number(value: nat, base: nat, upper: bool, width: nat, padding: char, left: bool, prefix: string): string
    requires 2 <= base <= 16
  {
    var digits := Digits(value, base, upper);
    var pad := Padding(width, digits, prefix);
    (if !left && padding == ' ' then Repeat(' ', pad) else "") + prefix
    + (if !left && padding == '0' then Zeros(pad) else "") + digits
    + if left then Repeat(' ', pad) else ""
  }

  lemma {:induction false} SpacesEndIs(n: nat, rest: string, i: nat)
    requires i <= n && rest != "" && !IsSpace(rest[0])
    ensures SpacesEnd(Repeat(' ', n) + rest, i) == n
    decreases n - i
  {
    if i < n { SpacesEndIs(n, rest, i + 1); }
  }

  lemma {:induction false} DigitsEndIs(s: string, i: nat, e: nat, base: nat)
    requires i <= e <= |s| && AllAccepted(s[i..e], base) && (e < |s| ==> !Accepted(s[e], base))
    ensures DigitsEnd(s, i, base) == e
    decreases e - i
  {
    if i < e {
      assert s[i] == s[i..e][0];
      assert s[i + 1..e] == s[i..e][1..];
      DigitsEndIs(s, i + 1, e, base);
    }
  }

  /** Spaces, an optional prefix, digits and something that ends them */
  lemma Reads(n: nat, prefix: string, digits: string, tail: string, base: nat, s: string)
    requires HexPrefix(prefix, base) && s == Repeat(' ', n) + (prefix + (digits + tail))
    requires digits != "" && AllAccepted(digits, base) && 'x' !in digits && 'X' !in digits
    requires tail != "" ==> !IsAlnum(tail[0])
    ensures SpacesEnd(s, 0) == n && ActualBase(s, n, base) == base
    ensures var j, e := n + |prefix|, n + |prefix| + |digits|;
            e <= |s| && AfterPrefix(s, n, base) == j && DigitsEnd(s, j, base) == e && s[j..e] == digits
  {
    hide *;
    var rest := prefix + (digits + tail);
    FirstIsNoSpace(prefix, digits, tail, base);
    SpacesEndIs(n, rest, 0);
    SpacesLong(n);
    PrefixShift(Repeat(' ', n), rest, base);
    PrefixIs(prefix, digits, tail, base);
    DigitsWithin(Repeat(' ', n) + prefix, digits, tail, base);
    FourParts(Repeat(' ', n), prefix, digits, tail);
  }

  /** A prefix is written for base 16 only. */
  predicate HexPrefix(prefix: string, base: nat) {
    (base == 10 && prefix == "") || (base == 16 && (prefix == "" || prefix == "0x"))
  }

  lemma SpacesLong(n: nat)
    ensures |Repeat(' ', n)| == n
  {}

  lemma FourParts(a: string, b: string, c: string, d: string)
    ensures a + (b + (c + d)) == (a + b) + c + d
  {}

  lemma PrefixShift(a: string, rest: string, base: nat)
    ensures ActualBase(a + rest, |a|, base) == ActualBase(rest, 0, base)
    ensures AfterPrefix(a + rest, |a|, base) == |a| + AfterPrefix(rest, 0, base)
  {
    CharShift(a, rest, 0);
    CharShift(a, rest, 1);
  }

  lemma CharShift(a: string, rest: string, i: nat)
    ensures CharAt(a + rest, |a| + i) == CharAt(rest, i)
  {}

  lemma PrefixIs(prefix: string, digits: string, tail: string, base: nat)
    requires HexPrefix(prefix, base)
    requires digits != "" && 'x' !in digits && 'X' !in digits && (tail != "" ==> !IsAlnum(tail[0]))
    ensures ActualBase(prefix + (digits + tail), 0, base) == base
    ensures AfterPrefix(prefix + (digits + tail), 0, base) == |prefix|
  {
    var rest := prefix + (digits + tail);
    if prefix == "" && |rest| > 1 {
      assert rest[1] == if |digits| > 1 then digits[1] else tail[0];
    }
  }

  lemma DigitsWithin(a: string, digits: string, tail: string, base: nat)
    requires AllAccepted(digits, base) && (tail != "" ==> !IsAlnum(tail[0]))
    ensures var s := a + digits + tail;
            DigitsEnd(s, |a|, base) == |a| + |digits| && s[|a|..|a| + |digits|] == digits
  {
    var s := a + digits + tail;
    assert s[|a|..|a| + |digits|] == digits;
    DigitsEndIs(s, |a|, |a| + |digits|, base);
  }

  lemma FirstIsNoSpace(prefix: string, digits: string, tail: string, base: nat)
    requires HexPrefix(prefix, base) && digits != "" && AllAccepted(digits, base)
    ensures var rest := prefix + (digits + tail); rest != "" && !IsSpace(rest[0])
  {
    assert Accepted(digits[0], base);
  }

  /** strtoull reads back what emit_unsigned writes, with any padding, on either side. */
  lemma NumberReadsBack(value: U64, base: nat, upper: bool, width: nat, padding: char, left: bool, prefix: string,
                        tail: string)
    requires HexPrefix(prefix, base)
    requires (padding == ' ' || padding == '0') && (tail != "" ==> !IsAlnum(tail[0]))
    ensures var s := Number(value, base, upper, width, padding, left, prefix) + tail;
            ReadBack(s, base) == value
  {
    hide Number, Digits, AllAccepted, ValueOf, DigitsEnd, SpacesEnd, AfterPrefix, ActualBase, Repeat, Zeros, IsAlnum,
      Padding;
    var digits := Digits(value, base, upper);
    var before, zeros, after := NumberShape(value, base, upper, width, padding, left, prefix, tail);
    DigitsRead(value, base, upper);
    LeadingZeros(zeros, digits, base);
    NotEmpty(value, base, upper);
    NoX(zeros, digits);
    EndsNumber(after, tail);
    Reads(before, prefix, Zeros(zeros) + digits, Repeat(' ', after) + tail, base,
          Number(value, base, upper, width, padding, left, prefix) + tail);
  }

  lemma NoX(n: nat, digits: string)
    requires 'x' !in digits && 'X' !in digits && digits != ""
    ensures 'x' !in Zeros(n) + digits && 'X' !in Zeros(n) + digits && Zeros(n) + digits != ""
  {}

  lemma EndsNumber(n: nat, tail: string)
    requires tail != "" ==> !IsAlnum(tail[0])
    ensures var t := Repeat(' ', n) + tail; t != "" ==> !IsAlnum(t[0])
  {}

  /** Where the padding stands */
  lemma NumberShape(value: U64, base: nat, upper: bool, width: nat, padding: char, left: bool, prefix: string,
                    tail: string)
    returns (before: nat, zeros: nat, after: nat)
    requires 2 <= base <= 16 && (padding == ' ' || padding == '0')
    ensures Number(value, base, upper, width, padding, left, prefix) + tail
         == Repeat(' ', before) + (prefix + ((Zeros(zeros) + Digits(value, base, upper)) + (Repeat(' ', after) + tail)))
  {
    hide Digits;
    var digits := Digits(value, base, upper);
    var pad := Padding(width, digits, prefix);
    before := if !left && padding == ' ' then pad else 0;
    zeros := if !left && padding == '0' then pad else 0;
    after := if left then pad else 0;
    assert Repeat(' ', 0) == "" && Zeros(0) == "";
  }

  lemma NotEmpty(value: nat, base: nat, upper: bool)
    requires 2 <= base <= 16
    ensures Digits(value, base, upper) != ""
  {}

  /** What emit_unsigned writes for a signed number in base 10 */
  function SignedNumber(v: int, width: nat, padding: char, left: bool): string {
    Number(if v < 0 then -v else v, 10, false, width, padding, left, if v < 0 then "-" else "")
  }

  /** A minus sign is no digit: strtoXXX reads nothing there. */
  lemma MinusStops(n: nat, rest: string, s: string)
    requires s == Repeat(' ', n) + ("-" + rest)
    ensures SpacesEnd(s, 0) == n <= |s| && AfterPrefix(s, n, 10) == n && DigitsEnd(s, n, 10) == n
  {
    SpacesEndIs(n, "-" + rest, 0);
  }

  /** strtoll reads a signed number back, whatever its padding and alignment, exactly when it is not
      negative; a negative one is read as 0. */
  lemma SignedReadsBack(v: int, width: nat, padding: char, left: bool, tail: string)
    requires -0x8000_0000_0000_0000 <= v < 0x8000_0000_0000_0000
    requires (padding == ' ' || padding == '0') && (tail != "" ==> !IsAlnum(tail[0]))
    ensures ReadBack(SignedNumber(v, width, padding, left) + tail, 10) == v % B64 <==> v >= 0
    ensures v < 0 ==> ReadBack(SignedNumber(v, width, padding, left) + tail, 10) == 0
  {
    hide ReadBack, Number, IsAlnum;
    Wrapped(v);
    if v >= 0 {
      NumberReadsBack(v, 10, false, width, padding, left, "", tail);
    } else {
      NegativeReadsZero(-v, width, padding, left, tail);
    }
  }

  lemma Wrapped(v: int)
    requires -B64 < v < B64
    ensures v % B64 == if v < 0 then v + B64 else v
  {
    if v < 0 {
      assert (v + B64) % B64 == v + B64;
    }
  }

  lemma NegativeReadsZero(magnitude: U64, width: nat, padding: char, left: bool, tail: string)
    requires padding == ' ' || padding == '0'
    ensures var s := Number(magnitude, 10, false, width, padding, left, "-") + tail;
            var j := AfterPrefix(s, SpacesEnd(s, 0), 10);
            DigitsEnd(s, j, 10) == j && ReadBack(s, 10) == 0
  {
    hide Number, Digits, AllAccepted, DigitsEnd, SpacesEnd, AfterPrefix, Repeat, Zeros;
    var s := Number(magnitude, 10, false, width, padding, left, "-") + tail;
    var before, zeros, after := NumberShape(magnitude, 10, false, width, padding, left, "-", tail);
    MinusStops(before, (Zeros(zeros) + Digits(magnitude, 10, false)) + (Repeat(' ', after) + tail), s);
    assert s[before..before] == "";
  }
}
