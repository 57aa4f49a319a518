/** Printing and parsing of numbers in a caller's buffer: digits are written least significant
    first and the string is then reversed in place. */
module Numbers {
  import opened Words
  import opened Division
  import opened Numerals

  const INT32_MIN: int := -0x8000_0000
  const INT32_MAX: int := 0x7FFF_FFFF

  type i32 = i: int | INT32_MIN <= i <= INT32_MAX

  function Reverse(s: seq<byte>): (r: seq<byte>)
    ensures |r| == |s| && forall k :: 0 <= k < |s| ==> r[k] == s[|s| - 1 - k]
  {
    if s == [] then [] else Reverse(s[1..]) + [s[0]]
  }

  lemma ReverseTwice(s: seq<byte>)
    ensures Reverse(Reverse(s)) == s
  {
  }

  /** The buffer holds the string s. */
  ghost predicate Holds(b: seq<byte>, s: seq<byte>) {
    |s| < |b| && b[..|s|] == s && NUL !in s && b[|s|] == NUL
  }

  /** reverse_str. The buffer must hold a string. */
  method ReverseStr(b: array<byte>, ghost s: seq<byte>)
    requires Holds(b[..], s)
    modifies b
    ensures b[..|s|] == Reverse(s)
    ensures forall k :: |s| <= k < b.Length ==> b[k] == old(b[k])
  {
    var len := 0;
    while b[len] != NUL
      invariant 0 <= len <= |s|
      decreases |s| - len
    {
      assert len < |s|;
      len := len + 1;
    }
    var start, end := 0, len - 1;
    while start < end
      invariant 0 <= start <= len && start + end == len - 1
      invariant start <= end + 1 || len == 0
      invariant forall k :: 0 <= k < start ==> b[k] == s[len - 1 - k] && b[len - 1 - k] == s[k]
      invariant forall k :: start <= k <= end ==> b[k] == s[k]
      invariant forall k :: len <= k < b.Length ==> b[k] == old(b[k])
    {
      b[start], b[end] := b[end], b[start];
      start, end := start + 1, end - 1;
    }
  }

  lemma ReverseSnoc(s: seq<byte>, c: byte)
    ensures Reverse(s + [c]) == [c] + Reverse(s)
  {
  }

  /** The digits written so far, read backwards, end the numeral of i; those of n are to come. */
  ghost predicate Writing(i: nat, n: nat, base: nat, written: seq<byte>)
    requires 2 <= base <= MAX_BASE
  {
    Numeral(n, base) + Reverse(written) == Numeral(i, base)
  }

  /** The next digit is written; it was the last if the number is below the base. */
  lemma NextDigit(i: nat, n: nat, base: nat, written: seq<byte>, c: byte)
    requires 2 <= base <= MAX_BASE && Writing(i, n, base, written) && c == DigitChar(Rem(n, base))
    ensures n >= base ==> Writing(i, Quot(n, base), base, written + [c]) && |written| + 1 < |Numeral(i, base)|
    ensures n < base ==> Reverse(written + [c]) == Numeral(i, base)
  {
    ReverseSnoc(written, c);
    if n >= base {
      var head := Numeral(Quot(n, base), base);
      assert Numeral(n, base) == head + [c];
      assert (head + [c]) + Reverse(written) == head + ([c] + Reverse(written));
    }
  }

  /** The do-while loop both printers share, on a number that is not negative: the digits of n,
      least significant first, from the start of the buffer. */
  method WriteDigits(i: nat, base: nat, b: array<byte>) returns (index: nat)
    requires 2 <= base <= MAX_BASE
    requires |Numeral(i, base)| <= b.Length
    modifies b
    ensures index == |Numeral(i, base)|
    ensures Reverse(b[..index]) == Numeral(i, base)
    ensures forall k :: index <= k < b.Length ==> b[k] == old(b[k])
  {
    var n: nat := i;
    index := 0;
    while true
      invariant index < |Numeral(i, base)|
      invariant Writing(i, n, base, b[..index])
      invariant forall k :: index <= k < b.Length ==> b[k] == old(b[k])
      decreases n
    {
      var quotient, remainder := DivMod(n, base);
      var c := DigitChar(remainder);
      ghost var written := b[..index];
      NextDigit(i, n, base, written, c);
      b[index] := c;
      index := index + 1;
      assert b[..index] == written + [c];
      n := quotient;
      if n == 0 {
        break;
      }
    }
  }

  method DivMod(n: nat, base: nat) returns (quotient: nat, remainder: nat)
    requires base > 0
    ensures quotient == Quot(n, base) && remainder == Rem(n, base)
    ensures quotient > 0 <==> n >= base
  {
    QuotRemAre(n, base);
    quotient, remainder := n / base, n % base;
  }

  /** The place behind the last NUL among the first n bytes. */
  function Past(s: seq<byte>, n: nat): (k: nat)
    requires n <= |s|
    ensures k <= n && (k > 0 ==> s[k - 1] == NUL)
    ensures forall x :: k <= x < n ==> s[x] != NUL
  {
    if n == 0 || s[n - 1] == NUL then n else Past(s, n - 1)
  }

  /** What is left of a text that is written backwards, cut at the first NUL and turned round. */
  function AfterNul(s: seq<byte>): (t: seq<byte>)
    ensures NUL !in t
    ensures NUL !in s ==> t == s
  {
    s[Past(s, |s|)..]
  }

  /** The buffer holds that part of the text and its terminator; bytes behind the room the whole
      text needs are as they were. */
  twostate predicate Printed(b: array<byte>, text: seq<byte>)
    reads b
  {
    && |text| < b.Length && Holds(b[..], AfterNul(text))
    && forall k :: |text| < k < b.Length ==> b[k] == old(b[k])
  }

  lemma {:induction false} ReverseSplit(s: seq<byte>, t: seq<byte>)
    ensures Reverse(s + t) == Reverse(t) + Reverse(s)
  {
    if s == [] {
      assert s + t == t;
    } else {
      assert (s + t)[1..] == s[1..] + t;
      ReverseSplit(s[1..], t);
    }
  }

  /** A buffer with a text written backwards holds, as a string, the part after the text's last NUL. */
  lemma BackwardsCut(b: seq<byte>, head: seq<byte>, t: seq<byte>)
    requires |head| + |t| < |b| && b[..|head| + |t|] == Reverse(head + t) && b[|head| + |t|] == NUL
    requires NUL !in t && (head != [] ==> head[|head| - 1] == NUL)
    ensures Holds(b, Reverse(t))
  {
    ReverseSplit(head, t);
    var written := b[..|head| + |t|];
    assert written == Reverse(t) + Reverse(head);
    assert b[..|t|] == written[..|t|] == Reverse(t);
    assert head != [] ==> b[|t|] == written[|t|] == Reverse(head)[0];
  }

  /** The end of both printers: terminate the backwards text and reverse it. */
  method Finish(b: array<byte>, index: nat, ghost text: seq<byte>)
    requires index == |text| < b.Length && b[..index] == Reverse(text)
    modifies b
    ensures Printed(b, text)
  {
    b[index] := NUL;
    ghost var t := AfterNul(text);
    assert b[..index] == Reverse(text);
    ghost var head := text[..Past(text, |text|)];
    assert text == head + t;
    BackwardsCut(b[..], head, t);
    ReverseTwice(t);
    ReverseStr(b, Reverse(t));
  }

  /** uint_to_str: the numeral of i, NUL-terminated. */
  method UintToStr(i: u32, base: nat, b: array<byte>)
    requires 2 <= base <= MAX_BASE
    requires |Numeral(i, base)| < b.Length
    modifies b
    ensures Printed(b, Numeral(i, base))
  {
    var index := WriteDigits(i, base, b);
    ReverseTwice(b[..index]);
    Finish(b, index, Numeral(i, base));
  }

  /** The digit 201 alone prints as the empty string. */
  lemma DigitLost(d: nat, base: nat)
    requires d == NUL_DIGIT < base <= MAX_BASE
    ensures AfterNul(Numeral(d, base)) == []
  {
    assert Numeral(d, base) == [DigitChar(d)] == [NUL];
  }

  ghost predicate UintTextsRight(base: nat)
    requires 2 <= base <= MAX_BASE
  {
    forall i: u32 :: Value(AfterNul(Numeral(i, base)), base) == i
  }

  /** What uint_to_str leaves in the buffer denotes the number, for all numbers, exactly in the
      bases up to 201. */
  lemma UintTextsRightIff(base: nat)
    requires 2 <= base <= MAX_BASE
    ensures UintTextsRight(base) <==> base <= NUL_DIGIT
  {
    if base <= NUL_DIGIT {
      forall i: u32 ensures Value(AfterNul(Numeral(i, base)), base) == i {
        OnlyDigits(i, base);
        NumeralDenotes(i, base);
      }
    } else {
      UintTextWrong(NUL_DIGIT, base);
    }
  }

  lemma UintTextWrong(d: u32, base: nat)
    requires d == NUL_DIGIT < base <= MAX_BASE
    ensures !UintTextsRight(base)
  {
    DigitLost(d, base);
    assert Value(AfterNul(Numeral(d, base)), base) == 0;
  }

  // ---------------------------------------------------------------- signed numbers

  /** C's remainder, which takes the sign of the dividend. */
  function TruncMod(a: int, b: nat): int
    requires b > 0
  {
    if a >= 0 then Rem(a, b) else -(Rem(-a, b) as int)
  }

  /** What int_to_str writes, turned round. Negating INT32_MIN gives INT32_MIN again (two's
      complement), whose remainder is negative and whose quotient stops the loop after one
      character. */
  function IntText(i: i32, base: nat): (s: seq<byte>)
    requires 2 <= base <= MAX_BASE
  {
    if i == INT32_MIN then [MINUS, MinChar(i, base)]
    else if i < 0 then [MINUS] + Numeral(-i, base)
    else Numeral(i, base)
  }

  function MinChar(i: i32, base: nat): byte
    requires base > 0
  {
    (ZERO + TruncMod(i, base)) % 0x100
  }

  /** The text of a negative number opens with a minus sign. For INT32_MIN one character follows: the
      code of '0' less the last digit of 2^31, in 8 bits. */
  lemma NegativeText(i: i32, base: nat)
    requires 2 <= base <= MAX_BASE && i < 0
    ensures IntText(i, base)[0] == '-' as int
    ensures i == -0x8000_0000 ==> IntText(i, base)[1..] == [(48 - 0x8000_0000 % base) % 0x100]
  {
    var n: nat := -(i as int);
    QuotRemAre(n, base);
  }

  function SignedValue(s: seq<byte>, base: nat): int {
    if s != [] && s[0] == MINUS then -(Value(s[1..], base) as int) else Value(s, base)
  }

  /** The number that the string int_to_str leaves in the buffer denotes. */
  function Printout(i: i32, base: nat): int
    requires 2 <= base <= MAX_BASE
  {
    SignedValue(AfterNul(IntText(i, base)), base)
  }

  /** In bases up to 201 that is the number exactly when the number is not INT32_MIN. */
  lemma IntTextRightIff(i: i32, base: nat)
    requires 2 <= base <= NUL_DIGIT
    ensures Printout(i, base) == i <==> i != INT32_MIN
  {
    if i == INT32_MIN {
      MinIsSmall(i, base);
    } else if i < 0 {
      NegativeRight(i, base);
    } else {
      NumeralDenotes(i, base);
      OnlyDigits(i, base);
    }
  }

  lemma MinusSign(digits: seq<byte>, base: nat, v: nat)
    requires NUL !in digits && Value(digits, base) == v
    ensures SignedValue(AfterNul([MINUS] + digits), base) == -(v as int)
  {
    var s := [MINUS] + digits;
    assert s[1..] == digits && NUL !in s;
    assert AfterNul(s) == s;
  }

  lemma NegativeRight(i: i32, base: nat)
    requires 2 <= base <= NUL_DIGIT && INT32_MIN < i < 0
    ensures Printout(i, base) == i
  {
    NumeralDenotes(-i, base);
    OnlyDigits(-i, base);
    MinusSign(Numeral(-i, base), base, -i);
  }

  lemma MinIsSmall(i: i32, base: nat)
    requires 2 <= base <= MAX_BASE && i == INT32_MIN
    ensures Printout(i, base) > -0x1000
  {
    OneCharacter(MinChar(i, base), base);
  }

  lemma OneCharacter(c: byte, base: nat)
    ensures SignedValue(AfterNul([MINUS, c]), base) > -0x1000
  {
    if c == NUL {
      assert AfterNul([MINUS, c]) == [];
    } else {
      assert [MINUS, c] == [MINUS] + [c] && [c] == [] + [c];
      ValueSnoc([], c, base);
      MinusSign([c], base, DigitOf(c));
    }
  }

  ghost predicate IntTextsRight(base: nat)
    requires 2 <= base <= MAX_BASE
  {
    forall i: i32 :: Printout(i, base) == i <==> i != INT32_MIN
  }

  /** In the other bases some number that is not negative is misprinted too. */
  lemma IntTextsRightIff(base: nat)
    requires 2 <= base <= MAX_BASE
    ensures IntTextsRight(base) <==> base <= NUL_DIGIT
  {
    if base <= NUL_DIGIT {
      forall i: i32 ensures Printout(i, base) == i <==> i != INT32_MIN {
        IntTextRightIff(i, base);
      }
    } else {
      IntTextWrong(NUL_DIGIT, base);
    }
  }

  lemma IntTextWrong(d: i32, base: nat)
    requires d == NUL_DIGIT < base <= MAX_BASE
    ensures !IntTextsRight(base)
  {
    DigitLost(d, base);
    assert Printout(d, base) == 0;
  }

  /** int_to_str. */
  method IntToStr(i: i32, base: nat, b: array<byte>)
    requires 2 <= base <= MAX_BASE
    requires |IntText(i, base)| < b.Length
    modifies b
    ensures Printed(b, IntText(i, base))
  {
    var index := WriteBackwards(i, base, b);
    Finish(b, index, IntText(i, base));
  }

  /** In base 10 the text never has a NUL. */
  lemma NoNulIn(i: i32)
    ensures NUL !in IntText(i, 10)
  {
    if i != INT32_MIN {
      OnlyDigits(if i < 0 then -i else i, 10);
    }
  }

  lemma {:induction false} ReverseCons(c: byte, s: seq<byte>)
    ensures Reverse([c] + s) == Reverse(s) + [c]
  {
    assert ([c] + s)[1..] == s;
  }

  /** The digits of int_to_str, least significant first; `n` is the number with its sign dropped
      where that is possible. */
  method WriteMagnitude(i: i32, n: int, base: nat, b: array<byte>) returns (index: nat)
    requires 2 <= base <= MAX_BASE && n == (if i < 0 && i != INT32_MIN then -i else i)
    requires |IntText(i, base)| < b.Length
    modifies b
    ensures index == |IntText(i, base)| - (if i < 0 then 1 else 0)
    ensures b[..index] == Reverse(if i < 0 then IntText(i, base)[1..] else IntText(i, base))
    ensures forall k :: index <= k < b.Length ==> b[k] == old(b[k])
  {
    if n >= 0 {
      assert i < 0 ==> IntText(i, base)[1..] == Numeral(n, base);
      index := WriteDigits(n, base, b);
      ReverseTwice(b[..index]);
    } else {
      // one turn of the loop: the remainder is not above 9, and the quotient is not above 0
      assert IntText(i, base)[1..] == [MinChar(i, base)];
      b[0] := (TruncMod(n, base) + ZERO) % 0x100;
      index := 1;
    }
  }

  /** The body of int_to_str up to the terminator: the text backwards, sign last. */
  method WriteBackwards(i: i32, base: nat, b: array<byte>) returns (index: nat)
    requires 2 <= base <= MAX_BASE
    requires |IntText(i, base)| < b.Length
    modifies b
    ensures index == |IntText(i, base)| && b[..index] == Reverse(IntText(i, base))
    ensures forall k :: index <= k < b.Length ==> b[k] == old(b[k])
  {
    var negative := false;
    var n: int := i;
    if n < 0 {
      negative := true;
      n := if n == INT32_MIN then n else -n;
    }
    index := WriteMagnitude(i, n, base, b);
    if negative {
      ghost var digits := IntText(i, base)[1..];
      assert IntText(i, base) == [MINUS] + digits;
      ReverseCons(MINUS, digits);
      ghost var written := b[..index];
      b[index] := MINUS;
      index := index + 1;
      assert b[..index] == written + [MINUS];
    }
  }

  // ---------------------------------------------------------------- parsing

  /** str_to_uint: the value of the longest digit prefix, modulo 2^32. */
  method StrToUint(s: seq<byte>) returns (res: u32)
    requires |DigitPrefix(s)| < |s|
    ensures res == Wrap(Value(DigitPrefix(s), 10))
  {
    res := 0;
    var i := 0;
    ghost var p := DigitPrefix(s);
    while ZERO <= s[i] <= NINE
      invariant 0 <= i <= |p|
      invariant res == Wrap(Value(p[..i], 10))
      decreases |p| - i
    {
      assert i < |p|;
      assert p[..i + 1][..i] == p[..i] && DigitOf(s[i]) == s[i] - ZERO;
      WrapStep(Value(p[..i], 10), s[i] - ZERO);
      res := Wrap(res * 10 + (s[i] - ZERO));
      i := i + 1;
    }
    assert i == |p|;
    assert p[..i] == p;
  }

  lemma WrapStep(v: nat, d: nat)
    ensures Wrap(Wrap(v) * 10 + d) == Wrap(v * 10 + d)
  {
    var q := v / TWO32;
    assert v == q * TWO32 + Wrap(v);
    assert v * 10 + d == Wrap(v) * 10 + d + 10 * q * TWO32;
    WrapMultiple(Wrap(v) * 10 + d, 10 * q);
  }

  lemma {:induction false} DecimalDigits(i: nat)
    ensures forall k :: 0 <= k < |Numeral(i, 10)| ==> IsDigit(Numeral(i, 10)[k])
  {
    if i >= 10 {
      DecimalDigits(Quot(i, 10));
    }
  }

  /** Decimal round trip: parsing what uint_to_str left in the buffer gives the number back. */
  lemma DecimalRoundTrip(i: u32, after: seq<byte>, buf: seq<byte>)
    requires buf == Numeral(i, 10) + [NUL] + after
    ensures |DigitPrefix(buf)| < |buf| && Wrap(Value(DigitPrefix(buf), 10)) == i
  {
    DecimalDigits(i);
    DigitPrefixIs(Numeral(i, 10), buf);
    NumeralDenotes(i, 10);
    WrapSmall(i);
  }
}
