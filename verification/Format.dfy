/** The kernel's printf engine. */
module Format {
  import opened Words
  import opened CStrings
  import opened Division
  import opened Numerals
  import opened Numbers

  const PERCENT: byte := 37
  const CH_C: byte := 99
  const CH_D: byte := 100
  const CH_I: byte := 105
  const CH_L: byte := 108
  const CH_P: byte := 112
  const CH_S: byte := 115
  const CH_U: byte := 117
  const CH_X: byte := 120
  const CH_UPPER_X: byte := 88

  /** A variadic argument: a pointer to a string in memory, or an int-sized word. */
  datatype Arg = Str(s: seq<byte>) | Int(v: u32)

  /** The bytes before the first NUL. */
  function Text(s: seq<byte>): (t: seq<byte>)
    ensures |t| <= |s| && t == s[..|t|] && NUL !in t
    ensures NUL in s ==> |t| < |s| && s[|t|] == NUL
  {
    Cut(s, |s|)
  }

  predicate TakesArg(c: byte) {
    c == CH_S || c == CH_C || c == CH_I || c == CH_D || c == CH_U || c == CH_P || c == CH_UPPER_X || c == CH_X
  }

  predicate Typed(c: byte, a: Arg) {
    if c == CH_S then a.Str? && NUL in a.s else a.Int?
  }

  /** The text one conversion prints for its argument. */
  function Conversion(c: byte, a: Arg): seq<byte>
    requires TakesArg(c) && Typed(c, a)
  {
    if c == CH_S then Text(a.s)
    else if c == CH_C then [a.v % 0x100]
    else if c == CH_I || c == CH_D then IntText(Signed(a.v), 10)
    else if c == CH_U then Numeral(a.v, 10)
    else Numeral(a.v, 16)
  }

  /** A percent sign begins a conversion unless it is the last character. */
  predicate Converts(f: seq<byte>) {
    |f| > 1 && f[0] == PERCENT
  }

  function Conversions(f: seq<byte>): nat {
    if f == [] then 0
    else if Converts(f) then (if TakesArg(f[1]) then 1 else 0) + Conversions(f[2..])
    else Conversions(f[1..])
  }

  /** No %l conversion, and an argument of the right kind for each conversion that takes one. */
  predicate WellTyped(f: seq<byte>, args: seq<Arg>)
    decreases |f|
  {
    if f == [] then true
    else if Converts(f) then
      if TakesArg(f[1]) then args != [] && Typed(f[1], args[0]) && WellTyped(f[2..], args[1..])
      else f[1] != CH_L && WellTyped(f[2..], args)
    else WellTyped(f[1..], args)
  }

  function Render(f: seq<byte>, args: seq<Arg>): seq<byte>
    requires WellTyped(f, args)
    decreases |f|
  {
    if f == [] then []
    else if Converts(f) then
      if TakesArg(f[1]) then Conversion(f[1], args[0]) + Render(f[2..], args[1..])
      else [f[1]] + Render(f[2..], args)
    else [f[0]] + Render(f[1..], args)
  }

  // ---------------------------------------------------------------- the engine

  /** __doprnt_put_string: the characters handed to the output routine. */
  method PutString(s: seq<byte>) returns (out: seq<byte>)
    requires NUL in s
    ensures out == Text(s)
  {
    out := [];
    var i := 0;
    while s[i] != NUL
      invariant 0 <= i <= |Text(s)|
      invariant out == Text(s)[..i]
      decreases |Text(s)| - i
    {
      assert i < |Text(s)|;
      out := out + [s[i]];
      i := i + 1;
    }
    assert i == |Text(s)|;
  }

  lemma {:induction false} TextIs(t: seq<byte>, buf: seq<byte>)
    requires NUL !in t && |t| < |buf| && buf[..|t|] == t && buf[|t|] == NUL
    ensures Text(buf) == t
  {
    if t != [] {
      assert buf[0] == t[0] && buf[1..][..|t| - 1] == t[1..];
      TextIs(t[1..], buf[1..]);
    }
  }

  /** The arms of the conversion switch that print their argument. */
  method Convert(c: byte, a: Arg, buffer: array<byte>) returns (out: seq<byte>)
    requires buffer.Length == 32 && TakesArg(c) && Typed(c, a)
    modifies buffer
    ensures out == Conversion(c, a)
  {
    if c == CH_S {
      out := PutString(a.s);
    } else if c == CH_C {
      out := [a.v % 0x100];
    } else if c == CH_I || c == CH_D {
      out := ConvertInt(Signed(a.v), buffer);
    } else if c == CH_U {
      out := ConvertUint(a.v, 10, buffer);
    } else {
      out := ConvertUint(a.v, 16, buffer);
    }
  }

  method ConvertInt(i: i32, buffer: array<byte>) returns (out: seq<byte>)
    requires buffer.Length == 32
    modifies buffer
    ensures out == IntText(i, 10)
  {
    var magnitude: nat := if i < 0 then -(i as int) else i;
    WordFits(magnitude);
    NoNulIn(i);
    IntToStr(i, 10, buffer);
    TextIs(IntText(i, 10), buffer[..]);
    out := PutString(buffer[..]);
  }

  method ConvertUint(i: u32, base: nat, buffer: array<byte>) returns (out: seq<byte>)
    requires buffer.Length == 32 && (base == 10 || base == 16)
    modifies buffer
    ensures out == Numeral(i, base)
  {
    WordFits(i);
    OnlyDigits(i, base);
    UintToStr(i, base, buffer);
    TextIs(Numeral(i, base), buffer[..]);
    out := PutString(buffer[..]);
  }

  /** The first i characters of the format have been dealt with. */
  ghost predicate Printing(f: seq<byte>, args: seq<Arg>, i: nat, used: nat, out: seq<byte>) {
    && i <= |f| && used <= |args|
    && WellTyped(f, args) && WellTyped(f[i..], args[used..])
    && out + Render(f[i..], args[used..]) == Render(f, args)
    && used + Conversions(f[i..]) == Conversions(f)
  }

  lemma PrintsLiteral(f: seq<byte>, args: seq<Arg>, i: nat, used: nat, out: seq<byte>)
    requires Printing(f, args, i, used, out) && i < |f| && !(f[i] == PERCENT && i + 1 < |f|)
    ensures Printing(f, args, i + 1, used, out + [f[i]])
  {
    Suffix(f, i);
    Reassociate(out, [f[i]], Render(f[i + 1..], args[used..]));
  }

  lemma PrintsEscaped(f: seq<byte>, args: seq<Arg>, i: nat, used: nat, out: seq<byte>)
    requires Printing(f, args, i, used, out) && i + 1 < |f| && f[i] == PERCENT && !TakesArg(f[i + 1])
    ensures Printing(f, args, i + 2, used, out + [f[i + 1]])
  {
    Suffix(f, i);
    Reassociate(out, [f[i + 1]], Render(f[i + 2..], args[used..]));
  }

  lemma PrintsArg(f: seq<byte>, args: seq<Arg>, i: nat, used: nat, out: seq<byte>)
    requires Printing(f, args, i, used, out) && i + 1 < |f| && f[i] == PERCENT && TakesArg(f[i + 1])
    ensures used < |args| && Typed(f[i + 1], args[used])
    ensures Printing(f, args, i + 2, used + 1, out + Conversion(f[i + 1], args[used]))
  {
    Suffix(f, i);
    assert args[used..][0] == args[used] && args[used..][1..] == args[used + 1..];
    Reassociate(out, Conversion(f[i + 1], args[used]), Render(f[i + 2..], args[used + 1..]));
  }

  lemma TextAt(fmt: seq<byte>, i: nat)
    requires NUL in fmt && i <= |Text(fmt)|
    ensures i < |fmt| && (fmt[i] == NUL <==> i == |Text(fmt)|)
    ensures i < |Text(fmt)| ==>
      i + 1 < |fmt| && fmt[i] == Text(fmt)[i] && (fmt[i + 1] != NUL <==> i + 1 < |Text(fmt)|)
  {
  }

  /** One turn of the loop: a conversion or a literal character. */
  method PrintNext(fmt: seq<byte>, args: seq<Arg>, at: nat, used: nat, buffer: array<byte>, ghost out: seq<byte>)
    returns (text: seq<byte>, i: nat, taken: nat)
    requires buffer.Length == 32 && NUL in fmt
    requires Printing(Text(fmt), args, at, used, out) && at < |Text(fmt)|
    modifies buffer
    ensures i > at && Printing(Text(fmt), args, i, used + taken, out + text)
  {
    i, taken := at, 0;
    TextAt(fmt, i);
    if fmt[i] == PERCENT && fmt[i + 1] != NUL {
      i := i + 1;
      TextAt(fmt, i);
      if TakesArg(fmt[i]) {
        PrintsArg(Text(fmt), args, at, used, out);
        text := Convert(fmt[i], args[used], buffer);
        taken := 1;
      } else {
        PrintsEscaped(Text(fmt), args, at, used, out);
        text := [fmt[i]];
      }
    } else {
      PrintsLiteral(Text(fmt), args, at, used, out);
      text := [fmt[i]];
    }
    i := i + 1;
  }

  lemma PrintingStarts(f: seq<byte>, args: seq<Arg>)
    requires WellTyped(f, args)
    ensures Printing(f, args, 0, 0, [])
  {
    assert f[0..] == f && args[0..] == args;
    assert [] + Render(f, args) == Render(f, args);
  }

  lemma PrintingEnds(f: seq<byte>, args: seq<Arg>, used: nat, out: seq<byte>)
    requires Printing(f, args, |f|, used, out)
    ensures out == Render(f, args) && used == Conversions(f) <= |args|
  {
  }

  /** __doprnt: everything it hands to the output routine, and how many arguments it takes. */
  method Doprnt(fmt: seq<byte>, args: seq<Arg>) returns (out: seq<byte>, used: nat)
    requires NUL in fmt && WellTyped(Text(fmt), args)
    ensures out == Render(Text(fmt), args)
    ensures used == Conversions(Text(fmt)) <= |args|
  {
    var buffer := new byte[32];
    out, used := [], 0;
    var i := 0;
    PrintingStarts(Text(fmt), args);
    TextAt(fmt, 0);
    while fmt[i] != NUL
      invariant i <= |Text(fmt)| && i < |fmt| && (fmt[i] == NUL <==> i == |Text(fmt)|)
      invariant Printing(Text(fmt), args, i, used, out)
      decreases |fmt| - i
    {
      var text, taken;
      text, i, taken := PrintNext(fmt, args, i, used, buffer, out);
      out, used := out + text, used + taken;
      TextAt(fmt, i);
    }
    PrintingEnds(Text(fmt), args, used, out);
  }

  lemma Suffix(f: seq<byte>, i: nat)
    requires i < |f|
    ensures f[i..] != [] && f[i..][0] == f[i] && f[i..][1..] == f[i + 1..]
    ensures i + 1 < |f| ==> f[i..][1] == f[i + 1] && f[i..][2..] == f[i + 2..]
  {
  }

  // ---------------------------------------------------------------- composition

  /** The format does not end inside a conversion. */
  predicate Complete(f: seq<byte>) {
    f == [] || if f[0] == PERCENT then |f| > 1 && Complete(f[2..]) else Complete(f[1..])
  }

  /** Printing f1 then f2 is printing f1 + f2, when f1 does not end inside a conversion. */
  lemma {:induction false} Compose(f1: seq<byte>, a1: seq<Arg>, f2: seq<byte>, a2: seq<Arg>)
    requires Complete(f1) && WellTyped(f1, a1) && |a1| == Conversions(f1) && WellTyped(f2, a2)
    ensures WellTyped(f1 + f2, a1 + a2)
    ensures Render(f1 + f2, a1 + a2) == Render(f1, a1) + Render(f2, a2)
    ensures Conversions(f1 + f2) == Conversions(f1) + Conversions(f2)
    decreases |f1|
  {
    var f, a := f1 + f2, a1 + a2;
    if f1 == [] {
      assert f == f2 && a == a2;
    } else if f1[0] == PERCENT {
      assert Converts(f) && f[1] == f1[1] && f[2..] == f1[2..] + f2;
      if TakesArg(f1[1]) {
        assert a[0] == a1[0] && a[1..] == a1[1..] + a2;
        Compose(f1[2..], a1[1..], f2, a2);
        Reassociate(Conversion(f1[1], a1[0]), Render(f1[2..], a1[1..]), Render(f2, a2));
      } else {
        Compose(f1[2..], a1, f2, a2);
        Reassociate([f1[1]], Render(f1[2..], a1), Render(f2, a2));
      }
    } else {
      assert !Converts(f) && f[0] == f1[0] && f[1..] == f1[1..] + f2;
      Compose(f1[1..], a1, f2, a2);
      Reassociate([f1[0]], Render(f1[1..], a1), Render(f2, a2));
    }
  }

  lemma Reassociate(x: seq<byte>, y: seq<byte>, z: seq<byte>)
    ensures x + (y + z) == x + y + z
  {
  }

  /** A format that ends inside a conversion swallows a percent sign put after it. */
  lemma {:induction false} Swallows(f: seq<byte>, args: seq<Arg>)
    requires !Complete(f) && WellTyped(f, args)
    ensures WellTyped(f + [PERCENT], args) && Render(f + [PERCENT], args) == Render(f, args)
    decreases |f|
  {
    var g := f + [PERCENT];
    if f[0] != PERCENT {
      assert g[1..] == f[1..] + [PERCENT];
      Swallows(f[1..], args);
    } else if |f| == 1 {
      assert g[2..] == [] && f[1..] == [];
    } else {
      assert g[2..] == f[2..] + [PERCENT];
      Swallows(f[2..], if TakesArg(f[1]) then args[1..] else args);
    }
  }

  lemma LonePercent()
    ensures WellTyped([PERCENT], []) && Render([PERCENT], []) == [PERCENT]
  {
    assert [PERCENT][1..] == [];
    assert Render([PERCENT], []) == [PERCENT] + Render([], []);
  }

  ghost predicate ComposesWith(f1: seq<byte>, a1: seq<Arg>, f2: seq<byte>, a2: seq<Arg>)
    requires WellTyped(f1, a1) && WellTyped(f2, a2)
  {
    WellTyped(f1 + f2, a1 + a2) && Render(f1 + f2, a1 + a2) == Render(f1, a1) + Render(f2, a2)
  }

  /** A format composes with every continuation exactly when it does not end inside a conversion. */
  lemma ComposesIff(f1: seq<byte>, a1: seq<Arg>)
    requires WellTyped(f1, a1) && |a1| == Conversions(f1)
    ensures Complete(f1) <==>
      forall f2, a2 | WellTyped(f2, a2) :: ComposesWith(f1, a1, f2, a2)
  {
    if Complete(f1) {
      forall f2, a2 | WellTyped(f2, a2) ensures ComposesWith(f1, a1, f2, a2) {
        Compose(f1, a1, f2, a2);
      }
    } else {
      Swallows(f1, a1);
      assert a1 + [] == a1;
      assert [PERCENT][1..] == [];
      LonePercent();
      assert !ComposesWith(f1, a1, [PERCENT], []);
    }
  }

  // ---------------------------------------------------------------- spelling a format

  /** What a caller wants printed: a literal character, or an argument in some conversion. */
  datatype Piece = Literal(c: byte) | Convert(c: byte)

  predicate Sensible(ps: seq<Piece>) {
    forall p :: p in ps ==> if p.Convert? then TakesArg(p.c) else p.c != NUL
  }

  /** The format string for the pieces, percent signs doubled. */
  function Spell(ps: seq<Piece>): seq<byte> {
    if ps == [] then []
    else
      (match ps[0]
       case Literal(c) => if c == PERCENT then [PERCENT, PERCENT] else [c]
       case Convert(c) => [PERCENT, c]) + Spell(ps[1..])
  }

  ghost predicate Supplied(ps: seq<Piece>, args: seq<Arg>)
    decreases ps
  {
    if ps == [] then args == []
    else if ps[0].Literal? then Supplied(ps[1..], args)
    else args != [] && Typed(ps[0].c, args[0]) && Supplied(ps[1..], args[1..])
  }

  ghost function Print(ps: seq<Piece>, args: seq<Arg>): seq<byte>
    requires Sensible(ps) && Supplied(ps, args)
    decreases ps
  {
    if ps == [] then []
    else if ps[0].Literal? then [ps[0].c] + Print(ps[1..], args)
    else Conversion(ps[0].c, args[0]) + Print(ps[1..], args[1..])
  }

  /** Any literal text and any sequence of conversions can be spelled as a format, and the engine
      prints exactly the pieces, consuming exactly the arguments supplied. */
  lemma {:induction false} SpelledFormatPrints(ps: seq<Piece>, args: seq<Arg>)
    requires Sensible(ps) && Supplied(ps, args)
    ensures WellTyped(Spell(ps), args) && Render(Spell(ps), args) == Print(ps, args)
    ensures Conversions(Spell(ps)) == |args|
    decreases ps
  {
    if ps == [] {
    } else {
      var f := Spell(ps);
      match ps[0] {
        case Literal(c) =>
          SpelledFormatPrints(ps[1..], args);
          if c == PERCENT {
            assert f[2..] == Spell(ps[1..]);
          } else {
            assert f[1..] == Spell(ps[1..]);
          }
        case Convert(c) =>
          SpelledFormatPrints(ps[1..], args[1..]);
          assert f[2..] == Spell(ps[1..]);
      }
    }
  }

  // ---------------------------------------------------------------- what each conversion prints

  /** The format of one conversion. */
  function One(c: char): (f: seq<byte>)
    requires c as int < 0x100
    ensures |f| == 2
  {
    ['%' as int, c as int]
  }

  /** It takes the argument and prints the text. */
  ghost predicate Prints(c: char, a: Arg, text: seq<byte>)
    requires c as int < 0x100
  {
    WellTyped(One(c), [a]) && Render(One(c), [a]) == text && Conversions(One(c)) == 1
  }

  lemma OnePrints(c: char, a: Arg)
    requires c as int < 0x100 && TakesArg(c as int) && Typed(c as int, a)
    ensures Prints(c, a, Conversion(c as int, a))
  {
    assert One(c)[2..] == [] && [a][1..] == [];
    assert Conversion(c as int, a) + [] == Conversion(c as int, a);
  }

  /** "%u": the decimal digits of the argument, none of them superfluous. */
  lemma PrintsUnsigned(v: u32) returns (text: seq<byte>)
    ensures Prints('u', Int(v), text)
    ensures Value(text, 10) == v && text != [] && (|text| > 1 ==> text[0] != '0' as int)
    ensures forall k :: 0 <= k < |text| ==> '0' as int <= text[k] <= '9' as int
  {
    text := Numeral(v, 10);
    OnePrints('u', Int(v));
    NumeralDenotes(v, 10);
    DecimalDigits(v);
  }

  /** "%x", "%X" and "%p": the hexadecimal digits, letters in upper case. */
  lemma PrintsHex(c: char, v: u32) returns (text: seq<byte>)
    requires c in "xXp"
    ensures Prints(c, Int(v), text)
    ensures Value(text, 16) == v && text != [] && (|text| > 1 ==> text[0] != '0' as int)
    ensures forall k :: 0 <= k < |text| ==>
      '0' as int <= text[k] <= '9' as int || 'A' as int <= text[k] <= 'F' as int
  {
    text := Numeral(v, 16);
    OnePrints(c, Int(v));
    NumeralDenotes(v, 16);
    HexDigits(v);
  }

  lemma {:induction false} HexDigits(i: nat)
    ensures forall k :: 0 <= k < |Numeral(i, 16)| ==>
      48 <= Numeral(i, 16)[k] <= 57 || 65 <= Numeral(i, 16)[k] <= 70
  {
    if i >= 16 {
      HexDigits(Quot(i, 16));
    }
  }

  /** "%d" and "%i": the argument as a signed number, except for -2^31, which prints as "-(". */
  lemma PrintsSigned(c: char, v: u32) returns (text: seq<byte>)
    requires c in "di"
    ensures Prints(c, Int(v), text)
    ensures v != 0x8000_0000 ==> SignedValue(text, 10) == Signed(v)
    ensures v < 0x8000_0000 ==> Signed(v) == v && forall k :: 0 <= k < |text| ==> '0' as int <= text[k] <= '9' as int
    ensures v >= 0x8000_0000 ==> Signed(v) == v - 0x1_0000_0000 && text != [] && text[0] == '-' as int
    ensures v == 0x8000_0000 ==> text == ['-' as int, '(' as int]
  {
    var i: i32 := Signed(v);
    text := IntText(i, 10);
    OnePrints(c, Int(v));
    if i < 0 {
      NegativeText(i, 10);
      MinusIs(i, text);
    } else {
      NumeralDenotes(i, 10);
      DecimalDigits(i);
    }
  }

  lemma MinusIs(i: i32, text: seq<byte>)
    requires i < 0 && text == IntText(i, 10) && text[0] == '-' as int
    ensures i != INT32_MIN ==> SignedValue(text, 10) == i
    ensures i == INT32_MIN ==> |text| == 2
  {
    if i != INT32_MIN {
      NumeralDenotes(-i, 10);
      assert text[1..] == Numeral(-i, 10);
    }
  }

  /** "%c": the low byte. "%s": the bytes before the first NUL. */
  lemma PrintsChar(v: u32)
    ensures Prints('c', Int(v), [v % 0x100])
  {
    OnePrints('c', Int(v));
  }

  lemma PrintsString(s: seq<byte>) returns (n: nat)
    requires 0 in s
    ensures n < |s| && s[n] == 0 && 0 !in s[..n] && Prints('s', Str(s), s[..n])
  {
    n := |Text(s)|;
    OnePrints('s', Str(s));
  }

  /** Any other letter but the unfinished l prints itself and takes no argument, and so does a
      character that is no percent sign. */
  lemma PrintsItself(c: byte)
    ensures c != '%' as int ==> WellTyped([c], []) && Render([c], []) == [c] && Conversions([c]) == 0
    ensures (forall d :: d in "scidupxXl" ==> c != d as int) ==>
      var f := ['%' as int, c]; WellTyped(f, []) && Render(f, []) == [c] && Conversions(f) == 0
  {
    var f: seq<byte> := ['%' as int, c];
    assert [c][1..] == [] && f[2..] == [];
    assert [c] + [] == [c];
    if forall d :: d in "scidupxXl" ==> c != d as int {
      assert forall d :: d in ['s', 'c', 'i', 'd', 'u', 'p', 'x', 'X', 'l'] ==> c != d as int;
      OtherLetter(c);
    }
  }

  lemma OtherLetter(c: byte)
    requires forall d :: d in "scidupxXl" ==> c != d as int
    ensures !TakesArg(c) && c != CH_L
  {
    var letters := "scidupxXl";
    assert 's' in letters && 'c' in letters && 'i' in letters && 'd' in letters && 'u' in letters;
    assert 'p' in letters && 'x' in letters && 'X' in letters && 'l' in letters;
  }
}
