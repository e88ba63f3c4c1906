/** src/log_common.c: the format interpreter of stub_lib_log_printf, writing to the log ring. */
module LogFormat {
  import opened Words
  import opened BitUtils
  import opened LogRing

  /** An argument of the variable list, as the caller passed it. */
  datatype Arg = Str(s: string) | Null | Word(w: uint32) | Chr(c: char)

  // ---- Numbers

  function Digit(d: nat, upper: bool): char
    requires d < 16
  {
    if d < 10 then '0' + d as char else (if upper then 'A' else 'a') + (d - 10) as char
  }

  function Digits(n: nat, base: nat, upper: bool): (s: string)
    requires 2 <= base <= 16
    ensures s != ""
  {
    if n < base then [Digit(n, upper)] else Digits(n / base, base, upper) + [Digit(n % base, upper)]
  }

  /** The value of a digit in either case; 16 for any other character. */
  function DigitValue(c: char): nat {
    if '0' <= c <= '9' then (c - '0') as nat
    else if 'a' <= c <= 'f' then (c - 'a') as nat + 10
    else if 'A' <= c <= 'F' then (c - 'A') as nat + 10
    else 16
  }

  function Value(s: string, base: nat): nat {
    if s == "" then 0 else Value(s[..|s| - 1], base) * base + DigitValue(s[|s| - 1])
  }

  lemma DigitRoundTrip(d: nat, upper: bool)
    requires d < 16
    ensures DigitValue(Digit(d, upper)) == d
  {
  }

  /** Reading the digits back gives the number. */
  lemma {:induction false} DigitsRoundTrip(n: nat, base: nat, upper: bool)
    requires 2 <= base <= 16
    ensures Value(Digits(n, base, upper), base) == n
  {
    hide Digit, DigitValue, Value;
    if n < base {
      DigitRoundTrip(n, upper);
      ValueAppend("", Digit(n, upper), base);
      assert "" + [Digit(n, upper)] == [Digit(n, upper)];
      ValueNothing(base);
    } else {
      DigitsRoundTrip(n / base, base, upper);
      DigitRoundTrip(n % base, upper);
      ValueAppend(Digits(n / base, base, upper), Digit(n % base, upper), base);
      Quotient(n, base);
    }
  }

  lemma Quotient(n: nat, base: nat)
    requires base > 0
    ensures (n / base) * base + n % base == n
  {
  }

  lemma ValueNothing(base: nat)
    ensures Value("", base) * base == 0
  {
  }

  lemma ValueAppend(s: string, c: char, base: nat)
    ensures Value(s + [c], base) == Value(s, base) * base + DigitValue(c)
  {
    assert (s + [c])[..|s|] == s;
  }

  lemma DigitChars(d: nat, upper: bool)
    requires d < 16
    ensures Digit(d, upper) == (if upper then "0123456789ABCDEF" else "0123456789abcdef")[d]
  {
  }

  function Power(base: nat, i: nat): nat {
    if i == 0 then 1 else base * Power(base, i - 1)
  }

  lemma {:induction false} PowerPositive(base: nat, i: nat)
    requires base > 0
    ensures Power(base, i) > 0
  {
    if i > 0 {
      PowerPositive(base, i - 1);
      ProductPositive(base, Power(base, i - 1));
    }
  }

  lemma ProductPositive(a: nat, b: nat)
    requires a > 0 && b > 0
    ensures a * b > 0
  {
  }

  lemma ProductOrder(a: nat, b: nat, c: nat)
    requires b <= c
    ensures a * b <= a * c
  {
  }

  lemma Regroup(a: nat, b: nat, c: nat)
    ensures (a * c) * b == (b * c) * a
  {
  }

  lemma Distribute(a: nat, b: nat, c: nat)
    ensures (a + b) * c == a * c + b * c && c * (a + 1) == c * a + c
  {
  }

  /** Dividing twice. */
  lemma DivDiv(n: nat, b: nat, c: nat)
    requires b > 0 && c > 0
    ensures b * c > 0 && n / b / c == n / (b * c)
  {
    var q, r := n / b, n % b;
    var q', r' := q / c, q % c;
    ProductPositive(b, c);
    Quotient(n, b);
    Quotient(q, c);
    Distribute(q' * c, r', b);
    Regroup(q', b, c);
    Distribute(r', 0, b);
    ProductOrder(b, r' + 1, c);
    assert n == (b * c) * q' + (r' * b + r);
    DivModUnique(n, b * c, q', r' * b + r);
  }

  /** The character at place i, counted from the right. */
  function PlaceChar(n: nat, base: nat, i: nat, upper: bool): char
    requires 2 <= base <= 16
  {
    PowerPositive(base, i);
    (if upper then "0123456789ABCDEF" else "0123456789abcdef")[(n / Power(base, i)) % base]
  }

  lemma PlaceStep(n: nat, base: nat, i: nat, upper: bool)
    requires 2 <= base <= 16
    ensures PlaceChar(n, base, 0, upper) == Digit(n % base, upper)
    ensures i > 0 ==> PlaceChar(n, base, i, upper) == PlaceChar(n / base, base, i - 1, upper)
  {
    hide Digit;
    DigitChars(n % base, upper);
    assert n / 1 == n;
    if i > 0 {
      PowerPositive(base, i - 1);
      DivDiv(n, base, Power(base, i - 1));
    }
  }

  /**
   * The digits of n in a base: the character at each place is that of the place's value,
   * and there are as many places as n needs, so there is no leading zero.
   */
  lemma {:induction false} DigitPlaces(n: nat, base: nat, upper: bool)
    requires 2 <= base <= 16
    ensures var s := Digits(n, base, upper);
            && n < Power(base, |s|) && (|s| > 1 ==> Power(base, |s| - 1) <= n)
            && forall i :: 0 <= i < |s| ==> s[|s| - 1 - i] == PlaceChar(n, base, i, upper)
  {
    hide Digit, Power, PlaceChar, Digits;
    DigitsUnfold(n, base, upper);
    PowerStep(base, 0);
    PlaceStep(n, base, 0, upper);
    if n >= base {
      var m: nat := n / base;
      var s, t := Digits(n, base, upper), Digits(m, base, upper);
      DigitPlaces(m, base, upper);
      PowerStep(base, |t|);
      PowerStep(base, |t| - 1);
      PlaceBounds(n, base, Power(base, |t|), Power(base, |t| - 1));
      forall i | 0 <= i < |s|
        ensures s[|s| - 1 - i] == PlaceChar(n, base, i, upper)
      {
        if i > 0 {
          PlaceStep(n, base, i, upper);
          assert s[|s| - 1 - i] == t[|t| - 1 - (i - 1)];
        }
      }
    }
  }

  lemma DigitsUnfold(n: nat, base: nat, upper: bool)
    requires 2 <= base <= 16
    ensures n < base ==> n % base == n && Digits(n, base, upper) == [Digit(n % base, upper)]
    ensures n >= base ==> 0 < n / base < n && Digits(n, base, upper) == Digits(n / base, base, upper) + [Digit(n % base, upper)]
  {
    hide Digit;
    if n >= base {
      Shrinks(n, base);
    } else {
      DivModUnique(n, base, 0, n);
    }
  }

  lemma Shrinks(n: nat, base: nat)
    requires 2 <= base <= n
    ensures 0 < n / base < n
  {
  }

  lemma PowerStep(base: nat, i: nat)
    ensures Power(base, 0) == 1 && Power(base, i + 1) == base * Power(base, i)
  {
  }

  lemma PlaceBounds(n: nat, base: nat, hi: nat, lo: nat)
    requires base > 0 && n / base < hi
    ensures n < base * hi
    ensures lo <= n / base ==> base * lo <= n
  {
    var q := n / base;
    Quotient(n, base);
    Distribute(q, 0, base);
    ProductOrder(base, q + 1, hi);
    if lo <= q { ProductOrder(base, lo, q); }
  }

  /** What %d prints: the argument is a 32-bit two's complement number. */
  function Signed(w: uint32): int {
    if w < 0x8000_0000 then w else w - 0x1_0000_0000
  }

  function SignedText(w: uint32): string {
    if Signed(w) < 0 then "-" + Digits(-Signed(w), 10, false) else Digits(Signed(w), 10, false)
  }

  function SignedValue(s: string): int {
    if s != "" && s[0] == '-' then -(Value(s[1..], 10) as int) else Value(s, 10)
  }

  lemma {:induction false} FirstIsDigit(n: nat, base: nat, upper: bool)
    requires 2 <= base <= 16
    ensures Digits(n, base, upper)[0] != '-'
  {
    hide Digit;
    if n < base {
      NotMinus(n, upper);
    } else {
      FirstIsDigit(n / base, base, upper);
    }
  }

  lemma NotMinus(d: nat, upper: bool)
    requires d < 16
    ensures Digit(d, upper) != '-'
  {
  }

  lemma SignedRoundTrip(w: uint32)
    ensures SignedValue(SignedText(w)) == Signed(w)
  {
    var d := Signed(w);
    if d < 0 {
      DigitsRoundTrip(-d, 10, false);
      assert SignedText(w)[1..] == Digits(-d, 10, false);
    } else {
      DigitsRoundTrip(d, 10, false);
      FirstIsDigit(d, 10, false);
    }
  }

  // ---- The meaning of a format

  predicate TakesArg(spec: char) {
    spec in {'s', 'd', 'u', 'x', 'X', 'c'}
  }

  predicate ArgFits(spec: char, a: Arg) {
    if spec == 's' then a.Str? || a.Null?
    else if spec == 'd' then a.Word? && Signed(a.w) > -0x8000_0000
    else a.Word?
  }

  /** The caller's duty: no lone % at the end, and an argument of the right kind for each supported specifier. */
  predicate Fits(fmt: string, args: seq<Arg>)
    decreases |fmt|
  {
    if fmt == "" then true
    else if fmt[0] != '%' then Fits(fmt[1..], args)
    else if |fmt| == 1 then false
    else if TakesArg(fmt[1]) then args != [] && ArgFits(fmt[1], args[0]) && Fits(fmt[2..], args[1..])
    else Fits(fmt[2..], args)
  }

  /** How one argument is shown. */
  function Show(spec: char, a: Arg): string
    requires TakesArg(spec) && ArgFits(spec, a)
  {
    match spec
    case 's' => if a.Str? then a.s else "(null)"
    case 'd' => SignedText(a.w)
    case 'u' => Digits(a.w, 10, false)
    case 'x' => Digits(a.w, 16, false)
    case 'X' => Digits(a.w, 16, true)
    case 'c' => [(a.w % 256) as char]
  }

  function Render(fmt: string, args: seq<Arg>): string
    requires Fits(fmt, args)
    decreases |fmt|
  {
    if fmt == "" then ""
    else if fmt[0] != '%' then [fmt[0]] + Render(fmt[1..], args)
    else if TakesArg(fmt[1]) then Show(fmt[1], args[0]) + Render(fmt[2..], args[1..])
    else fmt[..2] + Render(fmt[2..], args)
  }

  /** What each specifier prints; an unsupported one, %% included, is echoed and takes no argument. */
  lemma SpecifierMeanings(w: uint32, text: string, c: char, args: seq<Arg>)
    ensures Fits("%u", [Word(w)]) && Render("%u", [Word(w)]) == Digits(w, 10, false)
    ensures Fits("%x", [Word(w)]) && Render("%x", [Word(w)]) == Digits(w, 16, false)
    ensures Fits("%X", [Word(w)]) && Render("%X", [Word(w)]) == Digits(w, 16, true)
    ensures Fits("%c", [Word(w)]) && Render("%c", [Word(w)]) == [(w % 256) as char]
    ensures Fits("%s", [Str(text)]) && Render("%s", [Str(text)]) == text
    ensures Fits("%s", [Null]) && Render("%s", [Null]) == "(null)"
    ensures w != 0x8000_0000 ==>
              && Fits("%d", [Word(w)])
              && Render("%d", [Word(w)])
              == if w < 0x8000_0000 then Digits(w, 10, false) else "-" + Digits(0x1_0000_0000 - w, 10, false)
    ensures c !in {'s', 'd', 'u', 'x', 'X', 'c'} ==> Fits("%" + [c], args) && Render("%" + [c], args) == "%" + [c]
  {
    hide Digits;
    forall spec | TakesArg(spec)
      ensures forall a :: ArgFits(spec, a) ==> Fits("%" + [spec], [a]) && Render("%" + [spec], [a]) == Show(spec, a)
    {
      forall a | ArgFits(spec, a)
        ensures Fits("%" + [spec], [a]) && Render("%" + [spec], [a]) == Show(spec, a)
      {
        OneSpecifier(spec, a);
      }
    }
    if !TakesArg(c) { OneEcho(c, args); }
  }

  lemma OneSpecifier(spec: char, a: Arg)
    requires TakesArg(spec) && ArgFits(spec, a)
    ensures Fits("%" + [spec], [a]) && Render("%" + [spec], [a]) == Show(spec, a)
  {
    hide Show, ArgFits, TakesArg;
    var f := "%" + [spec];
    assert f[2..] == "" && [a][1..] == [];
  }

  lemma OneEcho(c: char, args: seq<Arg>)
    requires !TakesArg(c)
    ensures Fits("%" + [c], args) && Render("%" + [c], args) == "%" + [c]
  {
    hide Show, ArgFits;
    var f := "%" + [c];
    assert f[2..] == "" && f[..2] == f;
  }

  /** The number of supported specifiers. */
  function Consumed(fmt: string): nat
    decreases |fmt|
  {
    if |fmt| < 2 then 0
    else if fmt[0] != '%' then Consumed(fmt[1..])
    else (if TakesArg(fmt[1]) then 1 else 0) + Consumed(fmt[2..])
  }

  /** The arguments a format needs are the first ones, and only those. */
  lemma {:induction false} FitsPrefix(f: string, args: seq<Arg>)
    requires Fits(f, args)
    ensures Consumed(f) <= |args| && Fits(f, args[..Consumed(f)])
    ensures Render(f, args[..Consumed(f)]) == Render(f, args)
    decreases |f|
  {
    hide Show, ArgFits, TakesArg;
    if f == "" {
    } else if f[0] != '%' {
      FitsPrefix(f[1..], args);
    } else if TakesArg(f[1]) {
      FitsPrefix(f[2..], args[1..]);
      assert args[1..][..Consumed(f) - 1] == args[..Consumed(f)][1..];
    } else {
      FitsPrefix(f[2..], args);
    }
  }

  /** What the first character or specifier of a format contributes. */
  lemma RenderUnfold(f: string, args: seq<Arg>)
    requires Fits(f, args)
    ensures f == "" ==> Render(f, args) == "" && Consumed(f) == 0
    ensures f != "" && f[0] != '%' ==>
              && Fits(f[1..], args) && Consumed(f) == Consumed(f[1..])
              && Render(f, args) == [f[0]] + Render(f[1..], args)
    ensures f != "" && f[0] == '%' ==> |f| > 1
    ensures f != "" && f[0] == '%' && TakesArg(f[1]) ==>
              && args != [] && ArgFits(f[1], args[0]) && Fits(f[2..], args[1..]) && Consumed(f) == 1 + Consumed(f[2..])
              && Render(f, args) == Show(f[1], args[0]) + Render(f[2..], args[1..])
    ensures f != "" && f[0] == '%' && !TakesArg(f[1]) ==>
              && Fits(f[2..], args) && Consumed(f) == Consumed(f[2..])
              && Render(f, args) == f[..2] + Render(f[2..], args)
  {
    hide Show, ArgFits, TakesArg;
  }

  lemma {:induction false} RenderSplits(f: string, g: string, args: seq<Arg>)
    requires Fits(f, args) && Fits(f + g, args)
    ensures Consumed(f) <= |args| && Fits(g, args[Consumed(f)..])
    ensures Render(f + g, args) == Render(f, args) + Render(g, args[Consumed(f)..])
    decreases |f|
  {
    hide Show, ArgFits, TakesArg, Render, Fits, Consumed;
    RenderUnfold(f, args);
    RenderUnfold(f + g, args);
    if f == "" {
      assert f + g == g && args[0..] == args;
    } else if f[0] != '%' {
      assert (f + g)[1..] == f[1..] + g;
      RenderSplits(f[1..], g, args);
    } else if TakesArg(f[1]) {
      assert (f + g)[2..] == f[2..] + g;
      RenderSplits(f[2..], g, args[1..]);
      assert args[1..][Consumed(f) - 1..] == args[Consumed(f)..];
    } else {
      assert (f + g)[2..] == f[2..] + g && (f + g)[..2] == f[..2];
      RenderSplits(f[2..], g, args);
    }
  }

  lemma FitsUnfold(f: string, args: seq<Arg>)
    ensures f == "" ==> Fits(f, args)
    ensures f != "" && f[0] != '%' ==> (Fits(f, args) <==> Fits(f[1..], args))
    ensures f == "%" ==> !Fits(f, args)
    ensures |f| > 1 && f[0] == '%' && TakesArg(f[1]) ==>
              (Fits(f, args) <==> args != [] && ArgFits(f[1], args[0]) && Fits(f[2..], args[1..]))
    ensures |f| > 1 && f[0] == '%' && !TakesArg(f[1]) ==> (Fits(f, args) <==> Fits(f[2..], args))
  {
    hide ArgFits, TakesArg;
  }

  lemma {:induction false} FitsConcat(f: string, g: string, args: seq<Arg>)
    requires Fits(f, args)
    ensures Consumed(f) <= |args| && (Fits(f + g, args) <==> Fits(g, args[Consumed(f)..]))
    decreases |f|
  {
    hide ArgFits, TakesArg, Fits, Consumed, Render;
    RenderUnfold(f, args);
    FitsUnfold(f + g, args);
    if f == "" {
      assert f + g == g && args[0..] == args;
    } else if f[0] != '%' {
      assert (f + g)[1..] == f[1..] + g;
      FitsConcat(f[1..], g, args);
    } else if TakesArg(f[1]) {
      assert (f + g)[2..] == f[2..] + g;
      FitsConcat(f[2..], g, args[1..]);
      assert args[1..][Consumed(f) - 1..] == args[Consumed(f)..];
    } else {
      assert (f + g)[2..] == f[2..] + g;
      FitsConcat(f[2..], g, args);
    }
  }

  /** Formats compose: the second one starts with the first argument that the first one left. */
  lemma RenderConcat(f: string, g: string, args: seq<Arg>)
    requires Fits(f, args)
    ensures Consumed(f) <= |args| && Fits(f, args[..Consumed(f)])
    ensures Fits(f + g, args) <==> Fits(g, args[Consumed(f)..])
    ensures Fits(f + g, args) ==> Render(f + g, args) == Render(f, args[..Consumed(f)]) + Render(g, args[Consumed(f)..])
  {
    hide Render, Fits, Consumed;
    FitsPrefix(f, args);
    FitsConcat(f, g, args);
    if Fits(f + g, args) {
      RenderSplits(f, g, args);
    }
  }

  /** Plain text fits any arguments and comes out as it is. */
  lemma {:induction false} RenderPlain(text: string, args: seq<Arg>)
    requires '%' !in text
    ensures Fits(text, args) && Render(text, args) == text
  {
    if text != "" {
      RenderPlain(text[1..], args);
    }
  }

  /** Text without supported specifiers, unsupported ones included, comes out unchanged. */
  lemma {:induction false} RenderVerbatim(fmt: string, args: seq<Arg>)
    requires Fits(fmt, args) && Consumed(fmt) == 0
    ensures Render(fmt, args) == fmt
    decreases |fmt|
  {
    if fmt != "" {
      if fmt[0] != '%' {
        RenderVerbatim(fmt[1..], args);
      } else {
        RenderVerbatim(fmt[2..], args);
        assert fmt == fmt[..2] + fmt[2..];
      }
    }
  }

  // ---- The ROM's printf, for the formats that are passed to it

  predicate RomTakes(fmt: string, a: Arg) {
    || (fmt == "%c" && (a.Word? || a.Chr?))
    || (fmt == "%s" && a.Str?)
    || ((fmt == "%u" || fmt == "-%u" || fmt == "%x" || fmt == "%X") && a.Word?)
  }

  function RomText(fmt: string, a: Arg): string
    requires RomTakes(fmt, a)
  {
    if fmt == "%c" then [if a.Chr? then a.c else (a.w % 256) as char]
    else if fmt == "%s" then a.s
    else if fmt == "%u" then Digits(a.w, 10, false)
    else if fmt == "-%u" then "-" + Digits(a.w, 10, false)
    else if fmt == "%x" then Digits(a.w, 16, false)
    else Digits(a.w, 16, true)
  }

  /** The numeric specifiers are handed to the ROM as they are. */
  lemma SpecText(spec: char, a: Arg)
    requires spec in {'u', 'x', 'X'} && a.Word?
    ensures RomTakes("%" + [spec], a) && RomText("%" + [spec], a) == Show(spec, a)
  {
    hide Digits;
    assert "%" + [spec] == ['%', spec];
  }

  class Logger {
    const ring: Ring

    constructor (ring: Ring)
      requires ring.Valid()
      ensures this.ring == ring
    {
      this.ring := ring;
    }

    /** ets_printf, with the ring as its output channel. */
    method EtsPrintf(fmt: string, a: Arg)
      requires ring.Valid() && RomTakes(fmt, a)
      modifies ring, ring.buf
      ensures ring.Valid() && ring.written == old(ring.written) + RomText(fmt, a)
    {
      var text := RomText(fmt, a);
      for i := 0 to |text|
        invariant ring.Valid() && ring.written == old(ring.written) + text[..i]
      {
        ring.WriteChar(text[i]);
      }
      assert text[..|text|] == text;
    }

    /** One supported specifier with its argument. */
    method PrintArg(spec: char, a: Arg)
      requires ring.Valid() && TakesArg(spec) && ArgFits(spec, a)
      modifies ring, ring.buf
      ensures ring.Valid() && ring.written == old(ring.written) + Show(spec, a)
    {
      hide Digits;
      match spec {
        case 's' =>
          EtsPrintf("%s", if a.Null? then Str("(null)") else a);
        case 'd' =>
          var d := Signed(a.w);
          if d < 0 {
            EtsPrintf("-%u", Word(Wrap(-d)));
          } else {
            EtsPrintf("%u", Word(Wrap(d)));
          }
        case 'c' =>
          EtsPrintf("%c", a);
        case _ =>
          SpecText(spec, a);
          EtsPrintf("%" + [spec], a);
      }
    }

    /** stub_lib_log_printf: the text that reaches the ring is the rendering of the format. */
    method Printf(fmt: string, args: seq<Arg>)
      requires ring.Valid() && Fits(fmt, args)
      modifies ring, ring.buf
      ensures ring.Valid() && ring.written == old(ring.written) + Render(fmt, args)
    {
      hide Show, ArgFits, TakesArg, RomText;
      var f, list := fmt, args;
      while f != ""
        invariant ring.Valid() && Fits(f, list)
        invariant ring.written + Render(f, list) == old(ring.written) + Render(fmt, args)
        decreases |f|
      {
        ghost var w := ring.written;
        RenderStep(f, list, w);
        if f[0] != '%' {
          RomChar(f[0]);
          EtsPrintf("%c", Chr(f[0]));
          f := f[1..];
          continue;
        }
        var spec := f[1];
        if TakesArg(spec) {
          PrintArg(spec, list[0]);
          list := list[1..];
        } else {
          RomString("%" + [spec]);
          EtsPrintf("%s", Str("%" + [spec]));
        }
        f := f[2..];
      }
    }
  }

  lemma RomChar(c: char)
    ensures RomTakes("%c", Chr(c)) && RomText("%c", Chr(c)) == [c]
  {
  }

  lemma RomString(s: string)
    ensures RomTakes("%s", Str(s)) && RomText("%s", Str(s)) == s
  {
  }

  /** What one turn of the loop adds to the text w already written. */
  lemma RenderStep(f: string, args: seq<Arg>, w: string)
    requires f != "" && Fits(f, args)
    ensures f[0] != '%' ==> Fits(f[1..], args) && w + [f[0]] + Render(f[1..], args) == w + Render(f, args)
    ensures f[0] == '%' ==> |f| > 1
    ensures f[0] == '%' && TakesArg(f[1]) ==>
              && args != [] && ArgFits(f[1], args[0]) && Fits(f[2..], args[1..])
              && w + Show(f[1], args[0]) + Render(f[2..], args[1..]) == w + Render(f, args)
    ensures f[0] == '%' && !TakesArg(f[1]) ==>
              Fits(f[2..], args) && w + ("%" + [f[1]]) + Render(f[2..], args) == w + Render(f, args)
  {
    hide Show, ArgFits, TakesArg, Render, Fits;
    RenderUnfold(f, args);
    if f[0] == '%' { assert "%" + [f[1]] == f[..2]; }
  }

  datatype Call = Call(fmt: string, args: seq<Arg>)

  function RenderAll(calls: seq<Call>): string
    requires forall c :: c in calls ==> Fits(c.fmt, c.args)
  {
    if calls == [] then "" else RenderAll(calls[..|calls| - 1]) + Render(calls[|calls| - 1].fmt, calls[|calls| - 1].args)
  }

  /** Any run of log calls on a fresh ring of any size leaves the most recent text in it. */
  method LogAll(size: nat, calls: seq<Call>) returns (ring: Ring)
    requires size > 0 && forall c :: c in calls ==> Fits(c.fmt, c.args)
    ensures fresh(ring) && ring.Valid() && ring.buf.Length == size
    ensures var text := RenderAll(calls);
            var k := if |text| < size then |text| else size;
            Last(k, ring.Readout()) == Last(k, text)
  {
    ring := new Ring(size);
    var logger := new Logger(ring);
    for i := 0 to |calls|
      invariant fresh(ring) && fresh(ring.buf) && ring.Valid() && ring.buf.Length == size && logger.ring == ring
      invariant ring.written == RenderAll(calls[..i])
    {
      assert calls[..i + 1][..i] == calls[..i];
      assert calls[i] in calls;
      logger.Printf(calls[i].fmt, calls[i].args);
    }
    assert calls[..|calls|] == calls;
    RecentText(size, ring.written);
  }
}
