/** tfm_log_raw.c: a format interpreter over a 32-byte buffer that is flushed when full. */
module Log {
  import opened Bytes
  import opened CArithmetic

  const BUFF_SIZE := 32
  const NUM_BUFF_SIZE := 12
  const UNSUPPORTED := "[Unsupported Tag]"
  const DECIMAL := "0123456789"
  const HEX_LO := "0123456789abcdef"
  const HEX_UP := "0123456789ABCDEF"

  // ---------- the renderer ----------

  /** One machine word, or a string, taken by va_arg. */
  datatype Arg = Num(bits: uint32) | Str(text: string)

  /** A positional numeral; digits names the symbols, as many as the base. */
  function Numeral(n: nat, digits: string): (r: string)
    requires |digits| > 1
    ensures r != ""
  {
    if n < |digits| then [digits[n]] else
    Smaller(n, |digits|);
    Numeral(n / |digits|, digits) + [digits[n % |digits|]]
  }

  lemma Smaller(n: nat, base: nat)
    requires n >= base > 1
    ensures 0 < n / base < n
    ensures n == n / base * base + n % base && 0 <= n % base < base
  {
    var q, r := n / base, n % base;
    assert n == q * base + r;
    MulOrder(1, q + 1, base);
    assert (q + 1) * base == q * base + base;
    MulOrder(q + 1, 1, base);
    MulOrder(2, base, if q > 0 then q else 1);
  }

  /** %d: a sign, if negative, and the magnitude. */
  function Signed(x: int32): string {
    if x < 0 then "-" + Numeral(-(x as int), DECIMAL) else Numeral(x, DECIMAL)
  }

  /** What one conversion character prints; None for an unknown one. */
  datatype Conversion = Word(show: uint32 -> string) | Text | Literal(text: string) | Unknown

  function ConversionOf(c: char): Conversion {
    if c == 'd' || c == 'i' then Word((b: uint32) => Signed(ToInt32(b)))
    else if c == 'u' then Word((b: uint32) => Numeral(b, DECIMAL))
    else if c == 'x' then Word((b: uint32) => Numeral(b, HEX_LO))
    else if c == 'X' then Word((b: uint32) => Numeral(b, HEX_UP))
    else if c == 'p' then Word((b: uint32) => "0x" + Numeral(b, HEX_LO))
    else if c == 'c' then Word((b: uint32) => [(b % 0x100) as char])
    else if c == 's' then Text
    else if c == '%' then Literal("%")
    else Unknown
  }

  /** The conversion's argument, if it takes one, is there and of its kind. */
  predicate Takes(c: char, args: seq<Arg>) {
    match ConversionOf(c)
    case Word(_) => args != [] && args[0].Num?
    case Text => args != [] && args[0].Str?
    case _ => true
  }

  predicate Consumes(c: char) {
    ConversionOf(c).Word? || ConversionOf(c).Text?
  }

  /** What the conversion prints. */
  function TagText(c: char, args: seq<Arg>): string
    requires Takes(c, args)
  {
    match ConversionOf(c)
    case Word(show) => show(args[0].bits)
    case Text => args[0].text
    case Literal(t) => t
    case Unknown => UNSUPPORTED
  }

  /** The conversions one by one. */
  lemma TagTexts(c: char, args: seq<Arg>)
    requires Takes(c, args)
    ensures c in "diuxXpc" ==> args != [] && args[0].Num?
    ensures c == 'd' || c == 'i' ==> TagText(c, args) == Signed(ToInt32(args[0].bits))
    ensures c == 'u' ==> TagText(c, args) == Numeral(ToUint32(ToInt32(args[0].bits)), DECIMAL)
    ensures c == 'x' ==> TagText(c, args) == Numeral(args[0].bits, HEX_LO)
    ensures c == 'X' ==> TagText(c, args) == Numeral(args[0].bits, HEX_UP)
    ensures c == 'p' ==> TagText(c, args) == "0x" + Numeral(args[0].bits, HEX_LO)
    ensures c == 'c' ==> TagText(c, args) == [(args[0].bits % 0x100) as char]
    ensures c == 's' ==> args != [] && args[0].Str? && TagText(c, args) == args[0].text
    ensures c == '%' ==> TagText(c, args) == "%"
    ensures c !in "diuxXpcs%" ==> TagText(c, args) == UNSUPPORTED
  {
    hide Numeral, Signed;
    if c == 'u' { assert ToUint32(ToInt32(args[0].bits)) == args[0].bits; }
  }

  /** The character after % is passed over, unless it is an unknown conversion. */
  function Skip(c: char): (n: nat)
    ensures 1 <= n <= 2
  {
    if ConversionOf(c).Unknown? then 1 else 2
  }

  function Rest(c: char, args: seq<Arg>): seq<Arg>
    requires Takes(c, args)
  {
    if Consumes(c) then args[1..] else args
  }

  /** Every conversion of the format finds its argument. */
  predicate Matches(fmt: string, args: seq<Arg>) {
    if fmt == "" then true
    else if fmt[0] != '%' then Matches(fmt[1..], args)
    else if |fmt| == 1 then true
    else Takes(fmt[1], args) && Matches(fmt[Skip(fmt[1])..], Rest(fmt[1], args))
  }

  /** The text a format and its arguments stand for. An unknown conversion prints a notice and its
      character is then taken as ordinary text; a lone % at the end prints the notice. */
  function Render(fmt: string, args: seq<Arg>): string
    requires Matches(fmt, args)
  {
    if fmt == "" then ""
    else if fmt[0] != '%' then [fmt[0]] + Render(fmt[1..], args)
    else if |fmt| == 1 then UNSUPPORTED
    else TagText(fmt[1], args) + Render(fmt[Skip(fmt[1])..], Rest(fmt[1], args))
  }

  lemma RenderNext(fmt: string, args: seq<Arg>, i: nat, a: nat)
    requires i < |fmt| && a <= |args| && Matches(fmt[i..], args[a..])
    ensures fmt[i] != '%' ==>
              Matches(fmt[i + 1..], args[a..]) &&
              Render(fmt[i..], args[a..]) == [fmt[i]] + Render(fmt[i + 1..], args[a..])
    ensures fmt[i] == '%' && i + 1 == |fmt| ==> Render(fmt[i..], args[a..]) == UNSUPPORTED
    ensures fmt[i] == '%' && i + 1 < |fmt| ==>
              var c := fmt[i + 1];
              var a' := if Consumes(c) then a + 1 else a;
              Takes(c, args[a..]) && a' <= |args| && i + Skip(c) <= |fmt| &&
              Matches(fmt[i + Skip(c)..], args[a'..]) &&
              Render(fmt[i..], args[a..]) == TagText(c, args[a..]) + Render(fmt[i + Skip(c)..], args[a'..])
  {
    var f, g := fmt[i..], args[a..];
    assert f[1..] == fmt[i + 1..];
    if f[0] == '%' && |f| > 1 {
      var c := f[1];
      assert f[Skip(c)..] == fmt[i + Skip(c)..];
      if Consumes(c) { assert g[1..] == args[a + 1..]; }
    }
  }

  /** A rendering piece by piece: w is a word argument, t a string argument, rest and args what follows. */
  lemma RenderLaws(c: char, w: uint32, t: string, rest: string, args: seq<Arg>)
    requires Matches(rest, args)
    ensures c != '%' ==> Matches([c] + rest, args) && Render([c] + rest, args) == [c] + Render(rest, args)
    ensures c in "diuxXpc" ==>
              Matches(['%', c] + rest, [Num(w)] + args) &&
              Render(['%', c] + rest, [Num(w)] + args) == WordText(c, w) + Render(rest, args)
    ensures Matches("%s" + rest, [Str(t)] + args) && Render("%s" + rest, [Str(t)] + args) == t + Render(rest, args)
    ensures Matches("%%" + rest, args) && Render("%%" + rest, args) == "%" + Render(rest, args)
    ensures c !in "diuxXpcs%" ==>
              Matches(['%', c] + rest, args) &&
              Render(['%', c] + rest, args) == "[Unsupported Tag]" + [c] + Render(rest, args)
    ensures Matches("%", args) && Render("%", args) == "[Unsupported Tag]" && Render("", args) == ""
  {
    hide Render, Matches, Numeral, Signed;
    RenderEnds(args);
    if c != '%' { RenderPlain(c, rest, args); }
    if c in "diuxXpc" { RenderTag(c, [Num(w)] + args, args, rest); }
    RenderTag('s', [Str(t)] + args, args, rest);
    RenderTag('%', args, args, rest);
    assert ['%', 's'] == "%s" && ['%', '%'] == "%%";
    if c !in "diuxXpcs%" { RenderUnknown(c, rest, args); }
  }

  /** The text of a word under its conversion. */
  function WordText(c: char, w: uint32): string
    requires c in "diuxXpc"
  {
    if c == 'd' || c == 'i' then Signed(ToInt32(w))
    else if c == 'u' then Numeral(w, "0123456789")
    else if c == 'x' then Numeral(w, "0123456789abcdef")
    else if c == 'X' then Numeral(w, "0123456789ABCDEF")
    else if c == 'p' then "0x" + Numeral(w, "0123456789abcdef")
    else [(w % 256) as char]
  }

  lemma RenderEnds(args: seq<Arg>)
    ensures Matches("%", args) && Render("%", args) == "[Unsupported Tag]" && Render("", args) == ""
  {
  }

  lemma RenderPlain(c: char, rest: string, args: seq<Arg>)
    requires c != '%' && Matches(rest, args)
    ensures Matches([c] + rest, args) && Render([c] + rest, args) == [c] + Render(rest, args)
  {
    assert ([c] + rest)[1..] == rest;
  }

  lemma RenderTag(c: char, all: seq<Arg>, args: seq<Arg>, rest: string)
    requires Matches(rest, args) && Takes(c, all) && Rest(c, all) == args && Skip(c) == 2
    ensures Matches(['%', c] + rest, all) && Render(['%', c] + rest, all) == TagText(c, all) + Render(rest, args)
  {
    hide Takes, Rest, Skip, TagText;
    assert (['%', c] + rest)[2..] == rest;
  }

  /** The notice, and then the character as ordinary text. */
  lemma RenderUnknown(c: char, rest: string, args: seq<Arg>)
    requires c !in "diuxXpcs%" && Matches(rest, args)
    ensures Matches(['%', c] + rest, args)
    ensures Render(['%', c] + rest, args) == "[Unsupported Tag]" + [c] + Render(rest, args)
  {
    hide Matches, Render;
    RenderPlain(c, rest, args);
    RenderNotice(c, [c] + rest, args);
    assert ['%', c] + rest == ['%'] + ([c] + rest);
    assert "[Unsupported Tag]" + ([c] + Render(rest, args)) == "[Unsupported Tag]" + [c] + Render(rest, args);
  }

  lemma RenderNotice(c: char, rest: string, args: seq<Arg>)
    requires Takes(c, args) && Rest(c, args) == args && Skip(c) == 1 && rest != "" && rest[0] == c
    requires Matches(rest, args)
    ensures Matches(['%'] + rest, args) && Render(['%'] + rest, args) == TagText(c, args) + Render(rest, args)
  {
    hide Takes, Rest, Skip, TagText;
    assert (['%'] + rest)[1..] == rest;
  }

  // ---------- numerals read back ----------

  function DigitValue(c: char, digits: string): int {
    if digits == "" then -1
    else if digits[|digits| - 1] == c then |digits| - 1
    else DigitValue(c, digits[..|digits| - 1])
  }

  /** The value of a numeral. */
  function Parse(s: string, digits: string): int {
    if s == "" then 0 else Parse(s[..|s| - 1], digits) * |digits| + DigitValue(s[|s| - 1], digits)
  }

  /** Every symbol stands for its own index. */
  ghost predicate Symbols(digits: string) {
    |digits| > 1 && forall i :: 0 <= i < |digits| ==> DigitValue(digits[i], digits) == i
  }

  lemma {:induction false} DigitOf(digits: string, i: nat)
    requires i < |digits| && forall j, k :: 0 <= j < k < |digits| ==> digits[j] != digits[k]
    ensures DigitValue(digits[i], digits) == i
  {
    if i < |digits| - 1 { DigitOf(digits[..|digits| - 1], i); }
  }

  lemma TablesAreSymbols()
    ensures Symbols(DECIMAL) && Symbols(HEX_LO) && Symbols(HEX_UP)
    ensures |DECIMAL| == 10 && |HEX_LO| == |HEX_UP| == 16
    ensures forall i :: 0 <= i < 10 ==> DECIMAL[i] as int == HEX_LO[i] as int == HEX_UP[i] as int == 48 + i
    ensures forall i :: 10 <= i < 16 ==> HEX_LO[i] as int == 87 + i && HEX_UP[i] as int == 55 + i
  {
    forall i | 0 <= i < 10 ensures DigitValue(DECIMAL[i], DECIMAL) == i { DigitOf(DECIMAL, i); }
    forall i | 0 <= i < 16 ensures DigitValue(HEX_LO[i], HEX_LO) == i { DigitOf(HEX_LO, i); }
    forall i | 0 <= i < 16 ensures DigitValue(HEX_UP[i], HEX_UP) == i { DigitOf(HEX_UP, i); }
  }

  /** A printed number parses back to its value, and has no leading zero unless it is zero. */
  lemma {:induction false} NumeralRoundTrip(n: nat, digits: string)
    requires Symbols(digits)
    ensures Parse(Numeral(n, digits), digits) == n
    ensures n > 0 ==> Numeral(n, digits)[0] != digits[0]
    decreases n
  {
    hide Numeral, Parse, DigitValue;
    var base := |digits|;
    assert DigitValue(digits[0], digits) == 0;
    if n < base {
      OneDigit(n, digits);
      assert DigitValue(digits[n], digits) == n;
    } else {
      Smaller(n, base);
      MoreDigits(n, digits);
      NumeralRoundTrip(n / base, digits);
      ParseNext(Numeral(n / base, digits), digits[n % base], digits);
      assert DigitValue(digits[n % base], digits) == n % base;
    }
  }

  lemma OneDigit(n: nat, digits: string)
    requires n < |digits| && |digits| > 1
    ensures Numeral(n, digits) == [digits[n]]
    ensures Parse(Numeral(n, digits), digits) == DigitValue(digits[n], digits)
  {
    hide DigitValue;
    assert [digits[n]][..0] == "" && Parse("", digits) == 0;
  }

  lemma MoreDigits(n: nat, digits: string)
    requires n >= |digits| > 1
    ensures 0 <= n % |digits| < |digits|
    ensures Numeral(n, digits) == Numeral(n / |digits|, digits) + [digits[n % |digits|]]
  {
    Smaller(n, |digits|);
  }

  lemma ParseNext(s: string, c: char, digits: string)
    ensures Parse(s + [c], digits) == Parse(s, digits) * |digits| + DigitValue(c, digits)
  {
    hide DigitValue;
    assert (s + [c])[..|s|] == s;
  }

  /** %d parses back: the sign and the magnitude. */
  lemma SignedRoundTrip(x: int32)
    ensures var s := Signed(x);
            s != "" && (s[0] == '-' <==> x < 0) &&
            x == if s[0] == '-' then -Parse(s[1..], DECIMAL) else Parse(s, DECIMAL)
  {
    hide Numeral, Parse, DigitValue;
    TablesAreSymbols();
    DigitsAreNotMinus();
    if x < 0 {
      NumeralRoundTrip(-(x as int), DECIMAL);
      assert Signed(x)[1..] == Numeral(-(x as int), DECIMAL);
    } else {
      NumeralRoundTrip(x, DECIMAL);
      NumeralStart(x, DECIMAL);
    }
  }

  lemma DigitsAreNotMinus()
    ensures '-' !in DECIMAL
  {
  }

  lemma {:induction false} NumeralStart(n: nat, digits: string)
    requires |digits| > 1
    ensures Numeral(n, digits)[0] in digits
    decreases n
  {
    if n >= |digits| {
      Smaller(n, |digits|);
      NumeralStart(n / |digits|, digits);
    }
  }

  // ---------- the buffer ----------

  /** The chunks joined. */
  function Flat(chunks: seq<string>): string {
    if chunks == [] then "" else Flat(chunks[..|chunks| - 1]) + chunks[|chunks| - 1]
  }

  /** A text cut into pieces of 32, the rest last. */
  function Cut(s: string): seq<string> {
    if s == "" then [] else if |s| <= BUFF_SIZE then [s] else [s[..BUFF_SIZE]] + Cut(s[BUFF_SIZE..])
  }

  lemma FlatNext(chunks: seq<string>, c: string)
    ensures Flat(chunks + [c]) == Flat(chunks) + c
  {
    assert (chunks + [c])[..|chunks|] == chunks;
  }

  ghost predicate Full(chunks: seq<string>) {
    forall i :: 0 <= i < |chunks| ==> |chunks[i]| == BUFF_SIZE
  }

  lemma {:induction false} FlatLength(chunks: seq<string>)
    requires Full(chunks)
    ensures |Flat(chunks)| == BUFF_SIZE * |chunks|
  {
    if chunks != [] { FlatLength(chunks[..|chunks| - 1]); }
  }

  lemma {:induction false} FlatFront(chunks: seq<string>)
    requires chunks != []
    ensures Flat(chunks) == chunks[0] + Flat(chunks[1..])
  {
    if |chunks| > 1 {
      var front := chunks[..|chunks| - 1];
      FlatFront(front);
      assert front[1..] == chunks[1..][..|chunks| - 2];
    }
  }

  lemma CutFull(first: string, tail: string)
    requires |first| == BUFF_SIZE
    ensures Cut(first + tail) == [first] + Cut(tail)
  {
    var s := first + tail;
    assert s[..BUFF_SIZE] == first && s[BUFF_SIZE..] == tail;
    if tail == "" { assert s == first; }
  }

  /** Full chunks followed by a shorter rest are the text cut into pieces. */
  lemma {:induction false} ChunksAreCut(chunks: seq<string>, rest: string)
    requires Full(chunks) && |rest| < BUFF_SIZE
    ensures Cut(Flat(chunks) + rest) == chunks + if rest == "" then [] else [rest]
    decreases |chunks|
  {
    hide Cut, Flat;
    if chunks == [] {
      CutShort(rest);
      assert Flat(chunks) + rest == rest;
    } else {
      FlatFront(chunks);
      ChunksAreCut(chunks[1..], rest);
      CutFull(chunks[0], Flat(chunks[1..]) + rest);
      assert Flat(chunks) + rest == chunks[0] + (Flat(chunks[1..]) + rest);
      assert chunks == [chunks[0]] + chunks[1..];
    }
  }

  lemma CutShort(rest: string)
    requires |rest| < BUFF_SIZE
    ensures Cut(rest) == if rest == "" then [] else [rest]
    ensures Flat([]) == ""
  {
  }

  /** s from its end to its start. */
  function Reversed(s: seq<char>): (r: seq<char>)
    ensures |r| == |s|
  {
    if s == [] then [] else [s[|s| - 1]] + Reversed(s[..|s| - 1])
  }

  /** number % base and number / base */
  function Low(number: nat, base: nat): nat requires base > 1 { number % base }
  function High(number: nat, base: nat): nat requires base > 1 { number / base }

  /** Powers of the base bound the number of digits. */
  function Power(base: nat, n: nat): nat { if n == 0 then 1 else base * Power(base, n - 1) }

  lemma PowerStep(number: nat, base: nat, n: nat)
    requires base > 1 && n > 0 && number < Power(base, n)
    ensures number / base < Power(base, n - 1)
  {
    var q, p := number / base, Power(base, n - 1);
    assert number == q * base + number % base;
    assert Power(base, n) == p * base;
    MulOrder(p, q, base);
  }

  /** formatted_buffer_t and the UART behind it. */
  class Printer {
    var pos: nat
    const buf: array<char>
    var uart: seq<string>

    ghost predicate Valid()
      reads this, buf
    {
      buf.Length == BUFF_SIZE && pos < BUFF_SIZE && Full(uart)
    }

    /** Everything printed: what went out, then what is still buffered. */
    ghost function Text(): string
      requires Valid()
      reads this, buf
    {
      Flat(uart) + buf[..pos]
    }

    constructor ()
      ensures Valid() && Text() == "" && uart == [] && fresh(buf)
    {
      buf := new char[BUFF_SIZE];
      pos, uart := 0, [];
    }

    /** _tfm_flush_formatted_buffer: one character in; a full buffer goes out. */
    method Put(data: char)
      requires Valid()
      modifies this, buf
      ensures Valid() && Text() == old(Text()) + [data]
    {
      buf[pos] := data;
      pos := pos + 1;
      assert buf[..pos] == old(buf[..pos]) + [data];
      if pos >= BUFF_SIZE {
        pos := 0;
        FlatNext(uart, buf[..]);
        assert buf[..] == buf[..BUFF_SIZE];
        uart := uart + [buf[..]];
      }
    }

    /** _tfm_string_output */
    method StringOutput(str: string) returns (count: nat)
      requires Valid()
      modifies this, buf
      ensures Valid() && Text() == old(Text()) + str && count == |str|
    {
      count := 0;
      while count < |str|
        invariant Valid() && count <= |str| && Text() == old(Text()) + str[..count]
      {
        Put(str[count]);
        count := count + 1;
      }
      assert str[..count] == str;
    }

    /** The first digit loop of _tfm_dec_num_output and _tfm_hex_num_output: digits from the low end.
        The buffer of twelve is never exceeded. */
    method CollectDigits(num: uint32, digits: string) returns (numBuff: array<char>, k: nat)
      requires |digits| == 10 || |digits| == 16
      ensures fresh(numBuff) && 1 <= k <= numBuff.Length == NUM_BUFF_SIZE
      ensures Reversed(numBuff[..k]) == Numeral(num, digits)
    {
      hide Power, Reversed, Numeral, Low, High;
      numBuff := new char[NUM_BUFF_SIZE];
      var number: nat := num;
      Capacity(number, |digits|);
      LastDigit(number, digits, 10);
      numBuff[0] := digits[Low(number, |digits|)];
      k := 1;
      number := High(number, |digits|);
      FirstDigit(numBuff[..k], numBuff[0]);
      while number != 0
        invariant 1 <= k <= 10 && number < Power(|digits|, 10 - k)
        invariant Numeral(num, digits) == (if number == 0 then "" else Numeral(number, digits)) + Reversed(numBuff[..k])
        decreases number
      {
        PowerPositive(|digits|, 10 - k, number);
        ghost var low := numBuff[..k];
        DigitTurn(num, number, digits, 10 - k, low);
        numBuff[k] := digits[Low(number, |digits|)];
        assert numBuff[..k + 1] == low + [numBuff[k]];
        k := k + 1;
        number := High(number, |digits|);
      }
    }

    /** One turn of the digit loop, for a number of at most n digits. */
    lemma LastDigit(number: nat, digits: string, n: nat)
      requires |digits| > 1 && n > 0 && number < Power(|digits|, n)
      ensures Low(number, |digits|) < |digits| && High(number, |digits|) < Power(|digits|, n - 1)
      ensures number > 0 ==> High(number, |digits|) < number
      ensures Numeral(number, digits) ==
              (if High(number, |digits|) == 0 then "" else Numeral(High(number, |digits|), digits))
              + [digits[Low(number, |digits|)]]
    {
      hide Power;
      PowerStep(number, |digits|, n);
      Smaller'(number, |digits|);
    }

    /** The digit a turn appends, and what is left of the number. */
    lemma DigitTurn(num: nat, number: nat, digits: string, n: nat, low: seq<char>)
      requires |digits| > 1 && n > 0 && 0 < number < Power(|digits|, n)
      requires Numeral(num, digits) == Numeral(number, digits) + Reversed(low)
      ensures Low(number, |digits|) < |digits| && High(number, |digits|) < Power(|digits|, n - 1)
      ensures High(number, |digits|) < number
      ensures Numeral(num, digits) ==
              (if High(number, |digits|) == 0 then "" else Numeral(High(number, |digits|), digits))
              + Reversed(low + [digits[Low(number, |digits|)]])
    {
      hide Power, Reversed, Numeral, Low, High;
      LastDigit(number, digits, n);
      NextDigit(low, digits[Low(number, |digits|)]);
    }

    lemma FirstDigit(s: seq<char>, c: char)
      requires s == [c]
      ensures Reversed(s) == [c]
    {
    }

    lemma NextDigit(s: seq<char>, c: char)
      ensures Reversed(s + [c]) == [c] + Reversed(s)
    {
      assert (s + [c])[..|s|] == s;
    }

    /** The second loop: the collected digits go out from the high end. */
    method NumeralOutput(num: uint32, digits: string) returns (count: nat)
      requires Valid() && (|digits| == 10 || |digits| == 16)
      modifies this, buf
      ensures Valid() && Text() == old(Text()) + Numeral(num, digits) && count == |Numeral(num, digits)|
    {
      hide Numeral, Reversed, Flat, Full;
      var numBuff, k := CollectDigits(num, digits);
      ghost var all := numBuff[..];
      ghost var full := k;
      ghost var before := Text();
      count := 0;
      while k > 0
        invariant Valid() && 0 <= k <= full && count == full - k && numBuff[..] == all
        invariant before + Numeral(num, digits) == Text() + Reversed(all[..k])
      {
        k := k - 1;
        assert all[..k + 1] == all[..k] + [all[k]];
        NextDigit(all[..k], all[k]);
        Put(numBuff[k]);
        count := count + 1;
      }
      ReversedLength(all[..full]);
    }

    lemma ReversedLength(s: seq<char>)
      ensures |Reversed(s)| == |s| && Reversed([]) == []
    {
    }

    lemma Smaller'(n: nat, base: nat)
      requires base > 1
      ensures n >= base ==> 0 < n / base < n
      ensures n < base ==> n / base == 0 && n % base == n
      ensures 0 <= n % base < base
    {
      if n >= base { Smaller(n, base); } else { Small(n, base); }
    }

    lemma Small(n: nat, base: nat)
      requires n < base
      ensures n / base == 0 && n % base == n
    {
    }

    lemma PowerPositive(base: nat, n: nat, number: nat)
      requires 0 < number < Power(base, n)
      ensures n > 0
    {
    }

    lemma Capacity(number: nat, base: nat)
      requires number < 0x1_0000_0000 && (base == 10 || base == 16)
      ensures number < Power(base, 10)
    {
      assert Power(base, 2) == base * base;
      assert Power(base, 5) == base * base * base * Power(base, 2);
      assert Power(base, 10) == base * base * base * base * base * Power(base, 5);
    }

    /** _tfm_dec_num_output. The magnitude of the most negative word is 2^31, which is where its
        two's complement negation wraps back to. */
    method DecNumOutput(num: int32, sign: char) returns (count: nat)
      requires Valid()
      modifies this, buf
      ensures var text := if sign == 'd' then Signed(num) else Numeral(ToUint32(num), DECIMAL);
              Valid() && Text() == old(Text()) + text && count == |text|
    {
      hide Numeral, Flat, Full;
      var number := ToUint32(num);
      var sent := 0;
      if sign == 'd' && num < 0 {
        Put('-');
        sent := 1;
        number := -(num as int);
      }
      count := NumeralOutput(number, DECIMAL);
      count := sent + count;
    }

    /** The switch of _tfm_log_vprintf on the character after a %. */
    method Tag(c: char, args: seq<Arg>) returns (count: nat)
      requires Valid() && Takes(c, args)
      modifies this, buf
      ensures Valid() && Text() == old(Text()) + TagText(c, args) && count == |TagText(c, args)|
    {
      hide Numeral, Flat, Full, TagText, Takes, ToInt32, ToUint32, Signed;
      TagTexts(c, args);
      match c
      case 'd' => count := DecNumOutput(ToInt32(args[0].bits), 'd');
      case 'i' => count := DecNumOutput(ToInt32(args[0].bits), 'd');
      case 'u' => count := DecNumOutput(ToInt32(args[0].bits), 'u');
      case 'x' => count := NumeralOutput(args[0].bits, HEX_LO);
      case 'X' => count := NumeralOutput(args[0].bits, HEX_UP);
      case 'p' =>
        var prefix := StringOutput("0x");
        count := NumeralOutput(args[0].bits, HEX_LO);
        count := prefix + count;
      case 's' => count := StringOutput(args[0].text);
      case 'c' =>
        Put((args[0].bits % 0x100) as char);
        count := 1;
      case '%' =>
        Put('%');
        count := 1;
      case _ => count := StringOutput(UNSUPPORTED);
    }

    /** The format loop of _tfm_log_vprintf. */
    method Format(fmt: string, args: seq<Arg>) returns (count: nat)
      requires Valid() && Text() == "" && Matches(fmt, args)
      modifies this, buf
      ensures Valid() && Text() == Render(fmt, args) && count == |Render(fmt, args)|
    {
      hide Flat, Full, Matches, Render, TagText, Takes, Consumes, Skip;
      var i, a := 0, 0;
      count := 0;
      assert fmt[0..] == fmt && args[0..] == args;
      while i < |fmt|
        invariant Valid() && i <= |fmt| && a <= |args| && Matches(fmt[i..], args[a..])
        invariant Text() + Render(fmt[i..], args[a..]) == Render(fmt, args) && count == |Text()|
      {
        RenderNext(fmt, args, i, a);
        ghost var before := Text();
        var sent := 0;
        if fmt[i] == '%' {
          i := i + 1;
          if i < |fmt| {
            sent := Tag(fmt[i], args[a..]);
            ghost var tag := TagText(fmt[i], args[a..]);
            a := if Consumes(fmt[i]) then a + 1 else a;
            i := i - 1 + Skip(fmt[i]);
            Joined(before, tag, Render(fmt[i..], args[a..]));
          } else {
            sent := StringOutput(UNSUPPORTED);
            assert fmt[i..] == "";
            RenderEnd(args[a..]);
          }
        } else {
          Put(fmt[i]);
          Joined(before, [fmt[i]], Render(fmt[i + 1..], args[a..]));
          i, sent := i + 1, 1;
        }
        count := count + sent;
      }
      assert fmt[i..] == "";
      RenderEnd(args[a..]);
      assert Text() + "" == Text();
    }
  }

  lemma Joined(a: string, b: string, c: string)
    ensures (a + b) + c == a + (b + c)
  {
  }

  lemma RenderEnd(args: seq<Arg>)
    ensures Matches("", args) && Render("", args) == ""
  {
  }

  /** _tfm_log_vprintf: what reaches the UART, chunk by chunk, and the value returned. ret is what
      stdio_output_string returns for the length it is given. */
  method LogVprintf(fmt: string, args: seq<Arg>, ret: nat -> int) returns (count: int, chunks: seq<string>)
    requires Matches(fmt, args)
    ensures chunks == Cut(Render(fmt, args))
    ensures count == Returned(Render(fmt, args), ret)
  {
    hide Matches, Render, Flat, Cut;
    var printer := new Printer();
    count := printer.Format(fmt, args);
    var rest := printer.buf[..printer.pos];
    ChunksAreCut(printer.uart, rest);
    FlatLength(printer.uart);
    assert |Render(fmt, args)| == BUFF_SIZE * |printer.uart| + printer.pos;
    chunks := printer.uart;
    if printer.pos > 0 {
      count := count + ret(printer.pos);
      chunks := chunks + [rest];
    }
  }

  /** The characters printed, plus what the UART call for the unfinished last chunk returned. */
  function Returned(text: string, ret: nat -> int): int {
    |text| + if |text| % BUFF_SIZE > 0 then ret(|text| % BUFF_SIZE) else 0
  }

  /** With a UART call that returns its length the tail is counted twice, so the value returned is
      the number of characters printed if and only if that number is a multiple of 32. */
  lemma ReturnedLaw(text: string)
    ensures Returned(text, n => n) == |text| + |text| % 32
    ensures Returned(text, n => n) == |text| <==> |text| % 32 == 0
  {
  }

  /** A concrete call: one character printed, and 2 returned. */
  lemma OneCharacterCountsTwice()
    ensures Render("a", []) == "a" && Returned(Render("a", []), n => n) == 2
  {
    assert Render("a"[1..], []) == "";
  }

  /** The chunks, joined, are the text; all but the last have 32 characters. */
  lemma {:induction false} CutJoins(s: string)
    ensures Flat(Cut(s)) == s
    ensures |Cut(s)| == (|s| + 31) / 32
    ensures forall i :: 0 <= i < |Cut(s)| - 1 ==> |Cut(s)[i]| == 32
    ensures forall i :: 0 <= i < |Cut(s)| ==> 0 < |Cut(s)[i]| <= 32
    decreases |s|
  {
    if |s| > BUFF_SIZE {
      CutJoins(s[BUFF_SIZE..]);
      FlatFront(Cut(s));
      assert Cut(s)[1..] == Cut(s[BUFF_SIZE..]);
    } else if s != "" {
      assert Cut(s)[..0] == [];
    }
  }
}
