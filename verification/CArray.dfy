/** tinymaix_model_encryptor.py: bytes written as the text of a C array, and the pattern scan that reads
    such a text back. */
module CArray {
  import opened Bytes
  import opened Options

  const PER_LINE := 16

  // ---------- hexadecimal digits ----------

  predicate IsHex(c: char) {
    '0' <= c <= '9' || 'a' <= c <= 'f' || 'A' <= c <= 'F'
  }

  /** int(h, 16) on one digit. */
  function HexValue(c: char): (n: nat)
    requires IsHex(c)
    ensures n < 16
  {
    if c <= '9' then c as int - '0' as int
    else if c <= 'F' then c as int - 'A' as int + 10
    else c as int - 'a' as int + 10
  }

  function HexChar(n: nat): (c: char)
    requires n < 16
    ensures IsHex(c) && HexValue(c) == n
  {
    if n < 10 then ('0' as int + n) as char else ('a' as int + n - 10) as char
  }

  function ByteOf(hi: char, lo: char): byte
    requires IsHex(hi) && IsHex(lo)
  {
    HexValue(hi) * 16 + HexValue(lo)
  }

  /** f'0x{b:02x}' */
  function Hex(b: byte): string {
    "0x" + [HexChar(b / 16), HexChar(b % 16)]
  }

  // ---------- the writer ----------

  /** ', '.join */
  function Join(data: seq<byte>): string {
    if data == [] then "" else if |data| == 1 then Hex(data[0]) else Hex(data[0]) + ", " + Join(data[1..])
  }

  function Line(data: seq<byte>): string {
    "    " + Join(data) + ",\n"
  }

  function Chunk(data: seq<byte>): seq<byte> {
    if |data| <= PER_LINE then data else data[..PER_LINE]
  }

  /** The lines of the array, sixteen bytes each, the rest last. */
  function Lines(data: seq<byte>): string {
    if data == [] then "" else Line(Chunk(data)) + Lines(data[|Chunk(data)|..])
  }

  /** The digits of both cases, in order. */
  lemma HexDigits(i: nat)
    requires i < 16
    ensures HexChar(i) == "0123456789abcdef"[i]
    ensures IsHex("0123456789abcdef"[i]) && HexValue("0123456789abcdef"[i]) == i
    ensures IsHex("0123456789ABCDEF"[i]) && HexValue("0123456789ABCDEF"[i]) == i
  {
    DigitCodes(i);
  }

  /** A value of the array: 0x and its two digits, the high one first. */
  lemma HexText(b: byte)
    ensures Hex(b) == ['0', 'x', "0123456789abcdef"[b / 16], "0123456789abcdef"[b % 16]]
  {
    HexDigits(b / 16);
    HexDigits(b % 16);
  }

  lemma DigitCodes(i: nat)
    requires i < 16
    ensures "0123456789abcdef"[i] as int == if i < 10 then 48 + i else 87 + i
    ensures "0123456789ABCDEF"[i] as int == if i < 10 then 48 + i else 55 + i
  {
  }

  /** What stands behind value k of n in its line. */
  function Separator(k: nat, n: nat): string { if k < n - 1 then ", " else ",\n" }

  lemma {:induction false} JoinAt(data: seq<byte>, k: nat)
    requires k < |data|
    ensures |Join(data)| == 6 * |data| - 2
    ensures (Join(data) + ",\n")[6 * k..6 * k + 4] == Hex(data[k])
    ensures (Join(data) + ",\n")[6 * k + 4..6 * k + 6] == Separator(k, |data|)
  {
    hide Hex;
    HexLength(data[0]);
    var s := Join(data) + ",\n";
    if |data| == 1 {
      assert s[0..4] == Hex(data[0]);
    } else {
      var rest := data[1..];
      var t := Join(rest) + ",\n";
      JoinAt(rest, if k > 0 then k - 1 else 0);
      assert s == Hex(data[0]) + ", " + t;
      if k == 0 {
        assert s[0..4] == Hex(data[0]) && s[4..6] == ", ";
      } else {
        assert s[6 * k..6 * k + 4] == t[6 * (k - 1)..6 * (k - 1) + 4];
        assert s[6 * k + 4..6 * k + 6] == t[6 * (k - 1) + 4..6 * (k - 1) + 6];
      }
    }
  }

  lemma HexLength(b: byte)
    ensures |Hex(b)| == 4
  {
  }

  lemma LineAt(data: seq<byte>, k: nat)
    requires k < |data|
    ensures |Line(data)| == 4 + 6 * |data| && Line(data)[..4] == "    "
    ensures Line(data)[4 + 6 * k..8 + 6 * k] == Hex(data[k])
    ensures Line(data)[8 + 6 * k..10 + 6 * k] == Separator(k, |data|)
  {
    hide Join, Hex;
    JoinAt(data, k);
    var s, l := Join(data) + ",\n", Line(data);
    assert l == "    " + s;
    assert l[4 + 6 * k..8 + 6 * k] == s[6 * k..6 * k + 4];
    assert l[8 + 6 * k..10 + 6 * k] == s[6 * k + 4..6 * k + 6];
  }

  /** Where value i stands in the text, from its line's indentation to the line's end: a line of sixteen values
      has 100 characters. */
  ghost predicate StandsAt(text: string, data: seq<byte>, i: nat)
    requires i < |data|
  {
    var at := i / 16 * 100 + 4 + i % 16 * 6;
    && at + 6 <= |text| && text[at..at + 4] == Hex(data[i])
    && text[at + 4..at + 6] == (if i % 16 == 15 || i == |data| - 1 then ",\n" else ", ")
    && (i % 16 == 0 ==> text[at - 4..at] == "    ")
  }

  /** The text of the array, character by character. */
  lemma {:induction false} Layout(data: seq<byte>, i: nat)
    requires i < |data|
    ensures StandsAt(Lines(data), data, i)
    ensures |Lines(data)| == |data| / 16 * 100 + if |data| % 16 == 0 then 0 else 4 + |data| % 16 * 6
    decreases |data|
  {
    hide StandsAt, Line;
    var c := Chunk(data);
    var rest := data[|c|..];
    LineAt(c, 0);
    LineCount(|data|);
    if |data| > 16 {
      assert rest == data[16..];
      Layout(rest, if i < 16 then 0 else i - 16);
    }
    if i < 16 {
      InFirstLine(data, i, Lines(rest));
    } else {
      Shifted(Line(c), Lines(rest), data, i);
    }
  }

  lemma LineCount(n: nat)
    requires n > 0
    ensures n > 16 ==> n / 16 == (n - 16) / 16 + 1 && n % 16 == (n - 16) % 16
    ensures n < 16 ==> n / 16 == 0 && n % 16 == n
  {
  }

  lemma InFirstLine(data: seq<byte>, i: nat, text: string)
    requires i < |data| && i < 16
    ensures StandsAt(Line(Chunk(data)) + text, data, i)
  {
    hide Hex, Line, Lines;
    var c := Chunk(data);
    LineAt(c, i);
    var line := Line(c);
    assert i / 16 == 0 && i % 16 == i;
    FrontSlice(line, text, 4 + 6 * i, 8 + 6 * i);
    FrontSlice(line, text, 8 + 6 * i, 10 + 6 * i);
    FrontSlice(line, text, 0, 4);
  }

  lemma FrontSlice(a: string, b: string, i: nat, j: nat)
    requires i <= j <= |a|
    ensures (a + b)[i..j] == a[i..j]
  {
  }

  lemma Shifted(line: string, text: string, data: seq<byte>, i: nat)
    requires 16 <= i < |data| && |line| == 100 && StandsAt(text, data[16..], i - 16)
    ensures StandsAt(line + text, data, i)
  {
    hide Hex;
    var at := (i - 16) / 16 * 100 + 4 + (i - 16) % 16 * 6;
    assert i / 16 == (i - 16) / 16 + 1 && i % 16 == (i - 16) % 16;
    var all := line + text;
    assert all[at + 100..at + 104] == text[at..at + 4] && all[at + 104..at + 106] == text[at + 4..at + 6];
    if i % 16 == 0 { assert all[at + 96..at + 100] == text[at - 4..at]; }
  }

  /** The loop of generate_c_header. */
  method ArrayBody(data: seq<byte>) returns (text: string)
    ensures text == Lines(data)
  {
    text := "";
    var i := 0;
    while i < |data|
      invariant 0 <= i && text + Lines(if i < |data| then data[i..] else []) == Lines(data)
    {
      ghost var rest := data[i..];
      var chunk := if i + PER_LINE < |data| then data[i..i + PER_LINE] else data[i..];
      assert chunk == Chunk(rest) && Lines(rest) == Line(chunk) + Lines(rest[|chunk|..]);
      assert rest[|chunk|..] == if i + PER_LINE < |data| then data[i + PER_LINE..] else [];
      text := text + Line(chunk);
      i := i + PER_LINE;
    }
  }

  // ---------- the reader ----------

  predicate ItemAt(s: string) {
    |s| >= 4 && s[0] == '0' && s[1] == 'x' && IsHex(s[2]) && IsHex(s[3])
  }

  /** re.findall of 0x and two hexadecimal digits: leftmost matches that do not overlap. */
  function FindAll(s: string): seq<byte> {
    if s == "" then []
    else if ItemAt(s) then [ByteOf(s[2], s[3])] + FindAll(s[4..])
    else FindAll(s[1..])
  }

  /** The longest run of characters other than a closing brace. */
  function Braced(s: string): string {
    if s == "" || s[0] == '}' then "" else [s[0]] + Braced(s[1..])
  }

  /** The data part of parse_tinymaix_header, on the text after the opening brace; None for the two
      errors (nothing between the braces, or no value in it). */
  function ParseArray(s: string): Option<seq<byte>> {
    var inside := Braced(s);
    if inside == "" || |inside| == |s| || FindAll(inside) == [] then None else Some(FindAll(inside))
  }

  lemma ItemRead(hi: char, lo: char, t: string)
    requires IsHex(hi) && IsHex(lo)
    ensures FindAll(['0', 'x', hi, lo] + t) == [ByteOf(hi, lo)] + FindAll(t)
  {
    var s := ['0', 'x', hi, lo] + t;
    assert s[4..] == t;
  }

  lemma {:induction false} GapSkipped(gap: string, t: string)
    requires '0' !in gap
    ensures FindAll(gap + t) == FindAll(t)
  {
    if gap == "" {
      assert gap + t == t;
    } else {
      assert (gap + t)[1..] == gap[1..] + t && (gap + t)[0] == gap[0];
      GapSkipped(gap[1..], t);
    }
  }

  // ---------- the two together ----------

  /** A text with a value every here and there. */
  datatype Piece = Gap(text: string) | Item(hi: char, lo: char)

  predicate Plain(p: Piece) {
    match p
    case Gap(text) => '0' !in text
    case Item(hi, lo) => IsHex(hi) && IsHex(lo)
  }

  function PieceText(p: Piece): string {
    match p case Gap(text) => text case Item(hi, lo) => ['0', 'x', hi, lo]
  }

  function PieceValue(p: Piece): seq<byte>
    requires Plain(p)
  {
    match p case Gap(_) => [] case Item(hi, lo) => [ByteOf(hi, lo)]
  }

  function Written(ps: seq<Piece>): string {
    if ps == [] then "" else PieceText(ps[0]) + Written(ps[1..])
  }

  function Values(ps: seq<Piece>): seq<byte>
    requires forall i :: 0 <= i < |ps| ==> Plain(ps[i])
  {
    if ps == [] then [] else PieceValue(ps[0]) + Values(ps[1..])
  }

  /** The scan reads every layout whose gaps hold no digit zero, with digits of either case. */
  lemma {:induction false} AnyLayoutIsRead(ps: seq<Piece>)
    requires forall i :: 0 <= i < |ps| ==> Plain(ps[i])
    ensures FindAll(Written(ps)) == Values(ps)
  {
    if ps != [] {
      AnyLayoutIsRead(ps[1..]);
      match ps[0]
      case Gap(text) => GapSkipped(text, Written(ps[1..]));
      case Item(hi, lo) => ItemRead(hi, lo, Written(ps[1..]));
    }
  }

  lemma HexRead(b: byte, t: string)
    ensures FindAll(Hex(b) + t) == [b] + FindAll(t)
    ensures '}' !in Hex(b)
  {
    hide FindAll;
    var hi, lo := HexChar(b / 16), HexChar(b % 16);
    assert Hex(b) == ['0', 'x', hi, lo];
    ItemRead(hi, lo, t);
  }

  lemma Regroup(a: string, b: string, c: string)
    ensures a + b + c == a + (b + c)
  {
  }

  lemma {:induction false} JoinRead(data: seq<byte>, t: string)
    ensures FindAll(Join(data) + t) == data + FindAll(t)
    ensures '}' !in Join(data)
  {
    hide FindAll, Hex;
    if data == [] {
      assert Join(data) + t == t;
    } else if |data| == 1 {
      HexRead(data[0], t);
    } else {
      var rest := Join(data[1..]);
      JoinRead(data[1..], t);
      GapSkipped(", ", rest + t);
      HexRead(data[0], ", " + (rest + t));
      Regroup(Hex(data[0]), ", ", rest);
      Regroup(", ", rest, t);
      Regroup(Hex(data[0]), ", " + rest, t);
    }
  }

  lemma LineRead(chunk: seq<byte>, t: string)
    ensures FindAll(Line(chunk) + t) == chunk + FindAll(t)
    ensures '}' !in Line(chunk)
  {
    hide FindAll, Join;
    var text := Join(chunk);
    JoinRead(chunk, ",\n" + t);
    GapSkipped("    ", text + (",\n" + t));
    GapSkipped(",\n", t);
    Regroup("    ", text, ",\n");
    Regroup(text, ",\n", t);
    Regroup("    ", text + ",\n", t);
  }

  lemma {:induction false} LinesRead(data: seq<byte>)
    ensures FindAll(Lines(data)) == data && '}' !in Lines(data)
    decreases |data|
  {
    hide FindAll, Line;
    if data == [] {
      NothingRead();
    } else {
      var rest := data[|Chunk(data)|..];
      LinesRead(rest);
      LineRead(Chunk(data), Lines(rest));
      assert data == Chunk(data) + rest;
    }
  }

  lemma NothingRead()
    ensures FindAll("") == []
  {
  }

  lemma {:induction false} BracedUpTo(body: string, rest: string)
    requires '}' !in body
    ensures Braced(body + "}" + rest) == body
  {
    var s := body + "}" + rest;
    if body != "" {
      assert s[1..] == body[1..] + "}" + rest && s[0] == body[0];
      BracedUpTo(body[1..], rest);
    }
  }

  /** The generated array, whatever follows its closing brace, reads back as exactly the bytes it was
      made from; the one text that is refused is that of no bytes. */
  lemma ArrayRoundTrip(data: seq<byte>, rest: string)
    ensures ParseArray("\n" + Lines(data) + "}" + rest) == if data == [] then None else Some(data)
  {
    hide FindAll, Lines, Braced;
    LinesRead(data);
    GapSkipped("\n", Lines(data));
    BracedUpTo("\n" + Lines(data), rest);
  }
}
