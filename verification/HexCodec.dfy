/** Bytes as hexadecimal text: the renderer used for digests and nonces, and the parser for
    32-byte values with the leniency of the runtime's integer parser. */
module HexCodec {
  import opened Options

  type byte = b: int | 0 <= b < 256

  datatype Parsed = Bytes(bytes: seq<byte>) | WrongLength(length: nat) | InvalidAt(position: nat)

  function HexDigit(n: nat): char
    requires n < 16
  {
    if n < 10 then '0' + n as char else 'a' + (n - 10) as char
  }

  /** The number in base 16 without leading zeros. */
  function ToString16(n: nat): string {
    if n < 16 then [HexDigit(n)] else ToString16(n / 16) + [HexDigit(n % 16)]
  }

  function PadStart2(s: string): string {
    if |s| == 0 then "00" else if |s| == 1 then "0" + s else s
  }

  /** Two digits per byte. */
  function Render(bytes: seq<byte>): string {
    if bytes == [] then "" else Render(bytes[..|bytes| - 1]) + PadStart2(ToString16(bytes[|bytes| - 1]))
  }

  lemma PaddedByte(b: byte)
    ensures PadStart2(ToString16(b)) == [HexDigit(b / 16), HexDigit(b % 16)]
  {
    if 16 <= b {
      assert ToString16(b / 16) == [HexDigit(b / 16)];
    }
  }

  /** The sixteen digits. */
  lemma DigitsAre(n: nat)
    requires n < 16
    ensures HexDigit(n) == "0123456789abcdef"[n]
    ensures IsHex(HexDigit(n)) && HexValue(HexDigit(n)) == n
    ensures 10 <= n ==> IsHex("ABCDEF"[n - 10]) && HexValue("ABCDEF"[n - 10]) == n
  {
    var digits := "0123456789abcdef";
    assert n < 10 ==> digits[n] == '0' + n as char;
    assert n == 10 || n == 11 || n == 12 || n == 13 || n == 14 || n == 15 || n < 10;
  }

  lemma {:induction false} RenderAt(bytes: seq<byte>, i: nat)
    requires i < |bytes|
    ensures |Render(bytes)| == 2 * |bytes|
    ensures Render(bytes)[2 * i] == HexDigit(bytes[i] / 16) && Render(bytes)[2 * i + 1] == HexDigit(bytes[i] % 16)
  {
    var front := bytes[..|bytes| - 1];
    PaddedByte(bytes[|bytes| - 1]);
    if i < |front| {
      RenderAt(front, i);
    } else if front != [] {
      RenderAt(front, 0);
    }
  }

  // ---------------------------------------------------------------- the runtime's integer parser

  predicate IsHex(c: char) {
    '0' <= c <= '9' || 'a' <= c <= 'f' || 'A' <= c <= 'F'
  }

  function HexValue(c: char): nat
    requires IsHex(c)
  {
    if c <= '9' then (c - '0') as nat
    else if c <= 'F' then (c - 'A') as nat + 10
    else (c - 'a') as nat + 10
  }

  function Lower(c: char): char {
    if 'A' <= c <= 'F' then 'a' + (c - 'A') else c
  }

  predicate IsSpace(c: char) {
    c in "\t\n\r \U{000B}\U{000C}\U{00A0}\U{1680}\U{2028}\U{2029}\U{202F}\U{205F}\U{3000}\U{FEFF}"
    || '\U{2000}' <= c <= '\U{200A}'
  }

  function TrimStart(s: string): string {
    if s != [] && IsSpace(s[0]) then TrimStart(s[1..]) else s
  }

  /** The value of the longest prefix of hex digits, added to what came before. */
  function Leading(s: string, value: nat): nat {
    if s != [] && IsHex(s[0]) then Leading(s[1..], 16 * value + HexValue(s[0])) else value
  }

  /** parseInt(s, 16): white space, a sign and a 0x are skipped, then digits are read as far as
      they go; none if there is no digit. */
  function ParseInt16(s: string): Option<int> {
    var t := TrimStart(s);
    var negative := t != [] && t[0] == '-';
    var u := if t != [] && (t[0] == '-' || t[0] == '+') then t[1..] else t;
    var v := if 2 <= |u| && u[0] == '0' && (u[1] == 'x' || u[1] == 'X') then u[2..] else u;
    if v == [] || !IsHex(v[0]) then None
    else Some(if negative then 0 - Leading(v, 0) else Leading(v, 0))
  }

  /** Which pairs of characters parse, and as what. */
  lemma PairParses(a: char, b: char)
    ensures IsHex(a) && IsHex(b) ==> ParseInt16([a, b]) == Some(16 * HexValue(a) + HexValue(b))
    ensures IsHex(a) && !IsHex(b) && !(a == '0' && (b == 'x' || b == 'X')) ==> ParseInt16([a, b]) == Some(HexValue(a))
    ensures (IsSpace(a) || a == '+') && IsHex(b) ==> ParseInt16([a, b]) == Some(HexValue(b))
    ensures a == '-' && IsHex(b) ==> ParseInt16([a, b]) == Some(0 - HexValue(b))
    ensures ParseInt16([a, b]).Some? <==>
              || (IsHex(a) && !(a == '0' && (b == 'x' || b == 'X')))
              || ((IsSpace(a) || a == '+' || a == '-') && IsHex(b))
  {
    hide ParseInt16;
    if IsHex(a) {
      DigitFirst(a, b);
    } else if IsSpace(a) || a == '+' || a == '-' {
      SkippedFirst(a, b);
    } else {
      OtherFirst(a, b);
    }
  }

  lemma LeadingOne(c: char, value: nat)
    ensures Leading([c], value) == if IsHex(c) then 16 * value + HexValue(c) else value
  {
    assert [c][1..] == [];
  }

  lemma DigitFirst(a: char, b: char)
    requires IsHex(a)
    ensures ParseInt16([a, b]) == if a == '0' && (b == 'x' || b == 'X') then None
                                  else Some(if IsHex(b) then 16 * HexValue(a) + HexValue(b) else HexValue(a))
  {
    hide HexValue;
    var s := [a, b];
    assert TrimStart(s) == s;
    assert s[1..] == [b];
    assert Leading(s, 0) == Leading([b], HexValue(a));
    LeadingOne(b, HexValue(a));
  }

  lemma SkippedFirst(a: char, b: char)
    requires IsSpace(a) || a == '+' || a == '-'
    ensures ParseInt16([a, b]) == if IsHex(b) then Some(if a == '-' then 0 - HexValue(b) else HexValue(b)) else None
  {
    hide HexValue, Leading;
    var s := [a, b];
    assert s[1..] == [b] && [b][1..] == [];
    assert TrimStart(s) == if IsSpace(a) then TrimStart([b]) else s;
    assert TrimStart([b]) == if IsSpace(b) then [] else [b];
    LeadingOne(b, 0);
  }

  lemma OtherFirst(a: char, b: char)
    requires !IsHex(a) && !IsSpace(a) && a != '+' && a != '-'
    ensures ParseInt16([a, b]) == None
  {
    hide HexValue, Leading;
    assert TrimStart([a, b]) == [a, b];
  }

  // ---------------------------------------------------------------- the 32-byte parser

  /** A leading "0x" is dropped. */
  function Clean(hex: string): string {
    if "0x" <= hex then hex[2..] else hex
  }

  function Pair(s: string, i: nat): string
    requires 2 * i + 2 <= |s|
  {
    [s[2 * i], s[2 * i + 1]]
  }

  /** Storing a number in a byte keeps its residue. */
  function ToByte(n: int): byte { n % 256 }

  /** The parser accepts the text and returns these bytes. */
  ghost predicate ParsesTo(hex: string, bytes: seq<byte>) {
    && |Clean(hex)| == 64 && |bytes| == 32
    && forall i :: 0 <= i < 32 ==>
         ParseInt16(Pair(Clean(hex), i)).Some? && bytes[i] == ToByte(ParseInt16(Pair(Clean(hex), i)).value)
  }

  method HexToBytes32(hex: string) returns (r: Parsed)
    ensures r.WrongLength? <==> |Clean(hex)| != 64
    ensures r.Bytes? <==> |Clean(hex)| == 64 && forall i :: 0 <= i < 32 ==> ParseInt16(Pair(Clean(hex), i)).Some?
    ensures r.Bytes? ==> ParsesTo(hex, r.bytes)
    ensures r.InvalidAt? ==> exists i :: 0 <= i < 32 && r.position == 2 * i && ParseInt16(Pair(Clean(hex), i)).None?
                                         && forall j :: 0 <= j < i ==> ParseInt16(Pair(Clean(hex), j)).Some?
  {
    hide ParseInt16, Clean;
    var clean := Clean(hex);
    if |clean| != 64 { return WrongLength(|clean|); }
    var bytes := new byte[32](_ => 0);
    for i := 0 to 32
      invariant forall j :: 0 <= j < i ==>
                  ParseInt16(Pair(clean, j)).Some? && bytes[j] == ToByte(ParseInt16(Pair(clean, j)).value)
    {
      var value := ParseInt16(Pair(clean, i));
      if value.None? { return InvalidAt(i * 2); }
      bytes[i] := ToByte(value.value);
    }
    r := Bytes(bytes[..]);
  }

  lemma HexDigitIsHex(n: nat)
    requires n < 16
    ensures IsHex(HexDigit(n)) && HexValue(HexDigit(n)) == n && HexDigit(n) != 'x'
  {
  }

  lemma PairOfByte(bytes: seq<byte>, i: nat)
    requires i < |bytes|
    ensures |Render(bytes)| == 2 * |bytes|
    ensures ParseInt16(Pair(Render(bytes), i)) == Some(bytes[i])
    ensures IsHex(Render(bytes)[2 * i]) && IsHex(Render(bytes)[2 * i + 1]) && Render(bytes)[2 * i + 1] != 'x'
  {
    hide Render, ParseInt16, HexDigit, HexValue, IsHex, IsSpace;
    RenderAt(bytes, i);
    HexDigitIsHex(bytes[i] / 16);
    HexDigitIsHex(bytes[i] % 16);
    PairParses(Render(bytes)[2 * i], Render(bytes)[2 * i + 1]);
  }

  /** Negative numbers are stored modulo 256: "-1" as 255. */
  lemma NegativePair(hex: string, bytes: seq<byte>, i: nat)
    requires ParsesTo(hex, bytes) && i < 32 && Clean(hex)[2 * i] == '-' && IsHex(Clean(hex)[2 * i + 1])
    ensures HexValue(Clean(hex)[2 * i + 1]) < 16
    ensures bytes[i] == if Clean(hex)[2 * i + 1] == '0' then 0 else 256 - HexValue(Clean(hex)[2 * i + 1])
  {
    hide ParseInt16, Clean;
    PairParses('-', Clean(hex)[2 * i + 1]);
    assert Pair(Clean(hex), i) == ['-', Clean(hex)[2 * i + 1]];
  }

  /** Rendering 32 bytes and parsing the text, with or without "0x", gives the bytes back. */
  lemma RenderThenParse(bytes: seq<byte>)
    requires |bytes| == 32
    ensures ParsesTo(Render(bytes), bytes) && ParsesTo("0x" + Render(bytes), bytes)
  {
    hide Render, ParseInt16;
    var s := Render(bytes);
    PairOfByte(bytes, 0);
    assert s[1] != 'x';
    assert Clean(s) == s;
    assert ("0x" + s)[2..] == s;
    assert Clean("0x" + s) == s;
    forall i | 0 <= i < 32 ensures ParseInt16(Pair(s, i)) == Some(bytes[i]) {
      PairOfByte(bytes, i);
    }
  }

  /** One pair: its rendering is its lower-case form exactly if both characters are digits. */
  lemma PairRoundTrip(a: char, b: char, v: byte)
    requires ParseInt16([a, b]).Some? && v == ToByte(ParseInt16([a, b]).value)
    ensures HexDigit(v / 16) == Lower(a) && HexDigit(v % 16) == Lower(b) <==> IsHex(a) && IsHex(b)
  {
    hide ParseInt16, HexDigit, Lower, IsSpace;
    PairParses(a, b);
    if IsHex(a) && IsHex(b) {
      LowerOfHex(a);
      LowerOfHex(b);
      assert v == 16 * HexValue(a) + HexValue(b);
    } else if !IsHex(a) {
      LowerNotHex(a, v / 16);
    } else {
      LowerNotHex(b, v % 16);
    }
  }

  lemma LowerNotHex(c: char, n: nat)
    requires !IsHex(c) && n < 16
    ensures HexDigit(n) != Lower(c)
  {
    HexDigitIsHex(n);
  }

  /** The parser is lenient. What it accepts renders back to the same text in lower case if and
      only if the text is made of hex digits; anything else it accepts stands for other text. */
  lemma ParseThenRenderIff(hex: string, bytes: seq<byte>)
    requires ParsesTo(hex, bytes)
    ensures |Render(bytes)| == 64
    ensures (forall k :: 0 <= k < 64 ==> Render(bytes)[k] == Lower(Clean(hex)[k]))
              <==> (forall k :: 0 <= k < 64 ==> IsHex(Clean(hex)[k]))
  {
    hide Render, ParseInt16, Clean, Lower, IsHex, HexDigit;
    var s, t := Clean(hex), Render(bytes);
    RenderAt(bytes, 0);
    forall i | 0 <= i < 32
      ensures t[2 * i] == Lower(s[2 * i]) && t[2 * i + 1] == Lower(s[2 * i + 1]) <==> IsHex(s[2 * i]) && IsHex(s[2 * i + 1])
    {
      RenderAt(bytes, i);
      assert Pair(s, i) == [s[2 * i], s[2 * i + 1]];
      PairRoundTrip(s[2 * i], s[2 * i + 1], bytes[i]);
    }
    PairwiseIff(s, t);
  }

  /** Such a text: 32 times "1g" parses, as 32 bytes 1, which render to other text. */
  lemma LenientText()
    ensures var hex, bytes := seq(64, k => if k % 2 == 0 then '1' else 'g'), seq(32, _ => 1);
            ParsesTo(hex, bytes) && |Render(bytes)| == 64 && Render(bytes)[1] != Lower(hex[1])
  {
    hide Render, ParseInt16, HexDigit;
    var hex, bytes := seq(64, k => if k % 2 == 0 then '1' else 'g'), seq(32, _ => 1);
    assert hex[1] == 'g' && Clean(hex) == hex;
    PairParses('1', 'g');
    forall i | 0 <= i < 32 ensures Pair(hex, i) == ['1', 'g'] {}
    RenderAt(bytes, 0);
    LowerNotHex('g', 1);
  }

  /** From pairs to single characters. */
  lemma PairwiseIff(s: string, t: string)
    requires |s| == |t| == 64
    requires forall i :: 0 <= i < 32 ==>
               (t[2 * i] == Lower(s[2 * i]) && t[2 * i + 1] == Lower(s[2 * i + 1]) <==> IsHex(s[2 * i]) && IsHex(s[2 * i + 1]))
    ensures (forall k :: 0 <= k < 64 ==> t[k] == Lower(s[k])) <==> (forall k :: 0 <= k < 64 ==> IsHex(s[k]))
  {
    hide Lower, IsHex;
    forall k | 0 <= k < 64 ensures k == 2 * (k / 2) || k == 2 * (k / 2) + 1 {}
    if forall k :: 0 <= k < 64 ==> t[k] == Lower(s[k]) {
      forall k | 0 <= k < 64 ensures IsHex(s[k]) {
        var i := k / 2;
        assert t[2 * i] == Lower(s[2 * i]) && t[2 * i + 1] == Lower(s[2 * i + 1]);
      }
    }
    if forall k :: 0 <= k < 64 ==> IsHex(s[k]) {
      forall k | 0 <= k < 64 ensures t[k] == Lower(s[k]) {
        var i := k / 2;
        assert IsHex(s[2 * i]) && IsHex(s[2 * i + 1]);
      }
    }
  }

  lemma LowerOfHex(c: char)
    requires IsHex(c)
    ensures HexDigit(HexValue(c)) == Lower(c)
  {
  }
}
