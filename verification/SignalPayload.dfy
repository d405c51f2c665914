/** The message a signaling vote is hashed over: its fields joined with "|", as bytes. */
module SignalPayload {

  const DOMAIN_TAG: string := "nebgov-signal"
  const SEP53_PREFIX: string := "Stellar Signed Message:\n"

  // ---------------------------------------------------------------- decimal numbers

  function Digit(n: nat): char
    requires n < 10
  {
    '0' + n as char
  }

  /** The decimal rendering of a natural number. */
  function Decimal(n: nat): string {
    if n < 10 then [Digit(n)] else Decimal(n / 10) + [Digit(n % 10)]
  }

  /** The number a text of decimal digits stands for. */
  function ValueOf(s: string): int {
    if s == [] then 0 else 10 * ValueOf(s[..|s| - 1]) + (s[|s| - 1] as int - '0' as int)
  }

  /** The rendering consists of digits, stands for the number, and has no leading zero. */
  lemma {:induction false} DecimalIs(n: nat)
    ensures Decimal(n) != [] && (forall c :: c in Decimal(n) ==> '0' <= c <= '9') && ValueOf(Decimal(n)) == n
    ensures Decimal(n)[0] == '0' ==> n == 0
  {
    if n < 10 {
      assert Decimal(n)[..0] == [];
    } else {
      DecimalIs(n / 10);
      assert Decimal(n)[..|Decimal(n)| - 1] == Decimal(n / 10);
      assert Decimal(n)[0] == Decimal(n / 10)[0];
    }
  }

  lemma {:induction false} DecimalHasNoBar(n: nat)
    ensures '|' !in Decimal(n)
  {
    if 10 <= n {
      DecimalHasNoBar(n / 10);
    }
  }

  lemma {:induction false} DecimalInjective(m: nat, n: nat)
    requires Decimal(m) == Decimal(n)
    ensures m == n
  {
    var a, b := Decimal(m), Decimal(n);
    assert a[|a| - 1] == b[|b| - 1];
    assert a[..|a| - 1] == b[..|b| - 1];
    if 10 <= m && 10 <= n {
      assert a[..|a| - 1] == Decimal(m / 10) && b[..|b| - 1] == Decimal(n / 10);
      DecimalInjective(m / 10, n / 10);
    }
  }

  // ---------------------------------------------------------------- the message

  function Join<T>(parts: seq<seq<T>>, bar: T): seq<T> {
    if parts == [] then []
    else if |parts| == 1 then parts[0]
    else parts[0] + [bar] + Join(parts[1..], bar)
  }

  function Message(pollId: nat, choiceIndex: nat, voter: string, nonce: string): string {
    Join([DOMAIN_TAG, Decimal(pollId), Decimal(choiceIndex), voter, nonce], '|')
  }

  /** The first bar ends the first field, if the field holds none. */
  lemma FirstField(a: string, x: string, b: string, y: string)
    requires '|' !in a && '|' !in b && a + "|" + x == b + "|" + y
    ensures a == b && x == y
  {
    var s := a + "|" + x;
    assert s[|a|] == '|' && s[|b|] == '|';
    forall i | 0 <= i < |a| ensures s[i] != '|' { assert s[i] == a[i]; }
    forall i | 0 <= i < |b| ensures s[i] != '|' { assert s[i] == b[i]; }
    assert s[..|a|] == a && s[..|b|] == b;
    assert s[|a| + 1..] == x && s[|b| + 1..] == y;
  }

  /** Five fields in a row. */
  lemma JoinFive<T>(a: seq<T>, b: seq<T>, c: seq<T>, d: seq<T>, e: seq<T>, bar: T)
    ensures Join([a, b, c, d, e], bar) == a + [bar] + (b + [bar] + (c + [bar] + (d + [bar] + e)))
  {
    hide Join;
    JoinTwo(d, e, bar);
    JoinMore(c, [d, e], bar);
    JoinMore(b, [c, d, e], bar);
    JoinMore(a, [b, c, d, e], bar);
    assert [c] + [d, e] == [c, d, e];
    assert [b] + [c, d, e] == [b, c, d, e];
    assert [a] + [b, c, d, e] == [a, b, c, d, e];
  }

  /** The fields in their order, with bars between them. */
  lemma MessageLayout(pollId: nat, choiceIndex: nat, voter: string, nonce: string)
    ensures DOMAIN_TAG == "nebgov-signal"
    ensures Message(pollId, choiceIndex, voter, nonce)
         == DOMAIN_TAG + "|" + (Decimal(pollId) + "|" + (Decimal(choiceIndex) + "|" + (voter + "|" + nonce)))
  {
    JoinFive(DOMAIN_TAG, Decimal(pollId), Decimal(choiceIndex), voter, nonce, '|');
  }

  lemma JoinTwo<T>(a: seq<T>, b: seq<T>, bar: T)
    ensures Join([a, b], bar) == a + [bar] + b
  {
    assert [a, b][1..] == [b];
  }

  lemma JoinMore<T>(first: seq<T>, rest: seq<seq<T>>, bar: T)
    requires rest != []
    ensures Join([first] + rest, bar) == first + [bar] + Join(rest, bar)
  {
    assert ([first] + rest)[1..] == rest;
  }

  /** What the message pins down, for any voter and nonce: poll, choice, and the text that
      voter and nonce make together. */
  lemma SameMessageIff(p: nat, c: nat, v: string, n: string, p': nat, c': nat, v': string, n': string)
    ensures Message(p, c, v, n) == Message(p', c', v', n') <==> p == p' && c == c' && v + "|" + n == v' + "|" + n'
  {
    MessageLayout(p, c, v, n);
    MessageLayout(p', c', v', n');
    if Message(p, c, v, n) == Message(p', c', v', n') {
      var rest, rest' := Decimal(c) + "|" + (v + "|" + n), Decimal(c') + "|" + (v' + "|" + n');
      DecimalHasNoBar(p);
      DecimalHasNoBar(p');
      DecimalHasNoBar(c);
      DecimalHasNoBar(c');
      FirstField(DOMAIN_TAG, Decimal(p) + "|" + rest, DOMAIN_TAG, Decimal(p') + "|" + rest');
      FirstField(Decimal(p), rest, Decimal(p'), rest');
      FirstField(Decimal(c), v + "|" + n, Decimal(c'), v' + "|" + n');
      DecimalInjective(p, p');
      DecimalInjective(c, c');
    }
  }

  /** The message is unambiguous for voters without a bar; the nonce may be anything. */
  lemma MessageInjective(p: nat, c: nat, v: string, n: string, p': nat, c': nat, v': string, n': string)
    requires '|' !in v && '|' !in v'
    requires Message(p, c, v, n) == Message(p', c', v', n')
    ensures p == p' && c == c' && v == v' && n == n'
  {
    SameMessageIff(p, c, v, n, p', c', v', n');
    FirstField(v, n, v', n');
  }

  /** Without that, a voter and nonce can be confused with others exactly if one of them holds
      a bar. */
  lemma AmbiguousIff(v: string, n: string)
    ensures (exists v', n' :: (v' != v || n' != n) && v' + "|" + n' == v + "|" + n) <==> '|' in v || '|' in n
  {
    if '|' in v {
      var i :| 0 <= i < |v| && v[i] == '|';
      var v', n' := v[..i], v[i + 1..] + "|" + n;
      assert v == v' + "|" + v[i + 1..];
      assert v' + "|" + n' == v + "|" + n;
    } else if '|' in n {
      var i :| 0 <= i < |n| && n[i] == '|';
      var v', n' := v + "|" + n[..i], n[i + 1..];
      assert n == n[..i] + "|" + n';
      assert v' + "|" + n' == v + "|" + n;
    } else {
      forall v', n' | v' + "|" + n' == v + "|" + n ensures v' == v && n' == n {
        OnlyBar(v, n, v', n');
      }
    }
  }

  /** A text with a single bar splits in one way only. */
  lemma OnlyBar(v: string, n: string, v': string, n': string)
    requires '|' !in v && '|' !in n && v' + "|" + n' == v + "|" + n
    ensures v' == v && n' == n
  {
    var s := v + "|" + n;
    assert s[|v'|] == '|';
    forall i | 0 <= i < |s| && i != |v| ensures s[i] != '|' {
      assert s[i] == if i < |v| then v[i] else n[i - |v| - 1];
    }
    assert s[..|v|] == v && s[..|v'|] == v';
    assert s[|v| + 1..] == n && s[|v'| + 1..] == n';
  }

  // ---------------------------------------------------------------- bytes

  type byte = b: int | 0 <= b < 256

  /** The UTF-8 encoding of one character. */
  function EncodeChar(c: char): seq<byte> {
    var n := c as int;
    if n < 0x80 then [n]
    else if n < 0x800 then [0xC0 + n / 0x40, 0x80 + n % 0x40]
    else if n < 0x1_0000 then [0xE0 + n / 0x1000, 0x80 + n / 0x40 % 0x40, 0x80 + n % 0x40]
    else [0xF0 + n / 0x4_0000, 0x80 + n / 0x1000 % 0x40, 0x80 + n / 0x40 % 0x40, 0x80 + n % 0x40]
  }

  /** What the bytes of a character are, as section 3 of RFC 3629 lays them out: how many there
      are, and which bits of the number each holds. */
  lemma EncodingOf(c: char)
    ensures var n, b := c as int, EncodeChar(c);
            if n <= 0x7F then b == [n]
            else if n <= 0x7FF then
              |b| == 2 && 0xC2 <= b[0] <= 0xDF && 0x80 <= b[1] <= 0xBF && n == (b[0] as int - 0xC0) * 0x40 + (b[1] as int - 0x80)
            else if n <= 0xFFFF then
              && |b| == 3 && 0xE0 <= b[0] <= 0xEF && 0x80 <= b[1] <= 0xBF && 0x80 <= b[2] <= 0xBF
              && n == (b[0] as int - 0xE0) * 0x1000 + (b[1] as int - 0x80) * 0x40 + (b[2] as int - 0x80)
            else
              && |b| == 4 && 0xF0 <= b[0] <= 0xF4 && 0x80 <= b[1] <= 0xBF && 0x80 <= b[2] <= 0xBF && 0x80 <= b[3] <= 0xBF
              && n == (b[0] as int - 0xF0) * 0x4_0000 + (b[1] as int - 0x80) * 0x1000 + (b[2] as int - 0x80) * 0x40
                      + (b[3] as int - 0x80)
  {
    Sextets(c as int);
  }

  function Encode(s: string): seq<byte> {
    if s == [] then [] else EncodeChar(s[0]) + Encode(s[1..])
  }

  /** The first byte gives the length of a character's encoding. */
  function EncodedLength(first: byte): nat {
    if first < 0x80 then 1 else if first < 0xE0 then 2 else if first < 0xF0 then 3 else 4
  }

  lemma EncodeCharLength(c: char)
    ensures |EncodeChar(c)| == EncodedLength(EncodeChar(c)[0])
  {
  }

  /** The number a single encoded character stands for. */
  function DecodeOne(bytes: seq<byte>): int
    requires bytes != [] && |bytes| == EncodedLength(bytes[0])
  {
    var first: int := bytes[0];
    if first < 0x80 then first
    else if first < 0xE0 then (first - 0xC0) * 0x40 + Continuation(bytes[1])
    else if first < 0xF0 then (first - 0xE0) * 0x1000 + Continuation(bytes[1]) * 0x40 + Continuation(bytes[2])
    else (first - 0xF0) * 0x4_0000 + Continuation(bytes[1]) * 0x1000 + Continuation(bytes[2]) * 0x40
         + Continuation(bytes[3])
  }

  /** The six bits of a continuation byte. */
  function Continuation(b: int): int { b - 0x80 }

  lemma Sextets(n: nat)
    ensures n == n / 0x40 * 0x40 + n % 0x40
    ensures n / 0x40 == n / 0x1000 * 0x40 + n / 0x40 % 0x40
    ensures n / 0x1000 == n / 0x4_0000 * 0x40 + n / 0x1000 % 0x40
  {
    var q := n / 0x40;
    assert q / 0x40 == n / 0x1000;
    assert n / 0x1000 / 0x40 == n / 0x4_0000;
  }

  lemma EncodeThenDecode(c: char)
    ensures |EncodeChar(c)| == EncodedLength(EncodeChar(c)[0]) && DecodeOne(EncodeChar(c)) == c as int
  {
    Sextets(c as int);
  }

  lemma EncodeCharInjective(c: char, d: char)
    requires EncodeChar(c) == EncodeChar(d)
    ensures c == d
  {
    EncodeThenDecode(c);
    EncodeThenDecode(d);
  }

  /** No character's encoding is a prefix of another's. */
  lemma FirstChar(c: char, x: seq<byte>, d: char, y: seq<byte>)
    requires EncodeChar(c) + x == EncodeChar(d) + y
    ensures c == d && x == y
  {
    var s := EncodeChar(c) + x;
    assert s[0] == EncodeChar(c)[0] == EncodeChar(d)[0];
    EncodeCharLength(c);
    EncodeCharLength(d);
    var n := |EncodeChar(c)|;
    assert s[..n] == EncodeChar(c) && s[..n] == EncodeChar(d);
    assert s[n..] == x && s[n..] == y;
    EncodeCharInjective(c, d);
  }

  lemma {:induction false} EncodeInjective(s: string, t: string)
    requires Encode(s) == Encode(t)
    ensures s == t
  {
    if s != [] && t != [] {
      FirstChar(s[0], Encode(s[1..]), t[0], Encode(t[1..]));
      EncodeInjective(s[1..], t[1..]);
    }
  }

  // ---------------------------------------------------------------- texts of the runtime

  /** Texts are sequences of UTF-16 units; not all of them stand for characters. */
  type Unit = u: int | 0 <= u < 0x1_0000

  type Text = seq<Unit>

  const BAR: Unit := 0x7C
  const REPLACEMENT: char := '\U{FFFD}'

  predicate High(u: Unit) { 0xD800 <= u < 0xDC00 }

  predicate Low(u: Unit) { 0xDC00 <= u < 0xE000 }

  predicate StartsWithPair(t: Text) { 2 <= |t| && High(t[0]) && Low(t[1]) }

  /** The characters the encoder reads: a pair of surrogates is one, a surrogate without its
      partner is replaced. */
  function Scalars(t: Text): string
    decreases |t|
  {
    if t == [] then ""
    else if StartsWithPair(t) then [Combine(t[0], t[1])] + Scalars(t[2..])
    else [Single(t[0])] + Scalars(t[1..])
  }

  function Combine(hi: int, lo: int): char
    requires 0xD800 <= hi < 0xDC00 <= lo < 0xE000
  {
    (0x1_0000 + (hi - 0xD800) * 0x400 + (lo - 0xDC00)) as char
  }

  function Single(u: Unit): char { if High(u) || Low(u) then REPLACEMENT else u as char }

  /** The text for given characters. */
  function Units(s: string): Text {
    if s == [] then [] else UnitsOf(s[0]) + Units(s[1..])
  }

  function UnitsOf(c: char): Text {
    var n := c as int;
    if n < 0x1_0000 then [n] else [0xD800 + (n - 0x1_0000) / 0x400, 0xDC00 + (n - 0x1_0000) % 0x400]
  }

  /** The bytes the runtime's encoder gives for a text. */
  function TextEncode(t: Text): seq<byte> { Encode(Scalars(t)) }

  /** What the encoder reads first, and where it goes on. */
  lemma FirstRead(t: Text)
    requires t != []
    ensures var n: int := t[0];
            if n < 0xD800 || 0xE000 <= n then Scalars(t) == [n as char] + Scalars(t[1..])
            else if n < 0xDC00 && 1 < |t| && 0xDC00 <= t[1] < 0xE000 then
              Scalars(t) == [(0x1_0000 + (n - 0xD800) * 0x400 + (t[1] as int - 0xDC00)) as char] + Scalars(t[2..])
            else Scalars(t) == ['\U{FFFD}'] + Scalars(t[1..])
  {
  }

  lemma ScalarsStep(c: char, r: Text)
    ensures Scalars(UnitsOf(c) + r) == [c] + Scalars(r)
  {
    var n, t := c as int, UnitsOf(c) + r;
    if n < 0x1_0000 {
      assert t[1..] == r;
    } else {
      var m := n - 0x1_0000;
      assert m == m / 0x400 * 0x400 + m % 0x400;
      assert t[2..] == r;
    }
  }

  /** Characters are read back, whatever follows them. */
  lemma {:induction false} ScalarsOfPrefix(s: string, r: Text)
    ensures Scalars(Units(s) + r) == s + Scalars(r)
  {
    hide Scalars, UnitsOf;
    if s == [] {
      assert Units(s) + r == r;
    } else {
      ScalarsOfPrefix(s[1..], r);
      assert Units(s) + r == UnitsOf(s[0]) + (Units(s[1..]) + r);
      ScalarsStep(s[0], Units(s[1..]) + r);
    }
  }

  lemma ScalarsOfUnits(s: string)
    ensures Scalars(Units(s)) == s
  {
    ScalarsOfPrefix(s, []);
    assert Units(s) + [] == Units(s);
  }

  lemma UnitsOfPair(hi: Unit, lo: Unit)
    requires High(hi) && Low(lo)
    ensures UnitsOf(Combine(hi, lo)) == [hi, lo]
  {
    var a: int, b: int := hi, lo;
    var m := (a - 0xD800) * 0x400 + (b - 0xDC00);
    assert m / 0x400 == a - 0xD800 && m % 0x400 == b - 0xDC00;
  }

  /** A text read without a replacement is given back by its characters. */
  lemma {:induction false} UnitsOfScalars(t: Text)
    requires REPLACEMENT !in Scalars(t)
    ensures Units(Scalars(t)) == t
    decreases |t|
  {
    hide UnitsOf, Combine;
    if t != [] {
      var s, n := Scalars(t), if StartsWithPair(t) then 2 else 1;
      assert s[1..] == Scalars(t[n..]);
      assert forall c :: c in s[1..] ==> c in s;
      UnitsOfScalars(t[n..]);
      assert s[0] in s;
      if StartsWithPair(t) {
        UnitsOfPair(t[0], t[1]);
      } else {
        UnitsOfSingle(t[0]);
      }
      assert t == t[..n] + t[n..];
    }
  }

  lemma UnitsOfSingle(u: Unit)
    requires Single(u) != REPLACEMENT
    ensures UnitsOf(Single(u)) == [u]
  {
  }

  /** Another text is encoded alike exactly if the encoder reads a replacement character. */
  lemma EncodedAlikeIff(t: Text)
    ensures (exists t' :: t' != t && TextEncode(t') == TextEncode(t)) <==> REPLACEMENT in Scalars(t)
  {
    hide Encode, Scalars;
    if REPLACEMENT in Scalars(t) {
      var t' := OtherText(t);
      assert TextEncode(t') == TextEncode(t);
    } else {
      forall t' | TextEncode(t') == TextEncode(t) ensures t' == t {
        EncodeInjective(Scalars(t'), Scalars(t));
        UnitsOfScalars(t);
        UnitsOfScalars(t');
      }
    }
  }

  /** The repaired text, or, if there was nothing to repair, a surrogate for a replacement. */
  lemma OtherText(t: Text) returns (t': Text)
    requires REPLACEMENT in Scalars(t)
    ensures t' != t && Scalars(t') == Scalars(t)
  {
    hide Scalars, Units;
    var s := Scalars(t);
    t' := Units(s);
    ScalarsOfUnits(s);
    if t' == t {
      var i :| 0 <= i < |s| && s[i] == REPLACEMENT;
      assert s == s[..i] + ([REPLACEMENT] + s[i + 1..]);
      t' := SurrogateFor(s[..i], s[i + 1..]);
    }
  }

  lemma SurrogateFor(x: string, y: string) returns (t: Text)
    ensures var s := x + ([REPLACEMENT] + y); t != Units(s) && Scalars(t) == s
  {
    hide Scalars, Units;
    t := Units(x) + ([0xDC00] + Units(y));
    ScalarsOfPrefix(x, [0xDC00] + Units(y));
    ScalarsOfSurrogate(Units(y));
    ScalarsOfUnits(y);
    UnitsConcat(x, [REPLACEMENT] + y);
    UnitsOfReplacement(y);
    assert t[|Units(x)|] == 0xDC00 && (Units(x) + ([0xFFFD] + Units(y)))[|Units(x)|] == 0xFFFD;
  }

  lemma ScalarsOfSurrogate(r: Text)
    ensures Scalars([0xDC00] + r) == [REPLACEMENT] + Scalars(r)
  {
    assert ([0xDC00] + r)[1..] == r;
  }

  lemma UnitsOfReplacement(y: string)
    ensures Units([REPLACEMENT] + y) == [0xFFFD] + Units(y)
  {
    assert ([REPLACEMENT] + y)[1..] == y;
  }

  lemma {:induction false} UnitsConcat(s: string, r: string)
    ensures Units(s + r) == Units(s) + Units(r)
  {
    if s == [] {
      assert s + r == r;
    } else {
      assert (s + r)[1..] == s[1..] + r;
      UnitsConcat(s[1..], r);
    }
  }

  /** Two texts that differ and are encoded alike: one unpaired surrogate each. */
  lemma SurrogatesEncodeAlike()
    ensures TextEncode([0xD800]) == TextEncode([0xD801]) == TextEncode([0xFFFD])
  {
    assert [0xD800][1..] == [] && [0xD801][1..] == [] && [0xFFFD][1..] == [];
  }

  // ---------------------------------------------------------------- the bytes that are hashed

  function TextMessage(pollId: nat, choiceIndex: nat, voter: Text, nonce: Text): Text {
    Join([Units(DOMAIN_TAG), Units(Decimal(pollId)), Units(Decimal(choiceIndex)), voter, nonce], BAR)
  }

  /** A bar is never half of a pair. */
  lemma {:induction false} ScalarsBar(a: Text, b: Text)
    ensures Scalars(a + [BAR] + b) == Scalars(a) + "|" + Scalars(b)
    decreases |a|
  {
    var t := a + [BAR] + b;
    if a == [] {
      assert t[1..] == b;
    } else {
      assert StartsWithPair(t) <==> StartsWithPair(a);
      var n := if StartsWithPair(a) then 2 else 1;
      assert t[n..] == a[n..] + [BAR] + b;
      ScalarsBar(a[n..], b);
    }
  }

  /** The encoder reads the message of what it reads for voter and nonce. */
  lemma ScalarsOfMessage(p: nat, c: nat, v: Text, n: Text)
    ensures Scalars(TextMessage(p, c, v, n)) == Message(p, c, Scalars(v), Scalars(n))
  {
    hide Scalars, Units;
    var d, dp, dc := Units(DOMAIN_TAG), Units(Decimal(p)), Units(Decimal(c));
    JoinFive(d, dp, dc, v, n, BAR);
    ScalarsBar(d, dp + [BAR] + (dc + [BAR] + (v + [BAR] + n)));
    ScalarsBar(dp, dc + [BAR] + (v + [BAR] + n));
    ScalarsBar(dc, v + [BAR] + n);
    ScalarsBar(v, n);
    ScalarsOfUnits(DOMAIN_TAG);
    ScalarsOfUnits(Decimal(p));
    ScalarsOfUnits(Decimal(c));
    MessageLayout(p, c, Scalars(v), Scalars(n));
  }

  /** What the hashed bytes pin down: poll, choice, and what is read for voter and nonce
      together. */
  lemma SameBytesIff(p: nat, c: nat, v: Text, n: Text, p': nat, c': nat, v': Text, n': Text)
    ensures TextEncode(TextMessage(p, c, v, n)) == TextEncode(TextMessage(p', c', v', n')) <==>
              p == p' && c == c' && Scalars(v) + "|" + Scalars(n) == Scalars(v') + "|" + Scalars(n')
  {
    hide Message, Encode, Scalars, TextMessage;
    ScalarsOfMessage(p, c, v, n);
    ScalarsOfMessage(p', c', v', n');
    SameMessageIff(p, c, Scalars(v), Scalars(n), p', c', Scalars(v'), Scalars(n'));
    if TextEncode(TextMessage(p, c, v, n)) == TextEncode(TextMessage(p', c', v', n')) {
      EncodeInjective(Message(p, c, Scalars(v), Scalars(n)), Message(p', c', Scalars(v'), Scalars(n')));
    }
  }

  /** The bytes that are hashed for a vote determine the vote, for voters without a bar, if no
      replacement is read. */
  lemma HashedBytesInjective(p: nat, c: nat, v: Text, n: Text, p': nat, c': nat, v': Text, n': Text)
    requires '|' !in Scalars(v) && '|' !in Scalars(v')
    requires REPLACEMENT !in Scalars(v) && REPLACEMENT !in Scalars(n)
    requires TextEncode(TextMessage(p, c, v, n)) == TextEncode(TextMessage(p', c', v', n'))
    ensures p == p' && c == c' && v == v' && n == n'
  {
    hide TextMessage, Encode, Scalars;
    SameBytesIff(p, c, v, n, p', c', v', n');
    FirstField(Scalars(v), Scalars(n), Scalars(v'), Scalars(n'));
    UnitsOfScalars(v);
    UnitsOfScalars(n);
    UnitsOfScalars(v');
    UnitsOfScalars(n');
  }

  /** Another voter or nonce gives the same bytes exactly if a bar or a replacement is read in
      one of the two. */
  lemma SameHashIff(p: nat, c: nat, v: Text, n: Text)
    ensures (exists v', n' :: (v' != v || n' != n) && TextEncode(TextMessage(p, c, v', n')) == TextEncode(TextMessage(p, c, v, n)))
            <==> '|' in Scalars(v) || '|' in Scalars(n) || REPLACEMENT in Scalars(v) || REPLACEMENT in Scalars(n)
  {
    hide TextMessage, TextEncode, Scalars, Units;
    if REPLACEMENT in Scalars(v) {
      var v' := OtherText(v);
      SameBytesIff(p, c, v', n, p, c, v, n);
    } else if REPLACEMENT in Scalars(n) {
      var n' := OtherText(n);
      SameBytesIff(p, c, v, n', p, c, v, n);
    } else if '|' in Scalars(v) || '|' in Scalars(n) {
      AmbiguousIff(Scalars(v), Scalars(n));
      var v', n' :| (v' != Scalars(v) || n' != Scalars(n)) && v' + "|" + n' == Scalars(v) + "|" + Scalars(n);
      ScalarsOfUnits(v');
      ScalarsOfUnits(n');
      SameBytesIff(p, c, Units(v'), Units(n'), p, c, v, n);
    } else {
      forall v', n' | TextEncode(TextMessage(p, c, v', n')) == TextEncode(TextMessage(p, c, v, n)) ensures v' == v && n' == n {
        SameBytesIff(p, c, v', n', p, c, v, n);
        OnlyBar(Scalars(v), Scalars(n), Scalars(v'), Scalars(n'));
        UnitsOfScalars(v);
        UnitsOfScalars(n);
        UnitsOfScalars(v');
        UnitsOfScalars(n');
      }
    }
  }

  /** The SEP-53 frame around a message: the fixed prefix, then the message, copied into one
      buffer. */
  method Sep53Payload(message: Text) returns (payload: array<byte>)
    ensures fresh(payload) && payload[..] == Encode(SEP53_PREFIX) + TextEncode(message)
    ensures payload[..] == Encode("Stellar Signed Message:\n" + Scalars(message))
  {
    hide Encode, Scalars;
    var prefixBytes, messageBytes := Encode(SEP53_PREFIX), TextEncode(message);
    var n := |prefixBytes|;
    payload := new byte[n + |messageBytes|](_ => 0);
    Set(payload, prefixBytes, 0);
    assert payload[..n] == prefixBytes;
    Set(payload, messageBytes, n);
    EncodeConcat(SEP53_PREFIX, Scalars(message));
  }

  /** Copies bytes into the buffer from an offset on. */
  method Set(buffer: array<byte>, bytes: seq<byte>, offset: nat)
    requires offset + |bytes| <= buffer.Length
    modifies buffer
    ensures buffer[..] == old(buffer[..offset]) + bytes + old(buffer[offset + |bytes|..])
  {
    for i := 0 to |bytes|
      invariant buffer[..] == old(buffer[..offset]) + bytes[..i] + old(buffer[offset + i..])
    {
      buffer[offset + i] := bytes[i];
    }
  }

  lemma {:induction false} EncodeConcat(s: string, t: string)
    ensures Encode(s + t) == Encode(s) + Encode(t)
  {
    if s == [] {
      assert s + t == t;
    } else {
      assert (s + t)[1..] == s[1..] + t;
      EncodeConcat(s[1..], t);
    }
  }
}
