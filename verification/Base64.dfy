/** The streaming base64 encoder and the chunked terminal output. */
module Base64 {
  import opened Collections
  import opened Bytes
  import opened Arithmetic

  const UPPER: string := "ABCDEFGHIJKLM" + "NOPQRSTUVWXYZ"
  const LOWER: string := "abcdefghijklm" + "nopqrstuvwxyz"
  const TAIL: string := "0123456789" + "+/"
  const ALPHABET: string := UPPER + LOWER + TAIL

  function Letter(v: nat): char
    requires v < 64
  {
    ALPHABET[v]
  }

  // --------------------------------------------------- section 4 of RFC 4648, by groups

  /** The four six-bit letters of three bytes; a missing byte counts as zero. */
  function First(a: Byte): char { Letter(a as int / 4) }
  function Second(a: Byte, b: Byte): char { Letter(a as int % 4 * 16 + b as int / 16) }
  function Third(b: Byte, c: Byte): char { Letter(b as int % 16 * 4 + c as int / 64) }
  function Fourth(c: Byte): char { Letter(c as int % 64) }

  /** Groups of three bytes give four letters; a short last group is padded. */
  function Encode(s: seq<Byte>): seq<char> {
    if s == [] then []
    else if |s| == 1 then [First(s[0]), Second(s[0], 0), '=', '=']
    else if |s| == 2 then [First(s[0]), Second(s[0], s[1]), Third(s[1], 0), '=']
    else [First(s[0]), Second(s[0], s[1]), Third(s[1], s[2]), Fourth(s[2])] + Encode(s[3..])
  }

  // ------------------------------------------------------------------ what is out so far

  /** The letters that the bytes alone determine, without the unfinished one. */
  function Emitted(s: seq<Byte>): seq<char> {
    if s == [] then []
    else if |s| == 1 then [First(s[0])]
    else if |s| == 2 then [First(s[0]), Second(s[0], s[1])]
    else [First(s[0]), Second(s[0], s[1]), Third(s[1], s[2]), Fourth(s[2])] + Emitted(s[3..])
  }

  /** The letters one more byte adds, after `n` bytes ending in `a`. */
  function Added(n: nat, a: Byte, b: Byte): seq<char> {
    if n % 3 == 0 then [First(b)] else if n % 3 == 1 then [Second(a, b)] else [Third(a, b), Fourth(b)]
  }

  /** The letter and padding that finish an input of `n` bytes ending in `a`. */
  function Finish(n: nat, a: Byte): seq<char> {
    if n % 3 == 0 then [] else if n % 3 == 1 then [Second(a, 0), '=', '='] else [Third(a, 0), '=']
  }

  function Last(s: seq<Byte>): Byte { if s == [] then 0 else s[|s|-1] }

  lemma {:induction false} AddedAgain(n: nat, a: Byte, a': Byte, b: Byte)
    requires n > 0 ==> a == a'
    ensures Added(n + 3, a', b) == Added(n, a, b)
  {
    hide First, Second, Third, Fourth;
    assert (n + 3) % 3 == n % 3;
  }

  lemma {:induction false} EmittedFew(a: Byte, b: Byte, c: Byte)
    ensures Emitted([]) == [] && Emitted([a]) == [First(a)] && Emitted([a, b]) == [First(a), Second(a, b)]
    ensures Emitted([a, b, c]) == [First(a), Second(a, b), Third(b, c), Fourth(c)]
  {
    hide First, Second, Third, Fourth;
    assert [a, b, c][3..] == [];
  }

  lemma {:induction false} AddedFew(a: Byte, b: Byte, c: Byte)
    ensures Emitted([a]) == Emitted([]) + Added(0, 0, a)
    ensures Emitted([a, b]) == Emitted([a]) + Added(1, a, b)
    ensures Emitted([a, b, c]) == Emitted([a, b]) + Added(2, b, c)
  {
    EmittedFew(a, b, c);
    hide First, Second, Third, Fourth, Emitted;
  }

  lemma {:induction false} EmittedShort(s: seq<Byte>, b: Byte)
    requires |s| < 3
    ensures Emitted(s + [b]) == Emitted(s) + Added(|s|, Last(s), b)
  {
    hide Emitted, Added;
    if |s| == 2 {
      assert s == [s[0], s[1]] && s + [b] == [s[0], s[1], b];
      AddedFew(s[0], s[1], b);
    } else if |s| == 1 {
      assert s == [s[0]] && s + [b] == [s[0], b];
      AddedFew(s[0], b, b);
    } else {
      assert s == [] && s + [b] == [b];
      AddedFew(b, b, b);
    }
  }

  lemma {:induction false} EmittedStep(s: seq<Byte>, b: Byte)
    ensures Emitted(s + [b]) == Emitted(s) + Added(|s|, Last(s), b)
    decreases |s|
  {
    hide First, Second, Third, Fourth, Added;
    if |s| >= 3 {
      var t := s[3..];
      EmittedStep(t, b);
      assert (s + [b])[3..] == t + [b];
      AddedAgain(|t|, Last(t), Last(s), b);
    } else {
      EmittedShort(s, b);
    }
  }

  lemma {:induction false} EncodeFinishes(s: seq<Byte>)
    ensures Encode(s) == Emitted(s) + Finish(|s|, Last(s))
    ensures |Emitted(s)| == 4 * (|s| / 3) + |s| % 3
    decreases |s|
  {
    hide First, Second, Third, Fourth;
    if |s| >= 3 { EncodeFinishes(s[3..]); }
  }

  // ------------------------------------------------------------------- machine arithmetic

  /** A signed 32-bit word after wrap-around. */
  function Word(x: int): int { (x + 0x8000_0000) % 0x1_0000_0000 - 0x8000_0000 }

  /** `(val >> n) & 0x3F`: an arithmetic shift and the low six bits. */
  function SixBits(val: int, n: nat): (v: nat)
    ensures v < 64
  {
    (val / Pow2(n)) % 64
  }

  lemma Powers()
    ensures Pow2(0) == 1 && Pow2(2) == 4 && Pow2(4) == 16 && Pow2(6) == 64
  {
    assert Pow2(1) == 2;
    assert Pow2(3) == 8;
    assert Pow2(5) == 32;
  }

  /** The inner loop's letters from bit count `valb` down. */
  function Drain(val: int, valb: int): seq<char>
    decreases valb + 6
  {
    if valb < 0 then [] else [Letter(SixBits(val, valb))] + Drain(val, valb - 6)
  }

  lemma WordLow(x: int)
    ensures Word(x) % 0x1_0000 == x % 0x1_0000
  {
    var k := (x + 0x8000_0000) / 0x1_0000_0000;
    assert Word(x) == x - k * 0x1_0000_0000;
    DivMod(Word(x), x / 0x1_0000 - k * 0x1_0000, x % 0x1_0000, 0x1_0000);
  }

  /** Six bits from place `n` on depend on the low sixteen alone. */
  lemma SixLow(val: int, low: nat, p: nat, rest: nat)
    requires val % 0x1_0000 == low && p > 0 && p * 64 * rest == 0x1_0000
    ensures val / p % 64 == low / p % 64
  {
    var h := val / 0x1_0000;
    var q, r := low / p, low % p;
    assert low == q * p + r;
    var top := h * (64 * rest);
    assert top * p == h * 0x1_0000 by { Rearrange(h, rest, p); }
    assert (top + q) * p == top * p + q * p;
    DivMod(val, top + q, r, p);
    assert (h * rest + q / 64) * 64 == top + q / 64 * 64;
    DivMod(top + q, h * rest + q / 64, q % 64, 64);
  }

  lemma Rearrange(h: int, rest: nat, p: nat)
    requires p * 64 * rest == 0x1_0000
    ensures h * (64 * rest) * p == h * 0x1_0000
  {
    assert (64 * rest) * p == 0x1_0000;
    Associate(h, 64 * rest, p);
  }

  /** What the register holds that still matters: the last byte. */
  lemma {:induction false} ShiftIn(val: int, a: Byte, b: Byte)
    requires val % 256 == a as int
    ensures Word(Word(val * 256) + b as int) % 0x1_0000 == a as int * 256 + b as int
    ensures Word(val * 256) % 0x1_0000 == a as int * 256
  {
    hide Word;
    var x, y := a as int, b as int;
    var w := Word(val * 256);
    WordLow(val * 256);
    DivMod(val * 256, val / 256, x * 256, 0x1_0000);
    DivMod(w + y, w / 0x1_0000, x * 256 + y, 0x1_0000);
    WordLow(w + y);
  }

  lemma SixFrom(val: int, low: nat)
    requires val % 0x1_0000 == low
    ensures SixBits(val, 0) == low % 64 && SixBits(val, 2) == low / 4 % 64
    ensures SixBits(val, 4) == low / 16 % 64 && SixBits(val, 6) == low / 64 % 64
  {
    Powers();
    SixLow(val, low, 1, 1024);
    SixLow(val, low, 4, 256);
    SixLow(val, low, 16, 64);
    SixLow(val, low, 64, 16);
  }

  /** After `n` bytes the counter shows how many bits wait: none, two or four. */
  function Waiting(n: nat): int { -6 + 2 * (n % 3) }

  lemma {:induction false} DrainIsAdded(n: nat, a: Byte, b: Byte, val: int)
    requires val % 0x1_0000 == a as int * 256 + b as int
    ensures Drain(val, Waiting(n) + 8) == Added(n, a, b)
  {
    LettersAre(a, b, val);
    hide SixBits, Letter, First, Second, Third, Fourth;
    assert Drain(val, -4) == [] && Drain(val, -2) == [] && Drain(val, -6) == [];
    if n % 3 == 0 {
      assert Drain(val, 2) == [Letter(SixBits(val, 2))] + Drain(val, -4);
    } else if n % 3 == 1 {
      assert Drain(val, 4) == [Letter(SixBits(val, 4))] + Drain(val, -2);
    } else {
      assert Drain(val, 0) == [Letter(SixBits(val, 0))] + Drain(val, -6);
      assert Drain(val, 6) == [Letter(SixBits(val, 6))] + Drain(val, 0);
    }
  }

  lemma {:induction false} SixValues(a: Byte, b: Byte, val: int)
    requires val % 0x1_0000 == a as int * 256 + b as int
    ensures SixBits(val, 2) == b as int / 4 && SixBits(val, 4) == a as int % 4 * 16 + b as int / 16
    ensures SixBits(val, 6) == a as int % 16 * 4 + b as int / 64 && SixBits(val, 0) == b as int % 64
  {
    hide SixBits;
    var low: nat := a as int * 256 + b as int;
    SixFrom(val, low);
    SixParts(a, b);
  }

  lemma {:induction false} LettersAre(a: Byte, b: Byte, val: int)
    requires val % 0x1_0000 == a as int * 256 + b as int
    ensures Letter(SixBits(val, 2)) == First(b) && Letter(SixBits(val, 4)) == Second(a, b)
    ensures Letter(SixBits(val, 6)) == Third(a, b) && Letter(SixBits(val, 0)) == Fourth(b)
  {
    hide SixBits, Letter;
    SixValues(a, b, val);
  }

  lemma SixParts(a: Byte, b: Byte)
    ensures var low := a as int * 256 + b as int;
            && low % 64 == b as int % 64 && low / 4 % 64 == b as int / 4
            && low / 16 % 64 == a as int % 4 * 16 + b as int / 16 && low / 64 % 64 == a as int % 16 * 4 + b as int / 64
  {
    var x, y := a as int, b as int;
    var low := x * 256 + y;
    DivMod(low, x * 4 + y / 64, y % 64, 64);
    DivMod(low, x * 64 + y / 4, y % 4, 4);
    DivMod(x * 64 + y / 4, x, y / 4, 64);
    DivMod(low, x * 16 + y / 16, y % 16, 16);
    DivMod(x * 16 + y / 16, x / 4, x % 4 * 16 + y / 16, 64);
    DivMod(x * 4 + y / 64, x / 16, x % 16 * 4 + y / 64, 64);
  }

  // ------------------------------------------------------------------------ the encoder

  /** The inner loop: letters while at least six bits wait. */
  method EmitLetters(start: seq<char>, val: int, bits: int) returns (out: seq<char>, valb: int)
    requires bits >= -6
    ensures out == start + Drain(val, bits)
    ensures -6 <= valb < 0 && (bits - valb) % 6 == 0
  {
    hide SixBits, Letter;
    out, valb := start, bits;
    while valb >= 0
      invariant valb >= -6 && (bits - valb) % 6 == 0
      invariant out + Drain(val, valb) == start + Drain(val, bits)
    {
      out := out + [Letter(SixBits(val, valb))];
      valb := valb - 6;
    }
  }

  /** Shifting one more byte in: the register ends in it, and the inner loop's letters complete the prefix. */
  lemma {:induction false} ByteIn(s: seq<Byte>, b: Byte, val: int)
    requires val % 256 == Last(s) as int
    ensures var w := Word(Word(val * 256) + b);
      w % 256 == Last(s + [b]) as int && Emitted(s + [b]) == Emitted(s) + Drain(w, Waiting(|s|) + 8)
  {
    hide Drain, Emitted, Word, Added, Waiting;
    var w := Word(Word(val * 256) + b);
    ShiftIn(val, Last(s), b);
    LowByte(w, Last(s), b);
    DrainIsAdded(|s|, Last(s), b, w);
    EmittedStep(s, b);
  }

  /** The letter of the waiting bits and the padding finish the text. */
  lemma {:induction false} LastLetter(s: seq<Byte>, val: int)
    requires val % 256 == Last(s) as int
    ensures var last := if Waiting(|s|) > -6 then [Letter(SixBits(Word(val * 256), Waiting(|s|) + 8))] else [];
      Encode(s) == Emitted(s) + last + Pads(|s|) && |Encode(s)| % 4 == 0
  {
    hide Encode, Emitted, Word, SixBits, Letter, Second, Third;
    EncodeFinishes(s);
    ShiftIn(val, Last(s), 0);
    LettersAre(Last(s), 0, Word(val * 256));
  }

  /** The shift-register encoder computes the grouped form for inputs of any length. */
  method Base64Encode(data: seq<Byte>) returns (out: seq<char>)
    ensures out == Encode(data) && WellFormed(out) && Decode(out) == data
  {
    DecodeEncode(data);
    hide Drain, Emitted, Encode, Word, SixBits, Letter, Waiting, Last, WellFormed, Decode;
    out := [];
    var val, valb := 0, -6;
    NoByte();
    for i := 0 to |data|
      invariant val % 256 == Last(data[..i]) as int && valb == Waiting(i)
      invariant out == Emitted(data[..i])
    {
      assert data[..i+1] == data[..i] + [data[i]];
      ByteIn(data[..i], data[i], val);
      val := Word(Word(val * 256) + data[i]);
      out, valb := EmitLetters(out, val, valb + 8);
      WaitingNext(i, valb);
    }
    assert data[..|data|] == data;
    LastLetter(data, val);
    ghost var target := Encode(data);
    if valb > -6 {
      out := out + [Letter(SixBits(Word(val * 256), valb + 8))];
    }
    out := PadOut(out, target);
  }

  function Pads(n: nat): seq<char> { if n % 3 == 0 then [] else if n % 3 == 1 then ['=', '='] else ['='] }

  /** The padding loop completes `target`, whose missing end is padding only. */
  method PadOut(start: seq<char>, ghost target: seq<char>) returns (out: seq<char>)
    requires |start| <= |target| < |start| + 4 && |target| % 4 == 0 && start == target[..|start|]
    requires forall j :: |start| <= j < |target| ==> target[j] == '='
    ensures out == target
  {
    out := start;
    while |out| % 4 != 0
      invariant |start| <= |out| <= |target| && out == target[..|out|]
      decreases |target| - |out|
    {
      out := out + ['='];
    }
  }

  lemma NoByte()
    ensures Emitted([]) == [] && Last([]) == 0 && Waiting(0) == -6
  {}

  lemma LowByte(val: int, a: Byte, b: Byte)
    requires val % 0x1_0000 == a as int * 256 + b as int
    ensures val % 256 == b as int
  {
    var h := val / 0x1_0000;
    DivMod(val, h * 256 + a as int, b as int, 256);
  }

  lemma WaitingNext(n: nat, valb: int)
    requires -6 <= valb < 0 && (Waiting(n) + 8 - valb) % 6 == 0
    ensures valb == Waiting(n + 1)
  {
    if n % 3 == 0 { assert (n + 1) % 3 == 1; }
    else if n % 3 == 1 { assert (n + 1) % 3 == 2; }
    else { assert (n + 1) % 3 == 0; }
  }

  // ------------------------------------------------------------------------ reading back

  /** The value of a letter by its character range, -1 for any other character. */
  function Sextet(c: char): int {
    if 'A' <= c <= 'Z' then c as int - 'A' as int
    else if 'a' <= c <= 'z' then c as int - 'a' as int + 26
    else if '0' <= c <= '9' then c as int - '0' as int + 52
    else if c == '+' then 62
    else if c == '/' then 63
    else -1
  }

  /** The 24 bits of four letters; padding counts as zero. */
  function Bits24(t: seq<char>): int
    requires |t| >= 4
  {
    Sextet(t[0]) * 0x4_0000 + Sextet(t[1]) * 0x1000
      + (if t[2] == '=' then 0 else Sextet(t[2])) * 0x40 + if t[3] == '=' then 0 else Sextet(t[3])
  }

  /** The text is well formed as section 4 of RFC 4648 says: groups of four letters, of which the last may end in
      one or two paddings, the bits under them being zero. */
  predicate WellFormed(t: seq<char>) {
    |t| == 0 ||
      (|t| >= 4 && Sextet(t[0]) >= 0 && Sextet(t[1]) >= 0
       && if |t| > 4 || t[3] != '=' then Sextet(t[2]) >= 0 && Sextet(t[3]) >= 0 && WellFormed(t[4..])
          else if t[2] == '=' then Sextet(t[1]) % 16 == 0
          else Sextet(t[2]) >= 0 && Sextet(t[2]) % 4 == 0)
  }

  /** The three bytes of each group of four letters, one or two less for the padding of the last. */
  function Decode(t: seq<char>): seq<Byte> {
    if |t| < 4 then []
    else
      var x := Bits24(t);
      if t[3] != '=' then [x / 0x1_0000 % 256, x / 0x100 % 256, x % 256] + Decode(t[4..])
      else if t[2] != '=' then [x / 0x1_0000 % 256, x / 0x100 % 256]
      else [x / 0x1_0000 % 256]
  }

  lemma UpperAt(k: nat)
    requires k < 26
    ensures UPPER[k] as int == 'A' as int + k
  {}

  lemma LowerAt(k: nat)
    requires k < 26
    ensures LOWER[k] as int == 'a' as int + k
  {}

  lemma TailAt(k: nat)
    requires k < 12
    ensures TAIL[k] as int == if k < 10 then '0' as int + k else if k == 10 then '+' as int else '/' as int
  {}

  lemma {:induction false} LetterIs(v: nat)
    requires v < 64
    ensures Letter(v) == if v < 26 then UPPER[v] else if v < 52 then LOWER[v-26] else TAIL[v-52]
  {
    hide UPPER, LOWER, TAIL;
    Lengths();
  }

  lemma Lengths()
    ensures |UPPER| == 26 && |LOWER| == 26 && |TAIL| == 12
  {}

  lemma {:induction false} LetterReads(v: nat)
    requires v < 64
    ensures Sextet(Letter(v)) == v && Letter(v) != '='
  {
    hide Letter, UPPER, LOWER, TAIL;
    Lengths();
    LetterIs(v);
    if v < 26 { UpperAt(v); } else if v < 52 { LowerAt(v - 26); } else { TailAt(v - 52); }
  }

  lemma ThreeBytes(a: Byte, b: Byte, c: Byte)
    ensures var x := a as int / 4 * 0x4_0000 + (a as int % 4 * 16 + b as int / 16) * 0x1000
                     + (b as int % 16 * 4 + c as int / 64) * 0x40 + c as int % 64;
      x / 0x1_0000 % 256 == a && x / 0x100 % 256 == b && x % 256 == c
  {
    var u, v, w := a as int, b as int, c as int;
    var x := u * 0x1_0000 + v * 0x100 + w;
    assert u == u / 4 * 4 + u % 4 && v == v / 16 * 16 + v % 16 && w == w / 64 * 64 + w % 64;
    DivMod(x, u * 0x100 + v, w, 0x100);
    DivMod(u * 0x100 + v, u, v, 0x100);
    DivMod(x, u, v * 0x100 + w, 0x1_0000);
  }

  lemma {:induction false} GroupReads(a: Byte, b: Byte, c: Byte)
    ensures Sextet(First(a)) == a as int / 4 && Sextet(Second(a, b)) == a as int % 4 * 16 + b as int / 16
    ensures Sextet(Third(b, c)) == b as int % 16 * 4 + c as int / 64 && Sextet(Fourth(c)) == c as int % 64
    ensures First(a) != '=' && Second(a, b) != '=' && Third(b, c) != '=' && Fourth(c) != '='
  {
    hide Sextet, Letter;
    LetterReads(a as int / 4);
    LetterReads(a as int % 4 * 16 + b as int / 16);
    LetterReads(b as int % 16 * 4 + c as int / 64);
    LetterReads(c as int % 64);
  }

  /** One full group in front. */
  lemma {:induction false} QuadReads(a: Byte, b: Byte, c: Byte, rest: seq<char>)
    ensures var t := [First(a), Second(a, b), Third(b, c), Fourth(c)] + rest;
      (WellFormed(rest) ==> WellFormed(t)) && Decode(t) == [a, b, c] + Decode(rest)
  {
    hide Sextet, First, Second, Third, Fourth;
    GroupReads(a, b, c);
    ThreeBytes(a, b, c);
    var t := [First(a), Second(a, b), Third(b, c), Fourth(c)] + rest;
    assert t[4..] == rest;
  }

  /** The last group: one or two bytes. */
  lemma {:induction false} LastReads(a: Byte, b: Byte)
    ensures var t := [First(a), Second(a, 0), '=', '=']; WellFormed(t) && Decode(t) == [a]
    ensures var t := [First(a), Second(a, b), Third(b, 0), '=']; WellFormed(t) && Decode(t) == [a, b]
  {
    hide Sextet, First, Second, Third, Fourth;
    GroupReads(a, 0, 0);
    ThreeBytes(a, 0, 0);
    GroupReads(a, b, 0);
    ThreeBytes(a, b, 0);
  }

  /** The text is well formed and reads back as the bytes. */
  lemma {:induction false} DecodeEncode(s: seq<Byte>)
    ensures WellFormed(Encode(s)) && Decode(Encode(s)) == s
    decreases |s|
  {
    hide First, Second, Third, Fourth;
    if |s| >= 3 {
      hide WellFormed, Decode;
      DecodeEncode(s[3..]);
      QuadReads(s[0], s[1], s[2], Encode(s[3..]));
      assert s == [s[0], s[1], s[2]] + s[3..];
    } else if s != [] {
      hide WellFormed, Decode;
      LastReads(s[0], if |s| == 2 then s[1] else 0);
      assert s == if |s| == 2 then [s[0], s[1]] else [s[0]];
    }
  }

  // ------------------------------------------------------------------------ the chunks

  /** Consecutive pieces of length `n`, the last one possibly shorter, none empty. */
  function Split<T>(s: seq<T>, n: nat): seq<seq<T>>
    requires n > 0
  {
    if s == [] then [] else if |s| <= n then [s] else [s[..n]] + Split(s[n..], n)
  }

  lemma {:induction false} JoinSplit<T>(s: seq<T>, n: nat)
    requires n > 0
    ensures Concat(Split(s, n)) == s
    decreases |s|
  {
    if s == [] {
    } else if |s| <= n {
      assert Concat([s]) == s + Concat([]);
    } else {
      JoinSplit(s[n..], n);
      ConcatFirst(s[..n], Split(s[n..], n));
      assert s[..n] + s[n..] == s;
    }
  }

  lemma {:induction false} SplitLengths<T>(s: seq<T>, n: nat, i: nat)
    requires n > 0 && i < |Split(s, n)|
    ensures i + 1 < |Split(s, n)| ==> |Split(s, n)[i]| == n
    ensures 1 <= |Split(s, n)[i]| <= n
    decreases |s|
  {
    if |s| > n && i > 0 { SplitLengths(s[n..], n, i - 1); }
  }

  /** One escape sequence: whether it opens the image, whether more follow, and its text. */
  datatype Packet = Packet(first: bool, more: bool, text: seq<char>)

  /** The chunking loop. */
  method EmitPackets(b64: seq<char>) returns (packets: seq<Packet>)
    ensures |packets| == |Split(b64, 4096)|
    ensures forall i :: 0 <= i < |packets| ==> packets[i] == Packet(i == 0, i + 1 < |packets|, Split(b64, 4096)[i])
  {
    hide Split;
    var pos, first := 0, true;
    packets := [];
    ghost var all := Split(b64, 4096);
    ghost var rest := all;
    assert b64[0..] == b64;
    SplitNone(b64);
    while pos < |b64|
      invariant first == (packets == [])
      invariant |packets| + |rest| == |all| && rest == all[|packets|..]
      invariant rest == if pos < |b64| then Split(b64[pos..], 4096) else []
      invariant forall i :: 0 <= i < |packets| ==> packets[i] == Packet(i == 0, i + 1 < |all|, all[i])
    {
      var end := if pos + 4096 <= |b64| then pos + 4096 else |b64|;
      var chunk := b64[pos..end];
      SplitStep(b64, pos);
      assert rest[0] == chunk == all[|packets|];
      rest := rest[1..];
      pos := pos + 4096;
      var more := pos < |b64|;
      packets := packets + [Packet(first, more, chunk)];
      first := false;
    }
  }

  lemma SplitNone(b64: seq<char>)
    ensures b64 == [] ==> Split(b64, 4096) == []
  {}

  lemma SplitStep(b64: seq<char>, pos: nat)
    requires pos < |b64|
    ensures pos + 4096 < |b64| ==> Split(b64[pos..], 4096) == [b64[pos..pos + 4096]] + Split(b64[pos + 4096..], 4096)
    ensures pos + 4096 >= |b64| ==> Split(b64[pos..], 4096) == [b64[pos..]]
    ensures pos + 4096 < |b64| ==> |Split(b64[pos + 4096..], 4096)| > 0
  {
    var s := b64[pos..];
    if pos + 4096 < |b64| {
      assert s[..4096] == b64[pos..pos + 4096] && s[4096..] == b64[pos + 4096..];
    }
  }

  // ---------------------------------------------- each chunk encodes its own slice

  function Quad(s: seq<Byte>): seq<char>
    requires |s| >= 3
  {
    [First(s[0]), Second(s[0], s[1]), Third(s[1], s[2]), Fourth(s[2])]
  }

  lemma {:induction false} EncodeUnfolds(s: seq<Byte>, t: seq<Byte>)
    requires |s| >= 3
    ensures Encode(s + t) == Quad(s) + Encode(s[3..] + t)
  {
    hide First, Second, Third, Fourth;
    var u := s + t;
    assert u[3..] == s[3..] + t;
  }

  lemma AddsNothing(s: seq<Byte>)
    ensures s + [] == s
  {}

  lemma {:induction false} EncodeConcat(s: seq<Byte>, t: seq<Byte>)
    requires |s| % 3 == 0
    ensures Encode(s + t) == Encode(s) + Encode(t)
    decreases |s|
  {
    if s == [] {
      assert s + t == t;
    } else {
      hide Encode, Quad;
      EncodeConcat(s[3..], t);
      EncodeUnfolds(s, t);
      EncodeUnfolds(s, []);
      AddsNothing(s);
      AddsNothing(s[3..]);
      Associates(Quad(s), Encode(s[3..]), Encode(t));
    }
  }

  lemma {:induction false} EncodeLength(s: seq<Byte>)
    ensures |Encode(s)| == 4 * ((|s| + 2) / 3)
    decreases |s|
  {
    hide First, Second, Third, Fourth;
    if |s| >= 3 { EncodeLength(s[3..]); }
  }

  /** Every chunk the terminal receives is the base64 form of the matching 3072-byte slice. */
  lemma {:induction false} ChunksAreSlices(data: seq<Byte>)
    ensures var chunks, slices := Split(Encode(data), 4096), Split(data, 3072);
            |chunks| == |slices| && forall i :: 0 <= i < |chunks| ==> chunks[i] == Encode(slices[i])
    decreases |data|
  {
    hide Encode;
    EncodeLength(data);
    if |data| > 3072 {
      var s, t := data[..3072], data[3072..];
      assert data == s + t;
      EncodeConcat(s, t);
      EncodeLength(s);
      EncodeLength(t);
      assert Encode(data)[..4096] == Encode(s) && Encode(data)[4096..] == Encode(t);
      ChunksAreSlices(t);
    }
  }

  /** Encoding and chunking together. */
  method SendImage(data: seq<Byte>) returns (packets: seq<Packet>)
    ensures Concat(seq(|packets|, i requires 0 <= i < |packets| => packets[i].text)) == Encode(data)
    ensures |packets| == |Split(data, 3072)|
    ensures forall i :: 0 <= i < |packets| ==>
      packets[i] == Packet(i == 0, i + 1 < |packets|, Encode(Split(data, 3072)[i]))
    ensures forall i :: 0 <= i < |packets| ==> Decode(packets[i].text) == Split(data, 3072)[i]
  {
    hide Encode, Decode, WellFormed;
    var b64 := Base64Encode(data);
    packets := EmitPackets(b64);
    ChunksAreSlices(data);
    JoinSplit(b64, 4096);
    assert seq(|packets|, i requires 0 <= i < |packets| => packets[i].text) == Split(b64, 4096);
    forall i | 0 <= i < |packets| ensures Decode(packets[i].text) == Split(data, 3072)[i] {
      DecodeEncode(Split(data, 3072)[i]);
    }
  }
}
