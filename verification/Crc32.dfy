/** The bitwise CRC-32 of the utility class and its error-detection guarantee. */
module Crc32 {
  import opened Arithmetic

  type Word = bv32
  type Message = seq<bv8>

  const POLY: Word := 0xEDB88320
  const START: Word := 0xFFFF_FFFF

  function Xor(x: Word, y: Word): Word { x ^ y }

  function Flip(x: Word): Word { !x }

  function Widen(b: bv8): Word { b as Word }

  /** One turn of the inner loop. */
  function BitStep(x: Word): Word { (x >> 1) ^ (POLY & (0 - (x & 1))) }

  function BitSteps(x: Word, k: nat): Word {
    if k == 0 then x else BitStep(BitSteps(x, k - 1))
  }

  /** The register after the bytes of `m`, from register `x`. */
  function Register(x: Word, m: Message): Word {
    if m == [] then x else BitSteps(Xor(Register(x, m[..|m|-1]), Widen(m[|m|-1])), 8)
  }

  function Crc(m: Message): Word { Flip(Register(START, m)) }

  /** The bits of a word in reverse order. */
  function Reflect(x: Word): Word {
    var a := ((x & 0x5555_5555) << 1) | ((x >> 1) & 0x5555_5555);
    var b := ((a & 0x3333_3333) << 2) | ((a >> 2) & 0x3333_3333);
    var c := ((b & 0x0F0F_0F0F) << 4) | ((b >> 4) & 0x0F0F_0F0F);
    var d := ((c & 0x00FF_00FF) << 8) | ((c >> 8) & 0x00FF_00FF);
    (d << 16) | (d >> 16)
  }

  /** The constant is the polynomial of clause 3.2.9 of IEEE 802.3, low bit first. */
  lemma PolynomialIsStandard()
    ensures Reflect(0x04C1_1DB7) == POLY
  {}

  // ---------------------------------------------------------------- the methods

  /** The inner loop. */
  method EightBits(start: Word) returns (crc: Word)
    ensures crc == BitSteps(start, 8)
  {
    hide BitStep;
    crc := start;
    for j := 0 to 8
      invariant crc == BitSteps(start, j)
    {
      crc := BitStep(crc);
    }
  }

  /** The byte-array overload. */
  method CalculateCrc32(data: array<bv8>, length: nat) returns (crc: Word)
    requires length <= data.Length
    ensures crc == Crc(data[..length]) && IsChecksum(data[..length], crc)
  {
    hide BitSteps, BitStep, Xor, Widen, Flip, IsChecksum;
    crc := START;
    for i := 0 to length
      invariant crc == Register(START, data[..i])
    {
      assert data[..i+1][..i] == data[..i];
      crc := EightBits(Xor(crc, Widen(data[i])));
    }
    crc := Flip(crc);
    CrcIsRemainder(data[..length]);
  }

  /** The string overload; a character counts as its unsigned byte. */
  method CalculateCrc32OfText(text: seq<char>) returns (crc: Word)
    requires forall k :: 0 <= k < |text| ==> text[k] as int < 256
    ensures crc == Crc(BytesOf(text)) && IsChecksum(BytesOf(text), crc)
    ensures forall m: Message :: SameBytes(m, text) ==> crc == Crc(m) && IsChecksum(m, crc)
  {
    hide BitSteps, BitStep, Xor, Widen, ByteOf, Flip, IsChecksum, SameBytes;
    var bytes := BytesOf(text);
    crc := START;
    for i := 0 to |text|
      invariant crc == Register(START, bytes[..i])
    {
      assert bytes[..i+1][..i] == bytes[..i];
      crc := EightBits(Xor(crc, Widen(ByteOf(text[i]))));
    }
    assert bytes[..|text|] == bytes;
    crc := Flip(crc);
    CrcIsRemainder(bytes);
    forall m: Message | SameBytes(m, text) ensures m == bytes { BytesAreText(m, text); }
  }

  /** The bytes are the character codes of the text. */
  ghost predicate SameBytes(m: Message, text: seq<char>) {
    |m| == |text| && forall k :: 0 <= k < |m| ==> m[k] as int == text[k] as int
  }

  /** The text has one such message, its own bytes: the byte-array overload on these gives the same checksum. */
  lemma {:induction false} BytesAreText(m: Message, text: seq<char>)
    requires forall k :: 0 <= k < |text| ==> text[k] as int < 256
    ensures SameBytes(m, text) <==> m == BytesOf(text)
  {
    hide ByteOf;
    forall k | 0 <= k < |text| ensures ByteOf(text[k]) as int == text[k] as int { ByteOfIs(text[k]); }
    if SameBytes(m, text) {
      forall k | 0 <= k < |m| ensures m[k] == ByteOf(text[k]) { SameByte(m[k], ByteOf(text[k])); }
    }
  }

  lemma {:induction false} ByteOfIs(c: char)
    requires c as int < 256
    ensures ByteOf(c) as int == c as int
  {
    var b := ByteFor(c as int);
    CastBack(b);
  }

  /** Every number below 256 is the number of a byte. */
  lemma {:induction false} ByteFor(n: nat) returns (b: bv8)
    requires n < 256
    ensures b as int == n
  {
    b := 0;
    if n > 0 {
      b := ByteFor(n - 1);
      AddOne(b);
      b := b + 1;
    }
  }

  lemma AddOne(b: bv8)
    requires b as int < 255
    ensures (b + 1) as int == b as int + 1
  {}

  lemma CastBack(b: bv8)
    ensures (b as int) as bv8 == b
  {}

  lemma SameByte(a: bv8, b: bv8)
    requires a as int == b as int
    ensures a == b
  {
    CastBack(a);
    CastBack(b);
  }

  function ByteOf(c: char): bv8
    requires c as int < 256
  {
    c as bv8
  }

  function BytesOf(text: seq<char>): (m: Message)
    requires forall k :: 0 <= k < |text| ==> text[k] as int < 256
    ensures |m| == |text| && forall k :: 0 <= k < |text| ==> m[k] == ByteOf(text[k])
  {
    hide ByteOf;
    seq(|text|, k requires 0 <= k < |text| => ByteOf(text[k]))
  }

  // --------------------------------------------------------- bit-vector facts

  lemma XorAssociates(x: Word, y: Word, z: Word)
    ensures Xor(Xor(x, y), z) == Xor(x, Xor(y, z))
  {}

  lemma XorNothing(x: Word)
    ensures Xor(x, 0) == x && Xor(0, x) == x
  {}

  lemma XorCancels(x: Word, y: Word, z: Word)
    ensures Xor(Xor(x, z), Xor(y, z)) == Xor(x, y)
    ensures Xor(Xor(z, x), Xor(z, y)) == Xor(x, y)
  {}

  lemma XorSelf(x: Word)
    ensures Xor(x, x) == 0
  {}

  lemma {:induction false} XorZero(x: Word, y: Word)
    ensures Xor(x, y) == 0 <==> x == y
  {
    hide Xor;
    XorAssociates(x, y, y);
    XorSelf(y);
    XorNothing(x);
    XorNothing(y);
  }

  lemma FlipInjective(x: Word, y: Word)
    requires Flip(x) == Flip(y)
    ensures x == y
  {
    assert x == !(!x) && y == !(!y);
  }

  lemma BitLinear(x: Word, y: Word)
    ensures BitStep(Xor(x, y)) == Xor(BitStep(x), BitStep(y))
  {
    if x & 1 == 1 { assert 0 - (x & 1) == START; } else { assert 0 - (x & 1) == 0; }
    if y & 1 == 1 { assert 0 - (y & 1) == START; } else { assert 0 - (y & 1) == 0; }
  }

  /** A step never maps a non-zero register to zero: the polynomial's top bit is set. */
  lemma BitNonZero(x: Word)
    requires x != 0
    ensures BitStep(x) != 0
  {}

  // ------------------------------------------ steps are linear and one-to-one

  lemma {:induction false} StepsLinear(x: Word, y: Word, k: nat)
    ensures BitSteps(Xor(x, y), k) == Xor(BitSteps(x, k), BitSteps(y, k))
  {
    hide BitStep, Xor;
    if k > 0 {
      StepsLinear(x, y, k - 1);
      BitLinear(BitSteps(x, k - 1), BitSteps(y, k - 1));
    }
  }

  lemma {:induction false} StepsNonZero(x: Word, k: nat)
    requires x != 0
    ensures BitSteps(x, k) != 0
  {
    hide BitStep, Xor;
    if k > 0 { StepsNonZero(x, k - 1); BitNonZero(BitSteps(x, k - 1)); }
  }

  /** Running the register is one-to-one. */
  lemma {:induction false} StepsInjective(x: Word, y: Word, k: nat)
    ensures BitSteps(x, k) == BitSteps(y, k) <==> x == y
  {
    hide BitStep, BitSteps, Xor;
    StepsLinear(x, y, k);
    XorZero(x, y);
    XorZero(BitSteps(x, k), BitSteps(y, k));
    if x != y { StepsNonZero(Xor(x, y), k); }
  }

  lemma {:induction false} StepsAdd(x: Word, a: nat, b: nat)
    ensures BitSteps(BitSteps(x, a), b) == BitSteps(x, a + b)
  {
    hide BitStep;
    if b > 0 { StepsAdd(x, a, b - 1); }
  }

  lemma {:induction false} StepsZero(k: nat)
    ensures BitSteps(0, k) == 0
  {
    if k > 0 { StepsZero(k - 1); }
  }

  // ------------------------------------------------------------- bits of a word

  const TOP: Word := 0x8000_0000

  function Half(x: Word): Word { x >> 1 }

  function Double(x: Word): Word { x << 1 }

  predicate Even(x: Word) { x & 1 == 0 }

  /** The word with only bit `i`. */
  function Mask(i: nat): Word { if i == 0 then 1 else Double(Mask(i - 1)) }

  function And(x: Word, y: Word): Word { x & y }

  predicate Shows(x: Word, m: Word) { And(x, m) != 0 }

  predicate Bit(x: Word, i: nat) { Shows(x, Mask(i)) }

  /** Exactly one bit is set. */
  predicate Single(m: Word) { m != 0 && m & (m - 1) == 0 }

  lemma SingleShows(x: Word, m: Word)
    requires Single(m)
    ensures m != 0 && (And(x, m) == 0 || And(x, m) == m)
  {}

  lemma AndXor(x: Word, y: Word, m: Word)
    ensures And(Xor(x, y), m) == Xor(And(x, m), And(y, m))
  {}

  lemma {:induction false} ShowsXor(x: Word, y: Word, m: Word)
    requires Single(m)
    ensures Shows(Xor(x, y), m) == (Shows(x, m) != Shows(y, m))
  {
    hide And, Xor, Single;
    SingleShows(x, m);
    SingleShows(y, m);
    AndXor(x, y, m);
    XorZero(And(x, m), And(y, m));
  }

  lemma ShowsHalf(x: Word, m: Word)
    requires m & TOP == 0
    ensures Shows(Half(x), m) == Shows(x, Double(m))
  {}

  lemma HalfTop(x: Word)
    ensures !Shows(Half(x), TOP)
  {}

  lemma SingleDouble(m: Word)
    requires Single(m) && m != TOP
    ensures m & TOP == 0 && Single(Double(m))
  {}

  lemma DoubleBack(m: Word)
    requires m & TOP == 0
    ensures Even(Double(m)) && Half(Double(m)) == m
  {}

  lemma DoubleTop()
    ensures Double(TOP) == 0 && Double(0) == 0
  {}

  lemma MaskTop()
    ensures Mask(31) == TOP
  {
    assert Mask(8) == 0x100;
    assert Mask(16) == 0x1_0000;
    assert Mask(24) == 0x100_0000;
  }

  lemma {:induction false} MaskZeroStays(i: nat, j: nat)
    requires i <= j && Mask(i) == 0
    ensures Mask(j) == 0
  {
    hide Double;
    DoubleTop();
    if i < j { MaskZeroStays(i, j - 1); }
  }

  lemma {:induction false} MaskSingle(i: nat)
    requires i <= 31
    ensures Single(Mask(i)) && (i < 31 ==> Mask(i) & TOP == 0)
  {
    hide Single, Double;
    MaskTop();
    DoubleTop();
    if i == 0 {
      OneIsSingle();
    } else {
      MaskSingle(i - 1);
      MaskBelowTop(i - 1);
      SingleDouble(Mask(i - 1));
    }
    if i < 31 {
      MaskBelowTop(i);
      SingleDouble(Mask(i));
    }
  }

  lemma OneIsSingle()
    ensures Single(1)
  {}

  lemma {:induction false} MaskBelowTop(i: nat)
    requires i < 31
    ensures Mask(i) != TOP
  {
    hide Double;
    MaskTop();
    DoubleTop();
    if Mask(i) == TOP { MaskZeroStays(i + 1, 31); }
  }

  lemma {:induction false} BitXor(x: Word, y: Word, i: nat)
    requires i < 32
    ensures Bit(Xor(x, y), i) == (Bit(x, i) != Bit(y, i))
  {
    hide Shows, Xor, Mask, Single;
    MaskSingle(i);
    ShowsXor(x, y, Mask(i));
  }

  lemma {:induction false} BitHalf(x: Word, i: nat)
    requires i < 32
    ensures Bit(Half(x), i) == (i < 31 && Bit(x, i + 1))
  {
    hide Shows, Half, Single, Double;
    MaskTop();
    if i < 31 {
      MaskSingle(i);
      ShowsHalf(x, Mask(i));
    } else {
      HalfTop(x);
    }
  }

  lemma BitZero(x: Word)
    ensures Bit(x, 0) == !Even(x)
  {}

  /** Bit `j` of the word with only bit `i`. */
  lemma {:induction false} MaskBit(i: nat, j: nat)
    requires i < 32 && j < 32
    ensures Bit(Mask(i), j) == (i == j)
  {
    hide Shows, Half, Double, Single, Even;
    if j == 0 {
      BitZero(Mask(i));
      if i == 0 { OneIsOdd(); } else { MaskSingle(i - 1); DoubleBack(Mask(i - 1)); }
    } else if i == 0 {
      MaskSingle(j - 1);
      OneShowsLow(Mask(j - 1));
    } else {
      MaskSingle(i - 1);
      DoubleBack(Mask(i - 1));
      BitHalf(Mask(i), j - 1);
      MaskBit(i - 1, j - 1);
    }
  }

  lemma OneIsOdd()
    ensures !Even(1)
  {}

  lemma OneShowsLow(m: Word)
    ensures !Shows(1, Double(m))
  {}

  // ----------------------------------------------------- the message as bits, low first

  type Bits = seq<bool>

  function One(b: bool): Word { if b then 1 else 0 }

  /** The register after the bits `u`, one step for each. */
  function Feed(x: Word, u: Bits): Word {
    if u == [] then x else BitStep(Xor(Feed(x, u[..|u|-1]), One(u[|u|-1])))
  }

  function ByteBits(b: bv8): (u: Bits)
    ensures |u| == 8 && forall i {:trigger u[i]} :: 0 <= i < 8 ==> u[i] == Bit(Widen(b), i)
  {
    seq(8, i requires 0 <= i < 8 => Bit(Widen(b), i))
  }

  function MessageBits(m: Message): (u: Bits)
    ensures |u| == 8 * |m|
  {
    if m == [] then [] else MessageBits(m[..|m|-1]) + ByteBits(m[|m|-1])
  }

  lemma {:induction false} FeedConcat(x: Word, a: Bits, b: Bits)
    ensures Feed(x, a + b) == Feed(Feed(x, a), b)
    decreases |b|
  {
    hide BitStep, Xor;
    if b == [] {
      assert a + b == a;
    } else {
      assert (a + b)[..|a+b|-1] == a + b[..|b|-1];
      FeedConcat(x, a, b[..|b|-1]);
    }
  }

  /** Two registers fed the same bits keep the stepped difference they started with. */
  lemma {:induction false} SameBits(x: Word, y: Word, u: Bits)
    ensures Xor(Feed(x, u), Feed(y, u)) == BitSteps(Xor(x, y), |u|)
    decreases |u|
  {
    hide BitStep, Xor;
    if u != [] {
      var p, b := u[..|u|-1], One(u[|u|-1]);
      SameBits(x, y, p);
      BitLinear(Xor(Feed(x, p), b), Xor(Feed(y, p), b));
      XorCancels(Feed(x, p), Feed(y, p), b);
    }
  }

  // ------------------------------------------------- up to 32 bits as one word

  function MaskIf(b: bool, i: nat): Word { if b then Mask(i) else 0 }

  function Pack(u: Bits): Word {
    if u == [] then 0 else Xor(Pack(u[..|u|-1]), MaskIf(u[|u|-1], |u| - 1))
  }

  lemma {:induction false} PackBit(u: Bits, j: nat)
    requires |u| <= 32 && j < 32
    ensures Bit(Pack(u), j) == (j < |u| && u[j])
    decreases |u|
  {
    hide Xor, Bit;
    NoBits(j);
    if u != [] {
      var n := |u| - 1;
      PackBit(u[..n], j);
      MaskBit(n, j);
      BitXor(Pack(u[..n]), MaskIf(u[n], n), j);
    }
  }

  lemma {:induction false} NoBits(j: nat)
    ensures !Bit(0, j)
  {
    hide Mask;
  }

  lemma {:induction false} PackInjective(u: Bits, v: Bits)
    requires |u| == |v| <= 32 && Pack(u) == Pack(v)
    ensures u == v
  {
    hide Pack, Bit;
    forall j | 0 <= j < |u| ensures u[j] == v[j] {
      PackBit(u, j);
      PackBit(v, j);
    }
  }

  /** A step on an even register is a plain shift. */
  lemma StepIs(w: Word)
    ensures BitStep(w) == if Even(w) then Half(w) else Xor(Half(w), POLY)
  {
    if Even(w) { assert 0 - (w & 1) == 0; } else { assert 0 - (w & 1) == START; }
  }

  /** A bit in place `k` arrives at the bottom after `k` steps. */
  lemma {:induction false} MaskArrives(k: nat)
    requires k < 32
    ensures BitSteps(Mask(k), k) == 1
  {
    hide BitStep, Half, Double, Even, Single, Xor;
    if k > 0 {
      MaskSingle(k - 1);
      DoubleBack(Mask(k - 1));
      StepIs(Mask(k));
      MaskArrives(k - 1);
      StepsAdd(Mask(k), 1, k - 1);
      assert BitSteps(Mask(k), 1) == BitStep(BitSteps(Mask(k), 0));
    }
  }

  lemma {:induction false} BitArrives(b: bool, k: nat)
    requires k < 32
    ensures BitSteps(MaskIf(b, k), k) == One(b)
  {
    hide BitSteps, Mask;
    if b { MaskArrives(k); } else { StepsZero(k); }
  }

  /** Feeding up to 32 bits equals adding them all at once and stepping. */
  lemma {:induction false} FeedsAtOnce(x: Word, u: Bits)
    requires |u| <= 32
    ensures Feed(x, u) == BitSteps(Xor(x, Pack(u)), |u|)
    decreases |u|
  {
    hide BitStep, Xor, MaskIf, One;
    if u == [] {
      XorNothing(x);
    } else {
      var p, n := u[..|u|-1], |u| - 1;
      var l := MaskIf(u[n], n);
      FeedsAtOnce(x, p);
      BitArrives(u[n], n);
      StepsLinear(Xor(x, Pack(p)), l, n);
      XorAssociates(x, Pack(p), l);
    }
  }

  // ------------------------------------------------------- bytes are eight bits

  function Part(w: Word, m: Word): Word { if Shows(w, m) then m else 0 }

  lemma AndSplit(w: Word, l: Word, m: Word)
    requires l & m == 0
    ensures And(w, l | m) == Xor(And(w, l), And(w, m))
  {}

  /** One more low bit of a word. */
  lemma {:induction false} MorePart(w: Word, l: Word, m: Word)
    requires Single(m) && l & m == 0
    ensures And(w, l | m) == Xor(And(w, l), Part(w, m))
  {
    hide And, Xor, Single;
    AndSplit(w, l, m);
    SingleShows(w, m);
  }

  lemma ByteIsLow(b: bv8)
    ensures And(Widen(b), 0) == 0 && And(Widen(b), 0xFF) == Widen(b)
  {}

  lemma {:induction false} WidenParts(b: bv8)
    ensures var w := Widen(b);
      w == Xor(Xor(Xor(Xor(Xor(Xor(Xor(Xor(0, Part(w, 1)), Part(w, 2)), Part(w, 4)), Part(w, 8)),
               Part(w, 16)), Part(w, 32)), Part(w, 64)), Part(w, 128))
  {
    var w := Widen(b);
    ByteIsLow(b);
    hide And, Xor, Part, Widen;
    MorePart(w, 0, 1);
    MorePart(w, 1, 2);
    MorePart(w, 3, 4);
    MorePart(w, 7, 8);
    MorePart(w, 0xF, 0x10);
    MorePart(w, 0x1F, 0x20);
    MorePart(w, 0x3F, 0x40);
    MorePart(w, 0x7F, 0x80);
  }

  lemma SmallMasks()
    ensures Mask(0) == 1 && Mask(1) == 2 && Mask(2) == 4 && Mask(3) == 8
    ensures Mask(4) == 16 && Mask(5) == 32 && Mask(6) == 64 && Mask(7) == 128
  {}

  lemma PackSnoc(u: Bits, b: bool)
    ensures Pack(u + [b]) == Xor(Pack(u), MaskIf(b, |u|))
  {
    assert (u + [b])[..|u|] == u;
  }

  /** A byte is the word of its bits. */
  lemma {:induction false} PackByte(b: bv8)
    ensures Pack(ByteBits(b)) == Widen(b)
  {
    hide Pack, Widen, Xor, Bit, MaskIf, Part, Mask, ByteBits;
    var u, w := ByteBits(b), Widen(b);
    EightElements(u);
    PackEight(u[0], u[1], u[2], u[3], u[4], u[5], u[6], u[7]);
    forall i: nat | i < 8 ensures MaskIf(u[i], i) == Part(w, Mask(i)) { MaskIsPart(w, i); }
    SmallMasks();
    WidenParts(b);
  }

  lemma EightElements(u: Bits)
    requires |u| == 8
    ensures u == [u[0]] + [u[1]] + [u[2]] + [u[3]] + [u[4]] + [u[5]] + [u[6]] + [u[7]]
  {}

  lemma {:induction false} MaskIsPart(w: Word, i: nat)
    ensures MaskIf(Bit(w, i), i) == Part(w, Mask(i))
  {
    hide Mask, Shows;
  }

  lemma {:induction false} PackEight(a: bool, b: bool, c: bool, d: bool, e: bool, f: bool, g: bool, h: bool)
    ensures Pack([a] + [b] + [c] + [d] + [e] + [f] + [g] + [h])
         == Xor(Xor(Xor(Xor(Xor(Xor(Xor(Xor(0, MaskIf(a, 0)), MaskIf(b, 1)), MaskIf(c, 2)), MaskIf(d, 3)),
                MaskIf(e, 4)), MaskIf(f, 5)), MaskIf(g, 6)), MaskIf(h, 7))
  {
    PackNothing();
    hide Pack, Xor, MaskIf;
    PackSnoc([], a);
    assert [] + [a] == [a];
    PackSnoc([a], b);
    PackSnoc([a] + [b], c);
    PackSnoc([a] + [b] + [c], d);
    PackSnoc([a] + [b] + [c] + [d], e);
    PackSnoc([a] + [b] + [c] + [d] + [e], f);
    PackSnoc([a] + [b] + [c] + [d] + [e] + [f], g);
    PackSnoc([a] + [b] + [c] + [d] + [e] + [f] + [g], h);
  }

  lemma PackNothing()
    ensures Pack([]) == 0
  {}

  /** The eight steps of a byte are one step for each of its bits. */
  lemma {:induction false} ByteFeeds(x: Word, b: bv8)
    ensures BitSteps(Xor(x, Widen(b)), 8) == Feed(x, ByteBits(b))
  {
    hide BitSteps, Xor, Widen, Feed, Pack, ByteBits;
    FeedsAtOnce(x, ByteBits(b));
    PackByte(b);
  }

  lemma {:induction false} RegisterIsFeed(x: Word, m: Message)
    ensures Register(x, m) == Feed(x, MessageBits(m))
  {
    hide BitSteps, Xor, Widen, Feed, ByteBits;
    if m == [] {
      FeedNothing(x);
    } else {
      var p, b := m[..|m|-1], m[|m|-1];
      RegisterIsFeed(x, p);
      ByteFeeds(Register(x, p), b);
      FeedConcat(x, MessageBits(p), ByteBits(b));
    }
  }

  lemma FeedNothing(x: Word)
    ensures Feed(x, []) == x
  {}

  lemma WidenInjective(b: bv8, c: bv8)
    requires Widen(b) == Widen(c)
    ensures b == c
  {}

  lemma {:induction false} MessageBitsInjective(m: Message, m': Message)
    requires |m| == |m'| && MessageBits(m) == MessageBits(m')
    ensures m == m'
    decreases |m|
  {
    hide ByteBits, Widen;
    if m != [] {
      var p, q, b, c := m[..|m|-1], m'[..|m|-1], m[|m|-1], m'[|m|-1];
      var u, v := MessageBits(p), MessageBits(q);
      assert u == (u + ByteBits(b))[..|u|] && v == (v + ByteBits(c))[..|v|];
      assert ByteBits(b) == (u + ByteBits(b))[|u|..] && ByteBits(c) == (v + ByteBits(c))[|v|..];
      PackByte(b);
      PackByte(c);
      WidenInjective(b, c);
      MessageBitsInjective(p, q);
      assert m == p + [b] && m' == q + [c];
    }
  }

  // -------------------------------------------------------- error detection

  /** Different windows of up to 32 bits leave different registers. */
  lemma {:induction false} WindowShows(x: Word, u: Bits, v: Bits)
    requires |u| == |v| <= 32 && u != v
    ensures Feed(x, u) != Feed(x, v)
  {
    hide BitSteps, BitStep, Xor, Pack, Feed;
    if Pack(u) == Pack(v) { PackInjective(u, v); }
    FeedsAtOnce(x, u);
    FeedsAtOnce(x, v);
    StepsInjective(Xor(x, Pack(u)), Xor(x, Pack(v)), |u|);
    XorZero(Pack(u), Pack(v));
    XorZero(Xor(x, Pack(u)), Xor(x, Pack(v)));
    XorCancels(Pack(u), Pack(v), x);
  }

  /** Registers that differ still differ after the same bits. */
  lemma {:induction false} DifferenceLasts(x: Word, y: Word, u: Bits)
    requires x != y
    ensures Feed(x, u) != Feed(y, u)
  {
    hide BitSteps, BitStep, Xor, Feed;
    SameBits(x, y, u);
    XorZero(x, y);
    XorZero(Feed(x, u), Feed(y, u));
    StepsNonZero(Xor(x, y), |u|);
  }

  /** A burst of up to 32 bits anywhere in a message of any length changes the checksum: messages whose bits
      differ only inside a window of at most 32 consecutive positions share a checksum only if equal. */
  lemma {:induction false} BurstDetected(m: Message, m': Message, at: nat, n: nat)
    requires |m| == |m'| && n <= 32 && at + n <= 8 * |m|
    requires MessageBits(m)[..at] == MessageBits(m')[..at] && MessageBits(m)[at + n..] == MessageBits(m')[at + n..]
    ensures Crc(m) == Crc(m') <==> m == m'
  {
    hide BitSteps, BitStep, Xor, Register, Flip, Feed, MessageBits;
    var a, b := MessageBits(m), MessageBits(m');
    var p, s, u, v := a[..at], a[at + n..], a[at..at + n], b[at..at + n];
    assert a == (p + u) + s && b == (p + v) + s;
    RegisterIsFeed(START, m);
    RegisterIsFeed(START, m');
    FeedConcat(START, p + u, s);
    FeedConcat(START, p + v, s);
    FeedConcat(START, p, u);
    FeedConcat(START, p, v);
    if m != m' {
      if a == b { MessageBitsInjective(m, m'); }
      WindowShows(Feed(START, p), u, v);
      DifferenceLasts(Feed(START, p + u), Feed(START, p + v), s);
      if Crc(m) == Crc(m') { FlipInjective(Register(START, m), Register(START, m')); }
    }
  }

  // -------------------------------------------------- remainder of long division

  /** The bits of a register, low first: the coefficients from x^31 down to x^0. */
  function WordBits(x: Word): (u: Bits)
    ensures |u| == 32 && forall i {:trigger u[i]} :: 0 <= i < 32 ==> u[i] == Bit(x, i)
  {
    seq(32, i requires 0 <= i < 32 => Bit(x, i))
  }

  function Zeros(): (u: Bits)
    ensures |u| == 32 && forall i :: 0 <= i < 32 ==> !u[i]
  {
    seq(32, _ => false)
  }

  /** `b` added to the front of `a`. */
  function AddFront(a: Bits, b: Bits): (c: Bits)
    requires |b| <= |a|
    ensures |c| == |a| && forall i {:trigger c[i]} :: 0 <= i < |a| ==> c[i] == if i < |b| then a[i] != b[i] else a[i]
  {
    seq(|a|, i requires 0 <= i < |a| => if i < |b| then a[i] != b[i] else a[i])
  }

  /** The generator polynomial: x^32 and the 32 lower coefficients. */
  function Divisor(): (u: Bits)
    ensures |u| == 33 && u[0] && forall i {:trigger u[i]} :: 1 <= i < 33 ==> u[i] == Bit(POLY, i - 1)
  {
    var u := [true] + WordBits(POLY);
    assert forall i :: 1 <= i < 33 ==> u[i] == WordBits(POLY)[i - 1];
    u
  }

  /** Long division over the two-element field: the remainder of the polynomial with the coefficients `d`,
      highest power first. */
  function Remainder(d: Bits): Bits
    requires |d| >= 32
    decreases |d|
  {
    if |d| == 32 then d else Remainder((if d[0] then AddFront(d, Divisor()) else d)[1..])
  }

  /** What is divided: the message times x^32, with the register added to its leading coefficients. */
  function Dividend(x: Word, u: Bits): (d: Bits)
    ensures |d| == |u| + 32
  {
    AddFront(u + Zeros(), WordBits(x))
  }

  /** One step of the register is one step of the division. */
  lemma {:induction false} StepDivides(x: Word, b: bool, u: Bits)
    ensures var d := Dividend(x, [b] + u);
      (if d[0] then AddFront(d, Divisor()) else d)[1..] == Dividend(BitStep(Xor(x, One(b))), u)
  {
    hide BitStep, Xor, Bit, One, Even;
    var y := Xor(x, One(b));
    var d, e := Dividend(x, [b] + u), Dividend(BitStep(y), u);
    var f := (if d[0] then AddFront(d, Divisor()) else d)[1..];
    OneBits(x, b, 0);
    BitZero(y);
    forall i | 0 <= i < |f| ensures f[i] == e[i] {
      assert ([b] + u + Zeros())[i+1] == (u + Zeros())[i];
      if i < 32 {
        StepBit(y, i);
        if i < 31 { OneBits(x, b, i + 1); }
      }
    }
  }

  lemma {:induction false} OneBits(x: Word, b: bool, i: nat)
    requires i < 32
    ensures Bit(Xor(x, One(b)), i) == if i == 0 then Bit(x, 0) != b else Bit(x, i)
  {
    hide Xor, Bit;
    BitXor(x, One(b), i);
    NoBits(i);
    MaskBit(0, i);
  }

  lemma {:induction false} StepBit(y: Word, i: nat)
    requires i < 32
    ensures Bit(BitStep(y), i) == ((i < 31 && Bit(y, i + 1)) != (!Even(y) && Bit(POLY, i)))
  {
    hide BitStep, Xor, Bit, Half, Even;
    StepIs(y);
    BitHalf(y, i);
    BitXor(Half(y), POLY, i);
  }

  lemma {:induction false} FeedCons(x: Word, b: bool, u: Bits)
    ensures Feed(x, [b] + u) == Feed(BitStep(Xor(x, One(b))), u)
  {
    FeedConcat(x, [b], u);
    assert [b][..0] == [];
    hide BitStep, Xor;
  }

  /** The register is the remainder of the division, for messages of any length. */
  lemma {:induction false} FeedIsRemainder(x: Word, u: Bits)
    ensures Remainder(Dividend(x, u)) == WordBits(Feed(x, u))
    decreases |u|
  {
    hide BitStep, Xor, Feed, One, Dividend, WordBits, Divisor, AddFront;
    if u == [] {
      FeedNothing(x);
      DividendNothing(x);
    } else {
      var b, rest := u[0], u[1..];
      assert u == [b] + rest;
      StepDivides(x, b, rest);
      FeedCons(x, b, rest);
      FeedIsRemainder(BitStep(Xor(x, One(b))), rest);
    }
  }

  lemma DividendNothing(x: Word)
    ensures Dividend(x, []) == WordBits(x)
  {}

  function Complement(u: Bits): (v: Bits)
    ensures |v| == |u| && forall i {:trigger v[i]} :: 0 <= i < |u| ==> v[i] == !u[i]
  {
    seq(|u|, i requires 0 <= i < |u| => !u[i])
  }

  /** All bits set. */
  function Ones(): (u: Bits)
    ensures |u| == 32 && forall i :: 0 <= i < 32 ==> u[i]
  {
    seq(32, _ => true)
  }

  lemma {:induction false} StartBits(i: nat)
    requires i < 32
    ensures Bit(START, i)
  {
    hide Mask, Single;
    MaskSingle(i);
    StartShows(Mask(i));
  }

  lemma StartShows(m: Word)
    requires Single(m)
    ensures Shows(START, m)
  {}

  lemma FlipIs(x: Word)
    ensures Flip(x) == Xor(x, START)
  {}

  /** The checksum by its definition: the bits of the message and 32 zeros, the first 32 of them inverted, divided
      by the generator polynomial; the remainder inverted. */
  predicate IsChecksum(m: Message, crc: Word) {
    WordBits(crc) == Complement(Remainder(AddFront(MessageBits(m) + Zeros(), Ones())))
  }

  /** The register form computes the defined checksum, for messages of any length. */
  lemma {:induction false} CrcIsRemainder(m: Message)
    ensures IsChecksum(m, Crc(m))
  {
    hide Register, Feed, MessageBits, Bit, Xor, Flip, Remainder;
    var x := Register(START, m);
    RegisterIsFeed(START, m);
    FeedIsRemainder(START, MessageBits(m));
    assert WordBits(START) == Ones() by {
      forall i | 0 <= i < 32 ensures WordBits(START)[i] == Ones()[i] { StartBits(i); }
    }
    FlipIs(x);
    forall i | 0 <= i < 32 ensures WordBits(Crc(m))[i] == !WordBits(x)[i] {
      BitXor(x, START, i);
      StartBits(i);
    }
  }

  // ----------------------------------------------------------- bits and bytes as numbers

  lemma OddByte(b: bv8)
    ensures Bit(Widen(b), 0) <==> b as int % 2 == 1
  {}

  lemma HalfByte(b: bv8)
    ensures (b >> 1) as int == b as int / 2 && Half(Widen(b)) == Widen(b >> 1)
  {}

  lemma {:induction false} ByteBit(b: bv8, i: nat)
    requires i < 8
    ensures Bit(Widen(b), i) <==> BinaryDigit(b as int, i)
    decreases i
  {
    hide Shows, Mask, Widen, Half, Bit, BinaryDigit;
    if i == 0 {
      OddByte(b);
      DigitLast(b as int);
    } else {
      HalfByte(b);
      BitHalf(Widen(b), i - 1);
      ByteBit(b >> 1, i - 1);
      DigitHalf(b as int, i - 1);
    }
  }

  /** Bit 8k + i of a message is the digit of weight 2^i of byte k. */
  lemma {:induction false} MessageBitIs(m: Message, k: nat, i: nat)
    requires k < |m| && i < 8
    ensures MessageBits(m)[8 * k + i] <==> BinaryDigit(m[k] as int, i)
    decreases |m|
  {
    hide Bit, Widen, BinaryDigit;
    if k == |m| - 1 { ByteBit(m[k], i); } else { MessageBitIs(m[..|m|-1], k, i); }
  }

  lemma {:induction false} EightSteps(x: Word)
    ensures BitSteps(x, 8) == BitStep(BitStep(BitStep(BitStep(BitStep(BitStep(BitStep(BitStep(x))))))))
  {
    hide BitStep;
    assert BitSteps(x, 0) == x;
    assert BitSteps(x, 1) == BitStep(x);
    assert BitSteps(x, 2) == BitStep(BitStep(x));
    assert BitSteps(x, 3) == BitStep(BitStep(BitStep(x)));
    assert BitSteps(x, 4) == BitStep(BitStep(BitStep(BitStep(x))));
    assert BitSteps(x, 5) == BitStep(BitStep(BitStep(BitStep(BitStep(x)))));
    assert BitSteps(x, 6) == BitStep(BitStep(BitStep(BitStep(BitStep(BitStep(x))))));
  }

  /** The register after one more byte. */
  lemma {:induction false} CheckNext(m: Message, x: Word, b: bv8, y: Word)
    requires Register(START, m) == x
    requires y == BitStep(BitStep(BitStep(BitStep(BitStep(BitStep(BitStep(BitStep(Xor(x, Widen(b))))))))))
    ensures Register(START, m + [b]) == y
  {
    hide BitSteps, BitStep, Xor, Widen;
    EightSteps(Xor(x, Widen(b)));
    assert (m + [b])[..|m|] == m;
  }

  lemma RegisterNothing(x: Word)
    ensures Register(x, []) == x
  {}

  /** The check value: the checksum of the text "123456789". */
  lemma {:induction false} CheckValue()
    ensures Crc(BytesOf("123456789")) == 0xCBF4_3926
  {
    hide BitSteps, Register;
    RegisterNothing(START);
    var m: Message := [];
    CheckNext(m, START, 0x31, 0x7C23_1048);
    m := m + [0x31];
    CheckNext(m, 0x7C23_1048, 0x32, 0xB0AC_BB32);
    m := m + [0x32];
    CheckNext(m, 0xB0AC_BB32, 0x33, 0x77B7_9C2D);
    m := m + [0x33];
    CheckNext(m, 0x77B7_9C2D, 0x34, 0x641C_1F5C);
    m := m + [0x34];
    CheckNext(m, 0x641C_1F5C, 0x35, 0x340A_C5E3);
    m := m + [0x35];
    CheckNext(m, 0x340A_C5E3, 0x36, 0xF68D_2C9E);
    m := m + [0x36];
    CheckNext(m, 0xF68D_2C9E, 0x37, 0xAFFC_9660);
    m := m + [0x37];
    CheckNext(m, 0xAFFC_9660, 0x38, 0x651F_2550);
    m := m + [0x38];
    CheckNext(m, 0x651F_2550, 0x39, 0x340B_C6D9);
    m := m + [0x39];
    BytesAreText(m, "123456789");
  }
}
