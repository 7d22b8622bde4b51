/** The static coder: path search in 32-bit words, most-significant-first bit packing, and the reader that
    walks the flat tree bit by bit. */
module HuffmanCodec {
  import opened Collections
  import opened Arithmetic
  import opened Bytes
  import opened HuffmanTree
  import opened HuffmanText
  import opened HuffmanOptimal
  import opened HuffmanBuild

  // ------------------------------------------------------------- path search

  datatype BitPath = BitPath(bits: nat, len: nat)

  function Digit(b: bool): nat { if b then 1 else 0 }

  /** Shift one bit into a 32-bit word. */
  function ShiftIn(bits: nat, b: bool): nat { (2 * bits + Digit(b)) % 0x1_0000_0000 }

  function FindPath(flat: seq<FlatNode>, idx: nat, target: Byte, bits: nat, depth: nat): BitPath
    requires FlatOk(flat) && idx < |flat|
    decreases |flat| - idx
  {
    var node := flat[idx];
    var left :=
      if node.left <= 0 then
        if 0 - node.left == target then BitPath(ShiftIn(bits, false), depth + 1) else BitPath(0, 0)
      else FindPath(flat, node.left, target, ShiftIn(bits, false), depth + 1);
    if left.len > 0 then left
    else if node.right <= 0 then
      if 0 - node.right == target then BitPath(ShiftIn(bits, true), depth + 1) else BitPath(0, 0)
    else FindPath(flat, node.right, target, ShiftIn(bits, true), depth + 1)
  }

  function Fold(bits: nat, p: Bits): nat
    decreases |p|
  {
    if p == [] then bits else Fold(ShiftIn(bits, p[0]), p[1..])
  }

  /** The search finds the path of the target in the tree that the array holds, and nothing else. */
  lemma {:induction false} FindPathIsPath(flat: seq<FlatNode>, idx: nat, t: Tree, target: Byte, bits: nat, depth: nat)
    requires FlatOk(flat) && idx < |flat| && Holds(flat, idx, t) && t.Node? && Distinct(t) && target > 0
    ensures FindPath(flat, idx, target, bits, depth) ==
      if target in Chars(t) then BitPath(Fold(bits, Path(t, target)), depth + |Path(t, target)|) else BitPath(0, 0)
    decreases t
  {
    var l, r, node := t.left, t.right, flat[idx];
    var p := Path(t, target);
    assert p[1..] == if target in Chars(l) then Path(l, target) else Path(r, target);
    if l.Node? { FindPathIsPath(flat, node.left, l, target, ShiftIn(bits, false), depth + 1); }
    if r.Node? { FindPathIsPath(flat, node.right, r, target, ShiftIn(bits, true), depth + 1); }
  }

  /** The number with the given binary digits. */
  function Value(p: Bits): nat {
    if p == [] then 0 else 2 * Value(p[..|p|-1]) + Digit(p[|p|-1])
  }

  /** `x >> k`. */
  function ShiftRight(x: nat, k: nat): nat { if k == 0 then x else ShiftRight(x / 2, k - 1) }

  lemma {:induction false} ValueBound(p: Bits)
    ensures Value(p) < Pow2(|p|)
  {
    if p != [] { ValueBound(p[..|p|-1]); }
  }

  lemma {:induction false} FoldSnoc(bits: nat, p: Bits, b: bool)
    ensures Fold(bits, p + [b]) == ShiftIn(Fold(bits, p), b)
    decreases |p|
  {
    if p == [] { assert p + [b] == [b]; assert Fold(ShiftIn(bits, b), [b][1..]) == ShiftIn(bits, b); }
    else { FoldSnoc(ShiftIn(bits, p[0]), p[1..], b); assert (p + [b])[1..] == p[1..] + [b]; }
  }

  lemma {:induction false} Pow2Monotone(a: nat, b: nat)
    requires a <= b
    ensures Pow2(a) <= Pow2(b)
  {
    if a < b { Pow2Monotone(a, b - 1); }
  }

  /** A path of at most 32 bits is kept whole. */
  lemma {:induction false} FoldIsValue(p: Bits)
    requires |p| <= 32
    ensures Fold(0, p) == Value(p)
  {
    if p != [] {
      var q := p[..|p|-1];
      FoldIsValue(q);
      FoldSnoc(0, q, p[|p|-1]);
      assert p == q + [p[|p|-1]];
      ValueBound(q);
      Pow2Monotone(|q|, 31);
      PowerOf31();
    }
  }

  lemma PowerOf31()
    ensures Pow2(31) == 0x8000_0000
  {
    assert Pow2(8) == 256;
    assert Pow2(16) == 65536;
    assert Pow2(24) == 16777216;
  }

  lemma {:induction false} ValueDigit(p: Bits, b: nat)
    requires b < |p|
    ensures ShiftRight(Value(p), |p| - 1 - b) % 2 == Digit(p[b])
    decreases |p|
  {
    var q := p[..|p|-1];
    if b < |p| - 1 {
      ValueDigit(q, b);
      assert Value(p) / 2 == Value(q);
    }
  }

  // ------------------------------------------------------------ packed bits

  /** `1 << (7 - s)`. */
  function Mask(s: nat): bv8
    requires s < 8
  {
    match s case 0 => 0x80 case 1 => 0x40 case 2 => 0x20 case 3 => 0x10
            case 4 => 0x08 case 5 => 0x04 case 6 => 0x02 case 7 => 0x01
  }

  function BitAt(bytes: seq<bv8>, p: nat): bool
    requires p < 8 * |bytes|
  {
    Test(bytes[p / 8], p % 8)
  }

  function Test(x: bv8, s: nat): bool
    requires s < 8
  {
    x & Mask(s) != 0
  }

  function With(x: bv8, s: nat): bv8
    requires s < 8
  {
    x | Mask(s)
  }

  lemma WithTests(x: bv8, s: nat, u: nat)
    requires s < 8 && u < 8
    ensures Test(With(x, s), u) == (s == u || Test(x, u))
  {}

  lemma SamePlace(p: nat, q: nat)
    ensures p == q <==> p / 8 == q / 8 && p % 8 == q % 8
  {}

  /** The array starts with the bits `done`, and all bits behind them are zero. */
  ghost predicate Packed(bytes: seq<bv8>, done: Bits) {
    |done| <= 8 * |bytes| && forall p :: 0 <= p < 8 * |bytes| ==> BitAt(bytes, p) == (p < |done| && done[p])
  }

  /** The highest bit of a byte comes first: place `p` is the digit of weight 2^(7 - p % 8) in byte p / 8, and
      behind the bits `done` all digits are zero. */
  ghost predicate HighBitFirst(bytes: seq<bv8>, done: Bits) {
    forall p: nat {:trigger bytes[p / 8]} {:trigger done[p]} :: p < 8 * |bytes| ==>
      (BinaryDigit(bytes[p / 8] as int, 7 - p % 8) <==> p < |done| && done[p])
  }

  lemma OddByte(x: bv8)
    ensures x & 0x01 != 0 <==> x as int % 2 == 1
  {}

  lemma HalfByte(x: bv8)
    ensures (x >> 1) as int == x as int / 2
  {}

  lemma TestHalf(x: bv8, s: nat)
    requires s < 7
    ensures Test(x, s) <==> Test(x >> 1, s + 1)
  {}

  lemma {:induction false} TestIsDigit(x: bv8, s: nat)
    requires s < 8
    ensures Test(x, s) <==> BinaryDigit(x as int, 7 - s)
    decreases 8 - s
  {
    if s == 7 {
      OddByte(x);
      DigitLast(x as int);
    } else {
      hide Test, BinaryDigit;
      TestHalf(x, s);
      TestIsDigit(x >> 1, s + 1);
      HalfByte(x);
      DigitHalf(x as int, 6 - s);
    }
  }

  /** The packed stream, in the arithmetic of its bytes. */
  lemma {:induction false} PackedDigits(bytes: seq<bv8>, done: Bits)
    requires |done| <= 8 * |bytes|
    ensures Packed(bytes, done) <==> HighBitFirst(bytes, done)
  {
    hide Test, BinaryDigit;
    forall p: nat | p < 8 * |bytes| ensures BitAt(bytes, p) <==> BinaryDigit(bytes[p / 8] as int, 7 - p % 8) {
      TestIsDigit(bytes[p / 8], p % 8);
    }
    if HighBitFirst(bytes, done) {
      forall p | 0 <= p < 8 * |bytes| ensures BitAt(bytes, p) == (p < |done| && done[p]) {
        assert bytes[p / 8] == bytes[p / 8];
      }
    }
  }

  function SetBit(bytes: seq<bv8>, q: nat): (r: seq<bv8>)
    requires q < 8 * |bytes|
    ensures |r| == |bytes|
  {
    bytes[q / 8 := With(bytes[q / 8], q % 8)]
  }

  lemma {:induction false} SetBitReads(bytes: seq<bv8>, q: nat, p: nat)
    requires q < 8 * |bytes| && p < 8 * |bytes|
    ensures BitAt(SetBit(bytes, q), p) == (p == q || BitAt(bytes, p))
  {
    hide Test, With;
    SamePlace(p, q);
    if p / 8 == q / 8 { WithTests(bytes[q / 8], q % 8, p % 8); }
  }

  lemma {:induction false} PackBit(bytes: seq<bv8>, done: Bits, b: bool)
    requires Packed(bytes, done) && |done| < 8 * |bytes|
    ensures Packed(if b then SetBit(bytes, |done|) else bytes, done + [b])
  {
    hide BitAt, SetBit;
    var bytes' := if b then SetBit(bytes, |done|) else bytes;
    forall p | 0 <= p < 8 * |bytes| ensures BitAt(bytes', p) == (p < |done| + 1 && (done + [b])[p]) {
      SetBitReads(bytes, |done|, p);
    }
  }

  lemma {:induction false} ZerosPacked(bytes: seq<bv8>)
    requires forall k :: 0 <= k < |bytes| ==> bytes[k] == 0
    ensures Packed(bytes, [])
  {
    hide Test;
    forall p | 0 <= p < 8 * |bytes| ensures !BitAt(bytes, p) { NoBits(p % 8); }
  }

  lemma NoBits(s: nat)
    requires s < 8
    ensures !Test(0, s)
  {}

  const TREE_NODES: nat := 128

  function Padded(flat: seq<FlatNode>): seq<FlatNode>
    requires |flat| <= TREE_NODES
  {
    flat + seq(TREE_NODES - |flat|, i => FlatNode(0, 0))
  }

  lemma {:induction false} HoldsPadded(flat: seq<FlatNode>, link: int, t: Tree)
    requires Holds(flat, link, t) && |flat| <= TREE_NODES
    ensures Holds(Padded(flat), link, t)
    decreases t
  {
    if t.Node? {
      HoldsPadded(flat, flat[link].left, t.left);
      HoldsPadded(flat, flat[link].right, t.right);
    }
  }

  lemma {:induction false} EncodedSnoc(input: Text, x: Byte, c: CodeBook)
    requires Spells(input, c) && x in c
    ensures Spells(input + [x], c) && Encoded(input + [x], c) == Encoded(input, c) + c[x]
  {
    if input == [] {
      assert input + [x] == [x];
      assert Encoded([x], c) == c[x] + Encoded([x][1..], c);
    } else {
      EncodedSnoc(input[1..], x, c);
      assert (input + [x])[1..] == input[1..] + [x];
    }
  }

  lemma EncodedUnfolds(input: Text, c: CodeBook)
    requires Spells(input, c) && input != []
    ensures Spells(input[1..], c) && Encoded(input, c) == c[input[0]] + Encoded(input[1..], c)
  {}

  lemma {:induction false} EncodedConcat(a: Text, b: Text, c: CodeBook)
    requires Spells(a, c) && Spells(b, c)
    ensures Spells(a + b, c) && Encoded(a + b, c) == Encoded(a, c) + Encoded(b, c)
    decreases |a|
  {
    if a == [] {
      assert a + b == b;
    } else {
      hide Encoded;
      EncodedConcat(a[1..], b, c);
      EncodedUnfolds(a, c);
      EncodedUnfolds(a + b, c);
      assert (a + b)[1..] == a[1..] + b;
      Associates(c[a[0]], Encoded(a[1..], c), Encoded(b, c));
    }
  }

  lemma {:induction false} EncodedPrefix(input: Text, k: nat, c: CodeBook)
    requires Spells(input, c) && k <= |input|
    ensures Spells(input[..k], c) && |Encoded(input[..k], c)| <= |Encoded(input, c)|
  {
    hide Encoded;
    EncodedConcat(input[..k], input[k..], c);
    assert input[..k] + input[k..] == input;
  }

  ghost function Word(t: Tree, ch: nat): Bits { if t.Node? then Path(t, ch) else [] }

  /** The bits of the first `k` characters of a text under its tree; a tree of one leaf has none. */
  ghost function Sofar(input: Text, t: Tree, k: nat): Bits
    requires Reduces(LeafForest(input), t) && k <= |input|
  {
    TreeOfText(input, t);
    if t.Node? then Encoded(input[..k], CodeOf(t)) else []
  }

  lemma SofarStep(input: Text, t: Tree, k: nat)
    requires Reduces(LeafForest(input), t) && k < |input|
    ensures Sofar(input, t, k + 1) == Sofar(input, t, k) + Word(t, input[k])
  {
    TreeOfText(input, t);
    assert input[..k+1] == input[..k] + [input[k]];
    EncodedSnoc(input[..k], input[k], CodeOf(t));
  }

  lemma SofarFits(input: Text, t: Tree, k: nat)
    requires Reduces(LeafForest(input), t) && k <= |input| && Fits(input)
    ensures |Sofar(input, t, k)| <= 8 * CAPACITY && Sofar(input, t, 0) == []
  {
    TreeOfText(input, t);
    GreedyFits(input, t);
    EncodedPrefix(input, k, CodeOf(t));
    assert input[..0] == [];
  }

  class CompileTimeHuffman {
    const tree: array<FlatNode>
    var treeSize: nat
    const compressed: array<bv8>
    var compressedSize: nat
    var originalLength: nat

    ghost var source: Text
    ghost var shape: Tree

    /** The bits of the source under its own tree; none if it has fewer than two characters. */
    ghost function Stream(): Bits
      requires source != [] ==> Reduces(LeafForest(source), shape)
      reads this
    {
      if source == [] then [] else Sofar(source, shape, |source|)
    }

    ghost predicate Valid()
      reads this, tree, compressed
    {
      && tree.Length == TREE_NODES && compressed.Length == CAPACITY
      && 0 !in source && |source| <= 8 * CAPACITY && originalLength == |source|
      && FlatOk(tree[..])
      && (source != [] ==> Reduces(LeafForest(source), shape))
      && (source != [] ==> if shape.Node? then Holds(tree[..], 0, shape) else tree[0] == FlatNode(0, 0))
      && Packed(compressed[..], Stream())
    }

    constructor (input: Text)
      requires 0 !in input && |LeafForest(input)| <= 128 && Fits(input)
      ensures Valid() && source == input && fresh(tree) && fresh(compressed)
      ensures tree.Length == 128 && compressed.Length == 65000
      ensures treeSize == if input == [] then 0 else |LeafForest(input)| - 1
      ensures compressedSize == (|Stream()| + 7) / 8 && HighBitFirst(compressed[..], Stream())
      ensures input != [] ==> Builds(LeafForest(input), shape)
      ensures treeSize > 0 ==> Numbered(tree[..treeSize], treeSize - 1)
      ensures forall c: CodeBook :: IsCode(input, c) ==> |Stream()| <= |Encoded(input, c)|
    {
      hide Packed, Reduces, Builds, Fits, LeafForest, Holds, Sofar, IsCode, Encoded, FlatOk, Numbered;
      hide HighBitFirst;
      tree := new FlatNode[TREE_NODES](i => FlatNode(0, 0));
      compressed := new bv8[CAPACITY](i => 0);
      treeSize, compressedSize, originalLength := 0, 0, |input|;
      source := input;
      new;
      FitsIsShort(input);
      ZerosPacked(compressed[..]);
      if input == [] {
        FlatEmpty(tree[..]);
        PackedDigits(compressed[..], []);
        return;
      }
      var flat;
      flat, shape := BuildTree(input);
      StoreTree(flat);
      PaddedStart(flat);
      compressedSize := Pack(input);
      StreamIsShortest(input, shape);
      SofarFits(input, shape, |input|);
      PackedDigits(compressed[..], Stream());
    }

    method StoreTree(flat: seq<FlatNode>)
      requires tree.Length == TREE_NODES && |flat| <= TREE_NODES && FlatOk(flat)
      requires forall k :: 0 <= k < TREE_NODES ==> tree[k] == FlatNode(0, 0)
      modifies tree, this`treeSize
      ensures tree[..] == Padded(flat) && treeSize == |flat| && FlatOk(tree[..])
    {
      for k := 0 to |flat|
        invariant forall j :: 0 <= j < TREE_NODES ==> tree[j] == if j < k then flat[j] else FlatNode(0, 0)
        modifies tree
      {
        tree[k] := flat[k];
      }
      treeSize := |flat|;
      assert tree[..] == Padded(flat);
    }

    /** Append the bits of one path, most significant first. */
    method PackPath(path: BitPath, startByte: nat, startShift: nat, ghost done: Bits, ghost word: Bits)
      returns (byteIdx: nat, shift: nat)
      requires path == BitPath(Value(word), |word|)
      requires startByte * 8 + startShift == |done| && startShift < 8
      requires Packed(compressed[..], done) && |done + word| <= 8 * compressed.Length
      modifies compressed
      ensures Packed(compressed[..], done + word)
      ensures byteIdx * 8 + shift == |done + word| && shift < 8
    {
      byteIdx, shift := startByte, startShift;
      ghost var sofar := done;
      for b := 0 to path.len
        invariant byteIdx * 8 + shift == |sofar| && 0 <= shift < 8
        invariant sofar == done + word[..b] && Packed(compressed[..], sofar)
      {
        hide Packed, Value, ShiftRight, With;
        var bit := ShiftRight(path.bits, path.len - 1 - b) % 2 == 1;
        ValueDigit(word, b);
        ghost var bytes := compressed[..];
        PackBit(bytes, sofar, bit);
        if bit {
          compressed[byteIdx] := With(compressed[byteIdx], shift);
          assert compressed[..] == SetBit(bytes, |sofar|);
        }
        sofar := sofar + [bit];
        assert word[..b+1] == word[..b] + [bit];
        shift := shift + 1;
        if shift == 8 {
          shift := 0;
          byteIdx := byteIdx + 1;
        }
      }
      assert word[..path.len] == word;
    }

    /** Append the path of every character to the bit stream. */
    method Pack(input: Text) returns (size: nat)
      requires input != [] && 0 !in input && Fits(input) && Reduces(LeafForest(input), shape) && source == input
      requires tree.Length == TREE_NODES && compressed.Length == CAPACITY && FlatOk(tree[..])
      requires if shape.Node? then Holds(tree[..], 0, shape) else tree[0] == FlatNode(0, 0)
      requires Packed(compressed[..], [])
      modifies compressed
      ensures Packed(compressed[..], Stream()) && size == (|Stream()| + 7) / 8
    {
      hide Reduces, Fits, FlatOk, Packed, LeafForest, Holds, Sofar, Word;
      var byteIdx, shift := 0, 0;
      SofarFits(input, shape, 0);
      for i := 0 to |input|
        invariant byteIdx * 8 + shift == |Sofar(input, shape, i)| && shift < 8
        invariant Packed(compressed[..], Sofar(input, shape, i))
      {
        var path := FindPath(tree[..], 0, input[i], 0, 0);
        PathFound(input, shape, tree[..], input[i]);
        SofarStep(input, shape, i);
        SofarFits(input, shape, i + 1);
        byteIdx, shift := PackPath(path, byteIdx, shift, Sofar(input, shape, i), Word(shape, input[i]));
      }
      size := byteIdx + if shift > 0 then 1 else 0;
    }
  }

  lemma FlatEmpty(flat: seq<FlatNode>)
    requires forall k :: 0 <= k < |flat| ==> flat[k] == FlatNode(0, 0)
    ensures FlatOk(flat)
  {}

  lemma PaddedStart(flat: seq<FlatNode>)
    requires |flat| <= TREE_NODES
    ensures flat == [] ==> Padded(flat)[0] == FlatNode(0, 0)
  {}

  lemma {:induction false} StreamIsShortest(input: Text, t: Tree)
    requires input != [] && Reduces(LeafForest(input), t)
    ensures forall c: CodeBook :: IsCode(input, c) ==> |Sofar(input, t, |input|)| <= |Encoded(input, c)|
  {
    forall c: CodeBook | IsCode(input, c) ensures |Sofar(input, t, |input|)| <= |Encoded(input, c)| {
      hide Reduces, LeafForest, IsCode, Encoded;
      GreedyIsOptimal(input, t, c);
      assert input[..|input|] == input;
    }
  }

  /** Counting, leaves, merge and flattening in one go. */
  method BuildTree(input: Text) returns (flat: seq<FlatNode>, ghost t: Tree)
    requires input != [] && 0 !in input && |LeafForest(input)| <= 128
    ensures Builds(LeafForest(input), t) && Reduces(LeafForest(input), t)
    ensures |flat| == |LeafForest(input)| - 1 && FlatOk(flat)
    ensures if t.Node? then Holds(Padded(flat), 0, t) && flat != [] && Numbered(flat, |flat| - 1) else flat == []
  {
    LeafForestChars(input, input[0]);
    var freq := CountCharacters(input);
    var leaves := MakeLeaves(input, freq);
    var ns;
    ns, t := MergeAll(leaves, LeafForest(input));
    BuildsReduces(LeafForest(input), t);
    flat := Flatten(ns);
    LeafForestInner(input, t);
    if t.Node? { HoldsPadded(flat, 0, t); }
  }

  /** Each path of a text that fits is found whole: its length, and its bits in one 32-bit word. */
  lemma PathFound(input: Text, t: Tree, flat: seq<FlatNode>, ch: Byte)
    requires Reduces(LeafForest(input), t) && Fits(input) && ch in input && ch > 0
    requires FlatOk(flat) && flat != [] && if t.Node? then Holds(flat, 0, t) else flat[0] == FlatNode(0, 0)
    ensures FindPath(flat, 0, ch, 0, 0) == BitPath(Value(Word(t, ch)), |Word(t, ch)|)
  {
    if t.Node? {
      TreeOfText(input, t);
      FindPathIsPath(flat, 0, t, ch, 0, 0);
      PathsFit(input, t, ch);
      FoldIsValue(Path(t, ch));
    }
  }

  lemma LeafForestInner(input: Text, t: Tree)
    requires Reduces(LeafForest(input), t)
    ensures Inner(t) == |LeafForest(input)| - 1
  {
    ReducesInner(LeafForest(input), t);
    LeavesInner(input, 256);
  }

  lemma {:induction false} LeavesInner(input: Text, n: nat)
    ensures ForestInner(LeavesBelow(input, n)) == 0
  {
    if n > 0 {
      LeavesInner(input, n - 1);
      if Count(input, n - 1) > 0 {
        ForestInnerSnoc(LeavesBelow(input, n - 1), Leaf(n - 1, Count(input, n - 1)));
      }
    }
  }

  // --------------------------------------------------------------- decoding

  lemma {:induction false} SofarPrefix(input: Text, t: Tree, k: nat)
    requires Reduces(LeafForest(input), t) && k <= |input|
    ensures Sofar(input, t, k) <= Sofar(input, t, |input|)
    decreases |input| - k
  {
    if k < |input| {
      SofarStep(input, t, k);
      SofarPrefix(input, t, k + 1);
    }
  }

  /** The reader stands at bit `pos`, inside the code word of character `n`, at node `cur`: what is left
      of the word is the path in the subtree `sub` held there. */
  ghost predicate Reading(input: Text, t: Tree, flat: seq<FlatNode>, n: nat, cur: nat, sub: Tree, pos: nat)
    requires Reduces(LeafForest(input), t)
  {
    && n <= |input|
    && (n == |input| ==> pos == |Sofar(input, t, n)|)
    && (n < |input| ==>
         && sub.Node? && Holds(flat, cur, sub) && Distinct(sub) && input[n] in Chars(sub)
         && pos + |Path(sub, input[n])| == |Sofar(input, t, n + 1)| <= |Sofar(input, t, |input|)|
         && Sofar(input, t, |input|)[pos..pos + |Path(sub, input[n])|] == Path(sub, input[n]))
  }

  lemma StartWord(input: Text, t: Tree, flat: seq<FlatNode>, n: nat)
    requires Reduces(LeafForest(input), t) && t.Node? && Holds(flat, 0, t) && n <= |input|
    ensures Reading(input, t, flat, n, 0, t, |Sofar(input, t, n)|)
  {
    TreeOfText(input, t);
    if n < |input| {
      SofarStep(input, t, n);
      SofarPrefix(input, t, n + 1);
      var all, a, b := Sofar(input, t, |input|), Sofar(input, t, n), Sofar(input, t, n + 1);
      assert all[..|b|] == b;
      assert all[|a|..|b|] == b[|a|..];
    }
  }

  /** One bit: down one link, or out at a leaf with the next character. */
  lemma {:induction false} ReadBit(input: Text, t: Tree, flat: seq<FlatNode>, n: nat, cur: nat, sub: Tree, pos: nat)
    returns (sub': Tree)
    requires Reduces(LeafForest(input), t) && t.Node? && Holds(flat, 0, t) && n < |input|
    requires Reading(input, t, flat, n, cur, sub, pos) && 0 !in input
    ensures cur < |flat| && pos < |Sofar(input, t, |input|)|
    ensures var next := if Sofar(input, t, |input|)[pos] then flat[cur].right else flat[cur].left;
      if next <= 0 then 0 - next == input[n] && Reading(input, t, flat, n + 1, 0, sub', pos + 1)
      else Reading(input, t, flat, n, next, sub', pos + 1)
  {
    hide Reduces, LeafForest, Sofar, Holds, Path, Chars, Distinct;
    var all, p := Sofar(input, t, |input|), Path(sub, input[n]);
    var child := DownOne(flat, cur, sub, input[n]);
    assert all[pos] == all[pos..pos + |p|][0] == p[0];
    assert all[pos+1..pos + |p|] == all[pos..pos + |p|][1..] == p[1..];
    if child.Leaf? {
      StartWord(input, t, flat, n + 1);
      sub' := t;
    } else {
      sub' := child;
    }
  }

  /** One step down the tree is one link of the array and one bit of the path. */
  lemma DownOne(flat: seq<FlatNode>, cur: nat, sub: Tree, ch: nat) returns (child: Tree)
    requires Holds(flat, cur, sub) && sub.Node? && Distinct(sub) && ch in Chars(sub)
    ensures cur < |flat| && Path(sub, ch) != []
    ensures var p := Path(sub, ch);
      var link := if p[0] then flat[cur].right else flat[cur].left;
      && p[1..] == Path(child, ch) && ch in Chars(child) && Distinct(child)
      && (child.Leaf? ==> p[1..] == [] && link <= 0 && 0 - link == ch)
      && (child.Node? ==> link > 0 && Holds(flat, link, child))
  {
    child := if ch in Chars(sub.left) then sub.left else sub.right;
    assert Path(sub, ch)[1..] == Path(child, ch);
  }

  lemma BitRead(bytes: seq<bv8>, stream: Bits, pos: nat)
    requires Packed(bytes, stream) && pos < 8 * |bytes|
    ensures Test(bytes[pos / 8], pos % 8) == (pos < |stream| && stream[pos])
  {
    assert BitAt(bytes, pos) == (pos < |stream| && stream[pos]);
  }

  class BitReader {
    const bytes: array<bv8>
    var byteIdx: nat
    var bitIdx: nat

    ghost function Position(): nat
      reads this
    {
      byteIdx * 8 + bitIdx
    }

    constructor (bytes: array<bv8>)
      ensures this.bytes == bytes && bitIdx < 8 && Position() == 0
    {
      this.bytes, byteIdx, bitIdx := bytes, 0, 0;
    }

    /** The bit at the current position; the position moves on by one. */
    method ReadBit(ghost stream: Bits) returns (bit: bool)
      requires bitIdx < 8 && Position() < 8 * bytes.Length && Packed(bytes[..], stream)
      modifies this
      ensures bitIdx < 8 && Position() == old(Position()) + 1
      ensures bit == (old(Position()) < |stream| && stream[old(Position())])
      ensures bit <==> BinaryDigit(bytes[old(byteIdx)] as int, 7 - old(bitIdx))
    {
      TestIsDigit(bytes[byteIdx], bitIdx);
      assert Position() / 8 == byteIdx && Position() % 8 == bitIdx;
      BitRead(bytes[..], stream, Position());
      bit := Test(bytes[byteIdx], bitIdx);
      bitIdx := bitIdx + 1;
      if bitIdx == 8 {
        bitIdx := 0;
        byteIdx := byteIdx + 1;
      }
    }
  }

  function Zeros(n: nat): (s: Text)
    ensures |s| == n
  {
    seq(n, i => 0)
  }

  /** The text that comes out: the source, or zeros if the tree is a single leaf. */
  ghost function Outcome(input: Text, t: Tree): (out: Text)
    ensures |out| == |input|
  {
    if t.Node? then input else Zeros(|input|)
  }

  ghost predicate Decoding(input: Text, t: Tree, flat: seq<FlatNode>, n: nat, cur: nat, sub: Tree, pos: nat)
    requires Reduces(LeafForest(input), t)
  {
    if t.Node? then Reading(input, t, flat, n, cur, sub, pos)
    else cur == 0 && pos == n <= |input|
  }

  lemma StartDecoding(input: Text, t: Tree, flat: seq<FlatNode>)
    requires Reduces(LeafForest(input), t) && (t.Node? ==> Holds(flat, 0, t))
    ensures Decoding(input, t, flat, 0, 0, t, 0)
  {
    if t.Node? {
      StartWord(input, t, flat, 0);
      assert Sofar(input, t, 0) == [] by { assert input[..0] == []; }
    }
  }

  lemma {:induction false} DecodeBit(input: Text, t: Tree, flat: seq<FlatNode>, n: nat, cur: nat, sub: Tree, pos: nat)
    returns (sub': Tree)
    requires Reduces(LeafForest(input), t) && flat != [] && n < |input| && 0 !in input
    requires if t.Node? then Holds(flat, 0, t) else flat[0] == FlatNode(0, 0)
    requires Decoding(input, t, flat, n, cur, sub, pos)
    ensures cur < |flat| && (pos < |Sofar(input, t, |input|)| || pos < |input|)
    ensures var stream := Sofar(input, t, |input|);
      var next := if pos < |stream| && stream[pos] then flat[cur].right else flat[cur].left;
      if next <= 0 then 0 - next == Outcome(input, t)[n] && Decoding(input, t, flat, n + 1, 0, sub', pos + 1)
      else Decoding(input, t, flat, n, next, sub', pos + 1)
  {
    if t.Node? { sub' := ReadBit(input, t, flat, n, cur, sub, pos); } else { sub' := sub; }
  }

  lemma DoneDecoding(input: Text, t: Tree, flat: seq<FlatNode>, cur: nat, sub: Tree, pos: nat)
    requires Reduces(LeafForest(input), t) && Decoding(input, t, flat, |input|, cur, sub, pos)
    ensures t.Node? ==> pos == |Sofar(input, t, |input|)|
  {}

  /** The decoding loop: one bit a turn, until `length` characters are out. */
  method ReadText(tree: array<FlatNode>, bytes: array<bv8>, length: nat, ghost input: Text, ghost t: Tree)
    returns (result: Text, ghost consumed: nat)
    requires Reduces(LeafForest(input), t) && 0 !in input && length == |input| <= 8 * CAPACITY
    requires tree.Length == TREE_NODES && bytes.Length == CAPACITY
    requires if t.Node? then Holds(tree[..], 0, t) else tree[0] == FlatNode(0, 0)
    requires Packed(bytes[..], Sofar(input, t, length)) && |Sofar(input, t, length)| <= 8 * CAPACITY
    ensures result == Outcome(input, t) && (t.Node? ==> consumed == |Sofar(input, t, length)|)
  {
    hide Reduces, LeafForest, Packed, Sofar, Decoding, Holds, Outcome, Test;
    ghost var sub, flat, stream, out := t, tree[..], Sofar(input, t, length), Outcome(input, t);
    StartDecoding(input, t, flat);
    var n, cur := 0, 0;
    result := [];
    var reader := new BitReader(bytes);
    while n < length
      invariant n <= length && reader.bitIdx < 8 && reader.Position() <= 8 * CAPACITY
      invariant Decoding(input, t, flat, n, cur, sub, reader.Position())
      invariant result == out[..n]
      invariant Packed(bytes[..], stream)
      decreases 8 * CAPACITY - reader.Position()
    {
      sub := DecodeBit(input, t, flat, n, cur, sub, reader.Position());
      var bit := reader.ReadBit(stream);
      var node := tree[cur];
      var next := if !bit then node.left else node.right;
      if next <= 0 {
        result := result + [0 - next];
        n := n + 1;
        cur := 0;
      } else {
        cur := next;
      }
    }
    consumed := reader.Position();
    DoneDecoding(input, t, flat, cur, sub, consumed);
    assert out[..length] == out;
  }

  /** The reader returns the source, using exactly the bits that were written, unless the source repeats
      one single character: then no bit was written and it returns zeros. */
  method Decompress(huff: CompileTimeHuffman) returns (result: Text, ghost consumed: nat)
    requires huff.Valid()
    ensures |LeafForest(huff.source)| != 1 ==> result == huff.source && consumed == |huff.Stream()|
    ensures |LeafForest(huff.source)| == 1 ==> result == Zeros(|huff.source|)
  {
    if huff.originalLength == 0 {
      EmptyForest(256);
      return [], 0;
    }
    LeafForestInner(huff.source, huff.shape);
    hide LeafForest, Reduces;
    result, consumed := ReadText(huff.tree, huff.compressed, huff.originalLength, huff.source, huff.shape);
  }

  lemma {:induction false} EmptyForest(n: nat)
    ensures LeavesBelow([], n) == []
  {
    if n > 0 { EmptyForest(n - 1); }
  }

  /** Compress, then decompress: the text comes back exactly when it is not one repeated character. */
  method RoundTrip(input: Text) returns (output: Text)
    requires 0 !in input && |LeafForest(input)| <= 128 && Fits(input)
    ensures output == input <==> |LeafForest(input)| != 1
  {
    hide LeafForest, Fits;
    var huff := new CompileTimeHuffman(input);
    ghost var consumed;
    output, consumed := Decompress(huff);
    if |LeafForest(input)| == 1 {
      LeafForestAre(input, 0);
      assert output[0] == 0 && input[0] in input;
    }
  }
}
