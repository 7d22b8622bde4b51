/** Texts, their character counts and their encoded lengths: what the greedy tree means for a text. */
module HuffmanText {
  import opened Arithmetic
  import opened HuffmanTree
  import opened HuffmanOptimal
  import opened Bytes

  type Text = seq<Byte>

  function Count(input: Text, c: nat): nat {
    if input == [] then 0 else (if input[0] == c then 1 else 0) + Count(input[1..], c)
  }

  /** Leaves for the occurring characters below `n`, in character order. */
  function LeavesBelow(input: Text, n: nat): Forest {
    if n == 0 then []
    else if Count(input, n - 1) > 0 then LeavesBelow(input, n - 1) + [Leaf(n - 1, Count(input, n - 1))]
    else LeavesBelow(input, n - 1)
  }

  function LeafForest(input: Text): Forest { LeavesBelow(input, 256) }

  function Encoded(input: Text, c: CodeBook): Bits
    requires forall k :: 0 <= k < |input| ==> input[k] in c
  {
    if input == [] then [] else c[input[0]] + Encoded(input[1..], c)
  }

  ghost predicate Spells(input: Text, c: CodeBook) {
    forall k :: 0 <= k < |input| ==> input[k] in c
  }

  /** A prefix-free binary code with non-empty words for the characters of the text. */
  ghost predicate IsCode(input: Text, c: CodeBook) {
    && Spells(input, c)
    && (forall a :: a in input ==> c[a] != [])
    && (forall a, b :: a in input && b in input && a != b ==> !(c[a] <= c[b]))
  }

  const CAPACITY: nat := 65000

  /** Some prefix-free code packs the text into the output array. */
  ghost predicate Fits(input: Text) {
    exists c: CodeBook :: IsCode(input, c) && |Encoded(input, c)| <= 8 * CAPACITY
  }

  // ------------------------------------------------------------ leaf forests

  lemma {:induction false} CountIn(input: Text, c: nat)
    ensures Count(input, c) > 0 <==> c in input
  {
    if input != [] { CountIn(input[1..], c); }
  }

  lemma {:induction false} LeavesAre(input: Text, n: nat, k: nat)
    requires k < |LeavesBelow(input, n)|
    ensures var t := LeavesBelow(input, n)[k];
      t.Leaf? && t.ch < n && t.weight == Count(input, t.ch) > 0 && t.ch in input
  {
    CountIn(input, n - 1);
    var rest := LeavesBelow(input, n - 1);
    if k < |rest| { LeavesAre(input, n - 1, k); }
  }

  lemma {:induction false} LeavesApart(input: Text, n: nat)
    ensures Apart(LeavesBelow(input, n))
  {
    if n > 0 {
      var rest, f := LeavesBelow(input, n - 1), LeavesBelow(input, n);
      LeavesApart(input, n - 1);
      forall k | 0 <= k < |rest| ensures n - 1 !in Chars(f[k]) { LeavesAre(input, n - 1, k); }
    }
  }

  /** The same facts for all 256 characters. */
  lemma {:induction false} LeafForestAre(input: Text, k: nat)
    requires k < |LeafForest(input)|
    ensures var t := LeafForest(input)[k]; t.Leaf? && t.ch < 256 && t.weight == Count(input, t.ch) > 0 && t.ch in input
  {
    hide LeavesBelow, Count;
    LeavesAre(input, 256, k);
  }

  /** The leaves stand in character order. */
  lemma {:induction false} LeavesRise(input: Text, n: nat, k: nat, m: nat)
    requires k < m < |LeavesBelow(input, n)|
    ensures LeavesBelow(input, n)[k].Leaf? && LeavesBelow(input, n)[m].Leaf?
    ensures LeavesBelow(input, n)[k].ch < LeavesBelow(input, n)[m].ch
  {
    hide Count;
    var rest := LeavesBelow(input, n - 1);
    LeavesAre(input, n, k);
    LeavesAre(input, n, m);
    if m < |rest| { LeavesRise(input, n - 1, k, m); } else { LeavesAre(input, n - 1, k); }
  }

  lemma {:induction false} LeafForestApart(input: Text)
    ensures Apart(LeafForest(input))
  {
    hide LeavesBelow, Apart;
    LeavesApart(input, 256);
  }

  lemma {:induction false} LeavesCover(input: Text, n: nat, c: nat)
    requires c in input && c < n
    ensures exists k ::
      0 <= k < |LeavesBelow(input, n)| && LeavesBelow(input, n)[k].Leaf? && LeavesBelow(input, n)[k].ch == c
  {
    var f := LeavesBelow(input, n);
    CountIn(input, n - 1);
    if c == n - 1 {
      assert f[|f|-1].ch == c;
    } else {
      LeavesCover(input, n - 1, c);
      var rest := LeavesBelow(input, n - 1);
      var k :| 0 <= k < |rest| && rest[k].Leaf? && rest[k].ch == c;
      assert f[k] == rest[k];
    }
  }

  lemma {:induction false} LeafForestBalanced(input: Text)
    ensures Balanced(LeafForest(input))
  {
    hide LeafForest, Count;
    var f := LeafForest(input);
    forall k | 0 <= k < |f| ensures f[k].Leaf? && Heavy(f[k]) {
      LeafForestAre(input, k);
      assert Fib(2) == 1;
    }
  }

  lemma {:induction false} LeafForestChars(input: Text, c: nat)
    ensures c in ForestChars(LeafForest(input)) <==> c in input
  {
    hide LeavesBelow;
    var f := LeafForest(input);
    if c in ForestChars(f) {
      var k :| 0 <= k < |f| && c in Chars(f[k]);
      LeafForestAre(input, k);
    }
    if c in input {
      LeavesCover(input, 256, c);
      var k :| 0 <= k < |f| && f[k].Leaf? && f[k].ch == c;
      assert c in Chars(f[k]);
    }
  }

  lemma {:induction false} LeafForestCovered(input: Text, c: CodeBook)
    requires Spells(input, c)
    ensures Covered(LeafForest(input), c)
  {
    hide LeafForest;
    var f := LeafForest(input);
    forall k | 0 <= k < |f| ensures Chars(f[k]) <= c.Keys { LeafForestAre(input, k); }
  }

  // ------------------------------------------------------------- length sums

  function LengthIn(c: CodeBook, k: nat): nat { if k in c then |c[k]| else 0 }

  /** Sum over the characters below `n` of count times code length. */
  function CountedLength(input: Text, c: CodeBook, n: nat): nat {
    if n == 0 then 0 else CountedLength(input, c, n - 1) + Count(input, n - 1) * LengthIn(c, n - 1)
  }

  lemma {:induction false} LeavesLength(input: Text, c: CodeBook, n: nat)
    requires Covered(LeavesBelow(input, n), c)
    ensures ForestLength(LeavesBelow(input, n), c) == CountedLength(input, c, n)
  {
    if n > 0 {
      var rest, f := LeavesBelow(input, n - 1), LeavesBelow(input, n);
      assert Covered(rest, c) by {
        forall k | 0 <= k < |rest| ensures Chars(rest[k]) <= c.Keys { assert f[k] == rest[k]; }
      }
      LeavesLength(input, c, n - 1);
      if Count(input, n - 1) > 0 {
        var x := Leaf(n - 1, Count(input, n - 1));
        assert f[|f|-1] == x;
        ForestLengthSnoc(rest, x, c);
      }
    }
  }

  lemma {:induction false} CountedStep(input: Text, c: CodeBook, n: nat)
    requires input != []
    ensures CountedLength(input, c, n)
         == CountedLength(input[1..], c, n) + if input[0] < n then LengthIn(c, input[0]) else 0
  {
    if n > 0 {
      CountedStep(input, c, n - 1);
      var m, l := Count(input[1..], n - 1), LengthIn(c, n - 1);
      assert (m + 1) * l == m * l + l;
    }
  }

  lemma {:induction false} EncodedIsCounted(input: Text, c: CodeBook)
    requires Spells(input, c)
    ensures |Encoded(input, c)| == CountedLength(input, c, 256)
  {
    hide CountedLength;
    if input == [] { CountedEmpty(c, 256); }
    else {
      EncodedIsCounted(input[1..], c);
      CountedStep(input, c, 256);
    }
  }

  lemma {:induction false} CountedEmpty(c: CodeBook, n: nat)
    ensures CountedLength([], c, n) == 0
  {
    if n > 0 { CountedEmpty(c, n - 1); }
  }

  /** The length of an encoded text is the weighted length of its leaf forest. */
  lemma {:induction false} EncodedIsForest(input: Text, c: CodeBook)
    requires Spells(input, c)
    ensures Covered(LeafForest(input), c) && |Encoded(input, c)| == ForestLength(LeafForest(input), c)
  {
    hide LeavesBelow, CountedLength, Encoded, Covered, ForestLength;
    LeafForestCovered(input, c);
    LeavesLength(input, c, 256);
    EncodedIsCounted(input, c);
  }

  // -------------------------------------------------------------- optimality

  ghost function WordsOf(f: Forest, c: CodeBook): (cs: seq<Bits>)
    requires forall k :: 0 <= k < |f| ==> f[k].Leaf? && f[k].ch in c
    ensures |cs| == |f| && forall k :: 0 <= k < |f| ==> cs[k] == c[f[k].ch]
  {
    if f == [] then [] else [c[f[0].ch]] + WordsOf(f[1..], c)
  }

  lemma {:induction false} LeafDot(f: Forest, c: CodeBook)
    requires Covered(f, c) && forall k :: 0 <= k < |f| ==> f[k].Leaf? && f[k].ch in c
    ensures Dot(Weights(f), LengthsOf(WordsOf(f, c))) == ForestLength(f, c) && ForestCost(f) == 0
  {
    if f != [] {
      var ws, ls := Weights(f), LengthsOf(WordsOf(f, c));
      LeafDot(f[1..], c);
      assert ws[1..] == Weights(f[1..]);
      assert ls[1..] == LengthsOf(WordsOf(f[1..], c));
    }
  }

  lemma {:induction false} Top(ls: Lengths) returns (top: nat)
    ensures Within(ls, top)
  {
    if ls == [] { top := 0; }
    else {
      var t := Top(ls[1..]);
      top := if ls[0] > t then ls[0] else t;
      forall k | 0 <= k < |ls| ensures ls[k] <= top { if k > 0 { assert ls[k] == ls[1..][k-1]; } }
    }
  }

  /** No prefix-free code beats the cost of the greedy tree on the text. */
  lemma {:induction false} CostOptimal(input: Text, t: Tree, c: CodeBook)
    requires Reduces(LeafForest(input), t) && IsCode(input, c)
    ensures Cost(t) <= |Encoded(input, c)|
  {
    hide LeafForest, Reduces, Kraft, Dot, Encoded, ForestLength;
    var f := LeafForest(input);
    forall k | 0 <= k < |f| ensures f[k].Leaf? && f[k].ch in c && f[k].ch in input { LeafForestAre(input, k); }
    LeafForestApart(input);
    EncodedIsForest(input, c);
    var cs := WordsOf(f, c);
    WordsPrefixFree(input, f, c);
    var ls := LengthsOf(cs);
    var top := Top(ls);
    PrefixFreeFeasible(cs, top);
    LeafDot(f, c);
    ReducesOptimal(f, t, ls, top);
  }

  lemma WordsPrefixFree(input: Text, f: Forest, c: CodeBook)
    requires IsCode(input, c) && Apart(f) && forall k :: 0 <= k < |f| ==> f[k].Leaf? && f[k].ch in c && f[k].ch in input
    ensures PrefixFreeSeq(WordsOf(f, c))
  {
    var cs := WordsOf(f, c);
    forall i, j | 0 <= i < |cs| && 0 <= j < |cs| && i != j ensures !(cs[i] <= cs[j]) {
      assert f[i].ch != f[j].ch by {
        if i < j { assert Chars(f[i]) !! Chars(f[j]); } else { assert Chars(f[j]) !! Chars(f[i]); }
        assert f[i].ch in Chars(f[i]) && f[j].ch in Chars(f[j]);
      }
    }
  }

  /** What the tree of a text is: its characters, its own prefix-free code, its cost. */
  lemma {:induction false} TreeOfText(input: Text, t: Tree)
    requires Reduces(LeafForest(input), t)
    ensures Distinct(t) && (forall c :: c in Chars(t) <==> c in input) && Spells(input, CodeOf(t))
    ensures |Encoded(input, CodeOf(t))| == Cost(t)
    ensures forall a, b :: a in input && b in input && a != b ==> !(CodeOf(t)[a] <= CodeOf(t)[b])
  {
    hide LeafForest, Reduces, Encoded, ForestLength, Apart, ForestChars;
    var f, c := LeafForest(input), CodeOf(t);
    LeafForestApart(input);
    ReducesChars(f, t);
    forall ch ensures ch in Chars(t) <==> ch in input { LeafForestChars(input, ch); }
    EncodedIsForest(input, c);
    ReducesKeepsLeaves(f, t, c);
    TreeCost(t);
    forall a, b | a in input && b in input && a != b ensures !(c[a] <= c[b]) { DistinctPathsPrefixFree(t, a, b); }
  }

  /** The greedy code of a text is the shortest prefix-free code for it. */
  lemma {:induction false} GreedyIsOptimal(input: Text, t: Tree, c: CodeBook)
    requires Reduces(LeafForest(input), t) && IsCode(input, c)
    ensures Spells(input, CodeOf(t)) && |Encoded(input, CodeOf(t))| <= |Encoded(input, c)|
  {
    hide LeafForest, Reduces, Encoded, IsCode;
    TreeOfText(input, t);
    CostOptimal(input, t, c);
  }

  // ------------------------------------------------------------- path lengths

  lemma {:induction false} UnitLength(t: Tree, c: CodeBook)
    requires Chars(t) <= c.Keys && forall k :: k in c ==> |c[k]| == 1
    ensures CodedLength(t, c) == Weight(t)
  {
    if t.Node? { UnitLength(t.left, c); UnitLength(t.right, c); }
  }

  lemma {:induction false} UnitEncoded(input: Text, c: CodeBook)
    requires Spells(input, c) && forall k :: k in c ==> |c[k]| == 1
    ensures |Encoded(input, c)| == |input|
  {
    if input != [] { UnitEncoded(input[1..], c); }
  }

  lemma {:induction false} EncodedAtLeast(input: Text, c: CodeBook)
    requires Spells(input, c) && forall a :: a in input ==> c[a] != []
    ensures |Encoded(input, c)| >= |input|
  {
    if input != [] { EncodedAtLeast(input[1..], c); }
  }

  lemma FitsIsShort(input: Text)
    requires Fits(input)
    ensures |input| <= 8 * CAPACITY
  {
    var c: CodeBook :| IsCode(input, c) && |Encoded(input, c)| <= 8 * CAPACITY;
    EncodedAtLeast(input, c);
  }

  lemma {:induction false} WeightOfText(input: Text, t: Tree)
    requires Reduces(LeafForest(input), t)
    ensures Weight(t) == |input|
  {
    hide LeafForest, Reduces, Encoded, ForestLength;
    var f := LeafForest(input);
    var unit: CodeBook := map k | k in input :: [false];
    LeafForestApart(input);
    EncodedIsForest(input, unit);
    ReducesKeepsLeaves(f, t, unit);
    UnitLength(t, unit);
    UnitEncoded(input, unit);
  }

  /** Every path of a text that fits is at most 27 bits, so 32 are enough. */
  lemma {:induction false} PathsFit(input: Text, t: Tree, ch: nat)
    requires Reduces(LeafForest(input), t) && Fits(input)
    ensures |Path(t, ch)| <= 27
  {
    hide LeafForest, Reduces, Fits;
    FitsIsShort(input);
    WeightOfText(input, t);
    LeafForestBalanced(input);
    ReducesHeavy(LeafForest(input), t);
    HeightBound(t);
    PathWithinHeight(t, ch);
  }

  /** A text that fits is packed by its own tree into the output array. */
  lemma GreedyFits(input: Text, t: Tree)
    requires Reduces(LeafForest(input), t) && Fits(input)
    ensures Spells(input, CodeOf(t)) && |Encoded(input, CodeOf(t))| <= 8 * CAPACITY
  {
    var c: CodeBook :| IsCode(input, c) && |Encoded(input, c)| <= 8 * CAPACITY;
    GreedyIsOptimal(input, t, c);
  }

  /** The binary digits of `x`, `n` of them, most significant first. */
  function Digits(x: nat, n: nat): (b: Bits)
    ensures |b| == n
  {
    if n == 0 then [] else Digits(x / 2, n - 1) + [x % 2 == 1]
  }

  lemma {:induction false} DigitsDiffer(x: nat, y: nat, n: nat)
    requires x < Pow2(n) && y < Pow2(n) && x != y
    ensures Digits(x, n) != Digits(y, n)
  {
    var a, b := Digits(x, n), Digits(y, n);
    if x % 2 == y % 2 {
      DigitsDiffer(x / 2, y / 2, n - 1);
      assert a[..n-1] == Digits(x / 2, n - 1) && b[..n-1] == Digits(y / 2, n - 1);
    } else {
      assert a[n-1] != b[n-1];
    }
  }

  lemma {:induction false} FixedEncoded(input: Text, c: CodeBook)
    requires Spells(input, c) && forall k :: k in c ==> |c[k]| == 8
    ensures |Encoded(input, c)| == 8 * |input|
  {
    if input != [] { FixedEncoded(input[1..], c); }
  }

  /** Every text of at most 65000 characters fits: eight bits a character are a prefix-free code. */
  lemma ShortTextsFit(input: Text)
    requires |input| <= 65000
    ensures Fits(input)
  {
    var c: CodeBook := map k | k in input :: Digits(k, 8);
    assert Pow2(8) == 256 by { assert Pow2(4) == 16; assert Pow2(6) == 64; }
    forall a, b | a in input && b in input && a != b ensures !(c[a] <= c[b]) {
      DigitsDiffer(a, b, 8);
      assert |c[a]| == |c[b]|;
    }
    FixedEncoded(input, c);
    assert IsCode(input, c);
  }
}
