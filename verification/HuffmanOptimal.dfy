/** Optimality of the greedy merge among all prefix-free codes, through code lengths: prefix-free codes
    satisfy Kraft's inequality, and a merge of the two lightest never costs more than any assignment of
    lengths that satisfies it. */
module HuffmanOptimal {
  import opened Collections
  import opened Arithmetic
  import opened HuffmanTree

  type Lengths = seq<nat>

  // ------------------------------------------------------------- arithmetic

  lemma SwapGain(u: nat, v: nat, x: nat, y: nat)
    requires u <= v && x <= y
    ensures u * y + v * x <= u * x + v * y
  {
    Scale(u, v, y - x);
    Distribute(u, x, y - x);
    Distribute(v, x, y - x);
    assert u * (y - x) == (y - x) * u && v * (y - x) == (y - x) * v;
  }

  lemma NextMultiple(q: nat, s: nat, n: nat)
    requires q * s < q * n
    ensures q * s + q <= q * n
  {
    if s >= n { Scale(n, s, q); }
    Scale(s + 1, n, q);
    Distribute(q, s, 1);
  }

  lemma JoinCost(u: nat, v: nat, l: nat)
    requires l > 0
    ensures (u + v) * (l - 1) + u + v == u * l + v * l
  {}

  lemma {:induction false} Pow2Add(a: nat, b: nat)
    ensures Pow2(a + b) == Pow2(a) * Pow2(b)
  {
    if a > 0 {
      Pow2Add(a - 1, b);
      Associate(2, Pow2(a - 1), Pow2(b));
    }
  }

  ghost predicate Within(ls: Lengths, top: nat) {
    forall k :: 0 <= k < |ls| ==> ls[k] <= top
  }

  /** Sum of 2^(top - l) over the lengths. */
  function Kraft(ls: Lengths, top: nat): nat
    requires Within(ls, top)
  {
    if ls == [] then 0 else Pow2(top - ls[0]) + Kraft(ls[1..], top)
  }

  ghost predicate Feasible(ls: Lengths, top: nat) {
    Within(ls, top) && Kraft(ls, top) <= Pow2(top)
  }

  // ----------------------------------------------- prefix-free codes are feasible

  ghost predicate PrefixFreeSeq(cs: seq<Bits>) {
    forall i, j :: 0 <= i < |cs| && 0 <= j < |cs| && i != j ==> !(cs[i] <= cs[j])
  }

  function LengthsOf(cs: seq<Bits>): (ls: Lengths)
    ensures |ls| == |cs| && forall k :: 0 <= k < |cs| ==> ls[k] == |cs[k]|
  {
    if cs == [] then [] else [|cs[0]|] + LengthsOf(cs[1..])
  }

  /** The rests of the code words that start with `b`. */
  function Tails(cs: seq<Bits>, b: bool): seq<Bits> {
    if cs == [] then []
    else if cs[0] != [] && cs[0][0] == b then [cs[0][1..]] + Tails(cs[1..], b)
    else Tails(cs[1..], b)
  }

  lemma {:induction false} TailsMember(cs: seq<Bits>, b: bool, t: Bits)
    requires t in Tails(cs, b)
    ensures [b] + t in cs
  {
    if cs[0] != [] && cs[0][0] == b {
      if t == cs[0][1..] { assert [b] + t == cs[0]; }
      else { TailsMember(cs[1..], b, t); }
    } else {
      TailsMember(cs[1..], b, t);
    }
  }

  lemma {:induction false} TailsPrefixFree(cs: seq<Bits>, b: bool)
    requires PrefixFreeSeq(cs)
    ensures PrefixFreeSeq(Tails(cs, b))
  {
    if cs != [] {
      assert PrefixFreeSeq(cs[1..]);
      TailsPrefixFree(cs[1..], b);
      if cs[0] != [] && cs[0][0] == b {
        var rest := Tails(cs[1..], b);
        forall k | 0 <= k < |rest| ensures !(cs[0][1..] <= rest[k]) && !(rest[k] <= cs[0][1..]) {
          TailApart(cs, b, rest[k]);
        }
      }
    }
  }

  /** The tail of the first word against the tail of a later one. */
  lemma {:induction false} TailApart(cs: seq<Bits>, b: bool, t: Bits)
    requires PrefixFreeSeq(cs) && cs != [] && cs[0] != [] && cs[0][0] == b && t in Tails(cs[1..], b)
    ensures !(cs[0][1..] <= t) && !(t <= cs[0][1..])
  {
    hide Tails;
    TailsMember(cs[1..], b, t);
    var m :| 0 <= m < |cs[1..]| && cs[1..][m] == [b] + t;
    assert cs[m+1] == [b] + t && cs[m+1][1..] == t;
    PrefixTail(cs[0], cs[m+1]);
    PrefixTail(cs[m+1], cs[0]);
  }

  lemma {:induction false} TailsKraft(cs: seq<Bits>, top: nat)
    requires top > 0 && Within(LengthsOf(cs), top) && forall k :: 0 <= k < |cs| ==> cs[k] != []
    ensures Within(LengthsOf(Tails(cs, false)), top - 1) && Within(LengthsOf(Tails(cs, true)), top - 1)
    ensures Kraft(LengthsOf(cs), top)
         == Kraft(LengthsOf(Tails(cs, false)), top - 1) + Kraft(LengthsOf(Tails(cs, true)), top - 1)
  {
    if cs != [] {
      var ls := LengthsOf(cs);
      assert ls[1..] == LengthsOf(cs[1..]);
      assert Within(ls[1..], top);
      assert forall k :: 0 <= k < |cs[1..]| ==> cs[1..][k] == cs[k+1];
      TailsKraft(cs[1..], top);
      var b := cs[0][0];
      var ts := LengthsOf(Tails(cs, b));
      assert ts[0] == |cs[0]| - 1;
      assert ts[1..] == LengthsOf(Tails(cs[1..], b));
      assert Tails(cs, !b) == Tails(cs[1..], !b);
    }
  }

  /** Kraft's inequality. */
  lemma {:induction false} PrefixFreeFeasible(cs: seq<Bits>, top: nat)
    requires PrefixFreeSeq(cs) && Within(LengthsOf(cs), top)
    ensures Kraft(LengthsOf(cs), top) <= Pow2(top)
    decreases top
  {
    var ls := LengthsOf(cs);
    if cs == [] {
    } else if k :| 0 <= k < |cs| && cs[k] == [] {
      assert cs[k] <= cs[if k == 0 then |cs| - 1 else 0];
      assert ls == [0];
      assert Kraft(ls, top) == Pow2(top) + Kraft(ls[1..], top);
    } else {
      assert 0 < |cs[0]| == ls[0] <= top;
      TailsKraft(cs, top);
      TailsPrefixFree(cs, false);
      TailsPrefixFree(cs, true);
      PrefixFreeFeasible(Tails(cs, false), top - 1);
      PrefixFreeFeasible(Tails(cs, true), top - 1);
    }
  }

  // --------------------------------------------------------- sums over lengths

  lemma {:induction false} KraftDrop(ls: Lengths, i: nat, top: nat)
    requires Within(ls, top) && i < |ls|
    ensures Within(RemoveAt(ls, i), top) && Kraft(ls, top) == Kraft(RemoveAt(ls, i), top) + Pow2(top - ls[i])
  {
    if i == 0 { assert RemoveAt(ls, 0) == ls[1..]; }
    else {
      assert Within(ls[1..], top);
      KraftDrop(ls[1..], i - 1, top);
      assert RemoveAt(ls, i) == [ls[0]] + RemoveAt(ls[1..], i - 1);
      assert RemoveAt(ls, i)[1..] == RemoveAt(ls[1..], i - 1);
    }
  }

  lemma {:induction false} KraftSnoc(ls: Lengths, l: nat, top: nat)
    requires Within(ls, top) && l <= top
    ensures Within(ls + [l], top) && Kraft(ls + [l], top) == Kraft(ls, top) + Pow2(top - l)
  {
    if ls == [] { assert ls + [l] == [l]; assert Kraft([l][1..], top) == 0; }
    else { KraftSnoc(ls[1..], l, top); assert (ls + [l])[1..] == ls[1..] + [l]; }
  }

  lemma KraftUpdate(ls: Lengths, i: nat, l: nat, top: nat)
    requires Within(ls, top) && i < |ls| && l <= top
    ensures Within(ls[i := l], top)
    ensures Kraft(ls[i := l], top) == Kraft(ls, top) - Pow2(top - ls[i]) + Pow2(top - l)
  {
    KraftDrop(ls, i, top);
    KraftDrop(ls[i := l], i, top);
    assert RemoveAt(ls[i := l], i) == RemoveAt(ls, i);
  }

  /** Lengths that all stay below a smaller top scale by a power of two. */
  lemma {:induction false} KraftScale(ls: Lengths, low: nat, top: nat)
    requires Within(ls, low) && low <= top
    ensures Within(ls, top) && Kraft(ls, top) == Pow2(top - low) * Kraft(ls, low)
  {
    if ls != [] {
      KraftScale(ls[1..], low, top);
      Pow2Add(top - low, low - ls[0]);
      assert top - low + (low - ls[0]) == top - ls[0];
      Distribute(Pow2(top - low), Pow2(low - ls[0]), Kraft(ls[1..], low));
    }
  }

  function Dot(ws: seq<nat>, ls: Lengths): nat
    requires |ws| == |ls|
  {
    if ws == [] then 0 else ws[0] * ls[0] + Dot(ws[1..], ls[1..])
  }

  lemma {:induction false} DotDrop(ws: seq<nat>, ls: Lengths, i: nat)
    requires |ws| == |ls| && i < |ws|
    ensures Dot(ws, ls) == Dot(RemoveAt(ws, i), RemoveAt(ls, i)) + ws[i] * ls[i]
  {
    if i == 0 { assert RemoveAt(ws, 0) == ws[1..] && RemoveAt(ls, 0) == ls[1..]; }
    else {
      DotDrop(ws[1..], ls[1..], i - 1);
      assert RemoveAt(ws, i)[1..] == RemoveAt(ws[1..], i - 1) && RemoveAt(ls, i)[1..] == RemoveAt(ls[1..], i - 1);
    }
  }

  lemma {:induction false} DotSnoc(ws: seq<nat>, ls: Lengths, w: nat, l: nat)
    requires |ws| == |ls|
    ensures Dot(ws + [w], ls + [l]) == Dot(ws, ls) + w * l
  {
    if ws == [] {
      assert ws + [w] == [w] && ls + [l] == [l];
      assert Dot([w][1..], [l][1..]) == 0;
    } else {
      DotSnoc(ws[1..], ls[1..], w, l);
      assert (ws + [w])[1..] == ws[1..] + [w] && (ls + [l])[1..] == ls[1..] + [l];
    }
  }

  lemma DotUpdate(ws: seq<nat>, ls: Lengths, i: nat, l: nat)
    requires |ws| == |ls| && i < |ws|
    ensures Dot(ws, ls[i := l]) == Dot(ws, ls) - ws[i] * ls[i] + ws[i] * l
  {
    DotDrop(ws, ls, i);
    DotDrop(ws, ls[i := l], i);
    assert RemoveAt(ls[i := l], i) == RemoveAt(ls, i);
  }

  // ------------------------------------------------------------- the exchange

  /** Giving the longer of two lengths to the lighter weight costs nothing. */
  lemma Swap(ws: seq<nat>, ls: Lengths, i: nat, a: nat, top: nat) returns (r: Lengths)
    requires |ws| == |ls| && i < |ws| && a < |ws| && Feasible(ls, top)
    requires ws[i] <= ws[a] && ls[i] <= ls[a]
    ensures |r| == |ls| && Feasible(r, top) && Dot(ws, r) <= Dot(ws, ls)
    ensures r == ls[i := ls[a]][a := ls[i]]
  {
    r := ls[i := ls[a]][a := ls[i]];
    if i != a {
      KraftUpdate(ls, i, ls[a], top);
      KraftUpdate(ls[i := ls[a]], a, ls[i], top);
      DotUpdate(ws, ls, i, ls[a]);
      DotUpdate(ws, ls[i := ls[a]], a, ls[i]);
      SwapGain(ws[i], ws[a], ls[i], ls[a]);
    } else {
      assert r == ls;
    }
  }

  /** A longest entry other than `skip`, searched from `start`. */
  lemma Longest(ls: Lengths, skip: int, start: nat) returns (a: nat)
    requires start < |ls| && start != skip
    ensures a < |ls| && a != skip && forall k :: 0 <= k < |ls| && k != skip ==> ls[k] <= ls[a]
  {
    a := start;
    for m := 0 to |ls|
      invariant a < |ls| && a != skip
      invariant forall k :: 0 <= k < m && k != skip ==> ls[k] <= ls[a]
    {
      if m != skip && ls[m] > ls[a] { a := m; }
    }
  }

  /** If `i` is longest and `j` next, `i` can be shortened to the length of `j`. */
  lemma Shorten(ls: Lengths, i: nat, j: nat, top: nat)
    requires i < |ls| && j < |ls| && i != j && Feasible(ls, top) && ls[j] <= ls[i]
    requires forall k :: 0 <= k < |ls| && k != i ==> ls[k] <= ls[j]
    ensures Feasible(ls[i := ls[j]], top)
  {
    var l, rest := ls[j], RemoveAt(ls, i);
    KraftUpdate(ls, i, l, top);
    if ls[j] < ls[i] {
      KraftDrop(ls, i, top);
      KraftScale(rest, l, top);
      Pow2Add(top - l, l);
      NextMultiple(Pow2(top - l), Kraft(rest, l), Pow2(l));
    }
  }

  /** Two lengths cannot both be zero. */
  lemma NotBothZero(ls: Lengths, i: nat, j: nat, top: nat)
    requires i < |ls| && j < |ls| && i < j && Feasible(ls, top)
    ensures ls[i] > 0 || ls[j] > 0
  {
    KraftDrop(ls, j, top);
    KraftDrop(RemoveAt(ls, j), i, top);
    assert RemoveAt(ls, j)[i] == ls[i];
  }

  /** Replace two equal lengths `l` by one `l - 1`: still feasible, cheaper by both weights. */
  lemma {:induction false} JoinFeasible(ls: Lengths, lo: nat, hi: nat, top: nat)
    requires lo < hi < |ls| && Feasible(ls, top) && ls[lo] == ls[hi]
    ensures ls[lo] > 0 && Feasible(RemoveAt(RemoveAt(ls, hi), lo) + [ls[lo] - 1], top)
  {
    NotBothZero(ls, lo, hi, top);
    var l := ls[lo];
    var ls1 := RemoveAt(ls, hi);
    assert ls1[lo] == l;
    KraftDrop(ls, hi, top);
    KraftDrop(ls1, lo, top);
    KraftSnoc(RemoveAt(ls1, lo), l - 1, top);
    hide Kraft;
    assert Pow2(top - (l - 1)) == 2 * Pow2(top - l);
  }

  lemma {:induction false} JoinDot(ws: seq<nat>, ls: Lengths, lo: nat, hi: nat)
    requires |ws| == |ls| && lo < hi < |ls| && ls[lo] == ls[hi] > 0
    ensures Dot(RemoveAt(RemoveAt(ws, hi), lo) + [ws[lo] + ws[hi]], RemoveAt(RemoveAt(ls, hi), lo) + [ls[lo] - 1])
            + ws[lo] + ws[hi] == Dot(ws, ls)
  {
    var l := ls[lo];
    var ls1, ws1 := RemoveAt(ls, hi), RemoveAt(ws, hi);
    assert ls1[lo] == l && ws1[lo] == ws[lo];
    DotDrop(ws, ls, hi);
    DotDrop(ws1, ls1, lo);
    DotSnoc(RemoveAt(ws1, lo), RemoveAt(ls1, lo), ws[lo] + ws[hi], l - 1);
    hide RemoveAt;
    JoinCost(ws[lo], ws[hi], l);
  }

  /** Two siblings of equal length become one entry a level up. */
  lemma {:induction false} Join(ws: seq<nat>, ls: Lengths, i: nat, j: nat, top: nat) returns (r: Lengths)
    requires |ws| == |ls| && i < |ls| && j < |ls| && i != j && Feasible(ls, top) && ls[i] == ls[j]
    ensures |r| == |ls| - 1 && Feasible(r, top)
    ensures Dot(Replace2<nat>(ws, i, j, ws[i] + ws[j]), r) + ws[i] + ws[j] == Dot(ws, ls)
  {
    hide Feasible, RemoveAt;
    var hi, lo := if i < j then j else i, if i < j then i else j;
    JoinFeasible(ls, lo, hi, top);
    JoinDot(ws, ls, lo, hi);
    r := RemoveAt(RemoveAt(ls, hi), lo) + [ls[lo] - 1];
  }

  ghost predicate LeastPair(ws: seq<nat>, i: nat, j: nat) {
    && i < |ws| && j < |ws| && i != j && ws[i] <= ws[j]
    && forall k :: 0 <= k < |ws| && k != i && k != j ==> ws[j] <= ws[k]
  }

  /** The exchange argument: merging the two lightest loses nothing against any feasible lengths. */
  lemma MergeLoses(ws: seq<nat>, ls: Lengths, i: nat, j: nat, top: nat) returns (r: Lengths)
    requires |ws| == |ls| && LeastPair(ws, i, j) && Feasible(ls, top)
    ensures |r| == |ls| - 1 && Feasible(r, top)
    ensures Dot(Replace2<nat>(ws, i, j, ws[i] + ws[j]), r) + ws[i] + ws[j] <= Dot(ws, ls)
  {
    var a := Longest(ls, -1, i);
    var l1 := Swap(ws, ls, i, a, top);
    assert forall k :: 0 <= k < |l1| ==> l1[k] <= l1[i];
    assert j < |l1| && j != i;
    var b := Longest(l1, i, j);
    var l2 := Swap(ws, l1, j, b, top);
    assert l2[i] == l1[i];
    Shorten(l2, i, j, top);
    DotUpdate(ws, l2, i, l2[j]);
    var l3 := l2[i := l2[j]];
    Scale(l2[j], l2[i], ws[i]);
    r := Join(ws, l3, i, j, top);
  }

  // ------------------------------------------------------------ trees and forests

  function Weights(f: Forest): (ws: seq<nat>)
    ensures |ws| == |f| && forall k :: 0 <= k < |f| ==> ws[k] == Weight(f[k])
  {
    seq(|f|, k requires 0 <= k < |f| => Weight(f[k]))
  }

  function ForestCost(f: Forest): nat {
    if f == [] then 0 else Cost(f[0]) + ForestCost(f[1..])
  }

  lemma {:induction false} ForestCostDrop(f: Forest, i: nat)
    requires i < |f|
    ensures ForestCost(f) == ForestCost(RemoveAt(f, i)) + Cost(f[i])
  {
    if i == 0 { assert RemoveAt(f, 0) == f[1..]; }
    else { ForestCostDrop(f[1..], i - 1); assert RemoveAt(f, i)[1..] == RemoveAt(f[1..], i - 1); }
  }

  lemma {:induction false} ForestCostSnoc(f: Forest, x: Tree)
    ensures ForestCost(f + [x]) == ForestCost(f) + Cost(x)
  {
    if f == [] { assert f + [x] == [x]; assert ForestCost([x][1..]) == 0; }
    else { ForestCostSnoc(f[1..], x); assert (f + [x])[1..] == f[1..] + [x]; }
  }

  lemma MergedCost(f: Forest, i: nat, j: nat)
    requires i < |f| && j < |f| && i != j
    ensures ForestCost(Merged(f, i, j)) == ForestCost(f) + Weight(f[i]) + Weight(f[j])
  {
    var hi, lo := if i < j then j else i, if i < j then i else j;
    var x := Node(f[i], f[j]);
    ForestCostDrop(f, hi);
    ForestCostDrop(RemoveAt(f, hi), lo);
    assert RemoveAt(f, hi)[lo] == f[lo];
    ForestCostSnoc(RemoveAt(RemoveAt(f, hi), lo), x);
    assert Merged(f, i, j) == RemoveAt(RemoveAt(f, hi), lo) + [x];
  }

  lemma {:induction false} WeightsDrop(f: Forest, i: nat)
    requires i < |f|
    ensures Weights(RemoveAt(f, i)) == RemoveAt(Weights(f), i)
  {
    hide Weights, RemoveAt, Weight;
    assert Weights(RemoveAt(f, i)) == RemoveAt(Weights(f), i);
  }

  lemma {:induction false} WeightsSnoc(f: Forest, x: Tree)
    ensures Weights(f + [x]) == Weights(f) + [Weight(x)]
  {
    hide Weights;
    assert Weights(f + [x]) == Weights(f) + [Weight(x)];
  }

  lemma MergedWeights(f: Forest, i: nat, j: nat)
    requires i < |f| && j < |f| && i != j
    ensures Weights(Merged(f, i, j)) == Replace2<nat>(Weights(f), i, j, Weight(f[i]) + Weight(f[j]))
  {
    if i < j { DropTwoWeights(f, j, i, Node(f[i], f[j])); }
    else { DropTwoWeights(f, i, j, Node(f[i], f[j])); }
  }

  lemma {:induction false} DropTwoWeights(f: Forest, hi: nat, lo: nat, x: Tree)
    requires lo < hi < |f|
    ensures Weights(RemoveAt(RemoveAt(f, hi), lo) + [x]) == RemoveAt(RemoveAt(Weights(f), hi), lo) + [Weight(x)]
  {
    hide Weights, RemoveAt, Weight;
    WeightsDrop(f, hi);
    WeightsDrop(RemoveAt(f, hi), lo);
    WeightsSnoc(RemoveAt(RemoveAt(f, hi), lo), x);
  }

  /** Every run of merges ends at most as costly as any feasible lengths for the forest. */
  lemma {:induction false} ReducesOptimal(f: Forest, t: Tree, ls: Lengths, top: nat)
    requires Reduces(f, t) && |ls| == |f| && Feasible(ls, top)
    ensures Cost(t) <= ForestCost(f) + Dot(Weights(f), ls)
    decreases |f|
  {
    if f == [t] {
      assert ForestCost(f) == Cost(f[0]) + ForestCost(f[1..]);
    } else {
      var i: nat, j: nat :| TwoLeast(f, i, j) && Reduces(Merged(f, i, j), t);
      var r := MergeStep(f, i, j, ls, top);
      ReducesOptimal(Merged(f, i, j), t, r, top);
    }
  }

  lemma LeastWeights(f: Forest, i: nat, j: nat)
    requires TwoLeast(f, i, j)
    ensures i < |f| && j < |f| && i != j && LeastPair(Weights(f), i, j) && Weights(f)[i] == Weight(f[i])
    ensures Weights(f)[j] == Weight(f[j])
  {}

  lemma {:induction false} MergeStep(f: Forest, i: nat, j: nat, ls: Lengths, top: nat) returns (r: Lengths)
    requires TwoLeast(f, i, j) && |ls| == |f| && Feasible(ls, top)
    ensures |r| == |f| - 1 && Feasible(r, top)
    ensures ForestCost(Merged(f, i, j)) + Dot(Weights(Merged(f, i, j)), r) <= ForestCost(f) + Dot(Weights(f), ls)
  {
    hide Feasible, Merged, Weights, ForestCost, Dot, Replace2, LeastPair, TwoLeast;
    var ws := Weights(f);
    LeastWeights(f, i, j);
    r := MergeLoses(ws, ls, i, j, top);
    MergedCost(f, i, j);
    MergedWeights(f, i, j);
  }
}
