/** What a least-recently-used cache must hold after any history of calls. */
module Recency {
  import opened Collections

  datatype Entry<K, V> = Entry(key: K, value: V)
  datatype Call<K, V> = Get(key: K) | Put(key: K, value: V)
  datatype Option<T> = None | Some(value: T)

  // ------------------------------------------------------------- from the history

  function Without<K(==)>(s: seq<K>, k: K): seq<K> {
    if s == [] then [] else (if s[0] == k then [] else [s[0]]) + Without(s[1..], k)
  }

  /** The keys of `s` in the order of their first occurrence. */
  function Distinct<K(==)>(s: seq<K>): seq<K> {
    if s == [] then [] else [s[0]] + Without(Distinct(s[1..]), s[0])
  }

  function Take<T>(s: seq<T>, n: nat): seq<T> { if |s| <= n then s else s[..n] }

  /** The touched keys, latest first: every put and every get of a key still kept. */
  function Touches<K(==), V>(calls: seq<Call<K, V>>, capacity: nat): seq<K> {
    if calls == [] then [] else
      var c, before := calls[|calls|-1], Touches(calls[..|calls|-1], capacity);
      if c.Put? || c.key in Take(Distinct(before), capacity) then [c.key] + before else before
  }

  /** The `capacity` most recently touched keys, latest first. */
  function Kept<K(==), V>(calls: seq<Call<K, V>>, capacity: nat): seq<K> {
    Take(Distinct(Touches(calls, capacity)), capacity)
  }

  function LastPut<K(==), V>(calls: seq<Call<K, V>>, k: K): Option<V> {
    if calls == [] then None else
      var c := calls[|calls|-1];
      if c.Put? && c.key == k then Some(c.value) else LastPut(calls[..|calls|-1], k)
  }

  // ----------------------------------------------------------------- one call

  function Find<K(==), V>(list: seq<Entry<K, V>>, k: K): (i: nat)
    ensures i <= |list| && (i < |list| ==> list[i].key == k)
    ensures forall j :: 0 <= j < i ==> list[j].key != k
  {
    if list == [] || list[0].key == k then 0 else 1 + Find(list[1..], k)
  }

  function ToFront<K, V>(list: seq<Entry<K, V>>, i: nat, e: Entry<K, V>): seq<Entry<K, V>>
    requires i < |list|
  {
    [e] + list[..i] + list[i+1..]
  }

  function Step<K(==), V>(list: seq<Entry<K, V>>, c: Call<K, V>, capacity: nat): seq<Entry<K, V>> {
    var i := Find(list, c.key);
    if i < |list| then ToFront(list, i, Entry(c.key, if c.Put? then c.value else list[i].value))
    else if c.Get? then list
    else [Entry(c.key, c.value)] + Take(list, if capacity == 0 then 0 else capacity - 1)
  }

  function Answer<K(==), V>(list: seq<Entry<K, V>>, k: K): Option<V> {
    var i := Find(list, k);
    if i < |list| then Some(list[i].value) else None
  }

  function After<K(==), V>(calls: seq<Call<K, V>>, capacity: nat): seq<Entry<K, V>> {
    if calls == [] then [] else Step(After(calls[..|calls|-1], capacity), calls[|calls|-1], capacity)
  }

  function Keys<K, V>(list: seq<Entry<K, V>>): (ks: seq<K>)
    ensures |ks| == |list| && forall i {:trigger ks[i]} {:trigger list[i]} :: 0 <= i < |list| ==> ks[i] == list[i].key
  {
    seq(|list|, i requires 0 <= i < |list| => list[i].key)
  }

  // ------------------------------------------------------------------- distinct

  lemma {:induction false} WithoutAbsent<K(!new)>(s: seq<K>, k: K)
    requires k !in s
    ensures Without(s, k) == s
  {
    if s != [] { WithoutAbsent(s[1..], k); }
  }

  lemma {:induction false} WithoutAt<K(!new)>(s: seq<K>, i: nat)
    requires i < |s| && NoTwice(s)
    ensures Without(s, s[i]) == s[..i] + s[i+1..]
  {
    if i == 0 {
      WithoutAbsent(s[1..], s[0]);
    } else {
      WithoutAt(s[1..], i - 1);
      assert s[1..][..i-1] == s[1..i] && s[1..][i..] == s[i+1..];
      assert s[..i] == [s[0]] + s[1..i];
    }
  }

  lemma DropAt<T(!new)>(s: seq<T>, i: nat)
    requires i < |s| && NoTwice(s)
    ensures NoTwice(s[..i] + s[i+1..]) && s[i] !in s[..i] + s[i+1..]
  {}

  lemma WithoutNoTwice<K(!new)>(s: seq<K>, k: K)
    requires NoTwice(s)
    ensures NoTwice(Without(s, k)) && k !in Without(s, k)
  {
    if k in s {
      var i :| 0 <= i < |s| && s[i] == k;
      WithoutAt(s, i);
      DropAt(s, i);
    } else {
      WithoutAbsent(s, k);
    }
  }

  lemma {:induction false} DistinctNoTwice<K(!new)>(s: seq<K>)
    ensures NoTwice(Distinct(s))
  {
    if s != [] {
      DistinctNoTwice(s[1..]);
      WithoutNoTwice(Distinct(s[1..]), s[0]);
    }
  }

  /** Taking from a sequence whose element `i` moved to the front. */
  lemma TakeMoved<T>(d: seq<T>, i: nat, n: nat)
    requires i < n && i < |d|
    ensures Take([d[i]] + (d[..i] + d[i+1..]), n) == [d[i]] + Take(d, n)[..i] + Take(d, n)[i+1..]
  {
    if |d| > n {
      var e := d[..n];
      assert e[..i] == d[..i] && e[i+1..] == d[i+1..n];
    }
  }

  /** Touching a key among the first `n` moves it to the front and keeps the others. */
  lemma {:induction false} TouchKept<K(!new)>(d: seq<K>, i: nat, n: nat)
    requires NoTwice(d) && i < n && i < |d|
    ensures Take([d[i]] + Without(d, d[i]), n) == [d[i]] + Take(d, n)[..i] + Take(d, n)[i+1..]
  {
    hide Without, NoTwice;
    WithoutAt(d, i);
    TakeMoved(d, i, n);
  }

  /** Touching a key outside the first `n` pushes out the last of them. */
  lemma TouchNew<K(!new)>(d: seq<K>, k: K, n: nat)
    requires NoTwice(d) && k !in Take(d, n) && n >= 1
    ensures Take([k] + Without(d, k), n) == [k] + Take(Take(d, n), n - 1)
  {
    if k in d {
      var i :| 0 <= i < |d| && d[i] == k;
      assert forall j :: 0 <= j < |Take(d, n)| ==> Take(d, n)[j] == d[j] != k;
      WithoutAt(d, i);
    } else {
      WithoutAbsent(d, k);
    }
  }

  // ------------------------------------------------------------------ the theorem

  /** `list` holds the kept keys in order, each with its last put value. */
  ghost predicate IsRecent<K(!new), V(!new)>(list: seq<Entry<K, V>>, calls: seq<Call<K, V>>, capacity: nat) {
    && Keys(list) == Kept(calls, capacity)
    && forall i :: 0 <= i < |list| ==> LastPut(calls, list[i].key) == Some(list[i].value)
  }

  lemma KeysToFront<K, V>(list: seq<Entry<K, V>>, i: nat, e: Entry<K, V>)
    requires i < |list|
    ensures Keys(ToFront(list, i, e)) == [e.key] + Keys(list)[..i] + Keys(list)[i+1..]
  {}

  /** The kept keys after a touch. */
  lemma {:induction false} KeptTouched<K(!new), V(!new)>(calls: seq<Call<K, V>>, c: Call<K, V>, capacity: nat)
    requires c.Put? || c.key in Kept(calls, capacity)
    ensures var d := Distinct(Touches(calls, capacity));
            Kept(calls + [c], capacity) == Take([c.key] + Without(d, c.key), capacity)
  {
    hide Without, Take;
    assert (calls + [c])[..|calls|] == calls;
    assert ([c.key] + Touches(calls, capacity))[1..] == Touches(calls, capacity);
  }

  lemma {:induction false} KeptMissed<K(!new), V(!new)>(calls: seq<Call<K, V>>, c: Call<K, V>, capacity: nat)
    requires c.Get? && c.key !in Kept(calls, capacity)
    ensures Kept(calls + [c], capacity) == Kept(calls, capacity)
  {
    hide Distinct, Take;
    assert (calls + [c])[..|calls|] == calls;
  }

  lemma {:induction false} HitKeys<K(!new), V(!new)>(list: seq<Entry<K, V>>, calls: seq<Call<K, V>>, c: Call<K, V>,
                                                     i: nat, e: Entry<K, V>, capacity: nat)
    requires capacity >= 1 && Keys(list) == Kept(calls, capacity) && i < |list| && list[i].key == c.key == e.key
    ensures Keys(ToFront(list, i, e)) == Kept(calls + [c], capacity)
  {
    hide Without, Distinct, Touches, NoTwice, ToFront;
    var d := Distinct(Touches(calls, capacity));
    DistinctNoTwice(Touches(calls, capacity));
    assert Keys(list)[i] == c.key == d[i];
    KeptTouched(calls, c, capacity);
    TouchKept(d, i, capacity);
    KeysToFront(list, i, e);
  }

  lemma {:induction false} NewKeys<K(!new), V(!new)>(list: seq<Entry<K, V>>, calls: seq<Call<K, V>>, c: Call<K, V>,
                                                     capacity: nat)
    requires capacity >= 1 && Keys(list) == Kept(calls, capacity) && c.Put? && c.key !in Keys(list)
    ensures Keys([Entry(c.key, c.value)] + Take(list, capacity - 1)) == Kept(calls + [c], capacity)
  {
    hide Without, Distinct, Touches, NoTwice;
    DistinctNoTwice(Touches(calls, capacity));
    KeptTouched(calls, c, capacity);
    TouchNew(Distinct(Touches(calls, capacity)), c.key, capacity);
    assert Keys([Entry(c.key, c.value)] + Take(list, capacity - 1)) == [c.key] + Take(Keys(list), capacity - 1);
  }

  lemma {:induction false} StepKeys<K(!new), V(!new)>(list: seq<Entry<K, V>>, calls: seq<Call<K, V>>, c: Call<K, V>,
                                                      capacity: nat)
    requires capacity >= 1 && Keys(list) == Kept(calls, capacity)
    ensures Keys(Step(list, c, capacity)) == Kept(calls + [c], capacity)
  {
    hide Kept, Take, ToFront;
    var i := Find(list, c.key);
    if i < |list| {
      HitKeys(list, calls, c, i, Entry(c.key, if c.Put? then c.value else list[i].value), capacity);
    } else {
      assert forall j :: 0 <= j < |Keys(list)| ==> Keys(list)[j] == list[j].key != c.key;
      if c.Put? { NewKeys(list, calls, c, capacity); } else { KeptMissed(calls, c, capacity); }
    }
  }

  lemma KeysDiffer<K(!new), V>(list: seq<Entry<K, V>>, i: nat, j: nat)
    requires NoTwice(Keys(list)) && i < |list| && j < |list| && i != j
    ensures list[i].key != list[j].key
  {
    assert Keys(list)[i] == list[i].key && Keys(list)[j] == list[j].key;
  }

  /** Where the entry at `at` after a call came from, unless the call put it there. */
  lemma {:induction false} StepSource<K(!new), V(!new)>(list: seq<Entry<K, V>>, c: Call<K, V>, capacity: nat, at: nat)
    returns (j: nat)
    requires capacity >= 1 && NoTwice(Keys(list)) && at < |Step(list, c, capacity)|
    requires c.Get? || at > 0
    ensures j < |list| && Step(list, c, capacity)[at] == list[j] && (c.Put? ==> list[j].key != c.key)
  {
    hide Find, NoTwice, Keys;
    var i := Find(list, c.key);
    if i < |list| {
      j := if at == 0 then i else if at <= i then at - 1 else at;
      if i != j { KeysDiffer(list, i, j); }
    } else {
      j := if c.Get? then at else at - 1;
    }
  }

  lemma {:induction false} StepValues<K(!new), V(!new)>(list: seq<Entry<K, V>>, calls: seq<Call<K, V>>, c: Call<K, V>,
                                                        capacity: nat, at: nat)
    requires capacity >= 1 && NoTwice(Keys(list)) && at < |Step(list, c, capacity)|
    requires forall i :: 0 <= i < |list| ==> LastPut(calls, list[i].key) == Some(list[i].value)
    ensures var e := Step(list, c, capacity)[at]; LastPut(calls + [c], e.key) == Some(e.value)
  {
    assert (calls + [c])[..|calls|] == calls;
    if c.Get? || at > 0 {
      hide NoTwice, Step;
      var j := StepSource(list, c, capacity, at);
      assert LastPut(calls, list[j].key) == Some(list[j].value);
    }
  }

  lemma KeptNoTwice<K(!new), V>(calls: seq<Call<K, V>>, capacity: nat)
    ensures NoTwice(Kept(calls, capacity)) && |Kept(calls, capacity)| <= capacity
  {
    DistinctNoTwice(Touches(calls, capacity));
  }

  /** After every history the list is the most recently touched keys, latest first, each with
      the value of its last put. */
  lemma {:induction false} AfterIsRecent<K(!new), V(!new)>(calls: seq<Call<K, V>>, capacity: nat)
    requires capacity >= 1
    ensures IsRecent(After(calls, capacity), calls, capacity)
  {
    if calls != [] {
      var p, c := calls[..|calls|-1], calls[|calls|-1];
      AfterIsRecent(p, capacity);
      KeptNoTwice(p, capacity);
      var list := After(p, capacity);
      assert calls == p + [c];
      StepKeys(list, p, c, capacity);
      forall i | 0 <= i < |Step(list, c, capacity)|
        ensures LastPut(calls, After(calls, capacity)[i].key) == Some(After(calls, capacity)[i].value) {
        StepValues(list, p, c, capacity, i);
      }
    }
  }

  /** A lookup answers the last put value exactly for the kept keys. */
  lemma AnswerIsLastPut<K(!new), V(!new)>(calls: seq<Call<K, V>>, k: K, capacity: nat)
    requires capacity >= 1
    ensures Answer(After(calls, capacity), k) == if k in Kept(calls, capacity) then LastPut(calls, k) else None
  {
    AfterIsRecent(calls, capacity);
    var list := After(calls, capacity);
    var i := Find(list, k);
    if i < |list| {
      assert Keys(list)[i] == k;
    } else {
      assert forall j :: 0 <= j < |Keys(list)| ==> Keys(list)[j] == list[j].key != k;
    }
  }

  /** One call, entry by entry: a key that is there moves to the front, with the new value if it is put; a lookup
      of any other key changes nothing; a new key comes to the front, and in a full cache the last entry goes. */
  lemma {:induction false} CallMoves<K(!new), V>(list: seq<Entry<K, V>>, c: Call<K, V>, capacity: nat, k: nat)
    requires NoTwice(Keys(list)) && 1 <= capacity && |list| <= capacity && k <= |list|
    requires if k < |list| then list[k].key == c.key else forall j :: 0 <= j < |list| ==> list[j].key != c.key
    ensures Step(list, c, capacity) ==
      if k < |list| then [Entry(c.key, if c.Put? then c.value else list[k].value)] + list[..k] + list[k+1..]
      else if c.Get? then list
      else [Entry(c.key, c.value)] + if |list| < capacity then list else list[..capacity - 1]
  {
    hide Find;
    var i := Find(list, c.key);
    if k < |list| && i != k { KeysDiffer(list, i, k); }
  }
}
