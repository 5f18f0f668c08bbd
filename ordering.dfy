/** Items, patterns and the two orders of the miner: `FrequencyCmp` on
    header keys (and the transaction sort built on it) and `PatternCmp` on
    patterns. */
module Ordering {

  type Item = int

  /** `std::set<Item>`: an unordered set of items. */
  type Pattern = set<Item>

  /** A header-table key: an item and its occurrence count. */
  datatype HeaderKey = HeaderKey(item: Item, freq: int)

  /** `FrequencyCmp`: a higher count comes first; equal counts are ordered
      by the smaller item first. */
  predicate FrequencyLess(lhs: HeaderKey, rhs: HeaderKey)
  {
    if lhs.freq != rhs.freq then lhs.freq > rhs.freq else lhs.item < rhs.item
  }

  /** `FrequencyCmp` is a strict total order on header keys. */
  lemma FrequencyLessIsStrictTotalOrder(a: HeaderKey, b: HeaderKey, c: HeaderKey)
    ensures !FrequencyLess(a, a)
    ensures FrequencyLess(a, b) ==> !FrequencyLess(b, a)
    ensures FrequencyLess(a, b) && FrequencyLess(b, c) ==> FrequencyLess(a, c)
    ensures a != b ==> FrequencyLess(a, b) || FrequencyLess(b, a)
  {
  }

  /** The two keys of the order: a higher count always comes first, and
      equal counts put the smaller item first. Keys the order cannot tell
      apart are equal, so a `std::map` with this comparator is a map keyed
      by `HeaderKey` equality. */
  lemma FrequencyLessKeys(a: HeaderKey, b: HeaderKey)
    ensures a.freq > b.freq ==> FrequencyLess(a, b)
    ensures a.freq == b.freq && a.item < b.item ==> FrequencyLess(a, b)
    ensures !FrequencyLess(a, b) && !FrequencyLess(b, a) ==> a == b
  {
  }

  /** The key `get_key` builds for `x`: `item_counter[x]` yields 0 for an
      item the counter has not seen (the default-inserting lookup). */
  function KeyOf(counter: map<Item, int>, x: Item): (k: HeaderKey)
    ensures k.item == x
    ensures x in counter ==> k.freq == counter[x]
    ensures x !in counter ==> k.freq == 0
  {
    HeaderKey(x, if x in counter then counter[x] else 0)
  }

  /** The counter after `item_counter[x]` has been read: an absent `x` is
      inserted with count 0. The insertion is invisible to every key. */
  function WithDefault(counter: map<Item, int>, x: Item): (counter': map<Item, int>)
    ensures counter'.Keys == counter.Keys + {x}
    ensures forall i :: KeyOf(counter', i) == KeyOf(counter, i)
  {
    if x in counter then counter else counter[x := 0]
  }

  /** The counter after `item_counter[x]` has been read for each `x` of
      `xs` in turn. */
  function WithDefaults(counter: map<Item, int>, xs: seq<Item>): map<Item, int>
    decreases |xs|
  {
    if xs == [] then counter else WithDefault(WithDefaults(counter, xs[..|xs| - 1]), xs[|xs| - 1])
  }

  /** The lookups add exactly the items of `xs` as keys and change no
      item's key; when every item of `xs` is counted, they change nothing. */
  lemma {:induction false} WithDefaultsKeys(counter: map<Item, int>, xs: seq<Item>)
    ensures WithDefaults(counter, xs).Keys == counter.Keys + (set j | 0 <= j < |xs| :: xs[j])
    ensures forall i :: KeyOf(WithDefaults(counter, xs), i) == KeyOf(counter, i)
    ensures (forall j :: 0 <= j < |xs| ==> xs[j] in counter) ==> WithDefaults(counter, xs) == counter
    decreases |xs|
  {
    if xs != [] {
      var pre := xs[..|xs| - 1];
      WithDefaultsKeys(counter, pre);
      assert (set j | 0 <= j < |xs| :: xs[j]) == (set j | 0 <= j < |pre| :: pre[j]) + {xs[|xs| - 1]};
    }
  }

  /** One more lookup extends the fold. */
  lemma WithDefaultsSnoc(counter: map<Item, int>, xs: seq<Item>, x: Item)
    ensures WithDefaults(counter, xs + [x]) == WithDefault(WithDefaults(counter, xs), x)
  {
    assert (xs + [x])[..|xs|] == xs;
  }

  /** Two different items never get equal keys from one counter, so the
      frequency order is total on items. */
  lemma KeyOfInjective(counter: map<Item, int>, x: Item, y: Item)
    requires x != y
    ensures FrequencyLess(KeyOf(counter, x), KeyOf(counter, y)) || FrequencyLess(KeyOf(counter, y), KeyOf(counter, x))
  {
  }

  // ---------------------------------------------------------------------
  // Ascending enumeration of a pattern (how a std::set is iterated)
  // ---------------------------------------------------------------------

  predicate Increasing(s: seq<Item>)
  {
    forall i, j :: 0 <= i < j < |s| ==> s[i] < s[j]
  }

  /** A non-empty pattern has an item. */
  lemma SomeItem(p: Pattern) returns (y: Item)
    requires p != {}
    ensures y in p
  {
    if forall z :: z !in p {
      assert false;
    }
    y :| y in p;
  }

  /** A non-empty pattern has a smallest item. */
  lemma {:induction false} LeastWitness(p: Pattern) returns (m: Item)
    requires p != {}
    ensures m in p && forall y :: y in p ==> m <= y
    decreases p
  {
    var y := SomeItem(p);
    var rest := p - {y};
    if rest == {} {
      m := y;
    } else {
      var r := LeastWitness(rest);
      m := if y < r then y else r;
    }
    forall z | z in p
      ensures m <= z
    {
      if z != y {
        assert z in rest;
      }
    }
  }

  lemma MinExists(p: Pattern)
    requires p != {}
    ensures exists m :: m in p && forall y :: y in p ==> m <= y
  {
    var m := LeastWitness(p);
  }

  /** The smallest item of a non-empty pattern, `*p.cbegin()`. */
  function Least(p: Pattern): (m: Item)
    requires p != {}
    ensures m in p && forall y :: y in p ==> m <= y
  {
    MinExists(p);
    var m :| m in p && forall y :: y in p ==> m <= y;
    m
  }

  /** The items of a pattern in ascending order, as `cbegin()..cend()`
      visits them. */
  function Elems(p: Pattern): (s: seq<Item>)
    ensures |s| == |p|
    ensures forall i :: i in s <==> i in p
    ensures Increasing(s)
    decreases p
  {
    if p == {} then []
    else
      var m := Least(p);
      var rest := Elems(p - {m});
      ConsElems(p, m, rest);
      [m] + rest
  }

  /** The least item of `p` followed by the enumeration of the rest
      enumerates `p`. */
  lemma ConsElems(p: Pattern, m: Item, rest: seq<Item>)
    requires m in p && forall y :: y in p ==> m <= y
    requires forall i :: i in rest <==> i in p - {m}
    requires Increasing(rest)
    ensures forall i :: i in [m] + rest <==> i in p
    ensures Increasing([m] + rest)
  {
    var s := [m] + rest;
    forall i | i in p
      ensures i in s
    {
      if i != m {
        assert i in rest;
      }
    }
    forall i, j | 0 <= i < j < |s|
      ensures s[i] < s[j]
    {
      assert s[j] == rest[j - 1] && rest[j - 1] in rest;
      if i > 0 {
        assert s[i] == rest[i - 1];
      }
    }
  }

  /** A pattern is determined by its enumeration. */
  lemma ElemsInjective(a: Pattern, b: Pattern)
    requires Elems(a) == Elems(b)
    ensures a == b
  {
    assert forall i :: i in a <==> i in Elems(a);
    assert forall i :: i in b <==> i in Elems(b);
  }

  // ---------------------------------------------------------------------
  // PatternCmp
  // ---------------------------------------------------------------------

  /** `std::lexicographical_compare` on item sequences. */
  predicate LexLess(a: seq<Item>, b: seq<Item>)
  {
    if a == [] then b != []
    else if b == [] then false
    else if a[0] != b[0] then a[0] < b[0]
    else LexLess(a[1..], b[1..])
  }

  lemma {:induction false} LexLessIrreflexive(a: seq<Item>)
    ensures !LexLess(a, a)
  {
    if a != [] {
      LexLessIrreflexive(a[1..]);
    }
  }

  lemma {:induction false} LexLessTransitive(a: seq<Item>, b: seq<Item>, c: seq<Item>)
    requires LexLess(a, b) && LexLess(b, c)
    ensures LexLess(a, c)
  {
    if a != [] && b != [] && c != [] && a[0] == b[0] && b[0] == c[0] {
      LexLessTransitive(a[1..], b[1..], c[1..]);
    }
  }

  lemma {:induction false} LexLessConnected(a: seq<Item>, b: seq<Item>)
    requires a != b
    ensures LexLess(a, b) || LexLess(b, a)
  {
    if a != [] && b != [] && a[0] == b[0] {
      assert a == [a[0]] + a[1..] && b == [b[0]] + b[1..];
      LexLessConnected(a[1..], b[1..]);
    }
  }

  lemma {:induction false} LexLessAsymmetric(a: seq<Item>, b: seq<Item>)
    requires LexLess(a, b)
    ensures !LexLess(b, a)
  {
    if a != [] && b != [] && a[0] == b[0] {
      LexLessAsymmetric(a[1..], b[1..]);
    }
  }

  /** `PatternCmp`: the smaller pattern first, equal sizes lexicographically
      on the ascending items. */
  predicate PatternLess(lhs: Pattern, rhs: Pattern)
  {
    if |lhs| != |rhs| then |lhs| < |rhs| else LexLess(Elems(lhs), Elems(rhs))
  }

  /** `PatternCmp` is a strict total order on patterns. */
  lemma PatternLessIsStrictTotalOrder(a: Pattern, b: Pattern, c: Pattern)
    ensures !PatternLess(a, a)
    ensures PatternLess(a, b) ==> !PatternLess(b, a)
    ensures PatternLess(a, b) && PatternLess(b, c) ==> PatternLess(a, c)
    ensures a != b ==> PatternLess(a, b) || PatternLess(b, a)
  {
    LexLessIrreflexive(Elems(a));
    if PatternLess(a, b) && |a| == |b| {
      LexLessAsymmetric(Elems(a), Elems(b));
    }
    if PatternLess(a, b) && PatternLess(b, c) && |a| == |b| == |c| {
      LexLessTransitive(Elems(a), Elems(b), Elems(c));
    }
    if a != b && |a| == |b| {
      if Elems(a) == Elems(b) {
        ElemsInjective(a, b);
      }
      LexLessConnected(Elems(a), Elems(b));
    }
  }

  /** Patterns that `PatternCmp` cannot tell apart are equal: a `std::map`
      with this comparator is a map keyed by set equality. */
  lemma PatternEquivalenceIsEquality(a: Pattern, b: Pattern)
    requires !PatternLess(a, b) && !PatternLess(b, a)
    ensures a == b
  {
    PatternLessIsStrictTotalOrder(a, b, a);
  }

  /** Every non-empty finite set of patterns has a `PatternCmp`-least
      element: the first key a `std::map` iteration visits. */
  lemma {:induction false} PatternMinExists(s: set<Pattern>) returns (p: Pattern)
    requires s != {}
    ensures p in s && forall q :: q in s && q != p ==> PatternLess(p, q)
    decreases s
  {
    var y :| y in s;
    var rest := s - {y};
    if rest == {} {
      p := y;
      assert s == {y};
    } else {
      var m := PatternMinExists(rest);
      PatternLessIsStrictTotalOrder(y, m, y);
      p := if PatternLess(y, m) then y else m;
      forall q | q in s && q != p
        ensures PatternLess(p, q)
      {
        if q != y && q != m {
          assert q in rest;
          PatternLessIsStrictTotalOrder(y, m, q);
        }
      }
    }
  }

  // ---------------------------------------------------------------------
  // std::sort of a transaction with frequent_than as the comparator
  // ---------------------------------------------------------------------

  /** No item is followed by one that comes strictly before it. */
  predicate SortedByFrequency(t: seq<Item>, counter: map<Item, int>)
  {
    forall i, j :: 0 <= i < j < |t| ==> !FrequencyLess(KeyOf(counter, t[j]), KeyOf(counter, t[i]))
  }

  /** Putting `y` in front of a sorted sequence keeps it sorted when no
      element of the sequence comes strictly before `y`. */
  lemma PrependSorted(y: Item, s: seq<Item>, counter: map<Item, int>)
    requires SortedByFrequency(s, counter)
    requires forall k :: 0 <= k < |s| ==> !FrequencyLess(KeyOf(counter, s[k]), KeyOf(counter, y))
    ensures SortedByFrequency([y] + s, counter)
  {
    var r := [y] + s;
    forall i, j | 0 <= i < j < |r|
      ensures !FrequencyLess(KeyOf(counter, r[j]), KeyOf(counter, r[i]))
    {
      assert r[j] == s[j - 1];
      if i > 0 {
        assert r[i] == s[i - 1];
      }
    }
  }

  /** Every element of `s`, a sequence holding the tail of `t` and `x`,
      does not come before `t[0]` when `t` is sorted and `t[0]` comes before `x`. */
  lemma TailAfterHead(x: Item, t: seq<Item>, s: seq<Item>, counter: map<Item, int>)
    requires t != [] && SortedByFrequency(t, counter)
    requires FrequencyLess(KeyOf(counter, t[0]), KeyOf(counter, x))
    requires multiset(s) == multiset(t[1..]) + multiset{x}
    ensures forall k :: 0 <= k < |s| ==> !FrequencyLess(KeyOf(counter, s[k]), KeyOf(counter, t[0]))
  {
    forall k | 0 <= k < |s|
      ensures !FrequencyLess(KeyOf(counter, s[k]), KeyOf(counter, t[0]))
    {
      assert s[k] in multiset(s);
      if s[k] == x {
        FrequencyLessIsStrictTotalOrder(KeyOf(counter, t[0]), KeyOf(counter, x), KeyOf(counter, x));
      } else {
        assert s[k] in multiset(t[1..]);
        var m :| 0 <= m < |t[1..]| && t[1..][m] == s[k];
        assert t[m + 1] == s[k];
      }
    }
  }

  /** When `x` does not come after `t[0]`, it comes before every element of
      the sorted `t`. */
  lemma HeadBeforeAll(x: Item, t: seq<Item>, counter: map<Item, int>)
    requires t != [] && SortedByFrequency(t, counter)
    requires !FrequencyLess(KeyOf(counter, t[0]), KeyOf(counter, x))
    ensures forall k :: 0 <= k < |t| ==> !FrequencyLess(KeyOf(counter, t[k]), KeyOf(counter, x))
  {
    forall k | 0 <= k < |t|
      ensures !FrequencyLess(KeyOf(counter, t[k]), KeyOf(counter, x))
    {
      var a, b, c := KeyOf(counter, x), KeyOf(counter, t[0]), KeyOf(counter, t[k]);
      FrequencyLessIsStrictTotalOrder(c, b, a);
      FrequencyLessIsStrictTotalOrder(b, a, c);
      FrequencyLessIsStrictTotalOrder(a, b, c);
      FrequencyLessIsStrictTotalOrder(c, a, b);
    }
  }

  /** `x` inserted into a sorted transaction at its place in the order. */
  function InsertByFrequency(x: Item, t: seq<Item>, counter: map<Item, int>): (r: seq<Item>)
    requires SortedByFrequency(t, counter)
    ensures SortedByFrequency(r, counter)
    ensures multiset(r) == multiset(t) + multiset{x}
  {
    if t == [] then [x]
    else if FrequencyLess(KeyOf(counter, t[0]), KeyOf(counter, x)) then
      assert SortedByFrequency(t[1..], counter) by {
        forall i, j | 0 <= i < j < |t[1..]|
          ensures !FrequencyLess(KeyOf(counter, t[1..][j]), KeyOf(counter, t[1..][i]))
        {
          assert t[1..][j] == t[j + 1] && t[1..][i] == t[i + 1];
        }
      }
      var rest := InsertByFrequency(x, t[1..], counter);
      assert t == [t[0]] + t[1..];
      TailAfterHead(x, t, rest, counter);
      PrependSorted(t[0], rest, counter);
      [t[0]] + rest
    else
      HeadBeforeAll(x, t, counter);
      PrependSorted(x, t, counter);
      [x] + t
  }

  /** The transaction reordered by the frequency order: the permutation of
      `t` that is sorted. */
  function SortByFrequency(t: seq<Item>, counter: map<Item, int>): (r: seq<Item>)
    ensures SortedByFrequency(r, counter)
    ensures multiset(r) == multiset(t)
  {
    if t == [] then []
    else
      assert t == [t[0]] + t[1..];
      InsertByFrequency(t[0], SortByFrequency(t[1..], counter), counter)
  }

  /** The first item of a sorted transaction comes no later than any of
      its items. */
  lemma SortedHeadFirst(a: seq<Item>, counter: map<Item, int>, x: Item)
    requires SortedByFrequency(a, counter) && x in multiset(a)
    ensures a != [] && !FrequencyLess(KeyOf(counter, x), KeyOf(counter, a[0]))
  {
    assert x in a;
    var i :| 0 <= i < |a| && a[i] == x;
  }

  lemma SortedTail(a: seq<Item>, counter: map<Item, int>)
    requires a != [] && SortedByFrequency(a, counter)
    ensures SortedByFrequency(a[1..], counter)
  {
    var t := a[1..];
    forall i, j | 0 <= i < j < |t|
      ensures !FrequencyLess(KeyOf(counter, t[j]), KeyOf(counter, t[i]))
    {
      assert t[i] == a[i + 1] && t[j] == a[j + 1];
    }
  }

  lemma SameHead(a: seq<Item>, b: seq<Item>, counter: map<Item, int>)
    requires a != [] && multiset(a) == multiset(b)
    requires SortedByFrequency(a, counter) && SortedByFrequency(b, counter)
    ensures b != [] && a[0] == b[0]
  {
    assert a[0] in multiset(a);
    SortedHeadFirst(b, counter, a[0]);
    assert b[0] in multiset(b);
    SortedHeadFirst(a, counter, b[0]);
    if a[0] != b[0] {
      KeyOfInjective(counter, a[0], b[0]);
    }
  }

  /** Two sorted permutations of one transaction are equal: whatever
      algorithm `std::sort` uses, its result is `SortByFrequency`. */
  lemma {:induction false} SortedPermutationUnique(a: seq<Item>, b: seq<Item>, counter: map<Item, int>)
    requires multiset(a) == multiset(b)
    requires SortedByFrequency(a, counter) && SortedByFrequency(b, counter)
    ensures a == b
  {
    if a != [] {
      SameHead(a, b, counter);
      assert a == [a[0]] + a[1..] && b == [b[0]] + b[1..];
      assert multiset(a[1..]) == multiset(a) - multiset{a[0]};
      assert multiset(b[1..]) == multiset(b) - multiset{b[0]};
      SortedTail(a, counter);
      SortedTail(b, counter);
      SortedPermutationUnique(a[1..], b[1..], counter);
    } else {
      assert |b| == |multiset(b)| == 0;
    }
  }

  /** The sort sees a counter only through its keys: two counters giving
      every item the same key sort every transaction alike. */
  lemma SortSameKeys(t: seq<Item>, counter: map<Item, int>, counter': map<Item, int>)
    requires forall i :: KeyOf(counter, i) == KeyOf(counter', i)
    ensures SortByFrequency(t, counter) == SortByFrequency(t, counter')
  {
    var a, b := SortByFrequency(t, counter), SortByFrequency(t, counter');
    assert SortedByFrequency(a, counter') by {
      forall i, j | 0 <= i < j < |a|
        ensures !FrequencyLess(KeyOf(counter', a[j]), KeyOf(counter', a[i]))
      {
        assert KeyOf(counter, a[j]) == KeyOf(counter', a[j]) && KeyOf(counter, a[i]) == KeyOf(counter', a[i]);
      }
    }
    SortedPermutationUnique(a, b, counter');
  }
}
