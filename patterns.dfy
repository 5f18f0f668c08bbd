/** The pattern utilities of the miner: `combinations_with`,
    `expand_all_combinations`, `erase_infrequent_patterns` and the
    `std::map::merge` that combines per-item results. */
module Patterns {
  import opened Ordering
  import opened Transactions

  /** `FrequentPatterns`: every pattern with its support count. */
  type FrequentPatterns = map<Pattern, nat>

  predicate Distinct(s: seq<Pattern>)
  {
    forall i, j :: 0 <= i < j < |s| ==> s[i] != s[j]
  }

  /** `fp[p] += w` on a map whose missing entries read as 0. */
  function AddWeight(fp: FrequentPatterns, p: Pattern, w: nat): (r: FrequentPatterns)
    ensures r.Keys == fp.Keys + {p}
    ensures r[p] == (if p in fp then fp[p] else 0) + w
    ensures forall q :: q in fp && q != p ==> r[q] == fp[q]
  {
    fp[p := (if p in fp then fp[p] else 0) + w]
  }

  // ---------------------------------------------------------------------
  // Sums of weights over a set of patterns
  // ---------------------------------------------------------------------

  /** The sum of `m[p]` over the patterns `p` of `s`. */
  ghost function SumOver(m: FrequentPatterns, s: set<Pattern>): nat
    requires s <= m.Keys
    decreases s
  {
    if s == {} then 0 else var p :| p in s; m[p] + SumOver(m, s - {p})
  }

  /** The sum does not depend on which pattern is taken out first. */
  lemma {:induction false} SumOverRemove(m: FrequentPatterns, s: set<Pattern>, q: Pattern)
    requires s <= m.Keys && q in s
    ensures SumOver(m, s) == m[q] + SumOver(m, s - {q})
    decreases s
  {
    var p :| p in s && SumOver(m, s) == m[p] + SumOver(m, s - {p});
    if p != q {
      SumOverRemove(m, s - {p}, q);
      SumOverRemove(m, s - {q}, p);
      assert s - {p} - {q} == s - {q} - {p};
    }
  }

  /** Maps that agree on `s` have the same sum over `s`. */
  lemma {:induction false} SumOverAgree(m: FrequentPatterns, n: FrequentPatterns, s: set<Pattern>)
    requires s <= m.Keys && s <= n.Keys
    requires forall p :: p in s ==> m[p] == n[p]
    ensures SumOver(m, s) == SumOver(n, s)
    decreases s
  {
    if s != {} {
      var p :| p in s && SumOver(m, s) == m[p] + SumOver(m, s - {p});
      SumOverRemove(n, s, p);
      SumOverAgree(m, n, s - {p});
    }
  }

  /** The sum of all weights of a map. */
  ghost function SumValues(m: FrequentPatterns): nat
  {
    SumOver(m, m.Keys)
  }

  /** Adding `w` to one entry adds `w` to the total. */
  lemma AddWeightSum(m: FrequentPatterns, p: Pattern, w: nat)
    ensures SumValues(AddWeight(m, p, w)) == SumValues(m) + w
  {
    var r := AddWeight(m, p, w);
    if p in m {
      assert r.Keys == m.Keys;
      SumOverRemove(r, r.Keys, p);
      SumOverRemove(m, m.Keys, p);
      SumOverAgree(r, m, m.Keys - {p});
    } else {
      assert r.Keys - {p} == m.Keys;
      SumOverRemove(r, r.Keys, p);
      SumOverAgree(r, m, m.Keys);
    }
  }

  // ---------------------------------------------------------------------
  // combinations_with
  // ---------------------------------------------------------------------

  /** The patterns `combinations_with(x, k, cur, items)` pushes, in push
      order: `cur` extended by `k` more items of `items` (never `x`), each
      chosen after the previous one. */
  function Combos(x: Item, k: nat, cur: Pattern, items: seq<Item>): seq<Pattern>
    decreases |items|, k, 1
  {
    if k == 0 then [cur] else CombosFrom(x, k, cur, items)
  }

  /** The loop over `start..end` of `combinations_with` for `k > 0`. */
  function CombosFrom(x: Item, k: nat, cur: Pattern, items: seq<Item>): seq<Pattern>
    requires k > 0
    decreases |items|, k, 0
  {
    if items == [] then []
    else
      (if items[0] == x then [] else Combos(x, k - 1, cur + {items[0]}, items[1..]))
      + CombosFrom(x, k, cur, items[1..])
  }

  /** What `combinations_with` may assume of its arguments: the range is
      strictly ascending (a `std::set` range) and shares no item other than
      `x` with the pattern built so far. */
  predicate ComboArgs(x: Item, cur: Pattern, items: seq<Item>)
  {
    Increasing(items) && forall j :: 0 <= j < |items| && items[j] != x ==> items[j] !in cur
  }

  lemma ComboArgsTail(x: Item, cur: Pattern, items: seq<Item>)
    requires items != [] && ComboArgs(x, cur, items)
    ensures ComboArgs(x, cur, items[1..])
    ensures items[0] != x ==> ComboArgs(x, cur + {items[0]}, items[1..])
    ensures items[0] !in ItemSet(items[1..])
    ensures items[0] != x ==> items[0] !in cur
    ensures ItemSet(items) == {items[0]} + ItemSet(items[1..])
  {
    var rest := items[1..];
    assert forall j :: 0 <= j < |rest| ==> rest[j] == items[j + 1];
    assert items == [items[0]] + rest;
  }

  /** `q` is `cur` extended by exactly `k` items of `s` other than `x`. */
  ghost predicate Extends(q: Pattern, cur: Pattern, s: set<Item>, x: Item, k: nat)
  {
    cur <= q && q - cur <= s - {x} && |q - cur| == k
  }

  lemma CardAddOne(s: set<Item>, a: Item)
    requires a !in s
    ensures |s + {a}| == |s| + 1
  {
    assert s * {a} == {};
  }

  /** Choosing from `{a} + r`: either `a` is chosen (when it is not `x`)
      and the rest comes from `r`, or everything comes from `r`. */
  lemma ExtendsSplit(q: Pattern, cur: Pattern, a: Item, r: set<Item>, x: Item, k: nat)
    requires k > 0 && a !in r && (a != x ==> a !in cur)
    ensures Extends(q, cur, {a} + r, x, k) <==>
      (a != x && Extends(q, cur + {a}, r, x, k - 1)) || Extends(q, cur, r, x, k)
  {
    if a == x {
      assert ({a} + r) - {x} == r - {x};
    } else {
      if Extends(q, cur, {a} + r, x, k) {
        if a in q {
          ExtendsTake(q, cur, a, r, x, k);
        } else {
          assert q - cur <= r - {x};
        }
      }
      if Extends(q, cur + {a}, r, x, k - 1) {
        ExtendsTaken(q, cur, a, r, x, k);
      }
    }
  }

  /** A pattern that chose `a` extends `cur + {a}` by one item fewer. */
  lemma ExtendsTake(q: Pattern, cur: Pattern, a: Item, r: set<Item>, x: Item, k: nat)
    requires k > 0 && a !in r && a != x && a !in cur && a in q
    requires Extends(q, cur, {a} + r, x, k)
    ensures Extends(q, cur + {a}, r, x, k - 1)
  {
    var d := (q - cur) - {a};
    assert q - (cur + {a}) == d;
    assert q - cur == d + {a};
    CardAddOne(d, a);
  }

  /** Choosing `a` and then `k - 1` items of `r` chooses `k` items of `{a} + r`. */
  lemma ExtendsTaken(q: Pattern, cur: Pattern, a: Item, r: set<Item>, x: Item, k: nat)
    requires k > 0 && a !in r && a != x && a !in cur
    requires Extends(q, cur + {a}, r, x, k - 1)
    ensures Extends(q, cur, {a} + r, x, k)
  {
    var d := q - (cur + {a});
    assert q - cur == d + {a};
    CardAddOne(d, a);
  }

  lemma ExtendsNothing(q: Pattern, cur: Pattern, x: Item, k: nat)
    requires k > 0
    ensures !Extends(q, cur, {}, x, k)
  {
    if cur <= q && q - cur <= {} {
      assert q - cur == {};
    }
  }

  /** `combinations_with` pushes exactly the patterns that extend `cur` by
      `k` items of the range other than `x`. */
  lemma CombosMembers(x: Item, k: nat, cur: Pattern, items: seq<Item>, q: Pattern)
    requires ComboArgs(x, cur, items)
    ensures q in Combos(x, k, cur, items) <==> Extends(q, cur, ItemSet(items), x, k)
  {
    CombosAgreeAll(x, k, cur, items, q);
  }

  /** The loop of `combinations_with` for `k > 0` pushes exactly the
      extensions of `cur` by `k` items of the range other than `x`. */
  lemma CombosFromMembers(x: Item, k: nat, cur: Pattern, items: seq<Item>, q: Pattern)
    requires k > 0 && ComboArgs(x, cur, items)
    ensures q in CombosFrom(x, k, cur, items) ==> Extends(q, cur, ItemSet(items), x, k)
    ensures Extends(q, cur, ItemSet(items), x, k) ==> q in CombosFrom(x, k, cur, items)
  {
    FromAgreeAll(x, k, cur, items, q);
  }

  /** `q` is pushed by `Combos` exactly when it extends `cur` as required. */
  ghost predicate CombosAgree(x: Item, k: nat, cur: Pattern, items: seq<Item>, q: Pattern)
  {
    q in Combos(x, k, cur, items) <==> Extends(q, cur, ItemSet(items), x, k)
  }

  /** `q` is pushed by `CombosFrom` exactly when it extends `cur` as required. */
  ghost predicate FromAgree(x: Item, k: nat, cur: Pattern, items: seq<Item>, q: Pattern)
    requires k > 0
  {
    q in CombosFrom(x, k, cur, items) <==> Extends(q, cur, ItemSet(items), x, k)
  }

  lemma {:induction false} CombosAgreeAll(x: Item, k: nat, cur: Pattern, items: seq<Item>, q: Pattern)
    requires ComboArgs(x, cur, items)
    ensures CombosAgree(x, k, cur, items, q)
    decreases |items|, k, 1
  {
    if k == 0 {
      if Extends(q, cur, ItemSet(items), x, k) {
        assert q - cur == {};
        assert q == cur;
      }
    } else {
      FromAgreeAll(x, k, cur, items, q);
    }
  }

  lemma {:induction false} FromAgreeAll(x: Item, k: nat, cur: Pattern, items: seq<Item>, q: Pattern)
    requires k > 0 && ComboArgs(x, cur, items)
    ensures FromAgree(x, k, cur, items, q)
    decreases |items|, k, 0
  {
    if items == [] {
      CombosFromEmpty(x, k, cur, items, q);
    } else {
      ComboArgsTail(x, cur, items);
      var rest := items[1..];
      FromAgreeAll(x, k, cur, rest, q);
      if items[0] != x {
        CombosAgreeAll(x, k - 1, cur + {items[0]}, rest, q);
      }
      CombosFromStep(x, k, cur, items, q);
    }
  }

  lemma CombosFromEmpty(x: Item, k: nat, cur: Pattern, items: seq<Item>, q: Pattern)
    requires k > 0 && items == []
    ensures q in CombosFrom(x, k, cur, items) <==> Extends(q, cur, ItemSet(items), x, k)
  {
    assert ItemSet(items) == {};
    ExtendsNothing(q, cur, x, k);
  }

  /** One step of the loop: the first item is either chosen or skipped. */
  lemma CombosFromStep(x: Item, k: nat, cur: Pattern, items: seq<Item>, q: Pattern)
    requires k > 0 && ComboArgs(x, cur, items) && items != []
    requires FromAgree(x, k, cur, items[1..], q)
    requires items[0] != x ==> CombosAgree(x, k - 1, cur + {items[0]}, items[1..], q)
    ensures FromAgree(x, k, cur, items, q)
  {
    var a, rest := items[0], items[1..];
    ComboArgsTail(x, cur, items);
    var tail := CombosFrom(x, k, cur, rest);
    var head := if a == x then [] else Combos(x, k - 1, cur + {a}, rest);
    assert CombosFrom(x, k, cur, items) == head + tail;
    assert q in head + tail <==> q in head || q in tail;
    ExtendsSplit(q, cur, a, ItemSet(rest), x, k);
  }

  /** `combinations_with` never pushes the same pattern twice. */
  lemma {:induction false} CombosDistinct(x: Item, k: nat, cur: Pattern, items: seq<Item>)
    requires ComboArgs(x, cur, items)
    ensures Distinct(Combos(x, k, cur, items))
    decreases |items|, k, 1
  {
    if k > 0 {
      CombosFromDistinct(x, k, cur, items);
    }
  }

  lemma {:induction false} CombosFromDistinct(x: Item, k: nat, cur: Pattern, items: seq<Item>)
    requires k > 0 && ComboArgs(x, cur, items)
    ensures Distinct(CombosFrom(x, k, cur, items))
    decreases |items|, k, 0
  {
    if items != [] {
      var a, rest := items[0], items[1..];
      ComboArgsTail(x, cur, items);
      var tail := CombosFrom(x, k, cur, rest);
      CombosFromDistinct(x, k, cur, rest);
      if a != x {
        var head := Combos(x, k - 1, cur + {a}, rest);
        CombosDistinct(x, k - 1, cur + {a}, rest);
        forall i, j | 0 <= i < |head| && 0 <= j < |tail|
          ensures head[i] != tail[j]
        {
          assert head[i] in head && tail[j] in tail;
          HeadTailApart(x, k, cur, items, head[i], tail[j]);
        }
        DistinctAppend(head, tail);
      } else {
        assert CombosFrom(x, k, cur, items) == tail;
      }
    }
  }

  /** The patterns pushed after choosing the first item hold it; those
      pushed after skipping it do not. */
  lemma HeadTailApart(x: Item, k: nat, cur: Pattern, items: seq<Item>, p: Pattern, q: Pattern)
    requires k > 0 && ComboArgs(x, cur, items) && items != [] && items[0] != x
    requires p in Combos(x, k - 1, cur + {items[0]}, items[1..])
    requires q in CombosFrom(x, k, cur, items[1..])
    ensures items[0] in p && items[0] !in q
  {
    var a, rest := items[0], items[1..];
    ComboArgsTail(x, cur, items);
    CombosMembers(x, k - 1, cur + {a}, rest, p);
    assert cur + {a} <= p;
    CombosFromMembers(x, k, cur, rest, q);
    assert q - cur <= ItemSet(rest) && a !in ItemSet(rest) && a !in cur;
  }

  lemma DistinctAppend(a: seq<Pattern>, b: seq<Pattern>)
    requires Distinct(a) && Distinct(b)
    requires forall i, j :: 0 <= i < |a| && 0 <= j < |b| ==> a[i] != b[j]
    ensures Distinct(a + b)
  {
    var c := a + b;
    forall i, j | 0 <= i < j < |c|
      ensures c[i] != c[j]
    {
      if j < |a| {
      } else if i >= |a| {
        assert c[i] == b[i - |a|] && c[j] == b[j - |a|];
      } else {
        assert c[j] == b[j - |a|];
      }
    }
  }

  /** `combinations_with(x, k, current_pattern, start, end, patterns)`:
      appends to `patterns` every extension of `current` by `k` items of
      the range other than `x`. The source inserts into `current_pattern`
      and erases again after each recursive call; here the extended pattern
      is passed by value. */
  method CombinationsWith(x: Item, k: nat, current: Pattern, items: seq<Item>, patterns: seq<Pattern>)
    returns (out: seq<Pattern>)
    ensures out == patterns + Combos(x, k, current, items)
    decreases k
  {
    if k == 0 {
      out := patterns + [current];
      return;
    }
    out := patterns;
    var i := 0;
    while i < |items|
      invariant 0 <= i <= |items|
      invariant out + CombosFrom(x, k, current, items[i..]) == patterns + CombosFrom(x, k, current, items)
    {
      assert items[i..][1..] == items[i + 1..];
      if items[i] != x {
        out := CombinationsWith(x, k - 1, current + {items[i]}, items[i + 1..], out);
      }
      i := i + 1;
    }
  }

  // ---------------------------------------------------------------------
  // expand_all_combinations
  // ---------------------------------------------------------------------

  /** `fp[p] += w` for every pattern of `qs` in turn. */
  function AddAll(fp: FrequentPatterns, qs: seq<Pattern>, w: nat): FrequentPatterns
  {
    if qs == [] then fp else AddWeight(AddAll(fp, qs[..|qs| - 1], w), qs[|qs| - 1], w)
  }

  lemma AddAllSnoc(fp: FrequentPatterns, qs: seq<Pattern>, q: Pattern, w: nat)
    ensures AddAll(fp, qs + [q], w) == AddWeight(AddAll(fp, qs, w), q, w)
  {
    assert (qs + [q])[..|qs|] == qs;
  }

  lemma {:induction false} AddAllAppend(fp: FrequentPatterns, a: seq<Pattern>, b: seq<Pattern>, w: nat)
    ensures AddAll(fp, a + b, w) == AddAll(AddAll(fp, a, w), b, w)
  {
    if b == [] {
      assert a + b == a;
    } else {
      assert (a + b)[..|a + b| - 1] == a + b[..|b| - 1];
      AddAllAppend(fp, a, b[..|b| - 1], w);
    }
  }

  /** Adding `w` once for each of distinct patterns: every listed pattern
      gains exactly `w`, nothing else changes. */
  lemma {:induction false} AddAllDistinct(fp: FrequentPatterns, qs: seq<Pattern>, w: nat, q: Pattern)
    requires Distinct(qs)
    ensures q in AddAll(fp, qs, w) <==> q in fp || q in qs
    ensures q in AddAll(fp, qs, w) ==>
      AddAll(fp, qs, w)[q] == (if q in fp then fp[q] else 0) + (if q in qs then w else 0)
  {
    if qs != [] {
      var init := qs[..|qs| - 1];
      assert Distinct(init);
      AddAllDistinct(fp, init, w, q);
      assert q in qs <==> q in init || q == qs[|qs| - 1];
      assert qs[|qs| - 1] !in init;
    }
  }

  /** The patterns the `k` loop of `expand_all_combinations` produces for
      one path before round `k`: rounds `0 .. k-1` in order. */
  function Generated(x: Item, items: seq<Item>, k: nat): seq<Pattern>
  {
    if k == 0 then [] else Generated(x, items, k - 1) + Combos(x, k - 1, {x}, items)
  }

  /** `q` is `x` plus fewer than `k` other items of `s`. */
  ghost predicate Below(q: Pattern, s: set<Item>, x: Item, k: nat)
  {
    x in q && q - {x} <= s - {x} && |q - {x}| < k
  }

  lemma {:induction false} GeneratedMembers(x: Item, items: seq<Item>, k: nat, q: Pattern)
    requires Increasing(items)
    ensures q in Generated(x, items, k) <==> Below(q, ItemSet(items), x, k)
  {
    if k > 0 {
      assert ComboArgs(x, {x}, items);
      GeneratedMembers(x, items, k - 1, q);
      CombosMembers(x, k - 1, {x}, items, q);
    }
  }

  lemma {:induction false} GeneratedDistinct(x: Item, items: seq<Item>, k: nat)
    requires Increasing(items)
    ensures Distinct(Generated(x, items, k))
  {
    if k > 0 {
      assert ComboArgs(x, {x}, items);
      GeneratedDistinct(x, items, k - 1);
      var before := Generated(x, items, k - 1);
      var round := Combos(x, k - 1, {x}, items);
      CombosDistinct(x, k - 1, {x}, items);
      forall i, j | 0 <= i < |before| && 0 <= j < |round|
        ensures before[i] != round[j]
      {
        assert before[i] in before && round[j] in round;
        GeneratedMembers(x, items, k - 1, before[i]);
        CombosMembers(x, k - 1, {x}, items, round[j]);
      }
      DistinctAppend(before, round);
    }
  }

  lemma SubsetCard(a: set<Item>, b: set<Item>)
    requires a <= b
    ensures |a| <= |b|
  {
    assert b == a + (b - a);
    assert a * (b - a) == {};
  }

  /** The paths that cover `q`: those that hold every item of `q` other
      than `x`. */
  ghost function CoveringIn(x: Item, keys: set<Pattern>, q: Pattern): set<Pattern>
  {
    set p | p in keys && q - {x} <= p - {x}
  }

  ghost function Covering(x: Item, paths: FrequentPatterns, q: Pattern): set<Pattern>
  {
    CoveringIn(x, paths.Keys, q)
  }

  /** All patterns that one path contributes: `x` plus any subset of the
      path's other items. */
  function PathPatterns(x: Item, path: Pattern): seq<Pattern>
  {
    Generated(x, Elems(path), |path| + 1)
  }

  /** A path contributes `x` together with every subset of its other
      items, each once. */
  lemma PathPatternsMembers(x: Item, path: Pattern, q: Pattern)
    ensures q in PathPatterns(x, path) <==> x in q && q - {x} <= path - {x}
    ensures Distinct(PathPatterns(x, path))
  {
    var items := Elems(path);
    assert ItemSet(items) == path;
    GeneratedMembers(x, items, |path| + 1, q);
    GeneratedDistinct(x, items, |path| + 1);
    if q - {x} <= path - {x} {
      SubsetCard(q - {x}, path - {x});
      SubsetCard(path - {x}, path);
    }
  }

  /** One path of `expand_all_combinations`, for one pattern `q`: `q`
      gains the path's weight exactly when the path covers it. */
  lemma ExpandOnePattern(x: Item, paths: FrequentPatterns, done: set<Pattern>, path: Pattern,
                         before: FrequentPatterns, q: Pattern)
    requires done <= paths.Keys && path in paths && path !in done
    requires q in before <==> x in q && CoveringIn(x, done, q) != {}
    requires q in before ==> before[q] == SumOver(paths, CoveringIn(x, done, q))
    ensures q in AddAll(before, PathPatterns(x, path), paths[path]) <==>
      x in q && CoveringIn(x, done + {path}, q) != {}
    ensures q in AddAll(before, PathPatterns(x, path), paths[path]) ==>
      AddAll(before, PathPatterns(x, path), paths[path])[q] == SumOver(paths, CoveringIn(x, done + {path}, q))
  {
    PathPatternsMembers(x, path, q);
    AddAllDistinct(before, PathPatterns(x, path), paths[path], q);
    var old_ := CoveringIn(x, done, q);
    var new_ := CoveringIn(x, done + {path}, q);
    if q - {x} <= path - {x} {
      assert new_ == old_ + {path};
      if x in q {
        SumOverRemove(paths, new_, path);
        assert new_ - {path} == old_;
      }
    } else {
      assert new_ == old_;
    }
  }

  /** The `k` loop of `expand_all_combinations` for one path, given as its
      ascending items: every combination of every size gains the path's
      weight, in the order `combinations_with` lists them. */
  method AddPathPatterns(x: Item, items: seq<Item>, w: nat, fp: FrequentPatterns) returns (r: FrequentPatterns)
    ensures r == AddAll(fp, Generated(x, items, |items| + 1), w)
  {
    r := fp;
    var k := 0;
    while k <= |items|
      invariant 0 <= k <= |items| + 1
      invariant r == AddAll(fp, Generated(x, items, k), w)
    {
      var patterns := CombinationsWith(x, k, {x}, items, []);
      ghost var before, r0 := r, r;
      var i := 0;
      while i < |patterns|
        invariant 0 <= i <= |patterns|
        invariant r == AddAll(before, patterns[..i], w)
      {
        r0 := r;
        r := AddWeight(r, patterns[i], w);
        i := i + 1;
        AddOneMore(before, patterns, i - 1, w, r0, r);
      }
      ghost var k0 := k;
      k := k + 1;
      SizeDone(fp, x, items, k0, w, patterns, before, i, r, k);
    }
  }

  /** One more pattern of the list gains the weight. */
  lemma AddOneMore(before: FrequentPatterns, patterns: seq<Pattern>, i: nat, w: nat, r: FrequentPatterns, r': FrequentPatterns)
    requires i < |patterns| && r == AddAll(before, patterns[..i], w) && r' == AddWeight(r, patterns[i], w)
    ensures r' == AddAll(before, patterns[..i + 1], w)
  {
    assert patterns[..i + 1] == patterns[..i] + [patterns[i]];
    AddAllSnoc(before, patterns[..i], patterns[i], w);
  }

  /** All combinations of size `k` gained the weight. */
  lemma SizeDone(fp: FrequentPatterns, x: Item, items: seq<Item>, k: nat, w: nat, patterns: seq<Pattern>,
                 before: FrequentPatterns, i: nat, r: FrequentPatterns, k': nat)
    requires before == AddAll(fp, Generated(x, items, k), w)
    requires patterns == [] + Combos(x, k, {x}, items) && i == |patterns| && r == AddAll(before, patterns[..i], w)
    requires k' == k + 1
    ensures r == AddAll(fp, Generated(x, items, k'), w)
  {
    assert patterns[..|patterns|] == patterns;
    AddAllAppend(fp, Generated(x, items, k), patterns, w);
    assert Generated(x, items, k + 1) == Generated(x, items, k) + patterns;
  }

  /** `expand_all_combinations(x, paths)`: for every path and every subset
      S of the path without `x`, adds the path's weight to S ∪ {x}. The
      support of a pattern is the sum of the weights of the paths that
      cover it; every pattern contains `x`. The map is visited in an
      unspecified order, which the sums do not depend on. */
  method ExpandAllCombinations(x: Item, paths: FrequentPatterns) returns (fp: FrequentPatterns)
    ensures forall q :: q in fp <==> x in q && Covering(x, paths, q) != {}
    ensures forall q :: q in fp ==> fp[q] == SumOver(paths, Covering(x, paths, q))
  {
    fp := map[];
    var rest := paths.Keys;
    ghost var done: set<Pattern> := {};
    while rest != {}
      invariant rest + done == paths.Keys && rest !! done
      invariant forall q :: q in fp <==> x in q && CoveringIn(x, done, q) != {}
      invariant forall q :: q in fp ==> fp[q] == SumOver(paths, CoveringIn(x, done, q))
      decreases rest
    {
      var path :| path in rest;
      ghost var before := fp;
      fp := AddPathPatterns(x, Elems(path), paths[path], fp);
      forall q
        ensures q in fp <==> x in q && CoveringIn(x, done + {path}, q) != {}
        ensures q in fp ==> fp[q] == SumOver(paths, CoveringIn(x, done + {path}, q))
      {
        ExpandOnePattern(x, paths, done, path, before, q);
      }
      rest := rest - {path};
      done := done + {path};
    }
  }

  /** A sum over fewer patterns is no larger. */
  lemma {:induction false} SumOverSubset(m: FrequentPatterns, a: set<Pattern>, b: set<Pattern>)
    requires a <= b <= m.Keys
    ensures SumOver(m, a) <= SumOver(m, b)
    decreases b
  {
    if a != b {
      assert !(b <= a);
      var p :| p in b && p !in a;
      SumOverRemove(m, b, p);
      SumOverSubset(m, a, b - {p});
    }
  }

  /** The downward closure of supports (the Apriori property): a larger
      pattern of `x` is covered by fewer paths, so its support is no
      larger. */
  lemma SupportAntitone(x: Item, paths: FrequentPatterns, q: Pattern, q': Pattern)
    requires q <= q'
    ensures Covering(x, paths, q') <= Covering(x, paths, q)
    ensures SumOver(paths, Covering(x, paths, q')) <= SumOver(paths, Covering(x, paths, q))
  {
    SumOverSubset(paths, Covering(x, paths, q'), Covering(x, paths, q));
  }

  // ---------------------------------------------------------------------
  // erase_infrequent_patterns
  // ---------------------------------------------------------------------

  /** The patterns whose support reaches the threshold, with their support. */
  function FrequentPatternsOf(fp: FrequentPatterns, minSupportCount: real): FrequentPatterns
  {
    map p | p in fp && MeetsSupport(fp[p], minSupportCount) :: fp[p]
  }

  /** `erase_infrequent_patterns`: erases exactly the entries whose support
      is below the threshold (strict `<`) and leaves the other entries'
      supports unchanged. The map is visited in an unspecified order, which
      the result does not depend on. */
  method EraseInfrequentPatterns(fp: FrequentPatterns, minSupportCount: real) returns (r: FrequentPatterns)
    ensures forall p :: p in r <==> p in fp && !((fp[p] as real) < minSupportCount)
    ensures forall p :: p in r ==> r[p] == fp[p]
    ensures r == FrequentPatternsOf(fp, minSupportCount)
  {
    r := fp;
    var rest := fp.Keys;
    while rest != {}
      invariant rest <= fp.Keys
      invariant forall p :: p in r <==> p in fp && (p in rest || MeetsSupport(fp[p], minSupportCount))
      invariant forall p :: p in r ==> r[p] == fp[p]
      decreases rest
    {
      var p :| p in rest;
      if (r[p] as real) < minSupportCount {
        r := r - {p};
      }
      rest := rest - {p};
    }
  }

  /** Erasing the infrequent entries of the expansion of `paths` leaves
      exactly the patterns of `x` covered by at least one path whose
      support over `paths` reaches the threshold, each with that support. */
  lemma ErasedExpansion(x: Item, paths: FrequentPatterns, patterns: FrequentPatterns, fp: FrequentPatterns,
                        minSupportCount: real)
    requires forall q :: q in patterns <==> x in q && Covering(x, paths, q) != {}
    requires forall q :: q in patterns ==> patterns[q] == SumOver(paths, Covering(x, paths, q))
    requires fp == FrequentPatternsOf(patterns, minSupportCount)
    ensures forall q :: q in fp <==>
      x in q && Covering(x, paths, q) != {} && MeetsSupport(SumOver(paths, Covering(x, paths, q)), minSupportCount)
    ensures forall q :: q in fp ==> fp[q] == SumOver(paths, Covering(x, paths, q))
    ensures forall q :: q in fp ==> x in q && MeetsSupport(fp[q], minSupportCount)
  {
  }

  /** Raising the threshold only removes patterns, never adds or changes
      one. */
  lemma ThresholdMonotone(fp: FrequentPatterns, low: real, high: real)
    requires low <= high
    ensures FrequentPatternsOf(fp, high).Keys <= FrequentPatternsOf(fp, low).Keys
    ensures forall p :: p in FrequentPatternsOf(fp, high) ==> FrequentPatternsOf(fp, high)[p] == FrequentPatternsOf(fp, low)[p]
  {
  }

  /** Filtering twice with one threshold is filtering once. */
  lemma FilterIdempotent(fp: FrequentPatterns, minSupportCount: real)
    ensures FrequentPatternsOf(FrequentPatternsOf(fp, minSupportCount), minSupportCount) == FrequentPatternsOf(fp, minSupportCount)
  {
  }

  // ---------------------------------------------------------------------
  // std::map::merge
  // ---------------------------------------------------------------------

  /** `dst.merge(src)`: every entry of `src` whose key `dst` lacks moves
      into `dst`; on a key collision the entry already in `dst` stays. */
  function Merge(dst: FrequentPatterns, src: FrequentPatterns): (r: FrequentPatterns)
    ensures r.Keys == dst.Keys + src.Keys
    ensures forall p :: p in dst ==> r[p] == dst[p]
    ensures forall p :: p in src && p !in dst ==> r[p] == src[p]
  {
    map p | p in dst.Keys + src.Keys :: if p in dst then dst[p] else src[p]
  }

  /** Without collisions the merge order does not matter. */
  lemma MergeDisjointCommutes(a: FrequentPatterns, b: FrequentPatterns)
    requires a.Keys !! b.Keys
    ensures Merge(a, b) == Merge(b, a)
  {
  }
}
