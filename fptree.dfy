/** The `FPTree` class: a transaction database, its item counts, the
    frequent items, the header table and the tree itself (an arena of
    nodes, see module `Arena`). The constructor builds the tree; mining
    builds a conditional tree per frequent item. */
module FPTrees {
  import opened Ordering
  import opened Transactions
  import opened Patterns
  import opened Arena
  import opened Scheduling

  /** The keys `build_header_table` creates: `(item, count)` for every
      counted frequent item. */
  function HeaderKeys(counter: map<Item, int>, frequent: set<Item>): (keys: set<HeaderKey>)
    ensures forall k :: k in keys <==> k.item in counter && k.item in frequent && k == KeyOf(counter, k.item)
  {
    set i | i in counter && i in frequent :: KeyOf(counter, i)
  }

  /** A header table whose every entry is (`nullptr`, `nullptr`). */
  function EmptyEntries(keys: set<HeaderKey>): map<HeaderKey, HeadTail>
  {
    map k | k in keys :: HeadTail(NIL, NIL)
  }

  /** The table `build_header_table` fills from empty has exactly the
      keys it was given. */
  lemma EmptyEntriesKeys(ht: map<HeaderKey, HeadTail>, keys: set<HeaderKey>)
    requires ht == map[] + EmptyEntries(keys)
    ensures ht.Keys == keys && forall k :: k in ht ==> ht[k] == HeadTail(NIL, NIL)
  {
  }

  /** One more counted item visited by `build_header_table`. */
  lemma HeaderKeysStep(ht: map<HeaderKey, HeadTail>, counter: map<Item, int>, frequent: set<Item>, done: set<Item>, item: Item)
    requires item in counter
    ensures ht + EmptyEntries(HeaderKeys(counter, frequent * (done + {item}))) ==
      if item in frequent then (ht + EmptyEntries(HeaderKeys(counter, frequent * done)))[KeyOf(counter, item) := HeadTail(NIL, NIL)]
      else ht + EmptyEntries(HeaderKeys(counter, frequent * done))
  {
    if item in frequent {
      assert HeaderKeys(counter, frequent * (done + {item})) == HeaderKeys(counter, frequent * done) + {KeyOf(counter, item)};
    } else {
      assert frequent * (done + {item}) == frequent * done;
    }
  }

  lemma HeaderKeysCounted(counter: map<Item, int>, frequent: set<Item>)
    ensures HeaderKeys(counter, frequent * counter.Keys) == HeaderKeys(counter, frequent)
  {
  }

  lemma {:induction false} HeaderKeysCard(counter: map<Item, int>, s: set<Item>)
    requires s <= counter.Keys
    ensures |HeaderKeys(counter, s)| == |s|
    decreases s
  {
    if s == {} {
      assert HeaderKeys(counter, s) == {};
    } else {
      var i := SomeItem(s);
      HeaderKeysCard(counter, s - {i});
      assert HeaderKeys(counter, s) == HeaderKeys(counter, s - {i}) + {KeyOf(counter, i)};
    }
  }

  /** `build_header_table` creates one key per counted frequent item, and
      no item gets two keys. */
  lemma HeaderKeysOnePerItem(counter: map<Item, int>, frequent: set<Item>)
    ensures |HeaderKeys(counter, frequent)| == |counter.Keys * frequent|
    ensures forall k, k' :: k in HeaderKeys(counter, frequent) && k' in HeaderKeys(counter, frequent) && k.item == k'.item ==> k == k'
  {
    HeaderKeysCounted(counter, frequent);
    HeaderKeysCard(counter, frequent * counter.Keys);
    assert frequent * counter.Keys == counter.Keys * frequent;
  }

  /** The header table after `header_table[key]` has been read: an absent
      key is inserted with the entry (`nullptr`, `nullptr`). */
  function TableWithDefault(ht: map<HeaderKey, HeadTail>, key: HeaderKey): map<HeaderKey, HeadTail>
  {
    if key in ht then ht else ht[key := HeadTail(NIL, NIL)]
  }

  /** The header table after `header_table[get_key(x)]` has been read for
      each `x` of `xs` in turn, the keys taken from `counter`. */
  function TableWithDefaults(ht: map<HeaderKey, HeadTail>, counter: map<Item, int>, xs: seq<Item>): map<HeaderKey, HeadTail>
    decreases |xs|
  {
    if xs == [] then ht else TableWithDefault(TableWithDefaults(ht, counter, xs[..|xs| - 1]), KeyOf(counter, xs[|xs| - 1]))
  }

  /** The lookups add exactly the keys of the items of `xs`, each with an
      empty entry, and change no entry already there. */
  lemma {:induction false} TableWithDefaultsKeys(ht: map<HeaderKey, HeadTail>, counter: map<Item, int>, xs: seq<Item>)
    ensures TableWithDefaults(ht, counter, xs).Keys == ht.Keys + (set j | 0 <= j < |xs| :: KeyOf(counter, xs[j]))
    ensures forall k :: k in ht ==> TableWithDefaults(ht, counter, xs)[k] == ht[k]
    ensures forall k :: k in TableWithDefaults(ht, counter, xs) && k !in ht ==>
      TableWithDefaults(ht, counter, xs)[k] == HeadTail(NIL, NIL)
    decreases |xs|
  {
    if xs != [] {
      var pre := xs[..|xs| - 1];
      TableWithDefaultsKeys(ht, counter, pre);
      assert (set j | 0 <= j < |xs| :: KeyOf(counter, xs[j])) ==
        (set j | 0 <= j < |pre| :: KeyOf(counter, pre[j])) + {KeyOf(counter, xs[|xs| - 1])};
    }
  }

  /** One more lookup extends the fold. */
  lemma TableWithDefaultsSnoc(ht: map<HeaderKey, HeadTail>, counter: map<Item, int>, xs: seq<Item>, x: Item)
    ensures TableWithDefaults(ht, counter, xs + [x]) == TableWithDefault(TableWithDefaults(ht, counter, xs), KeyOf(counter, x))
  {
    assert (xs + [x])[..|xs|] == xs;
  }

  /** On a built tree, mining frequent items inserts nothing: every such
      item is counted and has its header key already. */
  lemma FrequentLookupsKeyed(counter: map<Item, int>, ht: map<HeaderKey, HeadTail>, frequent: set<Item>, xs: seq<Item>)
    requires ht.Keys == HeaderKeys(counter, frequent) && frequent <= counter.Keys
    requires forall j :: 0 <= j < |xs| ==> xs[j] in frequent
    ensures WithDefaults(counter, xs) == counter
    ensures TableWithDefaults(ht, counter, xs) == ht
  {
    WithDefaultsKeys(counter, xs);
    TableWithDefaultsKeys(ht, counter, xs);
    assert (set j | 0 <= j < |xs| :: KeyOf(counter, xs[j])) <= ht.Keys;
  }

  /** On a built tree, `mine_all` leaves the counter and the header table
      as they were: the thread's items are all frequent. */
  lemma MineAllLookupsKeyed(counter: map<Item, int>, ht: map<HeaderKey, HeadTail>, frequent: set<Item>, tId: nat,
                            tCount: nat, items: seq<Item>)
    requires ht.Keys == HeaderKeys(counter, frequent) && frequent <= counter.Keys
    requires StrideDone(Elems(frequent), tId, tCount, items)
    ensures WithDefaults(counter, items) == counter
    ensures TableWithDefaults(ht, counter, items) == ht
  {
    var s := Elems(frequent);
    forall j | 0 <= j < |items|
      ensures items[j] in frequent
    {
      assert items[j] == s[tId + j * tCount];
    }
    FrequentLookupsKeyed(counter, ht, frequent, items);
  }

  /** Overwriting an entry keeps the key set. */
  lemma SameKeys(ht: map<HeaderKey, HeadTail>, k: HeaderKey, v: HeadTail)
    requires k in ht
    ensures ht[k := v].Keys == ht.Keys
  {
  }

  /** Every item of the database is counted and has its header entry, so
      `get_key` and `header_table[key]` insert nothing. */
  ghost predicate AllKeyed(db: TransactionDB, counter: map<Item, int>, ht: map<HeaderKey, HeadTail>)
  {
    forall k, j :: 0 <= k < |db| && 0 <= j < |db[k]| ==> db[k][j] in counter && KeyOf(counter, db[k][j]) in ht
  }

  /** Every item of the transaction `t` is counted and has its header entry. */
  ghost predicate Keyed(t: seq<Item>, counter: map<Item, int>, ht: map<HeaderKey, HeadTail>)
  {
    forall j :: 0 <= j < |t| ==> t[j] in counter && KeyOf(counter, t[j]) in ht
  }

  /** After exclusion and sorting, every item left in the database is
      frequent, so it is counted and has its header entry. */
  lemma SortedExcludedKeyed(tr: TransactionDB, counter: map<Item, int>, frequent: set<Item>,
                            order: map<Item, int>, ht: map<HeaderKey, HeadTail>)
    requires frequent <= counter.Keys && ht.Keys == HeaderKeys(counter, frequent)
    ensures AllKeyed(SortAll(ExcludeNonFrequent(tr, frequent), order), counter, ht)
  {
    var excluded := ExcludeNonFrequent(tr, frequent);
    var db := SortAll(excluded, order);
    ExcludedIsFrequentAndNonEmpty(tr, frequent);
    forall k, j | 0 <= k < |db| && 0 <= j < |db[k]|
      ensures db[k][j] in counter && KeyOf(counter, db[k][j]) in ht
    {
      assert db[k][j] in multiset(db[k]);
      assert db[k][j] in multiset(excluded[k]);
      var i :| 0 <= i < |excluded[k]| && excluded[k][i] == db[k][j];
    }
  }

  /** The database `construct_conditional_fp_tree` builds from pattern
      paths: each path as the ascending sequence of its items, repeated as
      often as its weight, and nothing else. */
  ghost predicate ConditionalBaseOf(base: TransactionDB, paths: FrequentPatterns)
  {
    (forall p :: p in paths ==> multiset(base)[Elems(p)] == paths[p]) &&
    (forall k :: 0 <= k < |base| ==> ItemSet(base[k]) in paths && base[k] == Elems(ItemSet(base[k])))
  }

  lemma MultisetRepeat(base: TransactionDB, w: nat, t: Transaction, u: Transaction)
    ensures multiset(base + seq(w, _ => t))[u] == multiset(base)[u] + (if u == t then w else 0)
  {
    if w > 0 {
      MultisetRepeat(base, w - 1, t, u);
      assert base + seq(w, _ => t) == (base + seq(w - 1, _ => t)) + [t];
    } else {
      assert base + seq(w, _ => t) == base;
    }
  }

  /** The paths `done` copied into `base`, each as often as its weight. */
  ghost predicate PartialBase(base: TransactionDB, paths: FrequentPatterns, done: set<Pattern>)
    requires done <= paths.Keys
  {
    (forall p :: p in paths ==> multiset(base)[Elems(p)] == if p in done then paths[p] else 0) &&
    (forall k :: 0 <= k < |base| ==> ItemSet(base[k]) in done && base[k] == Elems(ItemSet(base[k]))) &&
    |base| == SumOver(paths, done)
  }

  /** Copying one more path. */
  lemma PartialBaseStep(base: TransactionDB, paths: FrequentPatterns, done: set<Pattern>, path: Pattern)
    requires done <= paths.Keys && path in paths && path !in done && PartialBase(base, paths, done)
    ensures PartialBase(base + seq(paths[path], _ => Elems(path)), paths, done + {path})
  {
    var base' := base + seq(paths[path], _ => Elems(path));
    BaseStepCounts(base, paths, done, path, base');
    BaseStepRows(base, paths, done, path, base');
    BaseStepSize(base, paths, done, path, base');
  }

  lemma BaseStepSize(base: TransactionDB, paths: FrequentPatterns, done: set<Pattern>, path: Pattern, base': TransactionDB)
    requires done <= paths.Keys && path in paths && path !in done && |base| == SumOver(paths, done)
    requires base' == base + seq(paths[path], _ => Elems(path))
    ensures |base'| == SumOver(paths, done + {path})
  {
    SumOverRemove(paths, done + {path}, path);
    assert done + {path} - {path} == done;
  }

  lemma BaseStepCounts(base: TransactionDB, paths: FrequentPatterns, done: set<Pattern>, path: Pattern, base': TransactionDB)
    requires done <= paths.Keys && path in paths && path !in done && PartialBase(base, paths, done)
    requires base' == base + seq(paths[path], _ => Elems(path))
    ensures forall p :: p in paths ==> multiset(base')[Elems(p)] == if p in done + {path} then paths[p] else 0
  {
    forall p | p in paths
      ensures multiset(base')[Elems(p)] == if p in done + {path} then paths[p] else 0
    {
      MultisetRepeat(base, paths[path], Elems(path), Elems(p));
      if Elems(p) == Elems(path) {
        ElemsInjective(p, path);
      }
    }
  }

  lemma BaseStepRows(base: TransactionDB, paths: FrequentPatterns, done: set<Pattern>, path: Pattern, base': TransactionDB)
    requires done <= paths.Keys && path in paths && path !in done && PartialBase(base, paths, done)
    requires base' == base + seq(paths[path], _ => Elems(path))
    ensures forall k :: 0 <= k < |base'| ==> ItemSet(base'[k]) in done + {path} && base'[k] == Elems(ItemSet(base'[k]))
  {
    forall k | 0 <= k < |base'|
      ensures ItemSet(base'[k]) in done + {path} && base'[k] == Elems(ItemSet(base'[k]))
    {
      if k >= |base| {
        assert base'[k] == Elems(path);
        assert ItemSet(Elems(path)) == path;
      } else {
        assert base'[k] == base[k];
      }
    }
  }

  lemma MoveToDone(all: set<Pattern>, rest: set<Pattern>, x: Pattern)
    requires x in rest && rest <= all
    ensures (all - rest) + {x} == all - (rest - {x})
  {
  }

  /** The conditional pattern base of `construct_conditional_fp_tree`:
      every path, in the order of the map, copied as many times as its
      weight. */
  method ConditionalBase(paths: FrequentPatterns) returns (base: TransactionDB)
    ensures ConditionalBaseOf(base, paths)
    ensures |base| == SumValues(paths)
  {
    base := [];
    var rest := paths.Keys;
    while rest != {}
      invariant rest <= paths.Keys
      invariant PartialBase(base, paths, paths.Keys - rest)
      decreases rest
    {
      ghost var least := PatternMinExists(rest);
      var path :| path in rest && forall q :: q in rest && q != path ==> PatternLess(path, q);
      ghost var done := paths.Keys - rest;
      PartialBaseStep(base, paths, done, path);
      MoveToDone(paths.Keys, rest, path);
      base := base + seq(paths[path], _ => Elems(path));
      rest := rest - {path};
    }
    assert paths.Keys - rest == paths.Keys;
  }

  /** `get_key` on a counter: the key of `x`, and the counter after the
      read (an absent count is inserted as 0). */
  method LookupKey(counter: map<Item, int>, x: Item) returns (key: HeaderKey, counter': map<Item, int>)
    ensures key == KeyOf(counter, x)
    ensures counter' == WithDefault(counter, x)
  {
    counter' := counter;
    if x !in counter' {
      counter' := counter'[x := 0];
    }
    key := HeaderKey(x, counter'[x]);
  }

  /** One item of a transaction below `curr`: the child labelled `item`
      counts one more, or a new child is created, linked after the last
      node of its item and recorded in the header table. */
  method InsertItem(ns: Nodes, ghost ks: seq<seq<nat>>, ghost idx: map<seq<Item>, nat>,
                    ht: map<HeaderKey, HeadTail>, counter: map<Item, int>,
                    ghost done: TransactionDB, ghost cur: seq<Item>, curr: nat, item: Item)
    returns (ns': Nodes, ghost ks': seq<seq<nat>>, ghost idx': map<seq<Item>, nat>,
             ht': map<HeaderKey, HeadTail>, counter': map<Item, int>, node: nat)
    requires Building(ns, idx, ht, counter, done, cur, curr) && Shape(ns, ks)
    ensures Building(ns', idx', ht', counter', done, cur + [item], node) && Shape(ns', ks')
    ensures forall i :: KeyOf(counter', i) == KeyOf(counter, i)
    ensures ht.Keys <= ht'.Keys
    ensures item in counter && KeyOf(counter, item) in ht ==> counter' == counter && ht'.Keys == ht.Keys
  {
    var ms, ok;
    ms, node, ok := AddItemToChild(ns, ks, curr, item);
    if ok {
      HeaderEntry(ns, counter, ht, item);
      ns', ht', counter' := NewChild(ns, ks, ht, counter, curr, item, ms);
      var key := KeyOf(counter, item);
      if key in ht {
        SameKeys(ht, key, ht'[key]);
      }
      ks' := ks[curr := ks[curr] + [node]] + [[]];
      idx' := idx[cur + [item] := node];
      NoChildNoNode(ns, ks, idx, cur, item, curr);
      CreatedShape(ns, ks, curr, item);
      BuildingNew(ns, ks, idx, ht, counter, counter', done, cur, item, curr, ns', ht');
    } else {
      BumpShape(ns, ks, node);
      BuildingBump(ns, ks, idx, ht, counter, done, cur, item, curr, node);
      ns', ks', idx', ht', counter' := ms, ks, idx, ht, counter;
    }
  }

  /** The branch of `construct_fp_tree` where `curr` has no child labelled
      `item`: `get_key`, then the new node that `ms` ends with is appended
      to its item's cross-link chain and header entry. */
  method NewChild(ns: Nodes, ghost ks: seq<seq<nat>>, ht: map<HeaderKey, HeadTail>, counter: map<Item, int>,
                  curr: nat, item: Item, ms: Nodes)
    returns (ns': Nodes, ht': map<HeaderKey, HeadTail>, counter': map<Item, int>)
    requires 1 <= |ns| && curr < |ns| && curr < |ks| && forall i :: 0 <= i < |ks[curr]| ==> ks[curr][i] < |ns|
    requires ms == Relink(ns, ks[curr], curr, |ns|) + [NewNode(item, curr)]
    requires var key := KeyOf(counter, item);
      (if key in ht then ht[key] else HeadTail(NIL, NIL)) == HeadTail(NextWith(ns, item, 1), LastWith(ns, item, |ns|))
    ensures ns' == Created(ns, ks, curr, item)
    ensures ht' == ht[KeyOf(counter, item) := Appended(ht, KeyOf(counter, item), |ns|)]
    ensures counter' == WithDefault(counter, item)
  {
    var key;
    key, counter' := LookupKey(counter, item);
    ChainEmptyBoth(ns, item);
    var entry := if key in ht then ht[key] else HeadTail(NIL, NIL);
    var e;
    ns', e := AppendToChain(ms, entry, |ns|);
    SpliceIsCreated(ns, ks, curr, item, ms, entry.tail, ns');
    ht' := ht[key := e];
  }

  /** The inner loop of `construct_fp_tree`: one transaction inserted from
      the root, item by item. */
  method InsertTransaction(ns: Nodes, ghost ks: seq<seq<nat>>, ghost idx: map<seq<Item>, nat>,
                           ht: map<HeaderKey, HeadTail>, counter: map<Item, int>,
                           ghost done: TransactionDB, transaction: seq<Item>)
    returns (ns': Nodes, ghost ks': seq<seq<nat>>, ghost idx': map<seq<Item>, nat>,
             ht': map<HeaderKey, HeadTail>, counter': map<Item, int>)
    requires Building(ns, idx, ht, counter, done, [], 0) && Shape(ns, ks)
    ensures Building(ns', idx', ht', counter', done + [transaction], [], 0) && Shape(ns', ks')
    ensures forall i :: KeyOf(counter', i) == KeyOf(counter, i)
    ensures ht.Keys <= ht'.Keys
    ensures Keyed(transaction, counter, ht) ==> counter' == counter && ht'.Keys == ht.Keys
  {
    ns', ks', idx', ht', counter' := ns, ks, idx, ht, counter;
    ghost var keyed := Keyed(transaction, counter, ht);
    var curr: nat := 0;
    var j := 0;
    while j < |transaction|
      invariant 0 <= j <= |transaction|
      invariant Building(ns', idx', ht', counter', done, transaction[..j], curr) && Shape(ns', ks')
      invariant forall i :: KeyOf(counter', i) == KeyOf(counter, i)
      invariant ht.Keys <= ht'.Keys
      invariant keyed ==> counter' == counter && ht'.Keys == ht.Keys
    {
      TakeSnoc(transaction, j);
      ns', ks', idx', ht', counter', curr := InsertItem(ns', ks', idx', ht', counter', done, transaction[..j], curr, transaction[j]);
      j := j + 1;
    }
    TakeAll(transaction);
    BuildingFinish(ns', idx', ht', counter', done, transaction[..j], transaction, curr);
  }

  /** The loops of `construct_fp_tree` over a header table of empty
      entries: every transaction inserted from the root. */
  method BuildTree(db: TransactionDB, ht0: map<HeaderKey, HeadTail>, counter0: map<Item, int>)
    returns (ns: Nodes, ghost ks: seq<seq<nat>>, ghost idx: map<seq<Item>, nat>,
             ht: map<HeaderKey, HeadTail>, counter: map<Item, int>)
    requires KeysMatch(counter0, ht0) && forall k :: k in ht0 ==> ht0[k] == HeadTail(NIL, NIL)
    ensures Inserted(ns, idx, db, []) && Shape(ns, ks)
    ensures CrossLinked(ns) && HeaderOK(ns, ht) && KeysMatch(counter, ht) && LabelsKeyed(ns, counter, ht)
    ensures forall i :: KeyOf(counter, i) == KeyOf(counter0, i)
    ensures ht0.Keys <= ht.Keys
    ensures AllKeyed(db, counter0, ht0) ==> counter == counter0 && ht.Keys == ht0.Keys
  {
    ns, ks, idx, ht, counter := [RootNode()], [[]], map[], ht0, counter0;
    BuildingStart(ht, counter);
    ghost var keyed := AllKeyed(db, counter0, ht0);
    var t := 0;
    while t < |db|
      invariant 0 <= t <= |db|
      invariant Building(ns, idx, ht, counter, db[..t], [], 0) && Shape(ns, ks)
      invariant forall i :: KeyOf(counter, i) == KeyOf(counter0, i)
      invariant ht0.Keys <= ht.Keys
      invariant keyed ==> counter == counter0 && ht.Keys == ht0.Keys
    {
      if keyed {
        assert Keyed(db[t], counter, ht);
      }
      TakeSnoc(db, t);
      ns, ks, idx, ht, counter := InsertTransaction(ns, ks, idx, ht, counter, db[..t], db[t]);
      t := t + 1;
    }
    TakeAll(db);
  }

  // ---------------------------------------------------------------------
  // find_all_pattern_paths
  // ---------------------------------------------------------------------

  /** `header_table[get_key(x)]`: reading an absent entry inserts
      (`nullptr`, `nullptr`). The table stays consistent with the tree,
      because an item without an entry has no node. */
  lemma HeaderDefault(ns: Nodes, counter: map<Item, int>, counter': map<Item, int>,
                      ht: map<HeaderKey, HeadTail>, x: Item)
    requires HeaderOK(ns, ht) && KeysMatch(counter, ht) && LabelsKeyed(ns, counter, ht)
    requires forall i :: KeyOf(counter', i) == KeyOf(counter, i)
    ensures var key := KeyOf(counter, x);
      var ht' := if key in ht then ht else ht[key := HeadTail(NIL, NIL)];
      HeaderOK(ns, ht') && KeysMatch(counter', ht') && LabelsKeyed(ns, counter', ht') &&
      ht'[key] == HeadTail(NextWith(ns, x, 1), LastWith(ns, x, |ns|))
  {
    HeaderEntry(ns, counter, ht, x);
  }

  /** The inner loop of `find_all_pattern_paths`: the items from `leaf` up
      to the root (excluded). */
  method LabelSet(ns: Nodes, leaf: nat) returns (pat: Pattern)
    requires ParentsBefore(ns) && leaf < |ns|
    ensures pat == ItemSet(PathOf(ns, leaf))
  {
    pat := {};
    var curr: nat := leaf;
    while curr != 0
      invariant curr < |ns|
      invariant pat + ItemSet(PathOf(ns, curr)) == ItemSet(PathOf(ns, leaf))
      decreases curr
    {
      ItemSetSnoc(PathOf(ns, ns[curr].parent), ns[curr].item);
      pat := pat + {ns[curr].item};
      curr := ns[curr].parent;
    }
  }

  lemma ItemSetSnoc(s: seq<Item>, y: Item)
    ensures ItemSet(s + [y]) == ItemSet(s) + {y}
  {
  }

  /** The cross-link walk of `find_all_pattern_paths` has visited the
      nodes `visited` of `x`'s chain, collecting `paths` from them, and
      stands at `leaf`, the first node labelled `x` from `from` on. */
  ghost predicate Walked(ns: Nodes, x: Item, from: nat, leaf: int, visited: seq<nat>, paths: FrequentPatterns)
    requires ParentsBefore(ns)
  {
    1 <= from && leaf == NextWith(ns, x, from) &&
    visited + ChainFrom(ns, x, from) == ChainFrom(ns, x, 1) && InArena(ns, visited) &&
    paths == PatternPaths(ns, visited)
  }

  /** The walk stands on a node while the chain goes on. */
  lemma WalkedLeaf(ns: Nodes, x: Item, from: nat, leaf: int, visited: seq<nat>, paths: FrequentPatterns)
    requires ParentsBefore(ns) && Walked(ns, x, from, leaf, visited, paths) && leaf != NIL
    ensures from <= leaf < |ns|
  {
  }

  /** One step along `cross_link`: the node `leaf`, whose root path has
      the label set `pat`, adds its count to `paths`; the walk goes on
      from `leaf + 1` at `leaf`'s `cross_link`. */
  lemma WalkStep(ns: Nodes, x: Item, from: nat, leaf: int, visited: seq<nat>, paths: FrequentPatterns, pat: Pattern,
                 from': nat, leaf': int, visited': seq<nat>, paths': FrequentPatterns)
    requires ParentsBefore(ns) && CrossLinked(ns) && Walked(ns, x, from, leaf, visited, paths)
    requires 0 <= leaf < |ns| && pat == ItemSet(PathOf(ns, leaf))
    requires from' == leaf + 1 && leaf' == ns[leaf].crossLink && visited' == visited + [leaf]
    requires paths' == AddWeight(paths, pat, ns[leaf].count)
    ensures Walked(ns, x, from', leaf', visited', paths')
  {
    ChainStep(ns, x, from, leaf);
    ShiftOne(visited, leaf, ChainFrom(ns, x, leaf + 1));
    assert visited'[..|visited|] == visited;
  }

  /** At the end of the chain every node of `x` has been visited. */
  lemma WalkEnd(ns: Nodes, x: Item, from: nat, visited: seq<nat>, paths: FrequentPatterns)
    requires ParentsBefore(ns) && Walked(ns, x, from, NIL, visited, paths)
    ensures paths == PathsOf(ns, x)
  {
    ChainEnd(ns, x, from);
    assert visited == ChainFrom(ns, x, 1);
  }

  /** The outer loop of `find_all_pattern_paths`: follows the cross links
      from `head`, adding each node's count to the label set of its root
      path. */
  method CollectPaths(ns: Nodes, x: Item, head: int) returns (paths: FrequentPatterns)
    requires ParentsBefore(ns) && CrossLinked(ns) && head == NextWith(ns, x, 1)
    ensures paths == PathsOf(ns, x)
  {
    paths := map[];
    var leaf := head;
    ghost var visited: seq<nat> := [];
    ghost var from: nat := 1;
    while leaf != NIL
      invariant Walked(ns, x, from, leaf, visited, paths)
      decreases |ns| - from
    {
      WalkedLeaf(ns, x, from, leaf, visited, paths);
      var pat := LabelSet(ns, leaf);
      ghost var from0, leaf0, visited0, paths0 := from, leaf, visited, paths;
      paths := AddWeight(paths, pat, ns[leaf].count);
      visited := visited + [leaf];
      from := leaf + 1;
      leaf := ns[leaf].crossLink;
      WalkStep(ns, x, from0, leaf0, visited0, paths0, pat, from, leaf, visited, paths);
    }
    WalkEnd(ns, x, from, visited, paths);
  }

  /** Every pattern `mine_all` has collected meets the threshold and holds
      an item of the thread's stride. */
  ghost predicate MinedByThread(result: FrequentPatterns, items: seq<Item>, tId: nat, tCount: nat, minSupportCount: real)
    requires tCount >= 1
  {
    forall q :: q in result ==>
      MeetsSupport(result[q], minSupportCount) &&
      exists j :: 0 <= j < |items| && Assigned(tId, tCount, j) && items[j] in q
  }

  /** `result.merge(mine(items[i]))` keeps that property, and the
      thread's next index is its own again. */
  lemma MergeMined(result: FrequentPatterns, fp: FrequentPatterns, items: seq<Item>, tId: nat, tCount: nat, i: nat,
                   minSupportCount: real, result': FrequentPatterns, i': nat)
    requires tCount >= 1 && i < |items| && Assigned(tId, tCount, i)
    requires MinedByThread(result, items, tId, tCount, minSupportCount)
    requires forall q :: q in fp ==> items[i] in q && MeetsSupport(fp[q], minSupportCount)
    requires result' == Merge(result, fp) && i' == i + tCount
    ensures MinedByThread(result', items, tId, tCount, minSupportCount) && Assigned(tId, tCount, i')
  {
    StrideStep(tId, tCount, i);
  }

  /** The results of several `mine` calls merged left to right into an
      empty map. */
  function MergeAll(ms: seq<Mined>): FrequentPatterns
  {
    if ms == [] then map[] else Merge(MergeAll(ms[..|ms| - 1]), ms[|ms| - 1].patterns)
  }

  /** A pattern is in the merged result iff one of the results holds it. */
  lemma {:induction false} MergeAllKeys(ms: seq<Mined>, q: Pattern)
    ensures q in MergeAll(ms) <==> exists j :: 0 <= j < |ms| && q in ms[j].patterns
  {
    if ms != [] {
      var pre := ms[..|ms| - 1];
      MergeAllKeys(pre, q);
      if q in MergeAll(pre) {
        var j :| 0 <= j < |pre| && q in pre[j].patterns;
        assert q in ms[j].patterns;
      }
      if exists j :: 0 <= j < |ms| && q in ms[j].patterns {
        var j :| 0 <= j < |ms| && q in ms[j].patterns;
        if j < |pre| {
          assert q in pre[j].patterns;
        }
      }
    }
  }

  /** A pattern keeps the support of the first result that holds it. */
  lemma {:induction false} MergeAllFirst(ms: seq<Mined>, q: Pattern, j: nat)
    requires j < |ms| && q in ms[j].patterns && forall i :: 0 <= i < j ==> q !in ms[i].patterns
    ensures q in MergeAll(ms) && MergeAll(ms)[q] == ms[j].patterns[q]
  {
    var pre := ms[..|ms| - 1];
    if j < |pre| {
      assert q in pre[j].patterns;
      MergeAllFirst(pre, q, j);
    } else {
      MergeAllKeys(pre, q);
    }
  }

  /** One more `result.merge(...)`. */
  lemma MergeAllSnoc(ms: seq<Mined>, m: Mined)
    ensures MergeAll(ms + [m]) == Merge(MergeAll(ms), m.patterns)
  {
    assert (ms + [m])[..|ms|] == ms;
  }

  /** The transactions a tree built from `tr` holds: the frequent items of
      each transaction, sorted by the counts `order`, without the empty
      transactions. */
  ghost function PreparedOf(tr: TransactionDB, order: map<Item, int>, msc: real): TransactionDB
  {
    SortAll(ExcludeNonFrequent(tr, FrequentOf(CountItems(tr), msc)), order)
  }

  /** One `mine(item)` call of `mine_all`, with what led to its result:
      the conditional base, the conditional tree's nodes and path index,
      and the item's paths in that tree. */
  datatype Mined = Mined(item: Item, base: TransactionDB, treeNodes: Nodes, treeIndex: map<seq<Item>, nat>,
                         paths: FrequentPatterns, patterns: FrequentPatterns)

  /** What `mine(m.item)` returns on the tree `ns` with the threshold
      `msc`: `m.base` is the conditional pattern base of the item's paths in
      `ns`; the conditional tree counts the prepared transactions of
      `m.base`, sorted by `order`; `m.paths` are the item's paths in that
      tree; and `m.patterns` holds exactly the patterns with the item
      covered by one of those paths whose support reaches the threshold,
      each with that support. */
  ghost predicate MinedFrom(ns: Nodes, msc: real, order: map<Item, int>, m: Mined)
    requires ParentsBefore(ns)
  {
    var x, paths := m.item, m.paths;
    ConditionalBaseOf(m.base, PathsOf(ns, x)) &&
    ParentsBefore(m.treeNodes) && Inserted(m.treeNodes, m.treeIndex, PreparedOf(m.base, order, msc), []) &&
    paths == PathsOf(m.treeNodes, x) &&
    (forall q :: q in m.patterns <==>
      x in q && Covering(x, paths, q) != {} && MeetsSupport(SumOver(paths, Covering(x, paths, q)), msc)) &&
    (forall q :: q in m.patterns ==> m.patterns[q] == SumOver(paths, Covering(x, paths, q)))
  }

  /** `MinedFrom` for each of the thread's items mined so far, the last
      one on top of the others (`AllMinedFromAt` reads it item by item). */
  ghost predicate AllMinedFrom(ns: Nodes, msc: real, order: map<Item, int>, items: seq<Item>, mined: seq<Mined>)
    requires ParentsBefore(ns)
    decreases |mined|
  {
    |items| == |mined| &&
    (mined != [] ==>
      AllMinedFrom(ns, msc, order, items[..|items| - 1], mined[..|mined| - 1]) &&
      mined[|mined| - 1].item == items[|items| - 1] && MinedFrom(ns, msc, order, mined[|mined| - 1]))
  }

  /** Every `mined[j]` records `mine(items[j])`. */
  lemma {:induction false} AllMinedFromAt(ns: Nodes, msc: real, order: map<Item, int>, items: seq<Item>,
                                          mined: seq<Mined>, j: nat)
    requires ParentsBefore(ns) && AllMinedFrom(ns, msc, order, items, mined) && j < |mined|
    ensures mined[j].item == items[j] && MinedFrom(ns, msc, order, mined[j])
    decreases |mined|
  {
    if j < |mined| - 1 {
      AllMinedFromAt(ns, msc, order, items[..|items| - 1], mined[..|mined| - 1], j);
    }
  }

  /** One more item mined. */
  lemma AllMinedFromSnoc(ns: Nodes, msc: real, order: map<Item, int>, items: seq<Item>, mined: seq<Mined>, m: Mined)
    requires ParentsBefore(ns) && AllMinedFrom(ns, msc, order, items, mined) && MinedFrom(ns, msc, order, m)
    ensures AllMinedFrom(ns, msc, order, items + [m.item], mined + [m])
  {
    assert (items + [m.item])[..|items|] == items && (mined + [m])[..|mined|] == mined;
  }

  /** The state of `mine_all`'s loop at index `i`: `items` are the
      thread's items before `i`, `mined` their `mine` calls, and `result`
      the merge of their patterns. */
  ghost predicate MineAllProgress(ns: Nodes, msc: real, order: map<Item, int>, freqItems: seq<Item>, tId: nat,
                                  tCount: nat, i: nat, items: seq<Item>, mined: seq<Mined>, result: FrequentPatterns)
    requires ParentsBefore(ns) && tCount >= 1
  {
    Assigned(tId, tCount, i) && StridePrefix(freqItems, tId, tCount, items, i) && AllMinedFrom(ns, msc, order, items, mined) &&
    result == MergeAll(mined) && MinedByThread(result, freqItems, tId, tCount, msc)
  }

  /** One iteration of `mine_all`'s loop, from index `i` to `i'`: `m`
      records `mine(freqItems[i])`. */
  lemma MineAllStep(ns: Nodes, msc: real, order: map<Item, int>, freqItems: seq<Item>, tId: nat, tCount: nat,
                    i: nat, items: seq<Item>, mined: seq<Mined>, result: FrequentPatterns, m: Mined,
                    i': nat, items': seq<Item>, mined': seq<Mined>, result': FrequentPatterns)
    requires ParentsBefore(ns) && tCount >= 1 && i < |freqItems|
    requires MineAllProgress(ns, msc, order, freqItems, tId, tCount, i, items, mined, result)
    requires m.item == freqItems[i] && MinedFrom(ns, msc, order, m)
    requires forall q :: q in m.patterns ==> m.item in q && MeetsSupport(m.patterns[q], msc)
    requires i' == i + tCount && items' == items + [m.item] && mined' == mined + [m]
    requires result' == Merge(result, m.patterns)
    ensures MineAllProgress(ns, msc, order, freqItems, tId, tCount, i', items', mined', result')
  {
    AllMinedFromSnoc(ns, msc, order, items, mined, m);
    StridePrefixSnoc(freqItems, tId, tCount, items, i);
    MergeAllSnoc(mined, m);
    MergeMined(result, m.patterns, freqItems, tId, tCount, i, msc, Merge(result, m.patterns), i + tCount);
  }

  /** `mine`'s results, read off its conditional tree `cfp`, as values,
      for a sort counter with the same keys as `order`. */
  lemma MinedItem(ns: Nodes, msc: real, counter: map<Item, int>, order: map<Item, int>, x: Item,
                  base: TransactionDB, cfp: FPTree, paths: FrequentPatterns, fp: FrequentPatterns)
    requires ParentsBefore(ns) && ConditionalBaseOf(base, PathsOf(ns, x))
    requires cfp.minSupportCount == msc && cfp.TreeOf(base, counter) && paths == PathsOf(cfp.nodes, x)
    requires forall i :: KeyOf(counter, i) == KeyOf(order, i)
    requires forall q :: q in fp <==>
      x in q && Covering(x, paths, q) != {} && MeetsSupport(SumOver(paths, Covering(x, paths, q)), msc)
    requires forall q :: q in fp ==> fp[q] == SumOver(paths, Covering(x, paths, q))
    ensures MinedFrom(ns, msc, order, Mined(x, base, cfp.nodes, cfp.pathIndex, paths, fp))
  {
    SortAllSameKeys(ExcludeNonFrequent(base, cfp.frequentItems), counter, order);
  }

  class FPTree {
    var transactions: TransactionDB
    const minSupport: real
    const minSupportCount: real
    var itemCounter: map<Item, int>
    var frequentItems: set<Item>
    var headerTable: map<HeaderKey, HeadTail>
    /** The tree's nodes; entry 0 is `root`. */
    var nodes: Nodes
    /** The child list of every node, as `left_child` and `right_sibling`
        spell it. */
    ghost var kids: seq<seq<nat>>
    /** The node of every root path. */
    ghost var pathIndex: map<seq<Item>, nat>
    const parent: FPTree?

    /** What mining relies on: parents before children, cross-link chains
        in creation order, header entries at their chains' ends, keyed by
        `get_key`. */
    ghost predicate Valid()
      reads this
    {
      ParentsBefore(nodes) && CrossLinked(nodes) && HeaderOK(nodes, headerTable) &&
      KeysMatch(itemCounter, headerTable) && LabelsKeyed(nodes, itemCounter, headerTable)
    }

    /** The state `build` leaves behind, for the database `tr` and the
        counts `order` the transactions were sorted by. */
    ghost predicate Built(tr: TransactionDB, order: map<Item, int>)
      reads this
    {
      itemCounter == CountItems(tr) &&
      frequentItems == FrequentOf(itemCounter, minSupportCount) &&
      headerTable.Keys == HeaderKeys(itemCounter, frequentItems) &&
      transactions == SortAll(ExcludeNonFrequent(tr, frequentItems), order) &&
      Inserted(nodes, pathIndex, transactions, []) && Shape(nodes, kids) && Valid()
    }

    /** The part of `Built` that mining keeps: the frequent items, the
        prepared transactions and the tree holding them. */
    ghost predicate TreeOf(tr: TransactionDB, order: map<Item, int>)
      reads this
    {
      frequentItems == FrequentOf(CountItems(tr), minSupportCount) &&
      transactions == SortAll(ExcludeNonFrequent(tr, frequentItems), order) &&
      Inserted(nodes, pathIndex, transactions, []) && Valid()
    }

    /** Builds the tree of `tr`; a conditional tree (`p` non-null) sorts
        its transactions by the counts of `p`. */
    constructor (tr: TransactionDB, ms: real, msc: real, p: FPTree?)
      ensures minSupport == ms && minSupportCount == msc && parent == p
      ensures Built(tr, if p == null then CountItems(tr) else p.itemCounter)
    {
      transactions := tr;
      minSupport := ms;
      minSupportCount := msc;
      parent := p;
      itemCounter := map[];
      frequentItems := {};
      headerTable := map[];
      nodes := [];
      kids := [];
      pathIndex := map[];
      new;
      Build();
    }

    method Build()
      requires parent != this && itemCounter == map[] && frequentItems == {} && headerTable == map[]
      modifies this`transactions, this`itemCounter, this`frequentItems, this`headerTable
      modifies this`nodes, this`kids, this`pathIndex
      ensures Built(old(transactions), if parent == null then itemCounter else parent.itemCounter)
    {
      Prepare();
      ConstructFpTree();
    }

    /** The state `build` reaches before `construct_fp_tree`: the counts,
        the frequent items, an empty header entry per frequent item, and
        the transactions filtered and sorted by `order`, every item of
        which has its header entry. */
    ghost predicate Prepared(tr: TransactionDB, order: map<Item, int>)
      reads this
    {
      itemCounter == CountItems(tr) &&
      frequentItems == FrequentOf(itemCounter, minSupportCount) &&
      headerTable.Keys == HeaderKeys(itemCounter, frequentItems) &&
      (forall k :: k in headerTable ==> headerTable[k] == HeadTail(NIL, NIL)) &&
      KeysMatch(itemCounter, headerTable) &&
      transactions == SortAll(ExcludeNonFrequent(tr, frequentItems), order) &&
      AllKeyed(transactions, itemCounter, headerTable)
    }

    /** The first four steps of `build`. */
    method Prepare()
      requires parent != this && itemCounter == map[] && frequentItems == {} && headerTable == map[]
      modifies this`transactions, this`itemCounter, this`frequentItems, this`headerTable
      ensures Prepared(old(transactions), SortCounter())
    {
      ghost var tr := transactions;
      FindFrequentItems();
      BuildHeaderTable();
      ExcludeNonFrequentItems();
      SortTransactionItems();
      EmptyEntriesKeys(headerTable, HeaderKeys(itemCounter, frequentItems));
      SortedExcludedKeyed(tr, itemCounter, frequentItems, SortCounter(), headerTable);
    }

    /** `find_frequent_items`: counts every occurrence of every item, then
        keeps the items whose count reaches `min_support_count`. */
    method FindFrequentItems()
      requires itemCounter == map[] && frequentItems == {}
      modifies this`itemCounter, this`frequentItems
      ensures itemCounter == CountItems(transactions)
      ensures frequentItems == FrequentOf(itemCounter, minSupportCount)
    {
      var t := 0;
      while t < |transactions|
        invariant 0 <= t <= |transactions|
        invariant itemCounter == CountItems(transactions[..t]) && frequentItems == {}
      {
        var transaction := transactions[t];
        CountItemsEmptyScan(transactions[..t]);
        var j := 0;
        while j < |transaction|
          invariant 0 <= j <= |transaction|
          invariant itemCounter == CountItems(transactions[..t] + [transaction[..j]]) && frequentItems == {}
        {
          var item := transaction[j];
          CountItemsSnoc(transactions[..t], transaction[..j], item);
          assert transaction[..j + 1] == transaction[..j] + [item];
          itemCounter := itemCounter[item := (if item in itemCounter then itemCounter[item] else 0) + 1];
          j := j + 1;
        }
        assert transaction[..j] == transaction;
        assert transactions[..t + 1] == transactions[..t] + [transaction];
        t := t + 1;
      }
      assert transactions[..t] == transactions;
      var rest := itemCounter.Keys;
      while rest != {}
        invariant rest <= itemCounter.Keys && itemCounter == CountItems(transactions)
        invariant forall i :: i in frequentItems <==> i in itemCounter && i !in rest && MeetsSupport(itemCounter[i], minSupportCount)
        decreases rest
      {
        ghost var some := SomeItem(rest);
        var item :| item in rest;
        if itemCounter[item] as real >= minSupportCount {
          frequentItems := frequentItems + {item};
        }
        rest := rest - {item};
      }
      assert forall i :: i in frequentItems <==> i in FrequentOf(itemCounter, minSupportCount);
    }

    /** `build_header_table`: an empty entry for every counted frequent
        item. */
    method BuildHeaderTable()
      modifies this`headerTable
      ensures headerTable == old(headerTable) + EmptyEntries(HeaderKeys(itemCounter, frequentItems))
    {
      var rest := itemCounter.Keys;
      ghost var done: set<Item> := {};
      while rest != {}
        invariant rest + done == itemCounter.Keys && rest !! done
        invariant headerTable == old(headerTable) + EmptyEntries(HeaderKeys(itemCounter, frequentItems * done))
        decreases rest
      {
        ghost var some := SomeItem(rest);
        var item :| item in rest;
        HeaderKeysStep(old(headerTable), itemCounter, frequentItems, done, item);
        if IsFrequent(item) {
          headerTable := headerTable[HeaderKey(item, itemCounter[item]) := HeadTail(NIL, NIL)];
        }
        done := done + {item};
        rest := rest - {item};
      }
      assert frequentItems * done == frequentItems * itemCounter.Keys;
      HeaderKeysCounted(itemCounter, frequentItems);
    }

    /** `exclude_non_frequent_items`: drops the non-frequent items from
        every transaction, then the transactions left empty. */
    method ExcludeNonFrequentItems()
      modifies this`transactions
      ensures transactions == ExcludeNonFrequent(old(transactions), frequentItems)
    {
      var k := 0;
      while k < |transactions|
        invariant 0 <= k <= |transactions| == |old(transactions)|
        invariant forall m :: 0 <= m < k ==> transactions[m] == KeepFrequent(old(transactions)[m], frequentItems)
        invariant forall m :: k <= m < |transactions| ==> transactions[m] == old(transactions)[m]
      {
        transactions := transactions[k := KeepFrequent(transactions[k], frequentItems)];
        k := k + 1;
      }
      assert transactions == KeepAllFrequent(old(transactions), frequentItems);
      transactions := DropEmpty(transactions);
    }

    /** The counts `sort_transaction_items` orders by: the parent's in a
        conditional tree. */
    ghost function SortCounter(): map<Item, int>
      reads this, parent
    {
      if parent == null then itemCounter else parent.itemCounter
    }

    /** `sort_transaction_items`: every transaction sorted by descending
        count, ties by ascending item. */
    method SortTransactionItems()
      modifies this`transactions
      ensures transactions == SortAll(old(transactions), SortCounter())
    {
      var order := if parent == null then itemCounter else parent.itemCounter;
      var k := 0;
      while k < |transactions|
        invariant 0 <= k <= |transactions| == |old(transactions)|
        invariant forall m :: 0 <= m < k ==> transactions[m] == SortByFrequency(old(transactions)[m], order)
        invariant forall m :: k <= m < |transactions| ==> transactions[m] == old(transactions)[m]
      {
        transactions := transactions[k := SortByFrequency(transactions[k], order)];
        k := k + 1;
      }
    }

    predicate IsFrequent(x: Item)
      reads this
    {
      x in frequentItems
    }

    /** `get_key`: the pair (`x`, `item_counter[x]`), where reading an
        absent count inserts 0. */
    method GetKey(x: Item) returns (key: HeaderKey)
      modifies this`itemCounter
      ensures key == KeyOf(old(itemCounter), x)
      ensures itemCounter == WithDefault(old(itemCounter), x)
    {
      key, itemCounter := LookupKey(itemCounter, x);
    }

    /** `frequent_than`: the frequency order on the two items' keys. */
    method FrequentThan(a: Item, b: Item) returns (r: bool)
      modifies this`itemCounter
      ensures r == FrequencyLess(KeyOf(old(itemCounter), a), KeyOf(old(itemCounter), b))
      ensures itemCounter == WithDefault(WithDefault(old(itemCounter), a), b)
    {
      var ka := GetKey(a);
      var kb := GetKey(b);
      r := FrequencyLess(ka, kb);
    }

    /** `construct_fp_tree`: inserts every transaction from the root,
        creating or counting one node per item, and appends each created
        node to its item's cross-link chain and header entry. */
    method ConstructFpTree()
      requires KeysMatch(itemCounter, headerTable)
      requires forall k :: k in headerTable ==> headerTable[k] == HeadTail(NIL, NIL)
      modifies this`nodes, this`kids, this`pathIndex, this`headerTable, this`itemCounter
      ensures Inserted(nodes, pathIndex, transactions, []) && Shape(nodes, kids) && Valid()
      ensures forall i :: KeyOf(itemCounter, i) == KeyOf(old(itemCounter), i)
      ensures old(headerTable).Keys <= headerTable.Keys
      ensures AllKeyed(transactions, old(itemCounter), old(headerTable)) ==>
        itemCounter == old(itemCounter) && headerTable.Keys == old(headerTable).Keys
    {
      nodes, kids, pathIndex, headerTable, itemCounter := BuildTree(transactions, headerTable, itemCounter);
    }

    /** `find_all_pattern_paths(x)`: the label sets of the root paths of
        `x`'s nodes with their summed counts. `get_key` and the header
        lookup may insert a count of 0 and an empty entry; neither changes
        a key or the tree. */
    method FindAllPatternPaths(x: Item) returns (paths: FrequentPatterns)
      requires Valid()
      modifies this`itemCounter, this`headerTable
      ensures paths == PathsOf(nodes, x)
      ensures Valid()
      ensures itemCounter == WithDefault(old(itemCounter), x)
      ensures headerTable == TableWithDefault(old(headerTable), KeyOf(old(itemCounter), x))
    {
      ghost var counter := itemCounter;
      var key := GetKey(x);
      HeaderDefault(nodes, counter, itemCounter, headerTable, x);
      if key !in headerTable {
        headerTable := headerTable[key := HeadTail(NIL, NIL)];
      }
      var links := headerTable[key];
      paths := CollectPaths(nodes, x, links.head);
    }

    /** `construct_conditional_fp_tree(x)`: the tree of `x`'s conditional
        pattern base, sorted by this tree's counts. */
    method ConstructConditionalFpTree(x: Item) returns (cfp: FPTree, ghost base: TransactionDB)
      requires Valid()
      modifies this`itemCounter, this`headerTable
      ensures fresh(cfp) && cfp.parent == this
      ensures cfp.minSupport == minSupport && cfp.minSupportCount == minSupportCount
      ensures ConditionalBaseOf(base, PathsOf(nodes, x)) && |base| == SumValues(PathsOf(nodes, x))
      ensures cfp.Built(base, itemCounter)
      ensures Valid()
      ensures itemCounter == WithDefault(old(itemCounter), x)
      ensures headerTable == TableWithDefault(old(headerTable), KeyOf(old(itemCounter), x))
    {
      var paths := FindAllPatternPaths(x);
      var conditionalBase := ConditionalBase(paths);
      cfp := new FPTree(conditionalBase, minSupport, minSupportCount, this);
      base := conditionalBase;
    }

    /** The first two steps of `mine(x)`: the conditional tree of `x`,
        and `x`'s paths in it. */
    method ConditionalPaths(x: Item) returns (cfp: FPTree, ghost base: TransactionDB, paths: FrequentPatterns)
      requires Valid()
      modifies this`itemCounter, this`headerTable
      ensures fresh(cfp) && cfp.parent == this && cfp.minSupportCount == minSupportCount
      ensures ConditionalBaseOf(base, PathsOf(nodes, x))
      ensures cfp.TreeOf(base, itemCounter) && paths == PathsOf(cfp.nodes, x)
      ensures Valid()
      ensures itemCounter == WithDefault(old(itemCounter), x)
      ensures headerTable == TableWithDefault(old(headerTable), KeyOf(old(itemCounter), x))
    {
      cfp, base := ConstructConditionalFpTree(x);
      ghost var counter, table := itemCounter, headerTable;
      paths := cfp.FindAllPatternPaths(x);
      assert itemCounter == counter && headerTable == table;
      assert cfp.TreeOf(base, counter);
    }

    /** `mine(x)`: the frequent patterns of `x`, read off the conditional
        tree's paths of `x`: each pattern holds `x`, its support is the
        summed weight of the paths covering it, and it meets
        `min_support_count`. */
    method Mine(x: Item) returns (fp: FrequentPatterns, ghost cfp: FPTree, ghost base: TransactionDB,
                                  ghost paths: FrequentPatterns)
      requires Valid()
      modifies this`itemCounter, this`headerTable
      ensures fresh(cfp) && cfp.parent == this && cfp.minSupportCount == minSupportCount
      ensures ConditionalBaseOf(base, PathsOf(nodes, x))
      ensures cfp.TreeOf(base, itemCounter) && paths == PathsOf(cfp.nodes, x)
      ensures forall q :: q in fp <==>
        x in q && Covering(x, paths, q) != {} && MeetsSupport(SumOver(paths, Covering(x, paths, q)), minSupportCount)
      ensures forall q :: q in fp ==> fp[q] == SumOver(paths, Covering(x, paths, q))
      ensures forall q :: q in fp ==> x in q && MeetsSupport(fp[q], minSupportCount)
      ensures Valid()
      ensures itemCounter == WithDefault(old(itemCounter), x)
      ensures headerTable == TableWithDefault(old(headerTable), KeyOf(old(itemCounter), x))
    {
      var conditional, cpaths;
      conditional, base, cpaths := ConditionalPaths(x);
      cfp, paths := conditional, cpaths;
      var patterns := ExpandAllCombinations(x, cpaths);
      fp := EraseInfrequentPatterns(patterns, minSupportCount);
      ErasedExpansion(x, cpaths, patterns, fp, minSupportCount);
    }

    /** `mine(x)` as `mine_all` calls it, its results recorded in `m`;
        `order` is the item counter `mine_all` started from. */
    method MineRecord(x: Item, ghost order: map<Item, int>) returns (fp: FrequentPatterns, ghost m: Mined)
      requires Valid() && forall i :: KeyOf(itemCounter, i) == KeyOf(order, i)
      modifies this`itemCounter, this`headerTable
      ensures Valid() && forall i :: KeyOf(itemCounter, i) == KeyOf(order, i)
      ensures m.item == x && m.patterns == fp && MinedFrom(nodes, minSupportCount, order, m)
      ensures forall q :: q in m.patterns ==> m.item in q && MeetsSupport(m.patterns[q], minSupportCount)
      ensures itemCounter == WithDefault(old(itemCounter), x)
      ensures headerTable == TableWithDefault(old(headerTable), KeyOf(order, x))
    {
      ghost var cfp, base, paths;
      fp, cfp, base, paths := Mine(x);
      m := Mined(x, base, cfp.nodes, cfp.pathIndex, paths, fp);
      MinedItem(nodes, minSupportCount, itemCounter, order, x, base, cfp, paths, fp);
    }

    /** `mine_all(t_id, t_count)`: thread `t_id` mines the frequent items
        at indices `t_id`, `t_id + t_count`, ... of their ascending list
        (`items`) and merges the results. `mined[j]` records the
        `mine(items[j])` call; the result is the left-to-right merge of
        their patterns. The lookups of each `mine` call add `items[j]` to
        the counter and an empty entry for its key to the header table, and
        nothing else changes. */
    method MineAll(tId: nat, tCount: nat) returns (result: FrequentPatterns, ghost items: seq<Item>, ghost mined: seq<Mined>)
      requires tCount >= 1 && Valid()
      modifies this`itemCounter, this`headerTable
      ensures Valid()
      ensures forall i :: KeyOf(itemCounter, i) == KeyOf(old(itemCounter), i)
      ensures itemCounter == WithDefaults(old(itemCounter), items)
      ensures headerTable == TableWithDefaults(old(headerTable), old(itemCounter), items)
      ensures StrideDone(Elems(frequentItems), tId, tCount, items)
      ensures AllMinedFrom(nodes, minSupportCount, old(itemCounter), items, mined)
      ensures result == MergeAll(mined)
      ensures MinedByThread(result, Elems(frequentItems), tId, tCount, minSupportCount)
    {
      result := map[];
      items, mined := [], [];
      var freqItems := Elems(frequentItems);
      var i := tId;
      ghost var ns, order, table := nodes, itemCounter, headerTable;
      while i < |freqItems|
        invariant Valid() && nodes == ns
        invariant forall k :: KeyOf(itemCounter, k) == KeyOf(order, k)
        invariant itemCounter == WithDefaults(order, items)
        invariant headerTable == TableWithDefaults(table, order, items)
        invariant MineAllProgress(ns, minSupportCount, order, freqItems, tId, tCount, i, items, mined, result)
        decreases |freqItems| - i
      {
        var fp, m := MineRecord(freqItems[i], order);
        ghost var i0, items0, mined0, result0 := i, items, mined, result;
        result := Merge(result, fp);
        items, mined := items + [freqItems[i]], mined + [m];
        i := i + tCount;
        MineAllStep(ns, minSupportCount, order, freqItems, tId, tCount, i0, items0, mined0, result0, m,
                    i, items, mined, result);
        WithDefaultsSnoc(order, items0, m.item);
        TableWithDefaultsSnoc(table, order, items0, m.item);
      }
      StridePrefixDone(freqItems, tId, tCount, items, i);
    }
  }
}
