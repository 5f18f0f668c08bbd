/** Transactions and the transaction database, with the specification
    functions that the preprocessing steps of `FPTree::build` are proved
    against: occurrence counts, the frequent-item filter and the prefix
    counts the FP-tree stores. */
module Transactions {
  import opened Ordering

  type Transaction = seq<Item>
  type TransactionDB = seq<Transaction>

  // ---------------------------------------------------------------------
  // Occurrence counts (find_frequent_items)
  // ---------------------------------------------------------------------

  /** Number of occurrences of `i` across all transactions. */
  function Occurrences(db: TransactionDB, i: Item): nat
  {
    if db == [] then 0 else Occurrences(db[..|db| - 1], i) + multiset(db[|db| - 1])[i]
  }

  /** The items of one transaction. */
  function ItemSet(t: Transaction): (s: set<Item>)
    ensures forall i :: i in s <==> i in t
  {
    set k | 0 <= k < |t| :: t[k]
  }

  /** The items that occur somewhere in the database. */
  function ItemsOf(db: TransactionDB): set<Item>
  {
    if db == [] then {} else ItemsOf(db[..|db| - 1]) + ItemSet(db[|db| - 1])
  }

  /** An item occurs in the database exactly when its count is positive. */
  lemma {:induction false} ItemsOfIffOccurs(db: TransactionDB, i: Item)
    ensures i in ItemsOf(db) <==> Occurrences(db, i) > 0
  {
    if db != [] {
      ItemsOfIffOccurs(db[..|db| - 1], i);
      assert i in db[|db| - 1] <==> multiset(db[|db| - 1])[i] > 0;
    }
  }

  /** The occurrence count of every item of the database: what
      `item_counter` holds after `find_frequent_items`. */
  function CountItems(db: TransactionDB): (counter: map<Item, int>)
    ensures counter.Keys == ItemsOf(db)
    ensures forall i :: i in counter ==> counter[i] == Occurrences(db, i) && counter[i] > 0
  {
    forall i | i in ItemsOf(db)
      ensures Occurrences(db, i) > 0
    {
      ItemsOfIffOccurs(db, i);
    }
    map i | i in ItemsOf(db) :: Occurrences(db, i)
  }

  /** `++item_counter[y]` after the scan of the current transaction reached
      `s`: the count of `y` rises by one (from an implicit 0 when absent). */
  lemma CountItemsSnoc(db: TransactionDB, s: Transaction, y: Item)
    ensures var before := CountItems(db + [s]);
      CountItems(db + [s + [y]]) == before[y := (if y in before then before[y] else 0) + 1]
  {
    var a, b := db + [s], db + [s + [y]];
    ScanOneMore(db, s, y);
    var before := CountItems(a);
    var after := before[y := (if y in before then before[y] else 0) + 1];
    assert CountItems(b).Keys == after.Keys;
    forall i | i in after
      ensures CountItems(b)[i] == after[i]
    {
      if i == y && y !in before {
        ItemsOfIffOccurs(a, y);
      }
    }
  }

  /** Scanning one more item `y` of the current transaction `s` adds `y`
      to the items and one to its count. */
  lemma ScanOneMore(db: TransactionDB, s: Transaction, y: Item)
    ensures ItemsOf(db + [s + [y]]) == ItemsOf(db + [s]) + {y}
    ensures forall i :: Occurrences(db + [s + [y]], i) == Occurrences(db + [s], i) + (if i == y then 1 else 0)
  {
    var a, b := db + [s], db + [s + [y]];
    assert a[..|db|] == db && b[..|db|] == db;
    assert multiset(s + [y]) == multiset(s) + multiset{y};
    assert ItemSet(s + [y]) == ItemSet(s) + {y};
  }

  /** Starting a transaction (an empty scan so far) changes no count. */
  lemma CountItemsEmptyScan(db: TransactionDB)
    ensures CountItems(db + [[]]) == CountItems(db)
  {
    assert (db + [[]])[..|db|] == db;
    assert ItemsOf(db + [[]]) == ItemsOf(db);
  }

  /** `count >= min_support_count`: inclusive, against the unrounded
      threshold. */
  predicate MeetsSupport(count: int, minSupportCount: real)
  {
    count as real >= minSupportCount
  }

  /** The frequent items of a counter. */
  function FrequentOf(counter: map<Item, int>, minSupportCount: real): (frequent: set<Item>)
    ensures frequent <= counter.Keys
    ensures forall i :: i in frequent <==> i in counter && MeetsSupport(counter[i], minSupportCount)
  {
    set i | i in counter && MeetsSupport(counter[i], minSupportCount)
  }

  /** The frequent items of a database's counts are exactly the items
      occurring in it at least `min_support_count` times. */
  lemma FrequentOfDatabase(db: TransactionDB, minSupportCount: real, i: Item)
    ensures i in FrequentOf(CountItems(db), minSupportCount) <==>
      Occurrences(db, i) > 0 && MeetsSupport(Occurrences(db, i), minSupportCount)
  {
    ItemsOfIffOccurs(db, i);
  }

  /** Raising the threshold only removes frequent items. */
  lemma FrequentOfAntitone(counter: map<Item, int>, low: real, high: real)
    requires low <= high
    ensures FrequentOf(counter, high) <= FrequentOf(counter, low)
  {
  }

  // ---------------------------------------------------------------------
  // exclude_non_frequent_items
  // ---------------------------------------------------------------------

  /** `remove_if(!is_frequent)` on one transaction: the frequent items, in
      their original order. */
  function KeepFrequent(t: Transaction, frequent: set<Item>): (r: Transaction)
    ensures forall k :: 0 <= k < |r| ==> r[k] in frequent
  {
    if t == [] then []
    else (if t[0] in frequent then [t[0]] else []) + KeepFrequent(t[1..], frequent)
  }

  /** The filter keeps every occurrence of a frequent item and no other. */
  lemma {:induction false} KeepFrequentCounts(t: Transaction, frequent: set<Item>, i: Item)
    ensures multiset(KeepFrequent(t, frequent))[i] == if i in frequent then multiset(t)[i] else 0
  {
    if t != [] {
      assert t == [t[0]] + t[1..];
      KeepFrequentCounts(t[1..], frequent, i);
    }
  }

  /** The filter keeps relative order: filtering a concatenation filters
      each part in place. */
  lemma {:induction false} KeepFrequentAppend(a: Transaction, b: Transaction, frequent: set<Item>)
    ensures KeepFrequent(a + b, frequent) == KeepFrequent(a, frequent) + KeepFrequent(b, frequent)
  {
    if a != [] {
      assert (a + b)[0] == a[0];
      assert (a + b)[1..] == a[1..] + b;
      var head := if a[0] in frequent then [a[0]] else [];
      assert KeepFrequent(a + b, frequent) == head + KeepFrequent(a[1..] + b, frequent);
      KeepFrequentAppend(a[1..], b, frequent);
      assert KeepFrequent(a, frequent) == head + KeepFrequent(a[1..], frequent);
    } else {
      assert a + b == b;
    }
  }

  /** `remove_if(t.empty())` on the database: the non-empty transactions,
      in their original order. */
  function DropEmpty(db: TransactionDB): (r: TransactionDB)
    ensures forall k :: 0 <= k < |r| ==> r[k] != []
  {
    if db == [] then []
    else (if db[0] != [] then [db[0]] else []) + DropEmpty(db[1..])
  }

  /** Dropping keeps every non-empty transaction, as often as it occurred. */
  lemma {:induction false} DropEmptyCounts(db: TransactionDB, t: Transaction)
    ensures multiset(DropEmpty(db))[t] == if t == [] then 0 else multiset(db)[t]
  {
    if db != [] {
      assert db == [db[0]] + db[1..];
      DropEmptyCounts(db[1..], t);
    }
  }

  /** Dropping empty transactions keeps relative order. */
  lemma {:induction false} DropEmptyAppend(a: TransactionDB, b: TransactionDB)
    ensures DropEmpty(a + b) == DropEmpty(a) + DropEmpty(b)
  {
    if a != [] {
      assert (a + b)[1..] == a[1..] + b;
      DropEmptyAppend(a[1..], b);
    } else {
      assert a + b == b;
    }
  }

  /** The per-transaction filter applied to every transaction. */
  function KeepAllFrequent(db: TransactionDB, frequent: set<Item>): (r: TransactionDB)
    ensures |r| == |db|
  {
    seq(|db|, k requires 0 <= k < |db| => KeepFrequent(db[k], frequent))
  }

  /** The database after `exclude_non_frequent_items`. */
  function ExcludeNonFrequent(db: TransactionDB, frequent: set<Item>): TransactionDB
  {
    DropEmpty(KeepAllFrequent(db, frequent))
  }

  /** After the exclusion every transaction holds only frequent items and
      none is empty. */
  lemma ExcludedIsFrequentAndNonEmpty(db: TransactionDB, frequent: set<Item>)
    ensures forall k :: 0 <= k < |ExcludeNonFrequent(db, frequent)| ==>
      ExcludeNonFrequent(db, frequent)[k] != [] &&
      forall j :: 0 <= j < |ExcludeNonFrequent(db, frequent)[k]| ==> ExcludeNonFrequent(db, frequent)[k][j] in frequent
  {
    var kept := KeepAllFrequent(db, frequent);
    var r := DropEmpty(kept);
    forall k | 0 <= k < |r|
      ensures forall j :: 0 <= j < |r[k]| ==> r[k][j] in frequent
    {
      assert r[k] in multiset(r);
      DropEmptyCounts(kept, r[k]);
      assert r[k] in multiset(kept);
      var i :| 0 <= i < |kept| && kept[i] == r[k];
    }
  }

  /** `sort_transaction_items`: every transaction sorted by the frequency
      order of `counter`. */
  function SortAll(db: TransactionDB, counter: map<Item, int>): (r: TransactionDB)
    ensures |r| == |db|
    ensures forall k :: 0 <= k < |r| ==> SortedByFrequency(r[k], counter) && multiset(r[k]) == multiset(db[k])
  {
    seq(|db|, k requires 0 <= k < |db| => SortByFrequency(db[k], counter))
  }

  /** Counters giving every item the same key sort the database alike. */
  lemma SortAllSameKeys(db: TransactionDB, counter: map<Item, int>, counter': map<Item, int>)
    requires forall i :: KeyOf(counter, i) == KeyOf(counter', i)
    ensures SortAll(db, counter) == SortAll(db, counter')
  {
    forall k | 0 <= k < |db|
      ensures SortAll(db, counter)[k] == SortAll(db, counter')[k]
    {
      SortSameKeys(db[k], counter, counter');
    }
  }

  /** One more element of a scan. */
  lemma TakeSnoc<T>(s: seq<T>, j: nat)
    requires j < |s|
    ensures s[..j + 1] == s[..j] + [s[j]]
  {
  }

  /** Moving one element from the rest of a scan to the part done. */
  lemma ShiftOne<T>(done: seq<T>, x: T, rest: seq<T>)
    ensures done + ([x] + rest) == (done + [x]) + rest
  {
  }

  /** A finished scan. */
  lemma TakeAll<T>(s: seq<T>)
    ensures s[..|s|] == s
  {
  }

  // ---------------------------------------------------------------------
  // Prefix counts (what an FP-tree node stores)
  // ---------------------------------------------------------------------

  predicate IsPrefix(p: seq<Item>, t: seq<Item>)
  {
    |p| <= |t| && t[..|p|] == p
  }

  /** Number of transactions that begin with `p`. */
  function PrefixCount(db: TransactionDB, p: seq<Item>): nat
  {
    if db == [] then 0 else PrefixCount(db[..|db| - 1], p) + (if IsPrefix(p, db[|db| - 1]) then 1 else 0)
  }

  /** A positive prefix count has a transaction that witnesses it. */
  lemma {:induction false} PrefixCountWitness(db: TransactionDB, p: seq<Item>) returns (i: nat)
    requires PrefixCount(db, p) > 0
    ensures i < |db| && IsPrefix(p, db[i])
  {
    if IsPrefix(p, db[|db| - 1]) {
      i := |db| - 1;
    } else {
      i := PrefixCountWitness(db[..|db| - 1], p);
    }
  }

  /** A prefix count is at most the number of transactions, and the empty
      prefix is shared by all of them. */
  lemma {:induction false} PrefixCountBounds(db: TransactionDB, p: seq<Item>)
    ensures PrefixCount(db, p) <= |db|
    ensures PrefixCount(db, []) == |db|
  {
    if db != [] {
      PrefixCountBounds(db[..|db| - 1], p);
    }
  }

  /** Extending a prefix can only lower its count. */
  lemma {:induction false} PrefixCountAntitone(db: TransactionDB, p: seq<Item>, q: seq<Item>)
    requires IsPrefix(p, q)
    ensures PrefixCount(db, q) <= PrefixCount(db, p)
  {
    if db != [] {
      PrefixCountAntitone(db[..|db| - 1], p, q);
      var t := db[|db| - 1];
      if IsPrefix(q, t) {
        assert t[..|p|] == q[..|p|];
      }
    }
  }
}
