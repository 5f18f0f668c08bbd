/** How `mine_all` shares the frequent items among worker threads: thread
    `t_id` of `t_count` takes the indices `t_id`, `t_id + t_count`,
    `t_id + 2 * t_count`, ... of the ascending item list. */
module Scheduling {

  /** Index `i` is one that thread `tId` of `tCount` visits: `tId` itself,
      or a visited index plus `tCount`. */
  ghost predicate Assigned(tId: nat, tCount: nat, i: nat)
    requires tCount >= 1
    decreases i
  {
    if i == tId then true
    else if i < tId + tCount then false
    else Assigned(tId, tCount, i - tCount)
  }

  /** `done` holds the elements of `s` that the loop of `mine_all` has
      visited before reaching index `i`: those at `tId`, `tId + tCount`,
      ..., in order, and `i` is the next index on the stride. */
  ghost predicate StridePrefix<T>(s: seq<T>, tId: nat, tCount: nat, done: seq<T>, i: nat)
  {
    i == tId + |done| * tCount &&
    forall j :: 0 <= j < |done| ==> tId + j * tCount < |s| && done[j] == s[tId + j * tCount]
  }

  /** Visiting index `i` and moving on by `tCount`. */
  lemma StridePrefixSnoc<T>(s: seq<T>, tId: nat, tCount: nat, done: seq<T>, i: nat)
    requires StridePrefix(s, tId, tCount, done, i) && i < |s|
    ensures StridePrefix(s, tId, tCount, done + [s[i]], i + tCount)
  {
    assert tId + (|done| + 1) * tCount == i + tCount;
  }

  /** The loop of `mine_all` has run off the end of `s`: `done` holds the
      elements at `tId`, `tId + tCount`, ... up to the end of `s`. */
  ghost predicate StrideDone<T>(s: seq<T>, tId: nat, tCount: nat, done: seq<T>)
  {
    StridePrefix(s, tId, tCount, done, tId + |done| * tCount) && tId + |done| * tCount >= |s|
  }

  /** The loop's exit. */
  lemma StridePrefixDone<T>(s: seq<T>, tId: nat, tCount: nat, done: seq<T>, i: nat)
    requires StridePrefix(s, tId, tCount, done, i) && i >= |s|
    ensures StrideDone(s, tId, tCount, done)
  {
  }

  /** A finished stride holds the element at every index of `s` that the
      thread visits, at its position `j` on the stride. */
  lemma {:induction false} StrideDoneCovers<T>(s: seq<T>, tId: nat, tCount: nat, done: seq<T>, k: nat) returns (j: nat)
    requires tCount >= 1 && StrideDone(s, tId, tCount, done) && k < |s| && Assigned(tId, tCount, k)
    ensures j < |done| && tId + j * tCount == k && done[j] == s[k]
    decreases k
  {
    if k == tId {
      j := 0;
      assert |done| != 0;
    } else {
      var j' := StrideDoneCovers(s, tId, tCount, done, k - tCount);
      j := j' + 1;
      assert tId + j * tCount == k;
      assert j * tCount < |done| * tCount;
    }
  }

  /** Moving on by `t_count` stays on the thread's stride. */
  lemma StrideStep(tId: nat, tCount: nat, i: nat)
    requires tCount >= 1 && Assigned(tId, tCount, i)
    ensures Assigned(tId, tCount, i + tCount)
  {
  }

  /** Every visited index is at least `t_id`. */
  lemma {:induction false} AssignedFrom(tId: nat, tCount: nat, i: nat)
    requires tCount >= 1 && Assigned(tId, tCount, i)
    ensures tId <= i
    decreases i
  {
    if i != tId {
      AssignedFrom(tId, tCount, i - tCount);
    }
  }

  /** The threads `0 .. t_count - 1` cover the indices: some thread
      visits index `i`. */
  lemma {:induction false} OwnerExists(tCount: nat, i: nat) returns (tId: nat)
    requires tCount >= 1
    ensures tId < tCount && Assigned(tId, tCount, i)
    decreases i
  {
    if i < tCount {
      tId := i;
    } else {
      tId := OwnerExists(tCount, i - tCount);
      AssignedFrom(tId, tCount, i - tCount);
    }
  }

  /** ... and no index is visited by two of them. */
  lemma {:induction false} OwnerUnique(tCount: nat, i: nat, a: nat, b: nat)
    requires tCount >= 1 && a < tCount && b < tCount
    requires Assigned(a, tCount, i) && Assigned(b, tCount, i)
    ensures a == b
    decreases i
  {
    if i != a && i != b {
      OwnerUnique(tCount, i - tCount, a, b);
    }
  }
}
