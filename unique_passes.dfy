/** The merge passes Unique::merge asks of merge_many_buff and merge_index
    (both outside sql/uniques.cc): runs are merged in groups of MERGEBUFF
    until fewer than MERGEBUFF2 + 1 remain, and the final merge writes the
    surviving keys. The grouping is the one get_merge_many_buffs_cost
    simulates; only the contract of the merge itself is modelled. */
module UniquePasses {
  import opened Common
  import opened UniqueRuns

  /** Merge fan-in and the run count below which no pass is needed
      (defined in sql_sort.h, outside the modelled files). */
  const MERGEBUFF: nat := 7
  const MERGEBUFF2: nat := 15

  /** The run merge_buffers writes for the runs it is given: their distinct
      keys in order, with the summed counters in counting mode. */
  function MergeRuns(grp: seq<seq<Record>>, wc: bool): seq<Record>
  {
    Encode(Merged(grp, wc), wc)
  }

  /** One merge_many_buff pass over the remaining buffers: groups of MERGEBUFF
      while more than MERGEBUFF*3/2 buffers remain after the group's first,
      then one group with all the rest. */
  function PassFrom(runs: seq<seq<Record>>, wc: bool): (r: seq<seq<Record>>)
    requires |runs| >= 1
    ensures |r| >= 1 && MERGEBUFF * (|r| - 1) <= |runs| - 1
    decreases |runs|
  {
    if |runs| - 1 >= MERGEBUFF * 3 / 2 then
      [MergeRuns(runs[..MERGEBUFF], wc)] + PassFrom(runs[MERGEBUFF..], wc)
    else [MergeRuns(runs, wc)]
  }

  /** merge_many_buff: passes while maxbuffer (the index of the last buffer)
      is at least MERGEBUFF2. */
  function ManyBuff(runs: seq<seq<Record>>, wc: bool): (r: seq<seq<Record>>)
    ensures |runs| >= 1 ==> 1 <= |r| <= MERGEBUFF2
    ensures |runs| <= MERGEBUFF2 ==> r == runs
    decreases |runs|
  {
    if |runs| >= 1 && |runs| - 1 >= MERGEBUFF2 then
      ManyBuff(PassFrom(runs, wc), wc)
    else runs
  }

  lemma {:induction false} OccursConcat(a: seq<seq<Record>>, b: seq<seq<Record>>, k: Key, wc: bool)
    ensures Occurs(a + b, k, wc) == Occurs(a, k, wc) + Occurs(b, k, wc)
  {
    if a != [] {
      assert (a + b)[1..] == a[1..] + b;
      OccursConcat(a[1..], b, k, wc);
    } else {
      assert a + b == b;
    }
  }

  /** A sorted listing written as a run holds each of its keys once, with its count. */
  lemma {:induction false} RunCountEncode(s: seq<Element>, m: map<Key, nat>, wc: bool, k: Key)
    requires SortedElems(s)
    requires forall i :: 0 <= i < |s| ==> s[i].key in m && s[i].count == m[s[i].key]
    ensures RunCount(Encode(s, wc), k, false) == (if k in ElemKeys(s) then 1 else 0)
    ensures wc ==> RunCount(Encode(s, wc), k, true) == (if k in ElemKeys(s) then m[k] else 0)
  {
    if s != [] {
      var tail := s[1..];
      assert s == [s[0]] + tail;
      ElemKeysCons(s[0], tail);
      EncodeCons(s, wc);
      assert SortedElems(tail);
      RunCountEncode(tail, m, wc, k);
      if k == s[0].key {
        SortedHeadAbsent(s);
      }
    }
  }

  /** The encoding of a non-empty listing starts with its head's record. */
  lemma EncodeCons(s: seq<Element>, wc: bool)
    requires s != []
    ensures Encode(s, wc)[1..] == Encode(s[1..], wc)
    ensures Encode(s, wc)[0] == Record(s[0].key, if wc then Some(s[0].count) else None)
  {
  }

  /** In a strictly ascending listing the head key does not recur. */
  lemma SortedHeadAbsent(s: seq<Element>)
    requires SortedElems(s) && s != []
    ensures s[0].key !in ElemKeys(s[1..])
  {
    var tail := s[1..];
    forall e | e in tail ensures e.key != s[0].key {
      var i :| 0 <= i < |tail| && tail[i] == e;
      assert s[0].key < s[i + 1].key;
    }
  }

  /** A merged group holds a key exactly when the group does, with the summed count. */
  lemma MergeRunsCount(grp: seq<seq<Record>>, wc: bool, k: Key)
    ensures RunCount(MergeRuns(grp, wc), k, false) == (if Present(grp, k) then 1 else 0)
    ensures wc ==> RunCount(MergeRuns(grp, wc), k, true) == Occurs(grp, k, true)
  {
    var m := Summary(grp, wc);
    var s := InOrder(m);
    InOrderSpec(m);
    assert MergeRuns(grp, wc) == Encode(s, wc);
    RunCountEncode(s, m, wc, k);
    AllKeysPresent(grp, k);
    if !Present(grp, k) {
      AbsentOccurs(grp, k, true);
    }
  }

  lemma OccursCons(x: seq<Record>, y: seq<seq<Record>>, k: Key, wc: bool)
    ensures Occurs([x] + y, k, wc) == RunCount(x, k, wc) + Occurs(y, k, wc)
  {
    assert ([x] + y)[1..] == y;
  }

  /** A pass keeps exactly the keys it is given, each with its total count. */
  lemma {:induction false} PassOccurs(runs: seq<seq<Record>>, wc: bool, k: Key)
    requires |runs| >= 1
    ensures Present(PassFrom(runs, wc), k) == Present(runs, k)
    ensures wc ==> Occurs(PassFrom(runs, wc), k, true) == Occurs(runs, k, true)
    decreases |runs|
  {
    if |runs| - 1 >= MERGEBUFF * 3 / 2 {
      var head, rest := runs[..MERGEBUFF], runs[MERGEBUFF..];
      var x, tail := MergeRuns(head, wc), PassFrom(rest, wc);
      assert PassFrom(runs, wc) == [x] + tail;
      MergeRunsCount(head, wc, k);
      PassOccurs(rest, wc, k);
      assert runs == head + rest;
      GroupStep(head, rest, x, tail, wc, k);
    } else {
      var x := MergeRuns(runs, wc);
      MergeRunsCount(runs, wc, k);
      LastGroup(x, k);
    }
  }

  lemma LastGroup(x: seq<Record>, k: Key)
    ensures Occurs([x], k, false) == RunCount(x, k, false)
    ensures Occurs([x], k, true) == RunCount(x, k, true)
  {
    OccursCons(x, [], k, false);
    OccursCons(x, [], k, true);
    assert [x] + [] == [x];
  }

  /** Merging one group into a single run, in front of a tail that keeps the
      remaining runs' keys and totals, keeps the keys and totals of the whole. */
  lemma GroupStep(head: seq<seq<Record>>, rest: seq<seq<Record>>, x: seq<Record>, tail: seq<seq<Record>>, wc: bool, k: Key)
    requires RunCount(x, k, false) == (if Present(head, k) then 1 else 0)
    requires wc ==> RunCount(x, k, true) == Occurs(head, k, true)
    requires Present(tail, k) == Present(rest, k)
    requires wc ==> Occurs(tail, k, true) == Occurs(rest, k, true)
    ensures Present([x] + tail, k) == Present(head + rest, k)
    ensures wc ==> Occurs([x] + tail, k, true) == Occurs(head + rest, k, true)
  {
    OccursCons(x, tail, k, false);
    OccursCons(x, tail, k, true);
    OccursConcat(head, rest, k, false);
    OccursConcat(head, rest, k, true);
  }

  /** A pass keeps every key and, in counting mode, every key's total count. */
  lemma PassSummary(runs: seq<seq<Record>>, wc: bool)
    requires |runs| >= 1
    ensures Summary(PassFrom(runs, wc), wc) == Summary(runs, wc)
  {
    var after := PassFrom(runs, wc);
    forall k ensures Present(after, k) == Present(runs, k) && (wc ==> Occurs(after, k, true) == Occurs(runs, k, true)) {
      PassOccurs(runs, wc, k);
    }
    SameSummary(after, runs, wc);
  }

  /** Two lists of runs holding the same keys with the same totals summarise alike. */
  lemma SameSummary(a: seq<seq<Record>>, b: seq<seq<Record>>, wc: bool)
    requires forall k :: Present(a, k) == Present(b, k) && (wc ==> Occurs(a, k, true) == Occurs(b, k, true))
    ensures Summary(a, wc) == Summary(b, wc)
  {
    forall k ensures (k in AllKeys(a)) == (k in AllKeys(b)) && (k in AllKeys(a) ==> Value(a, k, wc) == Value(b, k, wc)) {
      AllKeysPresent(a, k);
      AllKeysPresent(b, k);
    }
  }

  /** merge_many_buff keeps every key and, in counting mode, every key's total count. */
  lemma {:induction false} ManyBuffSummary(runs: seq<seq<Record>>, wc: bool)
    ensures Summary(ManyBuff(runs, wc), wc) == Summary(runs, wc)
    decreases |runs|
  {
    if |runs| >= 1 && |runs| - 1 >= MERGEBUFF2 {
      var p := PassFrom(runs, wc);
      assert ManyBuff(runs, wc) == ManyBuff(p, wc);
      PassSummary(runs, wc);
      ManyBuffSummary(p, wc);
    }
  }

  /** The run written for a group is sorted, and non-empty when the group's first run is. */
  lemma MergeRunsShape(grp: seq<seq<Record>>, wc: bool)
    requires grp != [] && grp[0] != []
    ensures SortedRun(MergeRuns(grp, wc)) && MergeRuns(grp, wc) != []
  {
    var k := grp[0][0].key;
    InOrderSpec(Summary(grp, wc));
    EncodeSorted(Merged(grp, wc), wc);
    OccursCons(grp[0], grp[1..], k, false);
    assert grp == [grp[0]] + grp[1..];
    AllKeysPresent(grp, k);
  }

  /** Every run a pass writes is sorted and non-empty. */
  lemma {:induction false} PassRunsShape(runs: seq<seq<Record>>, wc: bool)
    requires |runs| >= 1
    requires forall i :: 0 <= i < |runs| ==> runs[i] != []
    ensures forall i :: 0 <= i < |PassFrom(runs, wc)| ==> SortedRun(PassFrom(runs, wc)[i]) && PassFrom(runs, wc)[i] != []
    decreases |runs|
  {
    if |runs| - 1 >= MERGEBUFF * 3 / 2 {
      var head, rest := runs[..MERGEBUFF], runs[MERGEBUFF..];
      var tail := PassFrom(rest, wc);
      assert PassFrom(runs, wc) == [MergeRuns(head, wc)] + tail;
      MergeRunsShape(head, wc);
      PassRunsShape(rest, wc);
      ConsShape(MergeRuns(head, wc), tail);
    } else {
      MergeRunsShape(runs, wc);
    }
  }

  lemma ConsShape(x: seq<Record>, tail: seq<seq<Record>>)
    requires SortedRun(x) && x != []
    requires forall i :: 0 <= i < |tail| ==> SortedRun(tail[i]) && tail[i] != []
    ensures forall i :: 0 <= i < |[x] + tail| ==> SortedRun(([x] + tail)[i]) && ([x] + tail)[i] != []
  {
  }

  lemma {:induction false} ManyBuffShape(runs: seq<seq<Record>>, wc: bool)
    requires forall i :: 0 <= i < |runs| ==> SortedRun(runs[i]) && runs[i] != []
    ensures forall i :: 0 <= i < |ManyBuff(runs, wc)| ==> SortedRun(ManyBuff(runs, wc)[i]) && ManyBuff(runs, wc)[i] != []
    decreases |runs|
  {
    if |runs| >= 1 && |runs| - 1 >= MERGEBUFF2 {
      var p := PassFrom(runs, wc);
      assert ManyBuff(runs, wc) == ManyBuff(p, wc);
      PassRunsShape(runs, wc);
      ManyBuffShape(p, wc);
    }
  }

  /** An element survives the final merge when its count reaches the
      threshold (every element when the threshold is 0). */
  predicate Kept(e: Element, minDuplCount: nat)
  {
    e.count >= minDuplCount
  }

  /** The keys the final merge (merge_index) writes, in order. */
  function KeptKeys(s: seq<Element>, minDuplCount: nat): (r: seq<Key>)
    ensures |r| <= |s|
    ensures minDuplCount == 0 ==> |r| == |s| && forall i :: 0 <= i < |s| ==> r[i] == s[i].key
  {
    if s == [] then []
    else (if Kept(s[0], minDuplCount) then [s[0].key] else []) + KeptKeys(s[1..], minDuplCount)
  }

  /** A key is written by the final merge exactly when it is listed with a count reaching the threshold. */
  lemma {:induction false} KeptKeysMembers(s: seq<Element>, minDuplCount: nat, k: Key)
    ensures k in KeptKeys(s, minDuplCount) <==> exists i :: 0 <= i < |s| && s[i].key == k && Kept(s[i], minDuplCount)
  {
    if s != [] {
      KeptKeysMembers(s[1..], minDuplCount, k);
      if exists i :: 0 <= i < |s[1..]| && s[1..][i].key == k && Kept(s[1..][i], minDuplCount) {
        var i :| 0 <= i < |s[1..]| && s[1..][i].key == k && Kept(s[1..][i], minDuplCount);
        assert s[i + 1] == s[1..][i];
      }
      if exists i :: 0 <= i < |s| && s[i].key == k && Kept(s[i], minDuplCount) {
        var i :| 0 <= i < |s| && s[i].key == k && Kept(s[i], minDuplCount);
        if i > 0 { assert s[1..][i - 1] == s[i]; }
      }
    }
  }
}
