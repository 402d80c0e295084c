/** The Unique object of sql/uniques.cc. Keys are collected in an in-memory
    tree (a map from key to occurrence count); when the tree holds
    max_elements keys it is written to a scratch file as one sorted run and
    a Merge_chunk entry (file_ptrs) records where the run starts. walk()
    and get() report every distinct key once, in ascending order, either
    straight from the tree or by merging the runs. */
module UniqueEngine {
  import opened Common
  import opened UniqueRuns
  import opened UniqueMerge
  import opened UniquePasses
  import opened UniqueCost

  /** One Merge_chunk of file_ptrs: the number of records of a run and the
      byte offset in the scratch file where it starts. */
  datatype Chunk = Chunk(rowcount: nat, filePosition: nat)

  /** How a flush meets the outside world: all writes succeed, the write of
      record number `record` of this flush fails, or appending the
      Merge_chunk to file_ptrs fails after every record was written. */
  datatype Fault = NoFault | WriteFault(record: nat) | LedgerFault

  /** flush() reports an error for this fault and a tree of `treeSize` keys. */
  predicate FlushFails(fault: Fault, treeSize: nat)
  {
    fault.LedgerFault? || (fault.WriteFault? && fault.record < treeSize)
  }

  /** How many records of a flush of `n` keys reach the file. */
  function RecordsWritten(fault: Fault, n: nat): (w: nat)
    ensures w <= n
    ensures w < n <==> fault.WriteFault? && fault.record < n
  {
    if fault.WriteFault? && fault.record < n then fault.record else n
  }

  /** Where merge() meets an error: opening the result file, the
      merge_many_buff passes with the flush and re-read of the runs file,
      or the final merge_index with the flush and re-read of the result
      file. */
  datatype MergeFault = MergeOk | OpenFails | PassesFail | FinalFails

  /** merge() returns 1 for this fault: the final merge, and so its
      failure, is skipped when `withoutLastMerge`. */
  predicate MergeFails(mf: MergeFault, withoutLastMerge: bool)
  {
    mf.OpenFails? || mf.PassesFail? || (mf.FinalFails? && !withoutLastMerge)
  }

  /** The scratch file holding `runs` one after another. */
  function Flatten(runs: seq<seq<Record>>): seq<Record>
  {
    if runs == [] then [] else Flatten(runs[..|runs| - 1]) + runs[|runs| - 1]
  }

  /** The file_ptrs entries flush() records for `runs` written in order:
      each run's length and its byte offset, `fullSize` bytes per record. */
  function Ledger(runs: seq<seq<Record>>, fullSize: nat): seq<Chunk>
  {
    if runs == [] then []
    else
      var init := runs[..|runs| - 1];
      Ledger(init, fullSize) + [Chunk(|runs[|runs| - 1]|, fullSize * |Flatten(init)|)]
  }

  /** The records from index `start` on, `n` of them (nothing when the file is too short). */
  function Slice(file: seq<Record>, start: nat, n: nat): seq<Record>
  {
    if start + n <= |file| then file[start..start + n] else []
  }

  /** The runs merge_many_buff and merge_walk read back: for each chunk,
      the records from its file position on. */
  function ChunkRuns(file: seq<Record>, ptrs: seq<Chunk>, fullSize: nat): (r: seq<seq<Record>>)
    requires fullSize > 0
    ensures |r| == |ptrs|
  {
    seq(|ptrs|, i requires 0 <= i < |ptrs| => Slice(file, ptrs[i].filePosition / fullSize, ptrs[i].rowcount))
  }

  function TreeCount(tree: map<Key, nat>, k: Key): nat
  {
    if k in tree then tree[k] else 0
  }

  /** tree_insert: a new key enters with count 1, a known key's count grows by one. */
  function Insert(tree: map<Key, nat>, key: Key): map<Key, nat>
  {
    tree[key := TreeCount(tree, key) + 1]
  }

  /** Every distinct key stored so far, in the runs or in the tree, with the
      count a merge reports for it: the summed counts in counting mode, 1
      otherwise. */
  ghost function Combined(runs: seq<seq<Record>>, tree: map<Key, nat>, wc: bool): map<Key, nat>
  {
    map k | k in AllKeys(runs) + tree.Keys :: if wc then Occurs(runs, k, true) + TreeCount(tree, k) else 1
  }

  /** The count a key has in the combined contents after one more insertion. */
  function Bump(m: map<Key, nat>, key: Key, wc: bool): nat
  {
    if wc then (if key in m then m[key] else 0) + 1 else 1
  }

  lemma FlattenSnoc(runs: seq<seq<Record>>, r: seq<Record>)
    ensures Flatten(runs + [r]) == Flatten(runs) + r
  {
    assert (runs + [r])[..|runs|] == runs;
  }

  lemma LedgerSnoc(runs: seq<seq<Record>>, r: seq<Record>, fullSize: nat)
    ensures Ledger(runs + [r], fullSize) == Ledger(runs, fullSize) + [Chunk(|r|, fullSize * |Flatten(runs)|)]
  {
    assert (runs + [r])[..|runs|] == runs;
  }

  /** Writing runs one after another: the file of a concatenation is the concatenation of the files. */
  lemma {:induction false} FlattenConcat(a: seq<seq<Record>>, b: seq<seq<Record>>)
    ensures Flatten(a + b) == Flatten(a) + Flatten(b)
    decreases |b|
  {
    if b == [] {
      assert a + b == a;
    } else {
      var init := b[..|b| - 1];
      assert (a + b)[..|a + b| - 1] == a + init;
      FlattenConcat(a, init);
    }
  }

  /** file_ptrs has one chunk per run, with the run's length. */
  lemma {:induction false} LedgerShape(runs: seq<seq<Record>>, fullSize: nat)
    ensures |Ledger(runs, fullSize)| == |runs|
    ensures forall i :: 0 <= i < |runs| ==> Ledger(runs, fullSize)[i].rowcount == |runs[i]|
    decreases |runs|
  {
    if runs != [] {
      LedgerShape(runs[..|runs| - 1], fullSize);
    }
  }

  /** Chunk i starts right after the records of the runs before it. */
  lemma {:induction false} LedgerPosition(runs: seq<seq<Record>>, fullSize: nat, i: nat)
    requires i < |runs|
    ensures |Ledger(runs, fullSize)| == |runs|
    ensures Ledger(runs, fullSize)[i].filePosition == fullSize * |Flatten(runs[..i])|
    decreases |runs|
  {
    var init := runs[..|runs| - 1];
    LedgerShape(runs, fullSize);
    LedgerShape(init, fullSize);
    if i < |runs| - 1 {
      LedgerPosition(init, fullSize, i);
      assert init[..i] == runs[..i];
    } else {
      assert runs[..i] == init;
    }
  }

  /** The file of `runs` is the file of the runs before i, run i, then the file of the rest. */
  lemma FlattenSplit(runs: seq<seq<Record>>, i: nat)
    requires i < |runs|
    ensures Flatten(runs) == Flatten(runs[..i]) + runs[i] + Flatten(runs[i + 1..])
  {
    var a, b := runs[..i + 1], runs[i + 1..];
    assert a + b == runs;
    FlattenConcat(a, b);
    assert a[..|a| - 1] == runs[..i];
    assert a[|a| - 1] == runs[i];
    assert Flatten(a) == Flatten(a[..|a| - 1]) + a[|a| - 1];
  }

  lemma MulDivCancel(a: nat, b: nat)
    requires b > 0
    ensures (b * a) / b == a
  {
    var q := (b * a) / b;
    DivBounds(b * a, b);
    if q < a {
      MulLe(q + 1, a, b);
    } else if q > a {
      MulLe(a + 1, q, b);
    }
  }

  lemma ReadBackAt(runs: seq<seq<Record>>, fullSize: nat, i: nat)
    requires fullSize > 0 && i < |runs|
    ensures |Ledger(runs, fullSize)| == |runs|
    ensures Slice(Flatten(runs), Ledger(runs, fullSize)[i].filePosition / fullSize, Ledger(runs, fullSize)[i].rowcount) == runs[i]
  {
    LedgerShape(runs, fullSize);
    LedgerPosition(runs, fullSize, i);
    var before := Flatten(runs[..i]);
    FlattenSplit(runs, i);
    MulDivCancel(|before|, fullSize);
    var file := Flatten(runs);
    assert file[|before|..|before| + |runs[i]|] == runs[i];
  }

  /** Reading the chunks file_ptrs names gives back exactly the runs that were written. */
  lemma ReadBack(runs: seq<seq<Record>>, fullSize: nat)
    requires fullSize > 0
    ensures ChunkRuns(Flatten(runs), Ledger(runs, fullSize), fullSize) == runs
  {
    LedgerShape(runs, fullSize);
    forall i | 0 <= i < |runs|
      ensures ChunkRuns(Flatten(runs), Ledger(runs, fullSize), fullSize)[i] == runs[i]
    {
      ReadBackAt(runs, fullSize, i);
    }
  }

  /** A file of non-empty runs is empty only when there are no runs. */
  lemma NonEmptyRunsFile(runs: seq<seq<Record>>)
    requires forall i :: 0 <= i < |runs| ==> runs[i] != []
    ensures runs != [] ==> Flatten(runs) != []
  {
    if runs != [] {
      assert |Flatten(runs)| >= |runs[|runs| - 1]|;
    }
  }

  lemma FlattenSingle(x: seq<Record>)
    ensures Flatten([x]) == x
  {
    assert [x][..0] == [];
  }

  /** Runs without records hold no key. */
  lemma {:induction false} EmptyRunsNoKeys(runs: seq<seq<Record>>)
    requires Flatten(runs) == []
    ensures AllKeys(runs) == {}
    ensures forall k :: Occurs(runs, k, true) == 0
    decreases |runs|
  {
    if runs != [] {
      var x, rest := runs[0], runs[1..];
      assert [x] + rest == runs;
      FlattenConcat([x], rest);
      FlattenSingle(x);
      assert x == [] && Flatten(rest) == [];
      EmptyRunsNoKeys(rest);
      assert RunKeys(x) == {};
      forall k ensures Occurs(runs, k, true) == 0 {
        assert Occurs(runs, k, true) == RunCount(x, k, true) + Occurs(rest, k, true);
      }
    }
  }

  /** Nothing stored: no key at all. */
  lemma NothingStored(wc: bool)
    ensures Combined([], map[], wc) == map[]
  {
    var none: seq<seq<Record>> := [];
    assert AllKeys(none) == {};
  }

  lemma OccursSingle(x: seq<Record>, k: Key, wc: bool)
    ensures Occurs([x], k, wc) == RunCount(x, k, wc)
  {
    assert [x][1..] == [];
  }

  /** The run flush() writes holds each key of the tree once, with the tree's count. */
  lemma TreeRunCounts(tree: map<Key, nat>, wc: bool)
    ensures forall k :: RunCount(Encode(InOrder(tree), wc), k, false) == (if k in tree then 1 else 0)
    ensures wc ==> forall k :: RunCount(Encode(InOrder(tree), wc), k, true) == TreeCount(tree, k)
  {
    var s := InOrder(tree);
    InOrderSpec(tree);
    forall k
      ensures RunCount(Encode(s, wc), k, false) == (if k in tree then 1 else 0)
      ensures wc ==> RunCount(Encode(s, wc), k, true) == TreeCount(tree, k)
    {
      RunCountEncode(s, tree, wc, k);
    }
  }

  lemma AppendKey(runs: seq<seq<Record>>, e: seq<Record>, k: Key)
    ensures (k in AllKeys(runs + [e])) == (k in AllKeys(runs) || RunCount(e, k, false) > 0)
    ensures Occurs(runs + [e], k, true) == Occurs(runs, k, true) + RunCount(e, k, true)
  {
    OccursConcat(runs, [e], k, false);
    OccursConcat(runs, [e], k, true);
    OccursSingle(e, k, false);
    OccursSingle(e, k, true);
    AllKeysPresent(runs + [e], k);
    AllKeysPresent(runs, k);
  }

  /** Appending a run that holds exactly the tree's keys with the tree's
      counts keeps every key and every key's count. */
  lemma AppendCombined(runs: seq<seq<Record>>, tree: map<Key, nat>, e: seq<Record>, wc: bool)
    requires forall k :: RunCount(e, k, false) == (if k in tree then 1 else 0)
    requires wc ==> forall k :: RunCount(e, k, true) == TreeCount(tree, k)
    ensures Combined(runs + [e], map[], wc) == Combined(runs, tree, wc)
  {
    var after := runs + [e];
    var m1 := Combined(after, map[], wc);
    var m2 := Combined(runs, tree, wc);
    var keys1, keys2 := AllKeys(after), AllKeys(runs) + tree.Keys;
    forall k
      ensures k in keys1 <==> k in keys2
    {
      AppendKey(runs, e, k);
    }
    forall k
      ensures wc ==> Occurs(after, k, true) == Occurs(runs, k, true) + TreeCount(tree, k)
    {
      AppendKey(runs, e, k);
    }
    assert keys1 == keys2;
    assert m1.Keys == keys1 && m2.Keys == keys2;
    forall k | k in m1
      ensures m1[k] == m2[k]
    {
      assert TreeCount(map[], k) == 0;
    }
  }

  /** Flushing the tree as one more run keeps every key and every key's count. */
  lemma FlushCombined(runs: seq<seq<Record>>, tree: map<Key, nat>, wc: bool)
    ensures Combined(runs + [Encode(InOrder(tree), wc)], map[], wc) == Combined(runs, tree, wc)
  {
    TreeRunCounts(tree, wc);
    AppendCombined(runs, tree, Encode(InOrder(tree), wc), wc);
  }

  /** With nothing left in the tree the combined contents are what a merge of the runs reports. */
  lemma SummaryCombined(runs: seq<seq<Record>>, wc: bool)
    ensures Summary(runs, wc) == Combined(runs, map[], wc)
  {
  }

  /** Inserting a key raises its combined count by one and changes no other key. */
  lemma InsertCombined(runs: seq<seq<Record>>, tree: map<Key, nat>, key: Key, wc: bool)
    ensures Combined(runs, Insert(tree, key), wc) == Combined(runs, tree, wc)[key := Bump(Combined(runs, tree, wc), key, wc)]
  {
    var m := Combined(runs, tree, wc);
    if key !in m {
      AllKeysPresent(runs, key);
      AbsentOccurs(runs, key, true);
    }
  }

  /** Two maps with the same keys are listed with the same keys in the same order. */
  lemma {:induction false} InOrderSameKeys(m1: map<Key, nat>, m2: map<Key, nat>)
    requires m1.Keys == m2.Keys
    ensures |InOrder(m1)| == |InOrder(m2)|
    ensures forall i :: 0 <= i < |InOrder(m1)| ==> InOrder(m1)[i].key == InOrder(m2)[i].key
    decreases |m1|
  {
    assert |m1| == |m1.Keys| && |m2| == |m2.Keys|;
    if |m1| != 0 {
      var k := MinKey(m1.Keys);
      RemoveKey(m1, k);
      RemoveKey(m2, k);
      InOrderSameKeys(m1 - {k}, m2 - {k});
    }
  }

  /** When no run holds a record, the keys get() keeps from the tree are the
      keys it keeps from the combined contents. */
  lemma InMemoryKept(runs: seq<seq<Record>>, tree: map<Key, nat>, wc: bool, minDuplCount: nat)
    requires Flatten(runs) == []
    requires wc == (minDuplCount != 0)
    ensures KeptKeys(InOrder(tree), minDuplCount) == KeptKeys(InOrder(Combined(runs, tree, wc)), minDuplCount)
  {
    var m := Combined(runs, tree, wc);
    EmptyRunsNoKeys(runs);
    assert m.Keys == tree.Keys;
    if wc {
      assert m == tree;
    } else {
      InOrderSameKeys(tree, m);
    }
  }

  /** The keys kept from two listings one after the other. */
  lemma {:induction false} KeptKeysConcat(a: seq<Element>, b: seq<Element>, minDuplCount: nat)
    ensures KeptKeys(a + b, minDuplCount) == KeptKeys(a, minDuplCount) + KeptKeys(b, minDuplCount)
    decreases |a|
  {
    if a == [] {
      assert a + b == b;
    } else {
      var h := if Kept(a[0], minDuplCount) then [a[0].key] else [];
      assert (a + b)[1..] == a[1..] + b;
      assert KeptKeys(a + b, minDuplCount) == h + KeptKeys(a[1..] + b, minDuplCount);
      KeptKeysConcat(a[1..], b, minDuplCount);
      assert KeptKeys(a, minDuplCount) == h + KeptKeys(a[1..], minDuplCount);
      assert h + (KeptKeys(a[1..], minDuplCount) + KeptKeys(b, minDuplCount))
          == (h + KeptKeys(a[1..], minDuplCount)) + KeptKeys(b, minDuplCount);
    }
  }

  lemma KeptKeysSnoc(s: seq<Element>, i: nat, minDuplCount: nat)
    requires i < |s|
    ensures KeptKeys(s[..i + 1], minDuplCount)
         == KeptKeys(s[..i], minDuplCount) + (if Kept(s[i], minDuplCount) then [s[i].key] else [])
  {
    assert s[..i + 1] == s[..i] + [s[i]];
    KeptKeysConcat(s[..i], [s[i]], minDuplCount);
    assert [s[i]][1..] == [];
  }

  /** The buffer size walk() and get() allocate: room for MERGEBUFF2 + 1
      records at least, or max_in_memory_size worth of them plus one. */
  function MergeBufferSize(maxInMemorySize: nat, fullSize: nat): (b: nat)
    requires fullSize > 0
    ensures b >= (MERGEBUFF2 + 1) * fullSize
  {
    var n := if MERGEBUFF2 + 1 >= maxInMemorySize / fullSize + 1 then MERGEBUFF2 + 1 else maxInMemorySize / fullSize + 1;
    MulLe(MERGEBUFF2 + 1, n, fullSize);
    n * fullSize
  }

  /** The merge buffer walk() allocates is never refused by merge_walk:
      either the runs already fit, or merge() first brings them down to at
      most MERGEBUFF2. */
  lemma WalkBufferSuffices(buffSize: nat, fullSize: nat, nRuns: nat)
    requires fullSize > 0 && nRuns >= 1
    requires buffSize >= (MERGEBUFF2 + 1) * fullSize
    requires nRuns <= MERGEBUFF2 || buffSize >= fullSize * (nRuns + 1)
    ensures !MergeSetupFails(buffSize, fullSize, nRuns)
  {
    if nRuns <= MERGEBUFF2 {
      MulLe(nRuns + 1, MERGEBUFF2 + 1, fullSize);
    }
  }

  /** tree_walk with an action that only reads, over the in-order listing
      `s` of the tree: every element in turn until the action asks to stop. */
  method TreeWalk(s: seq<Element>, stop: Element -> bool) returns (aborted: bool, visited: seq<Element>)
    ensures visited == UntilStop(s, stop)
    ensures aborted == Aborts(s, stop)
  {
    visited := [];
    var i := 0;
    while i < |s|
      invariant 0 <= i <= |s|
      invariant visited == s[..i]
      invariant forall j :: 0 <= j < i ==> !stop(s[j])
    {
      assert s[..i + 1] == s[..i] + [s[i]];
      visited := visited + [s[i]];
      if stop(s[i]) {
        UntilStopPrefix(s, visited, stop);
        return true, visited;
      }
      i := i + 1;
    }
    assert s[..i] == s;
    return false, visited;
  }

  /** Every run is sorted and holds at least one record. */
  ghost predicate Shaped(runs: seq<seq<Record>>)
  {
    forall i :: 0 <= i < |runs| ==> SortedRun(runs[i]) && runs[i] != []
  }

  /** The run flushed from a non-empty tree is sorted and non-empty. */
  lemma FlushShaped(runs: seq<seq<Record>>, tree: map<Key, nat>, wc: bool)
    requires Shaped(runs) && |tree| > 0
    ensures Shaped(runs + [Encode(InOrder(tree), wc)])
  {
    var r := Encode(InOrder(tree), wc);
    InOrderSpec(tree);
    EncodeSorted(InOrder(tree), wc);
    assert forall i :: 0 <= i < |runs| ==> (runs + [r])[i] == runs[i];
  }

  /** An insertion adds at most one key, and the inserted key is present. */
  lemma InsertSize(tree: map<Key, nat>, key: Key)
    ensures key in Insert(tree, key)
    ensures 1 <= |Insert(tree, key)| <= |tree| + 1
  {
    var t := Insert(tree, key);
    assert t.Keys == tree.Keys + {key};
    assert |t.Keys| <= |tree.Keys| + |{key}|;
    assert |t| == |t.Keys| && |tree| == |tree.Keys|;
    assert {key} <= t.Keys;
  }

  class Unique {
    const size: nat
    const maxInMemorySize: nat
    const minDuplCount: nat
    /** Bytes per record in the scratch file: the key, plus the counter in counting mode. */
    const fullSize: nat
    const withCounters: bool
    const maxElements: nat

    /** The in-memory tree: each key with the number of times it was added. */
    var tree: map<Key, nat>
    /** Keys flushed to the file so far. */
    var elements: nat
    /** The scratch file, one record per flushed key. */
    var file: seq<Record>
    /** file_ptrs: one chunk per flushed run. */
    var filePtrs: seq<Chunk>
    /** The runs the file holds, in the order they were written. */
    ghost var runs: seq<seq<Record>>

    /** sort.record_pointers and the write position the write actions advance. */
    var recordPointers: array?<Key>
    var cursor: nat
    var filteredOutElems: nat
    /** sort.return_rows */
    var returnRows: nat
    /** sort.io_cache: the keys the final merge of get() writes. */
    var sortOut: seq<Key>

    /** The values the constructor fixes. */
    ghost predicate Consts()
    {
      && fullSize == size + (if withCounters then COUNTER_SIZE else 0)
      && withCounters == (minDuplCount != 0)
      && maxElements >= 1
    }

    /** The file, file_ptrs and the element count describe the same runs. */
    ghost predicate Laid()
      reads this`file, this`filePtrs, this`runs, this`elements
    {
      && file == Flatten(runs)
      && filePtrs == Ledger(runs, fullSize)
      && elements == |file|
    }

    /** Every run is sorted and holds at least one record. */
    ghost predicate RunsShaped()
      reads this`runs
    {
      Shaped(runs)
    }

    /** The state between calls of unique_add: the tree is never larger
        than max_elements, and once something was flushed the tree is not
        empty (a flush is always followed by an insertion). */
    ghost predicate Valid()
      reads this
    {
      && Consts()
      && Laid()
      && RunsShaped()
      && |tree| <= maxElements
      && (elements > 0 ==> |tree| > 0)
    }

    /** All distinct keys added so far with their counts. */
    ghost function Distinct(): map<Key, nat>
      reads this`runs, this`tree
    {
      Combined(runs, tree, withCounters)
    }

    constructor(sizeArg: nat, maxInMemorySizeArg: nat, minDuplCountArg: nat)
      ensures size == sizeArg && maxInMemorySize == maxInMemorySizeArg && minDuplCount == minDuplCountArg
      ensures withCounters == (minDuplCountArg != 0)
      ensures fullSize == sizeArg + (if minDuplCountArg != 0 then COUNTER_SIZE else 0)
      ensures maxElements == MaxElementsInTree(maxInMemorySizeArg, sizeArg)
      ensures tree == map[] && elements == 0 && file == [] && filePtrs == [] && recordPointers == null
      ensures Valid() && Distinct() == map[]
    {
      maxInMemorySize := maxInMemorySizeArg;
      size := sizeArg;
      elements := 0;
      minDuplCount := minDuplCountArg;
      fullSize := sizeArg + (if minDuplCountArg != 0 then COUNTER_SIZE else 0);
      withCounters := minDuplCountArg != 0;
      maxElements := MaxElementsInTree(maxInMemorySizeArg, sizeArg);
      tree := map[];
      file := [];
      filePtrs := [];
      runs := [];
      recordPointers := null;
      cursor := 0;
      filteredOutElems := 0;
      returnRows := 0;
      sortOut := [];
    }

    /** unique_write_to_file: append the key; a failed write returns 1. */
    method WriteToFile(key: Key, writeFails: bool) returns (r: int)
      modifies this`file
      ensures r == (if writeFails then 1 else 0)
      ensures file == if writeFails then old(file) else old(file) + [Record(key, None)]
    {
      if writeFails {
        return 1;
      }
      file := file + [Record(key, None)];
      return 0;
    }

    /** unique_write_to_file_with_count: append the key followed by its count. */
    method WriteToFileWithCount(key: Key, count: nat, writeFails: bool) returns (r: int)
      modifies this`file
      ensures r == (if writeFails then 1 else 0)
      ensures file == if writeFails then old(file) else old(file) + [Record(key, Some(count))]
    {
      if writeFails {
        return 1;
      }
      file := file + [Record(key, Some(count))];
      return 0;
    }

    /** unique_write_to_ptrs: copy the key to the result buffer and advance. */
    method WriteToPtrs(key: Key) returns (r: int)
      requires recordPointers != null && cursor < recordPointers.Length
      modifies recordPointers, this`cursor
      ensures r == 0
      ensures recordPointers[..] == old(recordPointers[..])[old(cursor) := key]
      ensures cursor == old(cursor) + 1
    {
      recordPointers[cursor] := key;
      cursor := cursor + 1;
      return 0;
    }

    /** unique_intersect_write_to_ptrs: keep the key only when its count
        reaches min_dupl_count, otherwise count it as filtered out. */
    method IntersectWriteToPtrs(key: Key, count: nat) returns (r: int)
      requires recordPointers != null
      requires count >= minDuplCount ==> cursor < recordPointers.Length
      modifies recordPointers, this`cursor, this`filteredOutElems
      ensures r == 0
      ensures count >= minDuplCount ==>
                recordPointers[..] == old(recordPointers[..])[old(cursor) := key] &&
                cursor == old(cursor) + 1 && filteredOutElems == old(filteredOutElems)
      ensures count < minDuplCount ==>
                recordPointers[..] == old(recordPointers[..]) &&
                cursor == old(cursor) && filteredOutElems == old(filteredOutElems) + 1
    {
      if count >= minDuplCount {
        recordPointers[cursor] := key;
        cursor := cursor + 1;
      } else {
        filteredOutElems := filteredOutElems + 1;
      }
      return 0;
    }

    /** The tree_walk of flush() over the in-order listing `s` of the tree:
        write every element with the write action of the mode, stopping at
        the first failed write. */
    method WriteRun(s: seq<Element>, fault: Fault) returns (failed: bool)
      modifies this`file
      ensures failed == (fault.WriteFault? && fault.record < |s|)
      ensures file == old(file) + Encode(s, withCounters)[..RecordsWritten(fault, |s|)]
    {
      ghost var enc := Encode(s, withCounters);
      var i := 0;
      while i < |s|
        invariant 0 <= i <= |s|
        invariant file == old(file) + enc[..i]
        invariant !(fault.WriteFault? && fault.record < i)
      {
        var bad := fault.WriteFault? && fault.record == i;
        var r: int;
        if withCounters {
          r := WriteToFileWithCount(s[i].key, s[i].count, bad);
        } else {
          r := WriteToFile(s[i].key, bad);
        }
        if r != 0 {
          return true;
        }
        assert enc[..i + 1] == enc[..i] + [enc[i]];
        i := i + 1;
      }
      assert enc[..i] == enc;
      return false;
    }

    /** Unique::flush: count the tree's keys as flushed, write them as one
        run, record the run in file_ptrs and empty the tree. */
    method Flush(fault: Fault) returns (failed: bool)
      requires Laid()
      modifies this`elements, this`file, this`filePtrs, this`runs, this`tree
      ensures failed == FlushFails(fault, |old(tree)|)
      ensures elements == old(elements) + |old(tree)|
      ensures file == old(file) + Encode(InOrder(old(tree)), withCounters)[..RecordsWritten(fault, |old(tree)|)]
      ensures failed ==> tree == old(tree) && filePtrs == old(filePtrs) && runs == old(runs)
      ensures !failed ==>
                tree == map[] &&
                runs == old(runs) + [Encode(InOrder(old(tree)), withCounters)] &&
                filePtrs == old(filePtrs) + [Chunk(|old(tree)|, fullSize * |old(file)|)]
      ensures !failed ==> Laid() && Distinct() == old(Distinct())
    {
      elements := elements + |tree|;
      var chunk := Chunk(|tree|, fullSize * |file|);
      ghost var before := file;
      failed := WriteRun(InOrder(tree), fault);
      if failed {
        return;
      }
      if fault.LedgerFault? {
        return true;
      }
      ghost var run := Encode(InOrder(tree), withCounters);
      assert run[..|tree|] == run;
      FlattenSnoc(runs, run);
      LedgerSnoc(runs, run, fullSize);
      FlushCombined(runs, tree, withCounters);
      filePtrs := filePtrs + [chunk];
      runs := runs + [run];
      tree := map[];
    }

    /** Adding a key (unique_add): flush first when the tree already holds
        max_elements keys, then insert the key. */
    method Add(key: Key, fault: Fault) returns (failed: bool)
      requires Valid()
      modifies this`elements, this`file, this`filePtrs, this`runs, this`tree
      ensures failed == (|old(tree)| >= maxElements && FlushFails(fault, |old(tree)|))
      ensures |old(tree)| < maxElements ==>
                elements == old(elements) && file == old(file) && filePtrs == old(filePtrs) && runs == old(runs)
      ensures |old(tree)| >= maxElements ==>
                elements == old(elements) + |old(tree)| &&
                file == old(file) + Encode(InOrder(old(tree)), withCounters)[..RecordsWritten(fault, |old(tree)|)]
      ensures failed ==> tree == old(tree) && filePtrs == old(filePtrs) && runs == old(runs)
      ensures !failed && |old(tree)| >= maxElements ==>
                runs == old(runs) + [Encode(InOrder(old(tree)), withCounters)] &&
                filePtrs == old(filePtrs) + [Chunk(|old(tree)|, fullSize * |old(file)|)]
      ensures !failed ==> tree == Insert(if |old(tree)| >= maxElements then map[] else old(tree), key)
      ensures !failed ==> Valid() && Distinct() == old(Distinct())[key := Bump(old(Distinct()), key, withCounters)]
    {
      if |tree| >= maxElements {
        ghost var r0, t0 := runs, tree;
        failed := Flush(fault);
        if failed {
          return;
        }
        FlushShaped(r0, t0, withCounters);
      }
      InsertSize(tree, key);
      InsertCombined(runs, tree, key, withCounters);
      tree := Insert(tree, key);
      return false;
    }

    /** Unique::reset: empty the tree, and the file and file_ptrs when
        something was flushed; forget the result buffer. */
    method Reset()
      modifies this`tree, this`filePtrs, this`file, this`runs, this`recordPointers, this`elements
      ensures tree == map[] && elements == 0 && recordPointers == null
      ensures old(elements) != 0 ==> filePtrs == [] && file == [] && runs == []
      ensures old(elements) == 0 ==> filePtrs == old(filePtrs) && file == old(file) && runs == old(runs)
      ensures Consts() && (old(elements) != 0 || old(Laid() && RunsShaped())) ==> Valid() && Distinct() == map[]
    {
      tree := map[];
      if elements != 0 {
        filePtrs := [];
        file := [];
        runs := [];
      } else if Laid() && RunsShaped() {
        NonEmptyRunsFile(runs);
      }
      recordPointers := null;
      elements := 0;
      NothingStored(withCounters);
    }

    /** Unique::merge: the merge_many_buff passes over the runs file_ptrs
        names, leaving at most MERGEBUFF2 runs, then, unless
        withoutLastMerge, the final merge that writes the kept keys. */
    method Merge(withoutLastMerge: bool, mf: MergeFault) returns (failed: bool)
      requires fullSize > 0 && |runs| >= 1
      requires file == Flatten(runs) && filePtrs == Ledger(runs, fullSize)
      modifies this`runs, this`file, this`filePtrs, this`sortOut
      ensures failed == MergeFails(mf, withoutLastMerge)
      ensures mf.OpenFails? ==>
                runs == old(runs) && file == old(file) && filePtrs == old(filePtrs) && sortOut == old(sortOut)
      ensures !mf.OpenFails? && !mf.PassesFail? ==>
                runs == ManyBuff(old(runs), withCounters) &&
                file == Flatten(runs) && filePtrs == Ledger(runs, fullSize)
      ensures withoutLastMerge ==> sortOut == old(sortOut)
      ensures !withoutLastMerge && !failed ==> sortOut == KeptKeys(Merged(runs, withCounters), minDuplCount)
    {
      if mf.OpenFails? {
        return true;
      }
      if mf.PassesFail? {
        // What the failed passes left in the scratch file is not modelled.
        return true;
      }
      ReadBack(runs, fullSize);
      var merged := ManyBuff(ChunkRuns(file, filePtrs, fullSize), withCounters);
      runs := merged;
      file := Flatten(merged);
      filePtrs := Ledger(merged, fullSize);
      if withoutLastMerge {
        return false;
      }
      if mf.FinalFails? {
        // Nor is what a failed final merge left in the result file.
        return true;
      }
      sortOut := KeptKeys(Merged(merged, withCounters), minDuplCount);
      return false;
    }

    /** walk() merges before merge_walk when its buffer cannot hold one
        record for each of `nRuns` runs and the saved key. */
    predicate WalkMerges(nRuns: nat)
      requires fullSize > 0
    {
      MergeBufferSize(maxInMemorySize, fullSize) < fullSize * (nRuns + 1)
    }

    /** Unique::walk: with nothing flushed, a tree_walk; otherwise flush the
        tree, merge down to at most MERGEBUFF2 runs when the buffer cannot
        hold one record per run, and merge_walk the runs. */
    method Walk(stop: Element -> bool, fault: Fault, cacheFails: bool, allocFails: bool, mf: MergeFault,
                readFault: Option<nat>)
      returns (failed: bool, visited: seq<Element>)
      requires Valid() && fullSize > 0
      modifies this`elements, this`file, this`filePtrs, this`runs, this`tree, this`sortOut, this`returnRows
      ensures old(elements) == 0 ==>
                visited == UntilStop(InOrder(old(tree)), stop) && failed == Aborts(InOrder(old(tree)), stop) &&
                tree == old(tree) && file == old(file) && filePtrs == old(filePtrs) && elements == 0 &&
                returnRows == old(returnRows)
      ensures old(elements) != 0 ==>
                returnRows == old(elements) + |old(tree)| && elements == old(elements) + |old(tree)|
      ensures old(elements) != 0 && (FlushFails(fault, |old(tree)|) || cacheFails || allocFails) ==>
                failed && visited == []
      ensures old(elements) != 0 && !FlushFails(fault, |old(tree)|) && !cacheFails && !allocFails &&
              WalkMerges(|old(runs)| + 1) && (mf.OpenFails? || mf.PassesFail?) ==>
                failed && visited == []
      ensures old(elements) != 0 && !FlushFails(fault, |old(tree)|) && !cacheFails && !allocFails &&
              !(WalkMerges(|old(runs)| + 1) && (mf.OpenFails? || mf.PassesFail?)) ==>
                visited == WalkSeen(InOrder(old(Distinct())), stop, readFault) &&
                failed == (Aborts(InOrder(old(Distinct())), stop) || readFault.Some?)
    {
      if elements == 0 {
        failed, visited := TreeWalk(InOrder(tree), stop);
        return;
      }
      returnRows := elements + |tree|;
      failed, visited := WalkFromDisk(stop, fault, cacheFails, allocFails, mf, readFault);
    }

    /** walk() with runs on disk: flush the tree, flush and re-read the
        scratch file, allocate the merge buffer, then merge and walk. */
    method WalkFromDisk(stop: Element -> bool, fault: Fault, cacheFails: bool, allocFails: bool, mf: MergeFault,
                        readFault: Option<nat>)
      returns (failed: bool, visited: seq<Element>)
      requires Laid() && Shaped(runs) && |tree| > 0 && fullSize > 0
      modifies this`elements, this`file, this`filePtrs, this`runs, this`tree, this`sortOut
      ensures elements == old(elements) + |old(tree)|
      ensures FlushFails(fault, |old(tree)|) || cacheFails || allocFails ==> failed && visited == []
      ensures !FlushFails(fault, |old(tree)|) && !cacheFails && !allocFails &&
              WalkMerges(|old(runs)| + 1) && (mf.OpenFails? || mf.PassesFail?) ==>
                failed && visited == []
      ensures !FlushFails(fault, |old(tree)|) && !cacheFails && !allocFails &&
              !(WalkMerges(|old(runs)| + 1) && (mf.OpenFails? || mf.PassesFail?)) ==>
                visited == WalkSeen(InOrder(old(Distinct())), stop, readFault) &&
                failed == (Aborts(InOrder(old(Distinct())), stop) || readFault.Some?)
    {
      ghost var r0, t0 := runs, tree;
      failed := Flush(fault);
      if failed {
        return true, [];
      }
      FlushShaped(r0, t0, withCounters);
      // flush_io_cache and reinit_io_cache of the scratch file.
      if cacheFails {
        return true, [];
      }
      // The merge buffer is allocated before anything is merged.
      if allocFails {
        return true, [];
      }
      SummaryCombined(runs, withCounters);
      assert |runs| == |r0| + 1;
      ghost var m := Merged(runs, withCounters);
      assert m == InOrder(old(Distinct()));
      failed, visited := MergeAndWalk(stop, mf, readFault);
    }

    /** The part of walk() after the flush: merge() when the buffer is too
        small for one record per run, then merge_walk over the runs
        file_ptrs names. */
    method MergeAndWalk(stop: Element -> bool, mf: MergeFault, readFault: Option<nat>)
      returns (failed: bool, visited: seq<Element>)
      requires fullSize > 0 && |runs| >= 1 && Shaped(runs)
      requires file == Flatten(runs) && filePtrs == Ledger(runs, fullSize)
      modifies this`file, this`filePtrs, this`runs, this`sortOut
      ensures WalkMerges(|old(runs)|) && (mf.OpenFails? || mf.PassesFail?) ==> failed && visited == []
      ensures !(WalkMerges(|old(runs)|) && (mf.OpenFails? || mf.PassesFail?)) ==>
                visited == WalkSeen(Merged(old(runs), withCounters), stop, readFault) &&
                failed == (Aborts(Merged(old(runs), withCounters), stop) || readFault.Some?)
    {
      var buffSize := MergeBufferSize(maxInMemorySize, fullSize);
      ghost var flushed := runs;
      LedgerShape(runs, fullSize);
      if buffSize < fullSize * (|filePtrs| + 1) {
        // buffSize holds at least MERGEBUFF2 + 1 records, so walk() never
        // asks merge() for its final merge.
        MulLe(MERGEBUFF2, MERGEBUFF2 + 1, fullSize);
        failed := Merge(buffSize >= fullSize * MERGEBUFF2, mf);
        if failed {
          return true, [];
        }
        ManyBuffSummary(flushed, withCounters);
        ManyBuffShape(flushed, withCounters);
      }
      assert Merged(runs, withCounters) == Merged(flushed, withCounters);
      WalkBufferSuffices(buffSize, fullSize, |runs|);
      ReadBack(runs, fullSize);
      var chunks := ChunkRuns(file, filePtrs, fullSize);
      failed, visited := MergeWalk(buffSize, fullSize, chunks, withCounters, stop, readFault);
    }

    /** The tree_walk of get() over the in-order listing `s` of the tree:
        every element goes through the write action of the mode into the
        result buffer. */
    method WritePtrs(s: seq<Element>)
      requires recordPointers != null && recordPointers.Length == |s|
      requires cursor == 0 && filteredOutElems == 0
      modifies recordPointers, this`cursor, this`filteredOutElems
      ensures cursor == |KeptKeys(s, minDuplCount)|
      ensures recordPointers[..cursor] == KeptKeys(s, minDuplCount)
      ensures filteredOutElems == |s| - cursor
    {
      var i := 0;
      while i < |s|
        invariant 0 <= i <= |s|
        invariant cursor <= i && cursor + filteredOutElems == i
        invariant recordPointers[..cursor] == KeptKeys(s[..i], minDuplCount)
      {
        KeptKeysSnoc(s, i, minDuplCount);
        var r: int;
        if minDuplCount != 0 {
          r := IntersectWriteToPtrs(s[i].key, s[i].count);
        } else {
          r := WriteToPtrs(s[i].key);
        }
        i := i + 1;
      }
      assert s[..i] == s;
    }

    /** Unique::get: when nothing was flushed and the result buffer can be
        allocated, the kept keys of the tree go to record_pointers;
        otherwise the tree is flushed and merge() writes the kept keys of all
        runs to the result file. Either way the keys are those of the
        combined contents whose count reaches min_dupl_count. */
    method Get(allocFails: bool, fault: Fault, sortAllocFails: bool, mf: MergeFault) returns (failed: bool)
      requires Laid() && Consts() && fullSize > 0
      modifies this`elements, this`file, this`filePtrs, this`runs, this`tree, this`sortOut, this`returnRows
      modifies this`recordPointers, this`cursor, this`filteredOutElems
      ensures old(file) == [] && !allocFails ==>
                !failed && recordPointers != null && fresh(recordPointers) &&
                PointersHold(|old(tree)|, KeptKeys(InOrder(old(Distinct())), minDuplCount)) &&
                tree == old(tree) && file == old(file) && filePtrs == old(filePtrs)
      ensures !(old(file) == [] && !allocFails) ==>
                returnRows == old(elements) + |old(tree)| && elements == old(elements) + |old(tree)|
      ensures !(old(file) == [] && !allocFails) ==>
                failed == (FlushFails(fault, |old(tree)|) || sortAllocFails || MergeFails(mf, false))
      ensures !(old(file) == [] && !allocFails) && !failed ==>
                sortOut == KeptKeys(InOrder(old(Distinct())), minDuplCount)
    {
      returnRows := elements + |tree|;
      if |file| == 0 && !allocFails {
        GetInMemory();
        return false;
      }
      if |file| == 0 {
        recordPointers := null;
      }
      failed := GetFromDisk(fault, sortAllocFails, mf);
    }

    /** The result of an in-memory get(): a buffer of n keys whose first
        return_rows entries are the kept keys, the rest counted as filtered
        out, and the cursor back at the start. */
    ghost predicate PointersHold(n: nat, kept: seq<Key>)
      reads this`recordPointers, this`returnRows, this`cursor, this`filteredOutElems, recordPointers
    {
      && recordPointers != null && recordPointers.Length == n && cursor == 0
      && returnRows <= n
      && recordPointers[..returnRows] == kept
      && filteredOutElems == n - returnRows
    }

    /** get() with the whole tree in memory: a buffer of one key per tree
        element receives the kept keys; return_rows drops the filtered ones. */
    method GetInMemory()
      requires Laid() && Consts() && file == [] && returnRows == |tree|
      modifies this`recordPointers, this`cursor, this`filteredOutElems, this`returnRows
      ensures recordPointers != null && fresh(recordPointers)
      ensures PointersHold(|old(tree)|, KeptKeys(InOrder(old(Distinct())), minDuplCount))
    {
      InMemoryKept(runs, tree, withCounters, minDuplCount);
      recordPointers := new Key[|tree|];
      cursor := 0;
      filteredOutElems := 0;
      WritePtrs(InOrder(tree));
      returnRows := returnRows - filteredOutElems;
      cursor := 0;
    }

    /** get() through the file: flush the tree, allocate the sort buffer,
        and merge() all runs into the result file. */
    method GetFromDisk(fault: Fault, sortAllocFails: bool, mf: MergeFault) returns (failed: bool)
      requires Laid() && fullSize > 0
      modifies this`elements, this`file, this`filePtrs, this`runs, this`tree, this`sortOut
      ensures elements == old(elements) + |old(tree)|
      ensures failed == (FlushFails(fault, |old(tree)|) || sortAllocFails || MergeFails(mf, false))
      ensures !failed ==> sortOut == KeptKeys(InOrder(old(Distinct())), minDuplCount)
    {
      failed := Flush(fault);
      if failed {
        return;
      }
      if sortAllocFails {
        return true;
      }
      ghost var flushed := runs;
      SummaryCombined(flushed, withCounters);
      failed := Merge(false, mf);
      ManyBuffSummary(flushed, withCounters);
    }
  }
}
