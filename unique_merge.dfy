/** merge_walk from sql/uniques.cc: a k-way merge of sorted runs that
    reports every distinct key once, in ascending order, summing the
    counters of equal keys in counting mode, and stops as soon as the
    walk action asks to. The priority queue is modelled as the set of runs
    that still hold records; its top is a run whose head key is smallest. */
module UniqueMerge {
  import opened Common
  import opened UniqueRuns

  /** How merge_walk cuts its buffer: one piece per run, each holding
      `maxKeysPerPiece` keys, and room for one saved key at the end. */
  datatype Layout = Layout(maxKeysPerPiece: nat, pieceSize: nat, saveKeyOffset: nat)

  /** merge_walk refuses to run without runs or with a buffer that cannot
      hold one key per run plus the saved key. */
  predicate MergeSetupFails(bufferSize: nat, keyLength: nat, nRuns: nat)
  {
    nRuns == 0 || bufferSize < keyLength * (nRuns + 1)
  }

  function BufferLayout(bufferSize: nat, keyLength: nat, nRuns: nat): (l: Layout)
    requires keyLength > 0
    requires !MergeSetupFails(bufferSize, keyLength, nRuns)
    ensures l.maxKeysPerPiece >= 1
    ensures l.pieceSize == l.maxKeysPerPiece * keyLength
    ensures nRuns * l.pieceSize <= l.saveKeyOffset
    ensures l.saveKeyOffset + keyLength == bufferSize
  {
    var usable := bufferSize - keyLength;
    var perPiece := usable / nRuns / keyLength;
    LayoutArith(usable, keyLength, nRuns);
    Layout(perPiece, perPiece * keyLength, usable)
  }

  lemma LayoutArith(usable: nat, keyLength: nat, nRuns: nat)
    requires keyLength > 0 && nRuns > 0 && usable >= keyLength * nRuns
    ensures usable / nRuns / keyLength >= 1
    ensures nRuns * ((usable / nRuns / keyLength) * keyLength) <= usable
  {
    var q := usable / nRuns;
    DivAtLeast(usable, keyLength, nRuns);
    DivAtLeast(q, 1, keyLength);
    var p := q / keyLength;
    assert p * keyLength <= q;
    MulLe(p * keyLength, q, nRuns);
    assert q * nRuns <= usable;
  }

  lemma DivAtLeast(a: nat, b: nat, n: nat)
    requires n > 0 && a >= b * n
    ensures a / n >= b
  {
    var q := a / n;
    assert a == q * n + a % n;
    if q < b {
      MulLe(q + 1, b, n);
      assert false;
    }
  }

  lemma MulLe(x: nat, y: nat, n: nat)
    requires x <= y
    ensures x * n <= y * n
  {
  }

  /** What holds between the original runs, the unread part of the runs
      and the keys reported so far. */
  ghost predicate MergeInv(orig: seq<seq<Record>>, cur: seq<seq<Record>>, out: seq<Element>, wc: bool)
  {
    && (forall i :: 0 <= i < |cur| ==> SortedRun(cur[i]))
    && SortedElems(out)
    && (out != [] ==> forall k :: Present(cur, k) ==> out[|out| - 1].key < k)
    && (forall k :: Present(orig, k) <==> (k in ElemKeys(out) || Present(cur, k)))
    && (forall i :: 0 <= i < |out| ==> out[i].count == Value(orig, out[i].key, wc))
    && (forall k :: Present(cur, k) ==> Value(cur, k, wc) == Value(orig, k, wc))
  }

  lemma ElemKeysSnoc(s: seq<Element>, e: Element)
    ensures ElemKeys(s + [e]) == ElemKeys(s) + {e.key}
  {
    var t := s + [e];
    forall x | x in ElemKeys(t) ensures x in ElemKeys(s) + {e.key} {
      var d :| d in t && d.key == x;
      if d != e { assert d in s; }
    }
    forall x | x in ElemKeys(s) ensures x in ElemKeys(t) {
      var d :| d in s && d.key == x;
      assert d in t;
    }
    assert e in t;
  }

  /** Taking the head off run `t` lowers the count of the head's key by the head's count. */
  lemma PopCount(cur: seq<seq<Record>>, t: nat, k: Key, wc: bool)
    requires t < |cur| && cur[t] != []
    ensures Occurs(cur[t := cur[t][1..]], k, wc) + (if cur[t][0].key == k then Cnt(cur[t][0], wc) else 0)
         == Occurs(cur, k, wc)
  {
    OccursUpdate(cur, t, cur[t][1..], k, wc);
  }

  /** The head of run `t` is reported: every run now starts above it. */
  lemma PopDiffer(orig: seq<seq<Record>>, cur: seq<seq<Record>>, t: nat, next: seq<seq<Record>>, out: seq<Element>, wc: bool)
    requires MergeInv(orig, cur, out, wc)
    requires t < |cur| && cur[t] != [] && next == cur[t := cur[t][1..]]
    requires forall k :: Present(next, k) ==> cur[t][0].key < k
    ensures MergeInv(orig, next, out + [Element(cur[t][0].key, Cnt(cur[t][0], wc))], wc)
  {
    var x := cur[t][0].key;
    var e := Element(x, Cnt(cur[t][0], wc));
    PopAll(cur, t, next);
    assert Present(cur, x);
    PopSortedRuns(cur, t, next);
    SnocSorted(out, e);
    PopKeys(orig, cur, next, out, e);
    PopValues(orig, cur, t, next, out, wc);
  }

  /** Popping the head of run `t` changes only the count of the head's key. */
  lemma PopAll(cur: seq<seq<Record>>, t: nat, next: seq<seq<Record>>)
    requires t < |cur| && cur[t] != [] && next == cur[t := cur[t][1..]]
    ensures forall k :: Occurs(next, k, false) + (if cur[t][0].key == k then 1 else 0) == Occurs(cur, k, false)
    ensures forall k :: Occurs(next, k, true) + (if cur[t][0].key == k then Cnt(cur[t][0], true) else 0) == Occurs(cur, k, true)
  {
    forall k ensures Occurs(next, k, false) + (if cur[t][0].key == k then 1 else 0) == Occurs(cur, k, false)
                 && Occurs(next, k, true) + (if cur[t][0].key == k then Cnt(cur[t][0], true) else 0) == Occurs(cur, k, true)
    {
      PopCount(cur, t, k, false);
      PopCount(cur, t, k, true);
    }
  }

  lemma PopSortedRuns(cur: seq<seq<Record>>, t: nat, next: seq<seq<Record>>)
    requires t < |cur| && cur[t] != [] && next == cur[t := cur[t][1..]]
    requires forall i :: 0 <= i < |cur| ==> SortedRun(cur[i])
    ensures forall i :: 0 <= i < |next| ==> SortedRun(next[i])
  {
    assert SortedRun(cur[t]);
  }

  lemma SnocSorted(out: seq<Element>, e: Element)
    requires SortedElems(out)
    requires out != [] ==> out[|out| - 1].key < e.key
    ensures SortedElems(out + [e])
  {
  }

  lemma PopKeys(orig: seq<seq<Record>>, cur: seq<seq<Record>>, next: seq<seq<Record>>, out: seq<Element>, e: Element)
    requires forall k :: Present(orig, k) <==> (k in ElemKeys(out) || Present(cur, k))
    requires forall k :: Occurs(next, k, false) + (if e.key == k then 1 else 0) == Occurs(cur, k, false)
    ensures forall k :: Present(orig, k) <==> (k in ElemKeys(out + [e]) || Present(next, k))
  {
    ElemKeysSnoc(out, e);
  }

  lemma PopValues(orig: seq<seq<Record>>, cur: seq<seq<Record>>, t: nat, next: seq<seq<Record>>, out: seq<Element>, wc: bool)
    requires t < |cur| && cur[t] != [] && next == cur[t := cur[t][1..]]
    requires forall i :: 0 <= i < |out| ==> out[i].count == Value(orig, out[i].key, wc)
    requires forall k :: Present(cur, k) ==> Value(cur, k, wc) == Value(orig, k, wc)
    requires forall k :: Present(next, k) ==> cur[t][0].key < k
    requires Present(cur, cur[t][0].key)
    requires forall k :: Occurs(next, k, true) + (if cur[t][0].key == k then Cnt(cur[t][0], true) else 0) == Occurs(cur, k, true)
    requires forall k :: Occurs(next, k, false) + (if cur[t][0].key == k then 1 else 0) == Occurs(cur, k, false)
    ensures forall i :: 0 <= i < |out| + 1 ==>
              (out + [Element(cur[t][0].key, Cnt(cur[t][0], wc))])[i].count
              == Value(orig, (out + [Element(cur[t][0].key, Cnt(cur[t][0], wc))])[i].key, wc)
    ensures forall k :: Present(next, k) ==> Value(next, k, wc) == Value(orig, k, wc)
  {
    var x := cur[t][0].key;
    var e := Element(x, Cnt(cur[t][0], wc));
    assert Value(orig, x, wc) == e.count by {
      if wc {
        AbsentOccurs(next, x, true);
      }
    }
    var out' := out + [e];
    forall i | 0 <= i < |out'| ensures out'[i].count == Value(orig, out'[i].key, wc) {
      if i < |out| { assert out'[i] == out[i]; }
    }
  }

  /** The counts of run `s`'s head absorb those of `prev` (counting mode only). */
  function Absorb(runs: seq<seq<Record>>, s: nat, prev: Record, wc: bool): (r: seq<seq<Record>>)
    requires s < |runs| && runs[s] != []
    ensures |r| == |runs|
  {
    if wc then
      var h := runs[s][0];
      runs[s := [h.(counter := Some(Cnt(h, true) + Cnt(prev, true)))] + runs[s][1..]]
    else runs
  }

  lemma AbsorbCount(runs: seq<seq<Record>>, s: nat, prev: Record, wc: bool, k: Key)
    requires s < |runs| && runs[s] != []
    ensures Occurs(Absorb(runs, s, prev, wc), k, false) == Occurs(runs, k, false)
    ensures Occurs(Absorb(runs, s, prev, wc), k, true)
         == Occurs(runs, k, true) + (if wc && runs[s][0].key == k then Cnt(prev, true) else 0)
  {
    if wc {
      var h := runs[s][0];
      var r := [h.(counter := Some(Cnt(h, true) + Cnt(prev, true)))] + runs[s][1..];
      assert r[1..] == runs[s][1..];
      OccursUpdate(runs, s, r, k, false);
      OccursUpdate(runs, s, r, k, true);
    }
  }

  /** The head of run `t` equals the head of run `s` after the pop: it is
      not reported, and in counting mode its count moves into `s`'s head. */
  lemma PopEqual(orig: seq<seq<Record>>, cur: seq<seq<Record>>, t: nat, next: seq<seq<Record>>, s: nat, out: seq<Element>, wc: bool)
    requires MergeInv(orig, cur, out, wc)
    requires t < |cur| && cur[t] != [] && next == cur[t := cur[t][1..]]
    requires s < |cur| && next[s] != [] && next[s][0].key == cur[t][0].key
    ensures MergeInv(orig, Absorb(next, s, cur[t][0], wc), out, wc)
  {
    var x := cur[t][0].key;
    var after := Absorb(next, s, cur[t][0], wc);
    forall k ensures Occurs(after, k, false) + (if x == k then 1 else 0) == Occurs(cur, k, false)
                 && (wc ==> Occurs(after, k, true) == Occurs(cur, k, true))
    {
      PopCount(cur, t, k, false);
      PopCount(cur, t, k, true);
      AbsorbCount(next, s, cur[t][0], wc, k);
    }
    assert Occurs(next, x, false) > 0 by {
      OccursUpdate(next, s, [], x, false);
    }
    assert Present(after, x) by {
      AbsorbCount(next, s, cur[t][0], wc, x);
    }
    forall k ensures Present(after, k) <==> Present(cur, k) {
    }
    assert forall i :: 0 <= i < |after| ==> SortedRun(after[i]) by {
      assert SortedRun(cur[t]);
      forall i | 0 <= i < |after| ensures SortedRun(after[i]) {
        if wc && i == s {
          assert SortedRun(next[s]);
        }
      }
    }
  }

  lemma NoRecordsAbsent(runs: seq<seq<Record>>, k: Key)
    requires forall i :: 0 <= i < |runs| ==> runs[i] == []
    ensures !Present(runs, k)
  {
    HeadsAbove(runs, k);
  }

  /** Keys reported so far are the beginning of the full merge. */
  lemma PartialResult(orig: seq<seq<Record>>, cur: seq<seq<Record>>, out: seq<Element>, wc: bool)
    requires MergeInv(orig, cur, out, wc)
    ensures |out| <= |Merged(orig, wc)| && Merged(orig, wc)[..|out|] == out
  {
    var m := Summary(orig, wc);
    forall i | 0 <= i < |out| ensures out[i].key in m && out[i].count == m[out[i].key] {
      assert out[i] in out;
      AllKeysPresent(orig, out[i].key);
    }
    if out != [] {
      forall k | k in m && k !in ElemKeys(out) ensures out[|out| - 1].key < k {
        AllKeysPresent(orig, k);
      }
    }
    PrefixOfInOrder(out, m);
  }

  /** Once every run is used up, the reported keys are the full merge. */
  lemma FinalResult(orig: seq<seq<Record>>, cur: seq<seq<Record>>, out: seq<Element>, wc: bool)
    requires MergeInv(orig, cur, out, wc)
    requires forall i :: 0 <= i < |cur| ==> cur[i] == []
    ensures out == Merged(orig, wc)
  {
    var m := Summary(orig, wc);
    forall k ensures k in ElemKeys(out) <==> k in m {
      NoRecordsAbsent(cur, k);
      AllKeysPresent(orig, k);
    }
    forall i | 0 <= i < |out| ensures out[i].count == m[out[i].key] {
      assert out[i] in out;
    }
    InOrderUnique(out, m);
  }

  lemma AbortResult(orig: seq<seq<Record>>, cur: seq<seq<Record>>, out: seq<Element>, wc: bool, stop: Element -> bool)
    requires MergeInv(orig, cur, out, wc)
    requires out != [] && stop(out[|out| - 1])
    requires forall i :: 0 <= i < |out| - 1 ==> !stop(out[i])
    ensures out == UntilStop(Merged(orig, wc), stop)
    ensures Aborts(Merged(orig, wc), stop)
  {
    PartialResult(orig, cur, out, wc);
    UntilStopPrefix(Merged(orig, wc), out, stop);
    assert Merged(orig, wc)[|out| - 1] == out[|out| - 1];
  }

  /** The first `k` keys of `s`, or all of them when there are fewer. */
  function CutAt(s: seq<Element>, k: nat): (r: seq<Element>)
    ensures |r| <= k && |r| <= |s| && r == s[..|r|]
    ensures |r| < k ==> r == s
  {
    if k <= |s| then s[..k] else s
  }

  /** What the walk action of merge_walk sees over the merge `s`: up to the
      first abort, and, when a read_to_buffer fails after `k` reports
      (readFault == Some(k)), no more than those `k` keys. */
  function WalkSeen(s: seq<Element>, stop: Element -> bool, readFault: Option<nat>): seq<Element>
  {
    if readFault.Some? then CutAt(UntilStop(s, stop), readFault.value) else UntilStop(s, stop)
  }

  /** A walk that ends before the failing read is the plain walk. */
  lemma SeenBeforeFault(s: seq<Element>, stop: Element -> bool, readFault: Option<nat>)
    requires readFault.Some? ==> |UntilStop(s, stop)| <= readFault.value
    ensures WalkSeen(s, stop, readFault) == UntilStop(s, stop)
  {
  }

  /** UntilStop keeps every key before the first one that stops. */
  lemma {:induction false} UntilStopKeeps(s: seq<Element>, k: nat, stop: Element -> bool)
    requires k <= |s|
    requires forall i :: 0 <= i < k ==> !stop(s[i])
    ensures k <= |UntilStop(s, stop)| && UntilStop(s, stop)[..k] == s[..k]
  {
    if k > 0 {
      UntilStopKeeps(s[1..], k - 1, stop);
      assert UntilStop(s, stop) == [s[0]] + UntilStop(s[1..], stop);
      assert s[..k] == [s[0]] + s[1..][..k - 1];
    }
  }

  /** A failing read after the keys `out`, a beginning of the merge `m` in
      which no key stopped the walk, leaves the action with just `out`. */
  lemma CutAtPrefix(m: seq<Element>, out: seq<Element>, stop: Element -> bool)
    requires |out| <= |m| && m[..|out|] == out
    requires forall i :: 0 <= i < |out| ==> !stop(out[i])
    ensures out == WalkSeen(m, stop, Some(|out|))
  {
    UntilStopKeeps(m, |out|, stop);
  }

  /** A read failing after `k` reports, none of which stopped the walk,
      leaves the action with the first `k` keys of the merge. */
  lemma ReadFailResult(orig: seq<seq<Record>>, cur: seq<seq<Record>>, out: seq<Element>, wc: bool,
                       stop: Element -> bool, k: nat)
    requires MergeInv(orig, cur, out, wc) && |out| == k
    requires forall i :: 0 <= i < |out| ==> !stop(out[i])
    ensures out == WalkSeen(Merged(orig, wc), stop, Some(k))
  {
    PartialResult(orig, cur, out, wc);
    CutAtPrefix(Merged(orig, wc), out, stop);
  }

  lemma NatSetHasMember(q: set<nat>)
    requires q != {}
    ensures exists j :: j in q
  {
    if forall j :: j !in q { assert false; }
  }

  lemma SingleMember(q: set<nat>, a: nat, b: nat)
    requires |q| == 1 && a in q && b in q
    ensures a == b
  {
    assert |q - {a}| == 0;
  }

  /** The queue holds exactly the runs with unread records, and `top` is one
      whose head is smallest. */
  ghost predicate QueueState(cur: seq<seq<Record>>, queue: set<nat>, top: nat)
  {
    && (forall j: nat :: j in queue <==> j < |cur| && cur[j] != [])
    && top in queue
    && (forall j :: j in queue ==> cur[top][0].key <= cur[j][0].key)
  }

  /** Advancing the top run: the queue loses it only when it runs dry, every
      remaining head is at least the old top key, and one record is gone. */
  lemma AdvanceTop(cur: seq<seq<Record>>, queue: set<nat>, top: nat, next: seq<seq<Record>>, queue': set<nat>)
    requires QueueState(cur, queue, top) && |queue| > 1 && SortedRun(cur[top])
    requires next == cur[top := cur[top][1..]]
    requires queue' == if next[top] == [] then queue - {top} else queue
    ensures queue' != {}
    ensures forall j: nat :: j in queue' <==> j < |next| && next[j] != []
    ensures forall j :: j in queue' ==> cur[top][0].key <= next[j][0].key
    ensures top in queue' ==> cur[top][0].key < next[top][0].key
    ensures TotalLen(next) < TotalLen(cur)
  {
    TotalLenUpdate(cur, top, cur[top][1..]);
    if next[top] == [] {
      assert |queue'| == |queue| - 1;
    } else {
      assert cur[top][0].key < cur[top][1].key;
    }
  }

  /** A new top whose key differs from the old one lies above it, and then
      so does every key left in the runs. */
  lemma DifferStep(orig: seq<seq<Record>>, cur: seq<seq<Record>>, queue: set<nat>, top: nat,
                   next: seq<seq<Record>>, queue': set<nat>, s: nat, out: seq<Element>, wc: bool)
    requires MergeInv(orig, cur, out, wc) && QueueState(cur, queue, top) && |queue| > 1
    requires next == cur[top := cur[top][1..]]
    requires queue' == if next[top] == [] then queue - {top} else queue
    requires s in queue' && forall j :: j in queue' ==> next[s][0].key <= next[j][0].key
    requires cur[top][0].key != next[s][0].key
    ensures MergeInv(orig, next, out + [Element(cur[top][0].key, Cnt(cur[top][0], wc))], wc)
    ensures QueueState(next, queue', s)
    ensures TotalLen(next) < TotalLen(cur)
  {
    AdvanceTop(cur, queue, top, next, queue');
    HeadsAbove(next, cur[top][0].key);
    PopDiffer(orig, cur, top, next, out, wc);
  }

  /** A new top with the old top's key: nothing is reported and, in counting
      mode, the new top absorbs the old top's count. */
  lemma EqualStep(orig: seq<seq<Record>>, cur: seq<seq<Record>>, queue: set<nat>, top: nat,
                  next: seq<seq<Record>>, queue': set<nat>, s: nat, out: seq<Element>, wc: bool)
    requires MergeInv(orig, cur, out, wc) && QueueState(cur, queue, top) && |queue| > 1
    requires next == cur[top := cur[top][1..]]
    requires queue' == if next[top] == [] then queue - {top} else queue
    requires s in queue' && forall j :: j in queue' ==> next[s][0].key <= next[j][0].key
    requires cur[top][0].key == next[s][0].key
    ensures MergeInv(orig, Absorb(next, s, cur[top][0], wc), out, wc)
    ensures QueueState(Absorb(next, s, cur[top][0], wc), queue', s)
    ensures TotalLen(Absorb(next, s, cur[top][0], wc)) < TotalLen(cur)
  {
    AdvanceTop(cur, queue, top, next, queue');
    PopEqual(orig, cur, top, next, s, out, wc);
    var after := Absorb(next, s, cur[top][0], wc);
    TotalLenUpdate(next, s, after[s]);
    assert forall j :: 0 <= j < |after| ==> |after[j]| == |next[j]| && (after[j] != [] ==> after[j][0].key == next[j][0].key);
  }

  /** After the main loop only the top run can hold records. */
  lemma LastRun(cur: seq<seq<Record>>, queue: set<nat>, top: nat)
    requires QueueState(cur, queue, top) && |queue| <= 1
    ensures top < |cur| && forall j :: 0 <= j < |cur| && j != top ==> cur[j] == []
  {
    forall j | 0 <= j < |cur| && cur[j] != [] ensures j == top {
      SingleMember(queue, top, j);
    }
  }

  /** Draining the last run: its head is reported, and every key left lies above it. */
  lemma DrainStep(orig: seq<seq<Record>>, cur: seq<seq<Record>>, top: nat, next: seq<seq<Record>>, out: seq<Element>, wc: bool)
    requires MergeInv(orig, cur, out, wc)
    requires top < |cur| && cur[top] != [] && forall j :: 0 <= j < |cur| && j != top ==> cur[j] == []
    requires next == cur[top := cur[top][1..]]
    ensures MergeInv(orig, next, out + [Element(cur[top][0].key, Cnt(cur[top][0], wc))], wc)
  {
    assert SortedRun(cur[top]);
    if |cur[top]| > 1 { assert cur[top][0].key < cur[top][1].key; }
    HeadsAbove(next, cur[top][0].key);
    PopDiffer(orig, cur, top, next, out, wc);
  }

  /** merge_walk: reports, through `stop`, each distinct key of the sorted
      runs in ascending order with its count; `failed` is set when the set-up
      is refused, an action asks to abort or a read of the runs fails, and
      `visited` is what the action saw. The model reads each run whole, so
      a failing read_to_buffer is placed by the number of keys reported
      before it: readFault == Some(k) when it comes after `k` reports (it
      is the last read, after the final key, when `k` is past the end). */
  method MergeWalk(bufferSize: nat, keyLength: nat, runs: seq<seq<Record>>, wc: bool, stop: Element -> bool,
                   readFault: Option<nat>)
    returns (failed: bool, visited: seq<Element>)
    requires keyLength > 0
    requires forall i :: 0 <= i < |runs| ==> SortedRun(runs[i]) && runs[i] != []
    ensures MergeSetupFails(bufferSize, keyLength, |runs|) ==> failed && visited == []
    ensures !MergeSetupFails(bufferSize, keyLength, |runs|) ==>
              visited == WalkSeen(Merged(runs, wc), stop, readFault) &&
              failed == (Aborts(Merged(runs, wc), stop) || readFault.Some?)
  {
    if MergeSetupFails(bufferSize, keyLength, |runs|) {
      return true, [];
    }
    // The buffer is cut into one piece per run plus a saved-key slot; the
    // model reads each run whole, so the layout only records the arithmetic.
    var layout := BufferLayout(bufferSize, keyLength, |runs|);
    var aborted, cur, out, top := MergeUntilOneRun(runs, wc, stop, readFault);
    if aborted {
      return true, out;
    }
    failed, visited := WalkLastRun(runs, cur, top, out, wc, stop, readFault);
  }

  /** The main loop of merge_walk: pop the smallest head while more than one
      run holds records, reporting each key whose every copy has been seen. */
  method MergeUntilOneRun(runs: seq<seq<Record>>, wc: bool, stop: Element -> bool, readFault: Option<nat>)
    returns (aborted: bool, cur: seq<seq<Record>>, out: seq<Element>, top: nat)
    requires |runs| > 0
    requires forall i :: 0 <= i < |runs| ==> SortedRun(runs[i]) && runs[i] != []
    ensures aborted ==> out == WalkSeen(Merged(runs, wc), stop, readFault)
    ensures aborted ==> Aborts(Merged(runs, wc), stop) || readFault.Some?
    ensures !aborted ==> MergeInv(runs, cur, out, wc) && top < |cur| && cur[top] != []
    ensures !aborted ==> forall j :: 0 <= j < |cur| && j != top ==> cur[j] == []
    ensures !aborted ==> forall i :: 0 <= i < |out| ==> !stop(out[i])
    ensures !aborted && readFault.Some? ==> |out| <= readFault.value
  {
    cur := runs;
    out := [];
    var queue: set<nat> := set j | 0 <= j < |runs| && runs[j] != [];
    assert 0 in queue;
    top := MinHead(cur, queue);
    while |queue| > 1
      invariant MergeInv(runs, cur, out, wc)
      invariant QueueState(cur, queue, top)
      invariant forall i :: 0 <= i < |out| ==> !stop(out[i])
      invariant readFault.Some? ==> |out| <= readFault.value
      decreases TotalLen(cur)
    {
      if readFault == Some(|out|) {
        ReadFailResult(runs, cur, out, wc, stop, |out|);
        return true, cur, out, top;
      }
      var emitted;
      cur, queue, top, emitted := PopTop(runs, cur, queue, top, out, wc);
      if emitted.Some? {
        out := out + [emitted.value];
        if stop(emitted.value) {
          AbortResult(runs, cur, out, wc, stop);
          SeenBeforeFault(Merged(runs, wc), stop, readFault);
          return true, cur, out, top;
        }
      }
    }
    LastRun(cur, queue, top);
    aborted := false;
  }

  /** One step of the merge loop: take the head record off the top run,
      re-establish the queue's order, and either report the key (the new top
      holds a different key) or fold its count into the new top (it holds
      the same key). */
  method PopTop(ghost runs: seq<seq<Record>>, cur: seq<seq<Record>>, queue: set<nat>, top: nat,
                ghost out: seq<Element>, wc: bool)
    returns (cur': seq<seq<Record>>, queue': set<nat>, top': nat, emitted: Option<Element>)
    requires MergeInv(runs, cur, out, wc) && QueueState(cur, queue, top) && |queue| > 1
    ensures emitted.Some? ==> MergeInv(runs, cur', out + [emitted.value], wc)
    ensures emitted.None? ==> MergeInv(runs, cur', out, wc)
    ensures QueueState(cur', queue', top')
    ensures TotalLen(cur') < TotalLen(cur)
  {
    var x := cur[top][0];
    var next: seq<seq<Record>> := cur[top := cur[top][1..]];
    queue' := if next[top] == [] then queue - {top} else queue;
    assert SortedRun(cur[top]);
    AdvanceTop(cur, queue, top, next, queue');
    top' := MinHead(next, queue');
    if x.key != next[top'][0].key {
      DifferStep(runs, cur, queue, top, next, queue', top', out, wc);
      cur' := next;
      emitted := Some(Element(x.key, Cnt(x, wc)));
    } else {
      EqualStep(runs, cur, queue, top, next, queue', top', out, wc);
      cur' := Absorb(next, top', x, wc);
      emitted := None;
    }
  }

  /** The final loop of merge_walk: report the rest of the last run. */
  method WalkLastRun(runs: seq<seq<Record>>, cur0: seq<seq<Record>>, top: nat, out0: seq<Element>, wc: bool,
                     stop: Element -> bool, readFault: Option<nat>)
    returns (failed: bool, visited: seq<Element>)
    requires MergeInv(runs, cur0, out0, wc) && top < |cur0|
    requires forall j :: 0 <= j < |cur0| && j != top ==> cur0[j] == []
    requires forall i :: 0 <= i < |out0| ==> !stop(out0[i])
    requires readFault.Some? ==> |out0| <= readFault.value
    ensures visited == WalkSeen(Merged(runs, wc), stop, readFault)
    ensures failed == (Aborts(Merged(runs, wc), stop) || readFault.Some?)
  {
    var cur, out := cur0, out0;
    while cur[top] != []
      invariant MergeInv(runs, cur, out, wc)
      invariant |cur| == |cur0|
      invariant forall j :: 0 <= j < |cur| && j != top ==> cur[j] == []
      invariant forall i :: 0 <= i < |out| ==> !stop(out[i])
      invariant readFault.Some? ==> |out| <= readFault.value
      decreases |cur[top]|
    {
      if readFault == Some(|out|) {
        ReadFailResult(runs, cur, out, wc, stop, |out|);
        return true, out;
      }
      var x := cur[top][0];
      var next: seq<seq<Record>> := cur[top := cur[top][1..]];
      DrainStep(runs, cur, top, next, out, wc);
      cur := next;
      out := out + [Element(x.key, Cnt(x, wc))];
      if stop(out[|out| - 1]) {
        AbortResult(runs, cur, out, wc, stop);
        SeenBeforeFault(Merged(runs, wc), stop, readFault);
        return true, out;
      }
    }
    FinalResult(runs, cur, out, wc);
    SeenBeforeFault(Merged(runs, wc), stop, readFault);
    // The read that finds the last run used up can still fail.
    return readFault.Some?, out;
  }

  /** The run whose head the priority queue holds on top: a smallest head. */
  method MinHead(cur: seq<seq<Record>>, queue: set<nat>) returns (s: nat)
    requires queue != {}
    requires forall j :: j in queue ==> j < |cur| && cur[j] != []
    ensures s in queue && forall j :: j in queue ==> cur[s][0].key <= cur[j][0].key
  {
    NatSetHasMember(queue);
    var j0 :| j0 in queue;
    var heads := set j | j in queue :: cur[j][0].key;
    assert cur[j0][0].key in heads;
    var k := MinKey(heads);
    s :| s in queue && cur[s][0].key == k;
    forall j | j in queue ensures cur[s][0].key <= cur[j][0].key {
      assert cur[j][0].key in heads;
    }
  }
}
