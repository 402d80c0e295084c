/** Values of the duplicate-elimination engine in sql/uniques.cc: keys,
    the records written to the scratch file, sorted runs, and the
    specification of "every distinct key once, ascending, with its summed
    count" that flush, walk, get and merge_walk are proved against.
    The comparator is abstracted to the natural order on `int`. */
module UniqueRuns {
  import opened Common

  type Key = int

  /** One record of the scratch file: the key bytes, followed by the
      occurrence counter only in counting mode (min_dupl_count != 0). */
  datatype Record = Record(key: Key, counter: Option<nat>)

  /** What a walk action receives: a key and its count. */
  datatype Element = Element(key: Key, count: nat)

  /** The count a record stands for: its counter in counting mode, else 1
      (merge_walk passes 1 when with_counters is false). */
  function Cnt(r: Record, withCounters: bool): (c: nat)
    ensures !withCounters ==> c == 1
    ensures withCounters && r.counter.Some? ==> c == r.counter.value
  {
    if withCounters && r.counter.Some? then r.counter.value else 1
  }

  /** A run on disk: strictly ascending keys, hence duplicate-free. */
  ghost predicate SortedRun(run: seq<Record>)
  {
    forall i, j :: 0 <= i < j < |run| ==> run[i].key < run[j].key
  }

  ghost predicate SortedElems(s: seq<Element>)
  {
    forall i, j :: 0 <= i < j < |s| ==> s[i].key < s[j].key
  }

  function ElemKeys(s: seq<Element>): set<Key>
  {
    set e | e in s :: e.key
  }

  /** The smallest key of a non-empty key set. */
  function MinKey(ks: set<Key>): (k: Key)
    requires ks != {}
    ensures k in ks && forall j :: j in ks ==> k <= j
  {
    MinKeyExists(ks);
    var k :| k in ks && (forall j :: j in ks ==> k <= j); k
  }

  lemma {:induction false} MinKeyExists(ks: set<Key>)
    requires ks != {}
    ensures exists k :: k in ks && forall j :: j in ks ==> k <= j
    decreases |ks|
  {
    KeySetHasMember(ks);
    var x :| x in ks;
    var rest := ks - {x};
    if rest == {} {
      assert forall j :: j in ks ==> x <= j by {
        forall j | j in ks ensures x <= j { assert j !in rest; }
      }
    } else {
      MinKeyExists(rest);
      var m :| m in rest && forall j :: j in rest ==> m <= j;
      if x < m {
        assert forall j :: j in ks ==> x <= j by {
          forall j | j in ks ensures x <= j { if j != x { assert j in rest; } }
        }
      } else {
        assert forall j :: j in ks ==> m <= j by {
          forall j | j in ks ensures m <= j { if j != x { assert j in rest; } }
        }
      }
    }
  }

  /** A non-empty key set has a member; used before picking one with `:|`. */
  lemma KeySetHasMember(ks: set<Key>)
    requires ks != {}
    ensures exists x :: x in ks
  {
    if forall x :: x !in ks { assert false; }
  }

  lemma ElemKeysCons(e: Element, t: seq<Element>)
    ensures ElemKeys([e] + t) == {e.key} + ElemKeys(t)
  {
    var s := [e] + t;
    forall x | x in ElemKeys(s) ensures x in {e.key} + ElemKeys(t) {
      var d :| d in s && d.key == x;
      if d != e { assert d in t; }
    }
    forall x | x in ElemKeys(t) ensures x in ElemKeys(s) {
      var d :| d in t && d.key == x;
      assert d in s;
    }
    assert e in s;
  }

  /** Removing the smallest key from a map leaves one key fewer. */
  lemma RemoveKey(m: map<Key, nat>, k: Key)
    requires k in m
    ensures (m - {k}).Keys == m.Keys - {k}
    ensures |m - {k}| == |m| - 1
  {
    assert (m - {k}).Keys == m.Keys - {k};
    assert |(m - {k}).Keys| == |m.Keys| - 1;
  }

  /** In-order (left-root-right) traversal of the tree, viewed as a map from
      key to occurrence count: every key once, ascending, with its count. */
  function InOrder(m: map<Key, nat>): (s: seq<Element>)
    ensures |s| == |m|
    decreases |m|
  {
    if |m| == 0 then []
    else
      var k := MinKey(m.Keys);
      RemoveKey(m, k);
      [Element(k, m[k])] + InOrder(m - {k})
  }

  /** The traversal lists every key of the map once, ascending, with its count. */
  lemma {:induction false} InOrderSpec(m: map<Key, nat>)
    ensures SortedElems(InOrder(m))
    ensures ElemKeys(InOrder(m)) == m.Keys
    ensures forall i :: 0 <= i < |InOrder(m)| ==> InOrder(m)[i].key in m && InOrder(m)[i].count == m[InOrder(m)[i].key]
    decreases |m|
  {
    if |m| != 0 {
      var k := MinKey(m.Keys);
      RemoveKey(m, k);
      var tail := InOrder(m - {k});
      InOrderSpec(m - {k});
      InOrderCons(m, k, tail);
      assert InOrder(m) == [Element(k, m[k])] + tail;
    }
  }

  lemma InOrderCons(m: map<Key, nat>, k: Key, tail: seq<Element>)
    requires k in m && forall j :: j in m ==> k <= j
    requires (m - {k}).Keys == m.Keys - {k} && |tail| == |m| - 1
    requires SortedElems(tail) && ElemKeys(tail) == m.Keys - {k}
    requires forall i :: 0 <= i < |tail| ==> tail[i].key in m - {k} && tail[i].count == (m - {k})[tail[i].key]
    ensures SortedElems([Element(k, m[k])] + tail)
    ensures ElemKeys([Element(k, m[k])] + tail) == m.Keys
    ensures forall i :: 0 <= i < |tail| ==> tail[i].key in m && tail[i].count == m[tail[i].key]
  {
    ElemKeysCons(Element(k, m[k]), tail);
    forall j | 0 <= j < |tail| ensures k < tail[j].key {
      assert tail[j].key in m.Keys - {k};
    }
  }

  /** A sorted sequence of elements that agrees with `m` on the keys it holds,
      and whose last key lies below every key of `m` it does not hold, is the
      beginning of the in-order traversal of `m`. */
  lemma {:induction false} PrefixOfInOrder(out: seq<Element>, m: map<Key, nat>)
    requires SortedElems(out)
    requires forall i :: 0 <= i < |out| ==> out[i].key in m && out[i].count == m[out[i].key]
    requires out != [] ==> forall k :: k in m && k !in ElemKeys(out) ==> out[|out| - 1].key < k
    ensures |out| <= |InOrder(m)| && InOrder(m)[..|out|] == out
    decreases |out|
  {
    if out != [] {
      var k := out[0].key;
      var rest := m - {k};
      var whole, r := InOrder(m), InOrder(rest);
      assert whole == [out[0]] + r by {
        HeadIsMin(out, m);
        assert MinKey(m.Keys) == k;
      }
      assert |out| - 1 <= |r| && r[..|out| - 1] == out[1..] by {
        PrefixTail(out, m);
        PrefixOfInOrder(out[1..], rest);
      }
      ConsPrefix(out, whole, r);
    } else {
      var whole := InOrder(m);
      assert whole[..0] == out;
    }
  }

  lemma ConsPrefix(out: seq<Element>, whole: seq<Element>, r: seq<Element>)
    requires out != [] && whole == [out[0]] + r
    requires |out| - 1 <= |r| && r[..|out| - 1] == out[1..]
    ensures |out| <= |whole| && whole[..|out|] == out
  {
    assert out == [out[0]] + out[1..];
  }

  /** The tail of such a prefix is a prefix for the map without its first key. */
  lemma PrefixTail(out: seq<Element>, m: map<Key, nat>)
    requires out != [] && SortedElems(out)
    requires forall i :: 0 <= i < |out| ==> out[i].key in m && out[i].count == m[out[i].key]
    requires forall k :: k in m && k !in ElemKeys(out) ==> out[|out| - 1].key < k
    ensures var tail, rest := out[1..], m - {out[0].key};
      && SortedElems(tail)
      && (forall i :: 0 <= i < |tail| ==> tail[i].key in rest && tail[i].count == rest[tail[i].key])
      && (tail != [] ==> forall k :: k in rest && k !in ElemKeys(tail) ==> tail[|tail| - 1].key < k)
  {
    var k := out[0].key;
    var tail := out[1..];
    var rest := m - {k};
    assert out == [out[0]] + tail;
    ElemKeysCons(out[0], tail);
    forall i | 0 <= i < |tail| ensures tail[i].key in rest && tail[i].count == rest[tail[i].key] {
      assert out[0].key < out[i + 1].key;
    }
    if tail != [] {
      forall j | j in rest && j !in ElemKeys(tail) ensures tail[|tail| - 1].key < j {
        assert j !in ElemKeys(out);
      }
    }
  }

  lemma HeadIsMin(out: seq<Element>, m: map<Key, nat>)
    requires out != [] && SortedElems(out)
    requires forall k :: k in m && k !in ElemKeys(out) ==> out[|out| - 1].key < k
    ensures forall j :: j in m.Keys ==> out[0].key <= j
  {
    forall j | j in m.Keys ensures out[0].key <= j {
      if j in ElemKeys(out) {
        var e :| e in out && e.key == j;
        var i :| 0 <= i < |out| && out[i] == e;
        assert i == 0 || out[0].key < out[i].key;
      } else {
        assert |out| == 1 || out[0].key < out[|out| - 1].key;
      }
    }
  }

  /** Sortedness and agreement on keys and counts determine the in-order
      traversal: there is only one sorted listing of a map. */
  lemma InOrderUnique(s: seq<Element>, m: map<Key, nat>)
    requires SortedElems(s)
    requires ElemKeys(s) == m.Keys
    requires forall i :: 0 <= i < |s| ==> s[i].count == m[s[i].key]
    ensures s == InOrder(m)
  {
    forall i | 0 <= i < |s| ensures s[i].key in m { assert s[i] in s; }
    PrefixOfInOrder(s, m);
    DistinctKeysCount(s);
    assert |m.Keys| == |m|;
  }

  /** A sorted sequence has as many distinct keys as elements. */
  lemma {:induction false} DistinctKeysCount(s: seq<Element>)
    requires SortedElems(s)
    ensures |ElemKeys(s)| == |s|
  {
    if s != [] {
      var tail := s[1..];
      assert s == [s[0]] + tail;
      DistinctKeysCount(tail);
      ElemKeysCons(s[0], tail);
      forall e | e in tail ensures e.key != s[0].key {
        var i :| 0 <= i < |tail| && tail[i] == e;
        assert s[0].key < s[i + 1].key;
      }
    }
  }

  /** The records a walk over `s` writes: the key, then the count only in counting mode. */
  function Encode(s: seq<Element>, withCounters: bool): (r: seq<Record>)
    ensures |r| == |s|
    ensures forall i :: 0 <= i < |s| ==> r[i].key == s[i].key
    ensures forall i :: 0 <= i < |s| ==> r[i].counter == (if withCounters then Some(s[i].count) else None)
  {
    seq(|s|, i requires 0 <= i < |s| => Record(s[i].key, if withCounters then Some(s[i].count) else None))
  }

  lemma EncodeSorted(s: seq<Element>, withCounters: bool)
    requires SortedElems(s)
    ensures SortedRun(Encode(s, withCounters))
  {
  }

  /** Sum of the counts of key `k` in one run. */
  function RunCount(run: seq<Record>, k: Key, withCounters: bool): nat
  {
    if run == [] then 0
    else (if run[0].key == k then Cnt(run[0], withCounters) else 0) + RunCount(run[1..], k, withCounters)
  }

  /** Sum of the counts of key `k` over all runs. */
  function Occurs(runs: seq<seq<Record>>, k: Key, withCounters: bool): nat
  {
    if runs == [] then 0 else RunCount(runs[0], k, withCounters) + Occurs(runs[1..], k, withCounters)
  }

  /** Some run holds a record with key `k`. */
  ghost predicate Present(runs: seq<seq<Record>>, k: Key)
  {
    Occurs(runs, k, false) > 0
  }

  /** The count the merge reports for key `k`: the summed counters in
      counting mode, 1 otherwise. */
  function Value(runs: seq<seq<Record>>, k: Key, withCounters: bool): nat
  {
    if withCounters then Occurs(runs, k, true) else 1
  }

  function RunKeys(run: seq<Record>): set<Key>
  {
    set r | r in run :: r.key
  }

  function AllKeys(runs: seq<seq<Record>>): set<Key>
  {
    if runs == [] then {} else RunKeys(runs[0]) + AllKeys(runs[1..])
  }

  /** Every distinct key of the runs with the count the merge reports for it. */
  function Summary(runs: seq<seq<Record>>, withCounters: bool): (m: map<Key, nat>)
    ensures m.Keys == AllKeys(runs)
  {
    map k | k in AllKeys(runs) :: Value(runs, k, withCounters)
  }

  /** The result of merging runs: every distinct key once, ascending. */
  function Merged(runs: seq<seq<Record>>, withCounters: bool): seq<Element>
  {
    InOrder(Summary(runs, withCounters))
  }

  lemma {:induction false} RunCountKeys(run: seq<Record>, k: Key)
    ensures RunCount(run, k, false) > 0 <==> k in RunKeys(run)
  {
    if run != [] {
      RunCountKeys(run[1..], k);
      assert RunKeys(run) == {run[0].key} + RunKeys(run[1..]) by {
        forall x | x in RunKeys(run) ensures x in {run[0].key} + RunKeys(run[1..]) {
          var r :| r in run && r.key == x;
          var i :| 0 <= i < |run| && run[i] == r;
          if i > 0 { assert r == run[1..][i - 1]; }
        }
        forall x | x in RunKeys(run[1..]) ensures x in RunKeys(run) {
          var r :| r in run[1..] && r.key == x;
          assert r in run;
        }
        assert run[0] in run;
      }
    }
  }

  /** A key belongs to the merged key set exactly when some run holds it. */
  lemma {:induction false} AllKeysPresent(runs: seq<seq<Record>>, k: Key)
    ensures k in AllKeys(runs) <==> Present(runs, k)
  {
    if runs != [] {
      RunCountKeys(runs[0], k);
      AllKeysPresent(runs[1..], k);
    }
  }

  /** A run without key `k` contributes nothing to its count. */
  lemma {:induction false} AbsentRunCount(run: seq<Record>, k: Key, withCounters: bool)
    requires RunCount(run, k, false) == 0
    ensures RunCount(run, k, withCounters) == 0
  {
    if run != [] { AbsentRunCount(run[1..], k, withCounters); }
  }

  lemma {:induction false} AbsentOccurs(runs: seq<seq<Record>>, k: Key, withCounters: bool)
    requires !Present(runs, k)
    ensures Occurs(runs, k, withCounters) == 0
  {
    if runs != [] {
      AbsentRunCount(runs[0], k, withCounters);
      AbsentOccurs(runs[1..], k, withCounters);
    }
  }

  /** Replacing one run changes the total count by the difference of the two runs' counts. */
  lemma {:induction false} OccursUpdate(runs: seq<seq<Record>>, t: nat, r: seq<Record>, k: Key, withCounters: bool)
    requires t < |runs|
    ensures Occurs(runs[t := r], k, withCounters) + RunCount(runs[t], k, withCounters)
         == Occurs(runs, k, withCounters) + RunCount(r, k, withCounters)
  {
    if t > 0 {
      OccursUpdate(runs[1..], t - 1, r, k, withCounters);
      assert runs[t := r][1..] == runs[1..][t - 1 := r];
    }
  }

  /** Every key of a sorted run is at least its head. */
  lemma {:induction false} SortedRunAbove(run: seq<Record>, x: Key)
    requires SortedRun(run)
    requires run != [] ==> x < run[0].key
    ensures RunCount(run, x, false) == 0
  {
    if run != [] {
      if |run| > 1 { assert run[0].key < run[1].key; }
      SortedRunAbove(run[1..], x);
    }
  }

  /** When every non-empty sorted run starts above `x`, no run holds a key at or below `x`. */
  lemma {:induction false} HeadsAbove(runs: seq<seq<Record>>, x: Key)
    requires forall i :: 0 <= i < |runs| ==> SortedRun(runs[i])
    requires forall i :: 0 <= i < |runs| && runs[i] != [] ==> x < runs[i][0].key
    ensures forall k :: Present(runs, k) ==> x < k
  {
    forall k | Present(runs, k) ensures x < k {
      if k <= x { HeadsAboveAt(runs, x, k); }
    }
  }

  lemma {:induction false} HeadsAboveAt(runs: seq<seq<Record>>, x: Key, k: Key)
    requires forall i :: 0 <= i < |runs| ==> SortedRun(runs[i])
    requires forall i :: 0 <= i < |runs| && runs[i] != [] ==> x < runs[i][0].key
    requires k <= x
    ensures Occurs(runs, k, false) == 0
  {
    if runs != [] {
      SortedRunAbove(runs[0], k);
      HeadsAboveAt(runs[1..], x, k);
    }
  }

  /** Total number of records in the runs. */
  function TotalLen(runs: seq<seq<Record>>): nat
  {
    if runs == [] then 0 else |runs[0]| + TotalLen(runs[1..])
  }

  lemma {:induction false} TotalLenUpdate(runs: seq<seq<Record>>, t: nat, r: seq<Record>)
    requires t < |runs|
    ensures TotalLen(runs[t := r]) + |runs[t]| == TotalLen(runs) + |r|
  {
    if t > 0 {
      TotalLenUpdate(runs[1..], t - 1, r);
      assert runs[t := r][1..] == runs[1..][t - 1 := r];
    }
  }

  /** The part of a walk that happens: every element up to and including the
      first one whose action requests an abort. */
  function UntilStop(s: seq<Element>, stop: Element -> bool): (r: seq<Element>)
    ensures |r| <= |s| && r == s[..|r|]
    ensures (forall i :: 0 <= i < |s| ==> !stop(s[i])) ==> r == s
    ensures forall i :: 0 <= i < |r| - 1 ==> !stop(r[i])
    ensures r != [] && r != s ==> stop(r[|r| - 1])
  {
    if s == [] then []
    else if stop(s[0]) then [s[0]]
    else
      var tail := UntilStop(s[1..], stop);
      assert forall i :: 1 <= i < |s| ==> s[i] == s[1..][i - 1];
      [s[0]] + tail
  }

  /** Some element of `s` makes its action request an abort. */
  predicate Aborts(s: seq<Element>, stop: Element -> bool)
  {
    exists i :: 0 <= i < |s| && stop(s[i])
  }

  /** A prefix of `s` whose last element is the first to stop is what UntilStop keeps. */
  lemma {:induction false} UntilStopPrefix(s: seq<Element>, p: seq<Element>, stop: Element -> bool)
    requires p != [] && |p| <= |s| && s[..|p|] == p
    requires forall i :: 0 <= i < |p| - 1 ==> !stop(p[i])
    requires stop(p[|p| - 1])
    ensures UntilStop(s, stop) == p
  {
    if |p| > 1 {
      assert !stop(s[0]);
      UntilStopPrefix(s[1..], p[1..], stop);
    }
  }
}
