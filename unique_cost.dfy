/** The integer skeleton of the Unique cost model (get_use_cost,
    get_merge_buffers_cost, get_merge_many_buffs_cost in sql/uniques.cc).
    The floating-point terms are left out; what remains is how many trees
    are built, which merge_buffers calls are simulated and how many
    elements each of them handles. */
module UniqueCost {
  import opened UniqueRuns
  import opened UniquePasses

  /** sizeof(TREE_ELEMENT) on a 64-bit build: two child pointers and a
      32-bit count/colour word, padded to pointer alignment. */
  const TREE_ELEMENT_SIZE: nat := 24
  /** sizeof(element_count). */
  const COUNTER_SIZE: nat := 4

  /** ALIGN_SIZE: round up to a multiple of sizeof(double). */
  function AlignSize(a: nat): (r: nat)
    ensures r % 8 == 0 && a <= r < a + 8
  {
    (a + 7) / 8 * 8
  }

  /** Elements that fit in a tree of maxInMemorySize bytes, at least one
      (Unique::Unique and get_use_cost share the formula). */
  function MaxElementsInTree(maxInMemorySize: nat, keySize: nat): (r: nat)
    ensures r >= 1
    ensures var width := AlignSize(TREE_ELEMENT_SIZE + keySize);
      if maxInMemorySize < width then r == 1
      else r * width <= maxInMemorySize < (r + 1) * width
  {
    var width := AlignSize(TREE_ELEMENT_SIZE + keySize);
    DivBounds(maxInMemorySize, width);
    var n := maxInMemorySize / width;
    if n == 0 then 1 else n
  }

  lemma DivBounds(m: nat, w: nat)
    requires w > 0
    ensures (m / w) * w <= m < (m / w + 1) * w
    ensures m / w == 0 <==> m < w
    ensures m == (m / w) * w + m % w && m % w < w
  {
    assert m == (m / w) * w + m % w;
  }

  /** Sum of buffer sizes. */
  function Sum(s: seq<nat>): nat
  {
    if s == [] then 0 else Sum(s[..|s| - 1]) + s[|s| - 1]
  }

  lemma {:induction false} SumConcat(a: seq<nat>, b: seq<nat>)
    ensures Sum(a + b) == Sum(a) + Sum(b)
    decreases |b|
  {
    if b == [] {
      assert a + b == a;
    } else {
      assert (a + b)[..|a + b| - 1] == a + b[..|b| - 1];
      SumConcat(a, b[..|b| - 1]);
    }
  }

  /** One simulated merge_buffers call: how many buffers it merges and how
      many elements it reads and writes. The cost in disk seeks is a
      floating-point function of these two numbers and the element size. */
  datatype MergeCall = MergeCall(nBuffers: nat, totalElems: nat)

  /** get_merge_buffers_cost: totals buff[first..last], stores the total in
      buff[last] and returns what the cost is computed from. */
  method GetMergeBuffersCost(buff: array<nat>, first: nat, last: nat) returns (call: MergeCall)
    requires first <= last < buff.Length
    modifies buff
    ensures buff[..] == old(buff[..])[last := Sum(old(buff[first..last + 1]))]
    ensures call == MergeCall(last - first + 1, Sum(old(buff[first..last + 1])))
  {
    var total := 0;
    var p := first;
    while p <= last
      invariant first <= p <= last + 1
      invariant total == Sum(buff[first..p])
    {
      assert buff[first..p + 1][..p - first] == buff[first..p];
      total := total + buff[p];
      p := p + 1;
    }
    buff[last] := total;
    call := MergeCall(last - first + 1, total);
  }

  // ---------------------------------------------------------------------
  // The pass structure merge_many_buff follows, on buffer sizes.

  /** The merge_buffers calls of one pass over buffers of the given sizes:
      groups of MERGEBUFF while more than MERGEBUFF*3/2 buffers follow the
      group's first, then one group with the rest. */
  function PassCalls(sizes: seq<nat>): (r: seq<MergeCall>)
    requires |sizes| >= 1
    ensures |r| >= 1 && MERGEBUFF * (|r| - 1) <= |sizes| - 1
    decreases |sizes|
  {
    if |sizes| - 1 >= MERGEBUFF * 3 / 2 then
      [MergeCall(MERGEBUFF, Sum(sizes[..MERGEBUFF]))] + PassCalls(sizes[MERGEBUFF..])
    else [MergeCall(|sizes|, Sum(sizes))]
  }

  /** The buffer sizes after a pass: one buffer per call, holding its total. */
  function Totals(calls: seq<MergeCall>): (r: seq<nat>)
    ensures |r| == |calls|
  {
    if calls == [] then [] else [calls[0].totalElems] + Totals(calls[1..])
  }

  /** The calls of merge_many_buff followed by the final merge, as the cost
      simulation means them: passes while the index of the last buffer is
      at least MERGEBUFF2, each pass leaving one buffer per call. */
  function ManyBuffsCalls(sizes: seq<nat>): (r: seq<MergeCall>)
    requires |sizes| >= 1
    ensures r != []
    decreases |sizes|
  {
    if |sizes| - 1 >= MERGEBUFF2 then
      PassCalls(sizes) + ManyBuffsCalls(Totals(PassCalls(sizes)))
    else [MergeCall(|sizes|, Sum(sizes))]
  }

  lemma {:induction false} TotalsConcat(a: seq<MergeCall>, b: seq<MergeCall>)
    ensures Totals(a + b) == Totals(a) + Totals(b)
  {
    if a != [] {
      assert (a + b)[1..] == a[1..] + b;
      TotalsConcat(a[1..], b);
    } else {
      assert a + b == b;
    }
  }

  lemma SumCons(x: nat, s: seq<nat>)
    ensures Sum([x] + s) == x + Sum(s)
  {
    SumConcat([x], s);
    assert [x][..0] == [];
  }

  /** No element is lost by a pass: the new buffers hold all the old ones. */
  lemma {:induction false} PassKeepsElements(sizes: seq<nat>)
    requires |sizes| >= 1
    ensures Sum(Totals(PassCalls(sizes))) == Sum(sizes)
    decreases |sizes|
  {
    var calls := PassCalls(sizes);
    if |sizes| - 1 >= MERGEBUFF * 3 / 2 {
      var head, rest := sizes[..MERGEBUFF], sizes[MERGEBUFF..];
      var first := MergeCall(MERGEBUFF, Sum(head));
      assert calls == [first] + PassCalls(rest);
      assert Totals(calls) == [Sum(head)] + Totals(PassCalls(rest)) by {
        assert ([first] + PassCalls(rest))[1..] == PassCalls(rest);
      }
      SumCons(Sum(head), Totals(PassCalls(rest)));
      PassKeepsElements(rest);
      assert sizes == head + rest;
      SumConcat(head, rest);
    } else {
      assert Totals(calls) == [Sum(sizes)] + [];
      SumCons(Sum(sizes), []);
    }
  }

  /** The final merge handles every element of every buffer (the cost
      model's assumption that no rows are eliminated). */
  lemma {:induction false} FinalMergeTotal(sizes: seq<nat>)
    requires |sizes| >= 1
    ensures var calls := ManyBuffsCalls(sizes);
      calls[|calls| - 1].totalElems == Sum(sizes) && calls[|calls| - 1].nBuffers <= MERGEBUFF2
    decreases |sizes|
  {
    if |sizes| - 1 >= MERGEBUFF2 {
      var next := Totals(PassCalls(sizes));
      PassKeepsElements(sizes);
      FinalMergeTotal(next);
      var tail := ManyBuffsCalls(next);
      assert ManyBuffsCalls(sizes) == PassCalls(sizes) + tail;
      assert (PassCalls(sizes) + tail)[|PassCalls(sizes) + tail| - 1] == tail[|tail| - 1];
    }
  }

  /** The cost simulation leaves as many buffers after a pass as
      merge_many_buff leaves runs. */
  lemma {:induction false} PassCountMatches(sizes: seq<nat>, runs: seq<seq<Record>>, wc: bool)
    requires |sizes| == |runs| >= 1
    ensures |PassCalls(sizes)| == |PassFrom(runs, wc)|
    decreases |sizes|
  {
    if |sizes| - 1 >= MERGEBUFF * 3 / 2 {
      PassCountMatches(sizes[MERGEBUFF..], runs[MERGEBUFF..], wc);
    }
  }

  // ---------------------------------------------------------------------
  // get_merge_many_buffs_cost as written.

  /** maxbuffer buffers of maxN elements, then one of lastN. */
  function Buffers(maxbuffer: nat, maxN: nat, lastN: nat): (r: seq<nat>)
    ensures |r| == maxbuffer + 1
  {
    seq(maxbuffer, _ => maxN) + [lastN]
  }

  lemma {:induction false} BuffersSum(maxbuffer: nat, maxN: nat, lastN: nat)
    ensures Sum(Buffers(maxbuffer, maxN, lastN)) == maxbuffer * maxN + lastN
    decreases maxbuffer
  {
    var r := Buffers(maxbuffer, maxN, lastN);
    assert r[..|r| - 1] == seq(maxbuffer, _ => maxN);
    ConstSum(maxbuffer, maxN);
  }

  lemma {:induction false} ConstSum(n: nat, v: nat)
    ensures Sum(seq(n, _ => v)) == n * v
  {
    if n > 0 {
      var s := seq(n, _ => v);
      assert s[..n - 1] == seq(n - 1, _ => v);
      ConstSum(n - 1, v);
    }
  }

  /** The scratch array get_merge_many_buffs_cost starts from: the
      initial buffer sizes, then whatever the rest of the array held. */
  function InitialSizes(b: seq<nat>, maxbuffer: nat, maxN: nat, lastN: nat): (r: seq<nat>)
    requires maxbuffer < |b|
    ensures |r| == |b| && r[..maxbuffer + 1] == Buffers(maxbuffer, maxN, lastN)
    ensures r[maxbuffer + 1..] == b[maxbuffer + 1..]
  {
    Buffers(maxbuffer, maxN, lastN) + b[maxbuffer + 1..]
  }

  /** The simulation state: the scratch array and the calls made so far. */
  datatype Sim = Sim(elems: seq<nat>, calls: seq<MergeCall>)

  /** One get_merge_buffers_cost call on the simulation state. */
  function MergeStep(s: Sim, first: nat, last: nat): (r: Sim)
    requires first <= last < |s.elems|
    ensures r.calls == s.calls + [MergeCall(last - first + 1, Sum(s.elems[first..last + 1]))]
    ensures |r.elems| == |s.elems| && r.elems[last] == Sum(s.elems[first..last + 1])
    ensures forall j :: 0 <= j < |s.elems| && j != last ==> r.elems[j] == s.elems[j]
  {
    var total := Sum(s.elems[first..last + 1]);
    Sim(s.elems[last := total], s.calls + [MergeCall(last - first + 1, total)])
  }

  /** Index of the first buffer the inner loop leaves to the trailing call:
      the number of full groups is i / MERGEBUFF. */
  function FullGroups(maxbuffer: nat): (n: nat)
    ensures n * MERGEBUFF + MERGEBUFF * 3 / 2 > maxbuffer
    ensures n > 0 ==> (n - 1) * MERGEBUFF + MERGEBUFF * 3 / 2 <= maxbuffer
  {
    if maxbuffer < MERGEBUFF * 3 / 2 then 0 else (maxbuffer - MERGEBUFF * 3 / 2) / MERGEBUFF + 1
  }

  /** The inner loop's counter ends at FullGroups(maxbuffer). */
  lemma FullGroupsUnique(n: nat, maxbuffer: nat)
    requires n * MERGEBUFF + MERGEBUFF * 3 / 2 > maxbuffer
    requires n > 0 ==> (n - 1) * MERGEBUFF + MERGEBUFF * 3 / 2 <= maxbuffer
    ensures n == FullGroups(maxbuffer)
  {
  }

  /** A pass leaves fewer buffers than it started with. */
  lemma FullGroupsShrinks(maxbuffer: nat)
    requires maxbuffer >= MERGEBUFF2
    ensures FullGroups(maxbuffer) < maxbuffer
  {
  }

  /** The inner loop of one pass from group start i, as written: each
      call's total lands in the last buffer it merged. */
  function PassAsWritten(s: Sim, i: nat, maxbuffer: nat): (r: Sim)
    requires maxbuffer < |s.elems| && i <= maxbuffer
    ensures |r.elems| == |s.elems|
    decreases maxbuffer - i
  {
    if i + MERGEBUFF * 3 / 2 <= maxbuffer then
      PassAsWritten(MergeStep(s, i, i + MERGEBUFF - 1), i + MERGEBUFF, maxbuffer)
    else MergeStep(s, i, maxbuffer)
  }

  /** The pass loop and the final merge, as written: after a pass the next
      one reads buffers 0..FullGroups(maxbuffer) where they were. */
  function ManyBuffsAsWritten(s: Sim, maxbuffer: nat): (r: Sim)
    requires maxbuffer < |s.elems|
    ensures |r.elems| == |s.elems|
    decreases maxbuffer
  {
    if maxbuffer >= MERGEBUFF2 then
      FullGroupsShrinks(maxbuffer);
      ManyBuffsAsWritten(PassAsWritten(s, 0, maxbuffer), FullGroups(maxbuffer))
    else MergeStep(s, 0, maxbuffer)
  }

  /** A pass as written only adds calls. */
  lemma {:induction false} PassAsWrittenGrows(s: Sim, i: nat, maxbuffer: nat)
    requires maxbuffer < |s.elems| && i <= maxbuffer
    ensures |PassAsWritten(s, i, maxbuffer).calls| > |s.calls|
    decreases maxbuffer - i
  {
    if i + MERGEBUFF * 3 / 2 <= maxbuffer {
      PassAsWrittenGrows(MergeStep(s, i, i + MERGEBUFF - 1), i + MERGEBUFF, maxbuffer);
    }
  }

  /** The simulation as written always ends with at least one call. */
  lemma {:induction false} ManyBuffsAsWrittenGrows(s: Sim, maxbuffer: nat)
    requires maxbuffer < |s.elems|
    ensures |ManyBuffsAsWritten(s, maxbuffer).calls| > |s.calls|
    decreases maxbuffer
  {
    if maxbuffer >= MERGEBUFF2 {
      FullGroupsShrinks(maxbuffer);
      PassAsWrittenGrows(s, 0, maxbuffer);
      ManyBuffsAsWrittenGrows(PassAsWritten(s, 0, maxbuffer), FullGroups(maxbuffer));
    }
  }

  /** get_merge_many_buffs_cost, following the source's loops: returns the
      merge_buffers calls whose costs it adds up. */
  method GetMergeManyBuffsCost(buffer: array<nat>, maxbuffer: nat, maxN: nat, lastN: nat) returns (calls: seq<MergeCall>)
    requires maxbuffer < buffer.Length
    modifies buffer
    ensures var r := ManyBuffsAsWritten(Sim(InitialSizes(old(buffer[..]), maxbuffer, maxN, lastN), []), maxbuffer);
      calls == r.calls && buffer[..] == r.elems
  {
    ghost var initial := InitialSizes(buffer[..], maxbuffer, maxN, lastN);
    FillInitial(buffer, maxbuffer, maxN, lastN);
    calls := [];
    var mb: nat := maxbuffer;
    while mb >= MERGEBUFF2
      invariant mb < buffer.Length
      invariant ManyBuffsAsWritten(Sim(buffer[..], calls), mb) == ManyBuffsAsWritten(Sim(initial, []), maxbuffer)
      decreases mb
    {
      FullGroupsShrinks(mb);
      var lastbuff;
      calls, lastbuff := PassLoopAsWritten(buffer, mb, calls);
      mb := lastbuff;
    }
    var call := GetMergeBuffersCost(buffer, 0, mb);
    calls := calls + [call];
  }

  /** The initialisation loop of get_merge_many_buffs_cost. */
  method FillInitial(buffer: array<nat>, maxbuffer: nat, maxN: nat, lastN: nat)
    requires maxbuffer < buffer.Length
    modifies buffer
    ensures buffer[..] == InitialSizes(old(buffer[..]), maxbuffer, maxN, lastN)
  {
    var i := 0;
    while i < maxbuffer
      invariant 0 <= i <= maxbuffer
      invariant forall j :: 0 <= j < i ==> buffer[j] == maxN
      invariant forall j :: i <= j < buffer.Length ==> buffer[j] == old(buffer[j])
    {
      buffer[i] := maxN;
      i := i + 1;
    }
    buffer[maxbuffer] := lastN;
  }

  /** One pass of the simulation, as written. */
  method PassLoopAsWritten(buffer: array<nat>, maxbuffer: nat, calls0: seq<MergeCall>) returns (calls: seq<MergeCall>, lastbuff: nat)
    requires maxbuffer < buffer.Length
    modifies buffer
    ensures Sim(buffer[..], calls) == PassAsWritten(Sim(old(buffer[..]), calls0), 0, maxbuffer)
    ensures lastbuff == FullGroups(maxbuffer)
  {
    calls := calls0;
    lastbuff := 0;
    var i := 0;
    while i + MERGEBUFF * 3 / 2 <= maxbuffer
      invariant i <= maxbuffer && i == MERGEBUFF * lastbuff
      invariant lastbuff > 0 ==> (lastbuff - 1) * MERGEBUFF + MERGEBUFF * 3 / 2 <= maxbuffer
      invariant PassAsWritten(Sim(buffer[..], calls), i, maxbuffer) == PassAsWritten(Sim(old(buffer[..]), calls0), 0, maxbuffer)
      decreases maxbuffer - i
    {
      var call := GetMergeBuffersCost(buffer, i, i + MERGEBUFF - 1);
      calls := calls + [call];
      i := i + MERGEBUFF;
      lastbuff := lastbuff + 1;
    }
    FullGroupsUnique(lastbuff, maxbuffer);
    var call := GetMergeBuffersCost(buffer, i, maxbuffer);
    calls := calls + [call];
  }

  // ---------------------------------------------------------------------
  // get_merge_many_buffs_cost with each call's total moved to the front,
  // as merge_many_buff does with its output runs.

  /** get_merge_many_buffs_cost with the pass results compacted: after call
      number lastbuff of a pass, buff[lastbuff] receives its total. */
  method GetMergeManyBuffsCostCompacted(buffer: array<nat>, maxbuffer: nat, maxN: nat, lastN: nat) returns (calls: seq<MergeCall>)
    requires maxbuffer < buffer.Length
    modifies buffer
    ensures calls == ManyBuffsCalls(Buffers(maxbuffer, maxN, lastN))
    ensures calls[|calls| - 1].totalElems == maxbuffer * maxN + lastN
  {
    FillInitial(buffer, maxbuffer, maxN, lastN);
    var mb;
    calls, mb := PassesCompacted(buffer, maxbuffer);
    ghost var rest := buffer[..mb + 1];
    assert buffer[0..mb + 1] == rest;
    var call := GetMergeBuffersCost(buffer, 0, mb);
    FinalStep(calls, rest, call);
    calls := calls + [call];
    FinalMergeTotal(Buffers(maxbuffer, maxN, lastN));
    BuffersSum(maxbuffer, maxN, lastN);
  }

  lemma FinalStep(calls: seq<MergeCall>, rest: seq<nat>, call: MergeCall)
    requires 1 <= |rest| <= MERGEBUFF2 && call == MergeCall(|rest|, Sum(rest))
    ensures calls + ManyBuffsCalls(rest) == calls + [call]
  {
  }

  lemma ConcatAssoc(a: seq<MergeCall>, b: seq<MergeCall>, c: seq<MergeCall>)
    ensures a + b + c == a + (b + c)
  {
  }

  /** The pass loop with compaction: returns the calls made and the index
      of the last buffer left. */
  method PassesCompacted(buffer: array<nat>, maxbuffer: nat) returns (calls: seq<MergeCall>, mb: nat)
    requires maxbuffer < buffer.Length
    modifies buffer
    ensures mb < MERGEBUFF2 && mb <= maxbuffer
    ensures calls + ManyBuffsCalls(buffer[..mb + 1]) == ManyBuffsCalls(old(buffer[..maxbuffer + 1]))
  {
    ghost var target := ManyBuffsCalls(buffer[..maxbuffer + 1]);
    calls := [];
    mb := maxbuffer;
    while mb >= MERGEBUFF2
      invariant mb <= maxbuffer
      invariant calls + ManyBuffsCalls(buffer[..mb + 1]) == target
      decreases mb
    {
      ghost var before := buffer[..mb + 1];
      var passCalls := PassLoopCompacted(buffer, mb);
      ghost var after := buffer[..|passCalls|];
      ManyBuffsStep(before, passCalls, after);
      ConcatAssoc(calls, passCalls, ManyBuffsCalls(after));
      calls := calls + passCalls;
      mb := |passCalls| - 1;
      assert buffer[..mb + 1] == after;
    }
  }

  lemma ManyBuffsStep(before: seq<nat>, passCalls: seq<MergeCall>, after: seq<nat>)
    requires |before| - 1 >= MERGEBUFF2
    requires passCalls == PassCalls(before) && after == Totals(passCalls)
    ensures ManyBuffsCalls(before) == passCalls + ManyBuffsCalls(after)
  {
  }

  /** One pass with compaction: returns the pass's calls and leaves their
      totals in buffer[0..|calls|). */
  method PassLoopCompacted(buffer: array<nat>, maxbuffer: nat) returns (calls: seq<MergeCall>)
    requires maxbuffer < buffer.Length
    modifies buffer
    ensures calls == PassCalls(old(buffer[..maxbuffer + 1]))
    ensures |calls| <= maxbuffer + 1 && buffer[..|calls|] == Totals(calls)
  {
    ghost var start := buffer[..maxbuffer + 1];
    calls := [];
    var i := 0;
    var lastbuff := 0;
    assert buffer[..0] == [];
    while i + MERGEBUFF * 3 / 2 <= maxbuffer
      invariant i == MERGEBUFF * lastbuff && lastbuff == |calls|
      invariant CompactInv(buffer[..], start, i, calls)
      decreases maxbuffer - i
    {
      ghost var before := buffer[..];
      var call := MergeInto(buffer, i, i + MERGEBUFF - 1, lastbuff);
      ghost var after := buffer[..];
      assert call == MergeCall(MERGEBUFF, Sum(before[i..i + MERGEBUFF]));
      CompactStep(before, after, start, i, lastbuff, calls, call);
      calls := calls + [call];
      lastbuff := lastbuff + 1;
      i := i + MERGEBUFF;
    }
    ghost var before := buffer[..];
    var call := MergeInto(buffer, i, maxbuffer, lastbuff);
    CompactLast(before, buffer[..], start, i, lastbuff, calls, call);
    calls := calls + [call];
  }

  /** The compacting pass's loop invariant at group start i: the totals of
      the calls made so far sit in front, the buffers from i on are untouched. */
  ghost predicate CompactInv(buf: seq<nat>, start: seq<nat>, i: nat, calls: seq<MergeCall>)
  {
    && |calls| <= i < |start| <= |buf|
    && buf[i..|start|] == start[i..]
    && calls + PassCalls(start[i..]) == PassCalls(start)
    && buf[..|calls|] == Totals(calls)
  }

  lemma CompactStep(before: seq<nat>, after: seq<nat>, start: seq<nat>, i: nat, lastbuff: nat, calls: seq<MergeCall>, call: MergeCall)
    requires CompactInv(before, start, i, calls) && lastbuff == |calls|
    requires i + MERGEBUFF * 3 / 2 < |start| && |after| == |before|
    requires call == MergeCall(MERGEBUFF, Sum(before[i..i + MERGEBUFF]))
    requires after[..lastbuff] == before[..lastbuff] && after[lastbuff] == call.totalElems
    requires after[i + MERGEBUFF..] == before[i + MERGEBUFF..]
    ensures CompactInv(after, start, i + MERGEBUFF, calls + [call])
  {
    PassCallsFrom(start, i);
    SliceShift(before, after, start, i);
    var rest := PassCalls(start[i + MERGEBUFF..]);
    ConcatAssoc(calls, [call], rest);
    TotalsConcat(calls, [call]);
    assert after[..lastbuff + 1] == after[..lastbuff] + [after[lastbuff]];
  }

  lemma SliceShift(before: seq<nat>, after: seq<nat>, start: seq<nat>, i: nat)
    requires i + MERGEBUFF <= |start| <= |before| == |after|
    requires before[i..|start|] == start[i..]
    requires after[i + MERGEBUFF..] == before[i + MERGEBUFF..]
    ensures before[i..i + MERGEBUFF] == start[i..i + MERGEBUFF]
    ensures after[i + MERGEBUFF..|start|] == start[i + MERGEBUFF..]
  {
    assert before[i..i + MERGEBUFF] == before[i..|start|][..MERGEBUFF];
    assert start[i + MERGEBUFF..] == start[i..][MERGEBUFF..];
    assert after[i + MERGEBUFF..|start|] == after[i + MERGEBUFF..][..|start| - i - MERGEBUFF];
    assert before[i + MERGEBUFF..|start|] == before[i..|start|][MERGEBUFF..];
  }

  lemma CompactLast(before: seq<nat>, after: seq<nat>, start: seq<nat>, i: nat, lastbuff: nat, calls: seq<MergeCall>, call: MergeCall)
    requires CompactInv(before, start, i, calls) && lastbuff == |calls|
    requires i + MERGEBUFF * 3 / 2 >= |start| && |after| == |before|
    requires call == MergeCall(|start| - i, Sum(before[i..|start|]))
    requires after[..lastbuff] == before[..lastbuff] && after[lastbuff] == call.totalElems
    ensures calls + [call] == PassCalls(start)
    ensures |calls| + 1 <= |start| && after[..|calls| + 1] == Totals(calls + [call])
  {
    TotalsConcat(calls, [call]);
    assert after[..lastbuff + 1] == after[..lastbuff] + [after[lastbuff]];
  }

  /** get_merge_buffers_cost followed by the move of its total to buff[dest]. */
  method MergeInto(buffer: array<nat>, first: nat, last: nat, dest: nat) returns (call: MergeCall)
    requires dest <= first <= last < buffer.Length
    modifies buffer
    ensures call == MergeCall(last - first + 1, Sum(old(buffer[first..last + 1])))
    ensures buffer[..dest] == old(buffer[..dest]) && buffer[dest] == call.totalElems
    ensures buffer[last + 1..] == old(buffer[last + 1..])
  {
    call := GetMergeBuffersCost(buffer, first, last);
    buffer[dest] := buffer[last];
  }

  /** A full group at i is the next call of the pass. */
  lemma PassCallsFrom(start: seq<nat>, i: nat)
    requires i + MERGEBUFF * 3 / 2 < |start|
    ensures PassCalls(start[i..]) == [MergeCall(MERGEBUFF, Sum(start[i..i + MERGEBUFF]))] + PassCalls(start[i + MERGEBUFF..])
  {
    assert start[i..][..MERGEBUFF] == start[i..i + MERGEBUFF];
    assert start[i..][MERGEBUFF..] == start[i + MERGEBUFF..];
  }

  /** With 15 full buffers of 10 elements and a last one of 5, the
      simulation as written charges its final merge for 20 elements: the
      second pass reads the initial sizes of buffers 0 and 1 instead of the
      totals of the first pass's two calls, 70 and 85. */
  lemma ManyBuffsAsWrittenUndercounts()
    ensures var init := InitialSizes(seq(16, _ => 0), 15, 10, 5);
      var r := ManyBuffsAsWritten(Sim(init, []), 15);
      && r.calls == [MergeCall(7, 70), MergeCall(9, 85), MergeCall(2, 20)]
      && Sum(init[..16]) == 155
  {
    var init := InitialSizes(seq(16, _ => 0), 15, 10, 5);
    BuffersSum(15, 10, 5);
    ConstSum(7, 10);
    assert init[0..7] == seq(7, _ => 10);
    var s1 := MergeStep(Sim(init, []), 0, 6);
    assert s1.calls == [MergeCall(7, 70)];
    assert s1.elems[7..16] == Buffers(8, 10, 5);
    BuffersSum(8, 10, 5);
    var s2 := MergeStep(s1, 7, 15);
    assert s2.calls == [MergeCall(7, 70), MergeCall(9, 85)];
    assert PassAsWritten(Sim(init, []), 0, 15) == s2 by {
      assert PassAsWritten(s1, 7, 15) == s2;
    }
    assert FullGroups(15) == 1;
    assert s2.elems[0..2] == [10, 10];
    assert Sum([10, 10]) == 20 by {
      assert [10, 10][..1] == [10];
      assert [10][..0] == [];
    }
    var s3 := MergeStep(s2, 0, 1);
    assert ManyBuffsAsWritten(s2, 1) == s3;
  }

  /** The cost estimate's integer skeleton: tree sizing, whether everything
      stays in memory, and the merge calls charged otherwise. */
  datatype UseCost = UseCost(maxElementsInTree: nat, nFullTrees: nat, lastTreeElems: nat,
                             inMemory: bool, mergeElemSize: nat, merges: seq<MergeCall>)

  /** Unique::get_use_cost without its floating-point terms: nkeys are spread
      over full trees and one last tree; with more than one tree the merges
      charged are the calls get_merge_many_buffs_cost makes as written, over
      n_full_trees buffers of max_elements_in_tree and one of last_tree_elems,
      with counters included in the element size in intersect mode. */
  function GetUseCost(nkeys: nat, keySize: nat, maxInMemorySize: nat, intersect: bool): (c: UseCost)
    ensures c.maxElementsInTree == MaxElementsInTree(maxInMemorySize, keySize)
    ensures nkeys == c.nFullTrees * c.maxElementsInTree + c.lastTreeElems
    ensures c.lastTreeElems < c.maxElementsInTree
    ensures c.inMemory <==> nkeys < c.maxElementsInTree
    ensures c.inMemory <==> c.merges == []
    ensures !c.inMemory ==> c.mergeElemSize == keySize + (if intersect then COUNTER_SIZE else 0)
    ensures !c.inMemory ==>
              c.merges == ManyBuffsAsWritten(Sim(Buffers(c.nFullTrees, c.maxElementsInTree, c.lastTreeElems), []),
                                             c.nFullTrees).calls
    ensures !c.inMemory && c.nFullTrees < MERGEBUFF2 ==> c.merges == [MergeCall(c.nFullTrees + 1, nkeys)]
  {
    var maxElems := MaxElementsInTree(maxInMemorySize, keySize);
    var nFullTrees := nkeys / maxElems;
    var lastTreeElems := nkeys % maxElems;
    DivBounds(nkeys, maxElems);
    if nFullTrees == 0 then
      UseCost(maxElems, 0, lastTreeElems, true, keySize, [])
    else
      var sizes := Buffers(nFullTrees, maxElems, lastTreeElems);
      BuffersSum(nFullTrees, maxElems, lastTreeElems);
      assert sizes[0..nFullTrees + 1] == sizes;
      ManyBuffsAsWrittenGrows(Sim(sizes, []), nFullTrees);
      UseCost(maxElems, nFullTrees, lastTreeElems, false,
              keySize + (if intersect then COUNTER_SIZE else 0),
              ManyBuffsAsWritten(Sim(sizes, []), nFullTrees).calls)
  }

  /** get_use_cost with the merge schedule get_merge_many_buffs_cost
      evidently means (GetMergeManyBuffsCostCompacted): the last merge
      handles every key. */
  function GetUseCostCompacted(nkeys: nat, keySize: nat, maxInMemorySize: nat, intersect: bool): (c: UseCost)
    ensures c.maxElementsInTree == MaxElementsInTree(maxInMemorySize, keySize)
    ensures nkeys == c.nFullTrees * c.maxElementsInTree + c.lastTreeElems
    ensures c.lastTreeElems < c.maxElementsInTree
    ensures c.inMemory <==> nkeys < c.maxElementsInTree
    ensures c.inMemory <==> c.merges == []
    ensures !c.inMemory ==> c.mergeElemSize == keySize + (if intersect then COUNTER_SIZE else 0)
    ensures !c.inMemory ==> c.merges[|c.merges| - 1].totalElems == nkeys
  {
    var maxElems := MaxElementsInTree(maxInMemorySize, keySize);
    var nFullTrees := nkeys / maxElems;
    var lastTreeElems := nkeys % maxElems;
    DivBounds(nkeys, maxElems);
    if nFullTrees == 0 then
      UseCost(maxElems, 0, lastTreeElems, true, keySize, [])
    else
      var sizes := Buffers(nFullTrees, maxElems, lastTreeElems);
      FinalMergeTotal(sizes);
      BuffersSum(nFullTrees, maxElems, lastTreeElems);
      UseCost(maxElems, nFullTrees, lastTreeElems, false,
              keySize + (if intersect then COUNTER_SIZE else 0), ManyBuffsCalls(sizes))
  }

  /** With fewer than MERGEBUFF2 full trees no pass is made, and the
      estimate as written is the corrected one. */
  lemma UseCostAgrees(nkeys: nat, keySize: nat, maxInMemorySize: nat, intersect: bool)
    requires nkeys / MaxElementsInTree(maxInMemorySize, keySize) < MERGEBUFF2
    ensures GetUseCost(nkeys, keySize, maxInMemorySize, intersect)
         == GetUseCostCompacted(nkeys, keySize, maxInMemorySize, intersect)
  {
    var c := GetUseCostCompacted(nkeys, keySize, maxInMemorySize, intersect);
    if !c.inMemory {
      var sizes := Buffers(c.nFullTrees, c.maxElementsInTree, c.lastTreeElems);
      BuffersSum(c.nFullTrees, c.maxElementsInTree, c.lastTreeElems);
      assert c.merges == [MergeCall(|sizes|, Sum(sizes))];
    }
  }

  /** 155 keys in trees of 10 (8-byte keys, 320 bytes of memory): the
      estimate as written charges its final merge for 20 keys, the
      corrected one for all 155. */
  lemma UseCostAsWrittenUndercounts()
    ensures var c := GetUseCost(155, 8, 320, false);
      c.nFullTrees == 15 && c.merges[|c.merges| - 1] == MergeCall(2, 20)
    ensures var c := GetUseCostCompacted(155, 8, 320, false);
      c.merges[|c.merges| - 1].totalElems == 155
  {
    assert MaxElementsInTree(320, 8) == 10;
    var init := InitialSizes(seq(16, _ => 0), 15, 10, 5);
    assert init == Buffers(15, 10, 5);
    ManyBuffsAsWrittenUndercounts();
  }
}
