/** The three orderings of sql/key.cc: key_cmp (a key buffer against the
    row in table->record[0]), key_rec_cmp (two rows in index order) and
    key_tuple_cmp (two key buffers). Each walks the key parts and stops at
    the first part that decides; a NULL part sorts before a non-NULL one
    and two NULL parts count as equal. The comparisons of field values
    (Field::key_cmp, Field::cmp_prefix) and Field::is_null are
    parameters. */
module KeyOrder {
  import opened Common
  import opened KeyInfo

  /* ---------------------------------------------------------------- */
  /* First deciding part                                               */
  /* ---------------------------------------------------------------- */

  function Sign(x: int): int
  {
    if x < 0 then -1 else if x > 0 then 1 else 0
  }

  /** The verdict of a part-by-part comparison: the first non-zero
      per-part verdict, 0 when every part compares equal. */
  function FirstNonzero(vs: seq<int>): int
  {
    if vs == [] then 0 else if vs[0] != 0 then vs[0] else FirstNonzero(vs[1..])
  }

  /** The comparison says "equal" exactly when every part does. */
  lemma {:induction false} FirstNonzeroZero(vs: seq<int>)
    ensures FirstNonzero(vs) == 0 <==> forall j :: 0 <= j < |vs| ==> vs[j] == 0
  {
    if vs != [] {
      FirstNonzeroZero(vs[1..]);
      if vs[0] == 0 {
        forall j | 0 <= j < |vs| && (forall m :: 0 <= m < |vs[1..]| ==> vs[1..][m] == 0)
          ensures vs[j] == 0
        {
          if j > 0 {
            assert vs[j] == vs[1..][j - 1];
          }
        }
      }
    }
  }

  /** Otherwise the verdict is the one of the first part that is not
      equal. */
  lemma {:induction false} FirstNonzeroAt(vs: seq<int>, j: nat)
    requires j < |vs| && vs[j] != 0 && forall m :: 0 <= m < j ==> vs[m] == 0
    ensures FirstNonzero(vs) == vs[j]
  {
    if j > 0 {
      assert vs[0] == 0;
      FirstNonzeroAt(vs[1..], j - 1);
    }
  }

  /** Comparing the other way round flips the sign of the verdict when it
      flips the sign of every part's verdict. */
  lemma {:induction false} FirstNonzeroFlip(vs: seq<int>, ws: seq<int>)
    requires |vs| == |ws| && forall j :: 0 <= j < |vs| ==> Sign(ws[j]) == -Sign(vs[j])
    ensures Sign(FirstNonzero(ws)) == -Sign(FirstNonzero(vs))
  {
    if vs != [] {
      assert Sign(ws[0]) == -Sign(vs[0]);
      FirstNonzeroFlip(vs[1..], ws[1..]);
    }
  }

  /** Prepending an equal part does not change the verdict. */
  lemma FirstNonzeroCons(v: int, rest: seq<int>)
    ensures FirstNonzero([v] + rest) == if v != 0 then v else FirstNonzero(rest)
  {
    assert ([v] + rest)[1..] == rest;
  }

  /* ---------------------------------------------------------------- */
  /* Slots of a key buffer                                             */
  /* ---------------------------------------------------------------- */

  /** The loops of key_cmp and key_tuple_cmp step through the buffer by
      store_length while the position is below `end`: every slot they
      enter is described by a key part, holds its null byte and lies in a
      buffer of `size` bytes. */
  predicate SlotsFit(parts: seq<KeyPart>, i: nat, pos: nat, end: nat, size: nat)
    decreases |parts| - i
  {
    pos >= end ||
    (&& i < |parts|
     && (parts[i].nullable ==> parts[i].storeLength >= 1)
     && pos + parts[i].storeLength <= size
     && SlotsFit(parts, i + 1, pos + parts[i].storeLength, end, size))
  }

  /** Where the data of a slot starts: after its null byte, if any. */
  function DataStart(p: KeyPart, pos: nat): nat
  {
    if p.nullable then pos + 1 else pos
  }

  /* ---------------------------------------------------------------- */
  /* key_cmp                                                           */
  /* ---------------------------------------------------------------- */

  /** The row side of key_cmp: Field::is_null of a field, and
      Field::key_cmp of a field against the data bytes of a key part
      (negative, zero or positive as the row's value is below, equal to or
      above the key's). */
  datatype RowSide = RowSide(isNull: nat -> bool, keyCmp: (KeyPart, seq<byte>) -> int)

  /** One part of key_cmp: a NULL range key matches only a NULL field and
      is below any other; a non-NULL range key is above a NULL field;
      otherwise the sign of the field comparison. */
  function KeyCmpPart(p: KeyPart, key: seq<byte>, pos: nat, row: RowSide): (v: int)
    requires DataStart(p, pos) <= pos + p.storeLength <= |key|
    ensures -1 <= v <= 1
  {
    if p.nullable && key[pos] != 0 then (if row.isNull(p.field) then 0 else 1)
    else if p.nullable && row.isNull(p.field) then -1
    else Sign(row.keyCmp(p, key[DataStart(p, pos)..pos + p.storeLength]))
  }

  /** The per-part verdicts of key_cmp over the slots below `end`. */
  function KeyCmpParts(parts: seq<KeyPart>, key: seq<byte>, row: RowSide, i: nat, pos: nat, end: nat): (vs: seq<int>)
    requires SlotsFit(parts, i, pos, end, |key|)
    ensures forall j :: 0 <= j < |vs| ==> -1 <= vs[j] <= 1
    decreases |parts| - i
  {
    if pos >= end then []
    else [KeyCmpPart(parts[i], key, pos, row)] + KeyCmpParts(parts, key, row, i + 1, pos + parts[i].storeLength, end)
  }

  /** The state of key_cmp's loop: the slots from `pos` fit, and the
      verdict of the parts from slot `i` on is the verdict of the whole. */
  ghost predicate KeyCmpInv(parts: seq<KeyPart>, key: seq<byte>, keyLength: nat, row: RowSide, i: nat, pos: nat)
  {
    SlotsFit(parts, 0, 0, keyLength, |key|) && SlotsFit(parts, i, pos, keyLength, |key|) &&
    FirstNonzero(KeyCmpParts(parts, key, row, 0, 0, keyLength))
      == FirstNonzero(KeyCmpParts(parts, key, row, i, pos, keyLength))
  }

  /** A part that decides gives the verdict. */
  lemma KeyCmpDecided(parts: seq<KeyPart>, key: seq<byte>, keyLength: nat, row: RowSide, i: nat, pos: nat)
    requires KeyCmpInv(parts, key, keyLength, row, i, pos) && pos < keyLength
    requires KeyCmpPart(parts[i], key, pos, row) != 0
    ensures FirstNonzero(KeyCmpParts(parts, key, row, 0, 0, keyLength)) == KeyCmpPart(parts[i], key, pos, row)
  {
    FirstNonzeroCons(KeyCmpPart(parts[i], key, pos, row),
                     KeyCmpParts(parts, key, row, i + 1, pos + parts[i].storeLength, keyLength));
  }

  /** An equal part moves on to the next slot. */
  lemma KeyCmpNext(parts: seq<KeyPart>, key: seq<byte>, keyLength: nat, row: RowSide, i: nat, pos: nat)
    requires KeyCmpInv(parts, key, keyLength, row, i, pos) && pos < keyLength
    requires KeyCmpPart(parts[i], key, pos, row) == 0
    ensures KeyCmpInv(parts, key, keyLength, row, i + 1, pos + parts[i].storeLength)
  {
    FirstNonzeroCons(KeyCmpPart(parts[i], key, pos, row),
                     KeyCmpParts(parts, key, row, i + 1, pos + parts[i].storeLength, keyLength));
  }

  /** Past the last slot every part compared equal. */
  lemma KeyCmpEqual(parts: seq<KeyPart>, key: seq<byte>, keyLength: nat, row: RowSide, i: nat, pos: nat)
    requires KeyCmpInv(parts, key, keyLength, row, i, pos) && pos >= keyLength
    ensures FirstNonzero(KeyCmpParts(parts, key, row, 0, 0, keyLength)) == 0
  {
  }

  /** key_cmp: the sign of the row's key against the range key `key` of
      `keyLength` bytes, decided by the first part that differs. */
  method KeyCmp(parts: seq<KeyPart>, key: seq<byte>, keyLength: nat, row: RowSide) returns (r: int)
    requires SlotsFit(parts, 0, 0, keyLength, |key|)
    ensures r == FirstNonzero(KeyCmpParts(parts, key, row, 0, 0, keyLength))
    ensures -1 <= r <= 1
  {
    var pos: nat, i: nat := 0, 0;
    while pos < keyLength
      invariant KeyCmpInv(parts, key, keyLength, row, i, pos)
      decreases |parts| - i
    {
      var p := parts[i];
      var storeLength := p.storeLength;
      var data := pos;
      if p.nullable {
        var fieldIsNull := row.isNull(p.field);
        if key[pos] != 0 {
          if !fieldIsNull {
            KeyCmpDecided(parts, key, keyLength, row, i, pos);
            return 1;
          }
          KeyCmpNext(parts, key, keyLength, row, i, pos);
          pos, i := pos + storeLength, i + 1;
          continue;
        } else if fieldIsNull {
          KeyCmpDecided(parts, key, keyLength, row, i, pos);
          return -1;
        }
        data := pos + 1;
      }
      var cmp := row.keyCmp(p, key[data..pos + storeLength]);
      if cmp < 0 {
        KeyCmpDecided(parts, key, keyLength, row, i, pos);
        return -1;
      }
      if cmp > 0 {
        KeyCmpDecided(parts, key, keyLength, row, i, pos);
        return 1;
      }
      KeyCmpNext(parts, key, keyLength, row, i, pos);
      pos, i := pos + storeLength, i + 1;
    }
    KeyCmpEqual(parts, key, keyLength, row, i, pos);
    return 0;
  }

  /* ---------------------------------------------------------------- */
  /* key_tuple_cmp                                                     */
  /* ---------------------------------------------------------------- */

  /** One part of key_tuple_cmp: NULL is below non-NULL, two NULLs are
      equal, two values compare by Field::key_cmp on their data bytes. */
  function TuplePart(p: KeyPart, key1: seq<byte>, key2: seq<byte>, pos: nat,
                     cmp: (KeyPart, seq<byte>, seq<byte>) -> int): int
    requires DataStart(p, pos) <= pos + p.storeLength <= |key1|
    requires pos + p.storeLength <= |key2|
  {
    if p.nullable && key1[pos] != 0 then (if key2[pos] == 0 then -1 else 0)
    else if p.nullable && key2[pos] != 0 then 1
    else cmp(p, key1[DataStart(p, pos)..pos + p.storeLength], key2[DataStart(p, pos)..pos + p.storeLength])
  }

  /** The per-part verdicts of key_tuple_cmp over the slots below `end`. */
  function TupleParts(parts: seq<KeyPart>, key1: seq<byte>, key2: seq<byte>,
                      cmp: (KeyPart, seq<byte>, seq<byte>) -> int, i: nat, pos: nat, end: nat): (vs: seq<int>)
    requires SlotsFit(parts, i, pos, end, |key1|) && SlotsFit(parts, i, pos, end, |key2|)
    decreases |parts| - i
  {
    if pos >= end then []
    else [TuplePart(parts[i], key1, key2, pos, cmp)] + TupleParts(parts, key1, key2, cmp, i + 1, pos + parts[i].storeLength, end)
  }

  /** key_tuple_cmp: the first non-zero part comparison of two key tuples
      of `tupleLength` bytes, 0 when they are equal. */
  method KeyTupleCmp(parts: seq<KeyPart>, key1: seq<byte>, key2: seq<byte>, tupleLength: nat,
                     cmp: (KeyPart, seq<byte>, seq<byte>) -> int) returns (r: int)
    requires SlotsFit(parts, 0, 0, tupleLength, |key1|) && SlotsFit(parts, 0, 0, tupleLength, |key2|)
    ensures r == FirstNonzero(TupleParts(parts, key1, key2, cmp, 0, 0, tupleLength))
  {
    var pos: nat, i: nat := 0, 0;
    while pos < tupleLength
      invariant SlotsFit(parts, i, pos, tupleLength, |key1|) && SlotsFit(parts, i, pos, tupleLength, |key2|)
      invariant FirstNonzero(TupleParts(parts, key1, key2, cmp, 0, 0, tupleLength))
             == FirstNonzero(TupleParts(parts, key1, key2, cmp, i, pos, tupleLength))
      decreases |parts| - i
    {
      var p := parts[i];
      var len := p.storeLength;
      FirstNonzeroCons(TuplePart(p, key1, key2, pos, cmp), TupleParts(parts, key1, key2, cmp, i + 1, pos + len, tupleLength));
      var data := pos;
      if p.nullable {
        if key1[pos] != 0 {
          if key2[pos] == 0 {
            return -1;
          }
          pos, i := pos + len, i + 1;
          continue;
        } else if key2[pos] != 0 {
          return 1;
        }
        data := pos + 1;
      }
      var res := cmp(p, key1[data..pos + len], key2[data..pos + len]);
      if res != 0 {
        return res;
      }
      pos, i := pos + len, i + 1;
    }
    return 0;
  }

  /** Field::key_cmp as an order: swapping its arguments flips its sign. */
  ghost predicate Antisymmetric(cmp: (KeyPart, seq<byte>, seq<byte>) -> int)
  {
    forall p, a, b :: Sign(cmp(p, b, a)) == -Sign(cmp(p, a, b))
  }

  /** Swapping the tuples flips every part's verdict. */
  lemma {:induction false} TuplePartsFlip(parts: seq<KeyPart>, key1: seq<byte>, key2: seq<byte>,
                                          cmp: (KeyPart, seq<byte>, seq<byte>) -> int, i: nat, pos: nat, end: nat)
    requires SlotsFit(parts, i, pos, end, |key1|) && SlotsFit(parts, i, pos, end, |key2|)
    requires Antisymmetric(cmp)
    ensures var vs := TupleParts(parts, key1, key2, cmp, i, pos, end);
            var ws := TupleParts(parts, key2, key1, cmp, i, pos, end);
            |vs| == |ws| && forall j :: 0 <= j < |vs| ==> Sign(ws[j]) == -Sign(vs[j])
    decreases |parts| - i
  {
    if pos < end {
      var p := parts[i];
      var d := DataStart(p, pos);
      var a, b := key1[d..pos + p.storeLength], key2[d..pos + p.storeLength];
      assert Sign(cmp(p, b, a)) == -Sign(cmp(p, a, b));
      TuplePartsFlip(parts, key1, key2, cmp, i + 1, pos + p.storeLength, end);
      var vs := TupleParts(parts, key1, key2, cmp, i, pos, end);
      var ws := TupleParts(parts, key2, key1, cmp, i, pos, end);
      var vs' := TupleParts(parts, key1, key2, cmp, i + 1, pos + p.storeLength, end);
      var ws' := TupleParts(parts, key2, key1, cmp, i + 1, pos + p.storeLength, end);
      forall j | 0 <= j < |vs|
        ensures Sign(ws[j]) == -Sign(vs[j])
      {
        if j > 0 {
          assert vs[j] == vs'[j - 1] && ws[j] == ws'[j - 1];
        }
      }
    }
  }

  /** key_tuple_cmp is antisymmetric when Field::key_cmp is. */
  lemma KeyTupleCmpAntisymmetric(parts: seq<KeyPart>, key1: seq<byte>, key2: seq<byte>, tupleLength: nat,
                                 cmp: (KeyPart, seq<byte>, seq<byte>) -> int)
    requires SlotsFit(parts, 0, 0, tupleLength, |key1|) && SlotsFit(parts, 0, 0, tupleLength, |key2|)
    requires Antisymmetric(cmp)
    ensures Sign(FirstNonzero(TupleParts(parts, key2, key1, cmp, 0, 0, tupleLength)))
         == -Sign(FirstNonzero(TupleParts(parts, key1, key2, cmp, 0, 0, tupleLength)))
  {
    TuplePartsFlip(parts, key1, key2, cmp, 0, 0, tupleLength);
    FirstNonzeroFlip(TupleParts(parts, key1, key2, cmp, 0, 0, tupleLength),
                     TupleParts(parts, key2, key1, cmp, 0, 0, tupleLength));
  }

  /** A tuple compares equal to itself when every field value does. */
  lemma {:induction false} KeyTupleCmpReflexive(parts: seq<KeyPart>, key: seq<byte>, i: nat, pos: nat, end: nat,
                                                cmp: (KeyPart, seq<byte>, seq<byte>) -> int)
    requires SlotsFit(parts, i, pos, end, |key|)
    requires forall p, a :: cmp(p, a, a) == 0
    ensures FirstNonzero(TupleParts(parts, key, key, cmp, i, pos, end)) == 0
    decreases |parts| - i
  {
    if pos < end {
      var p := parts[i];
      var rest := TupleParts(parts, key, key, cmp, i + 1, pos + p.storeLength, end);
      KeyTupleCmpReflexive(parts, key, i + 1, pos + p.storeLength, end, cmp);
      var d := DataStart(p, pos);
      assert cmp(p, key[d..pos + p.storeLength], key[d..pos + p.storeLength]) == 0;
      FirstNonzeroCons(TuplePart(p, key, key, pos, cmp), rest);
    }
  }

  /** A NULL part sorts before a non-NULL one: when the parts before slot
      `t` compare equal and part t is NULL in the first tuple only, the
      first tuple is the smaller. */
  lemma {:induction false} KeyTupleCmpNullFirst(parts: seq<KeyPart>, key1: seq<byte>, key2: seq<byte>,
                                                cmp: (KeyPart, seq<byte>, seq<byte>) -> int, i: nat, pos: nat, end: nat)
    requires SlotsFit(parts, i, pos, end, |key1|) && SlotsFit(parts, i, pos, end, |key2|)
    requires pos < end && parts[i].nullable && key1[pos] != 0 && key2[pos] == 0
    ensures FirstNonzero(TupleParts(parts, key1, key2, cmp, i, pos, end)) == -1
  {
    FirstNonzeroCons(TuplePart(parts[i], key1, key2, pos, cmp),
                     TupleParts(parts, key1, key2, cmp, i + 1, pos + parts[i].storeLength, end));
  }

  /* ---------------------------------------------------------------- */
  /* key_rec_cmp                                                       */
  /* ---------------------------------------------------------------- */

  type Positive = x: nat | x > 0 witness 1

  /** The two rows key_rec_cmp compares, seen through their fields:
      Field::is_real_null in each row, Field::cmp_prefix of the first row's
      value against the second's with a length limit in characters, and
      the charset's mbmaxlen. */
  datatype RowPair = RowPair(null1: nat -> bool, null2: nat -> bool, cmpPrefix: (nat, nat) -> int,
                             mbmaxlen: nat -> Positive)

  /** The parts key_rec_cmp visits in a key: its do-while visits the
      first part even when the key declares no user parts. */
  function VisitedParts(k: KeyDef): nat
  {
    if k.userParts == 0 then 1 else k.userParts
  }

  /** Every key of the list has the parts key_rec_cmp visits. */
  predicate KeysShaped(keys: seq<KeyDef>)
  {
    forall k :: 0 <= k < |keys| ==> VisitedParts(keys[k]) <= |keys[k].parts|
  }

  /** One part of key_rec_cmp: first non-NULL and second NULL is +1, the
      reverse -1, both NULL skip the part, otherwise cmp_prefix with the
      part length in characters, unnormalised. */
  function RecPart(p: KeyPart, rows: RowPair): int
  {
    var f := p.field;
    if p.nullable && !rows.null1(f) && rows.null2(f) then 1
    else if p.nullable && rows.null1(f) && !rows.null2(f) then -1
    else if p.nullable && rows.null1(f) then 0
    else rows.cmpPrefix(f, p.length / rows.mbmaxlen(f))
  }

  /** The verdicts of the visited parts of one key, from part j on. */
  function RecKeyParts(k: KeyDef, rows: RowPair, j: nat): seq<int>
    requires VisitedParts(k) <= |k.parts| && j <= VisitedParts(k)
    decreases VisitedParts(k) - j
  {
    if j == VisitedParts(k) then []
    else [RecPart(k.parts[j], rows)] + RecKeyParts(k, rows, j + 1)
  }

  /** The verdicts of all keys of the list from key `k` on, key by key. */
  function RecParts(keys: seq<KeyDef>, rows: RowPair, k: nat): seq<int>
    requires KeysShaped(keys) && k <= |keys|
    decreases |keys| - k
  {
    if k == |keys| then [] else RecKeyParts(keys[k], rows, 0) + RecParts(keys, rows, k + 1)
  }

  /** key_rec_cmp: two rows in the order of the listed keys (the null
      terminated list holds at least one key). */
  method KeyRecCmp(keys: seq<KeyDef>, rows: RowPair) returns (r: int)
    requires 1 <= |keys| && KeysShaped(keys)
    ensures r == FirstNonzero(RecParts(keys, rows, 0))
  {
    var k := 0;
    while k < |keys|
      invariant k <= |keys|
      invariant FirstNonzero(RecParts(keys, rows, 0)) == FirstNonzero(RecParts(keys, rows, k))
      decreases |keys| - k
    {
      var key := keys[k];
      var keyParts := VisitedParts(key);
      var j := 0;
      while j < keyParts
        invariant j <= keyParts
        invariant FirstNonzero(RecParts(keys, rows, 0))
               == FirstNonzero(RecKeyParts(key, rows, j) + RecParts(keys, rows, k + 1))
        decreases keyParts - j
      {
        var p := key.parts[j];
        var rest := RecKeyParts(key, rows, j + 1) + RecParts(keys, rows, k + 1);
        assert RecKeyParts(key, rows, j) + RecParts(keys, rows, k + 1) == [RecPart(p, rows)] + rest;
        FirstNonzeroCons(RecPart(p, rows), rest);
        var field := p.field;
        if p.nullable {
          var firstIsNull := rows.null1(field);
          var secIsNull := rows.null2(field);
          if !firstIsNull {
            if secIsNull {
              return 1;
            }
          } else if !secIsNull {
            return -1;
          } else {
            j := j + 1;
            continue;
          }
        }
        var result := rows.cmpPrefix(field, p.length / rows.mbmaxlen(field));
        if result != 0 {
          return result;
        }
        j := j + 1;
      }
      assert RecKeyParts(key, rows, j) == [];
      assert [] + RecParts(keys, rows, k + 1) == RecParts(keys, rows, k + 1);
      k := k + 1;
    }
    return 0;
  }

  /** The same two rows the other way round, with a cmp_prefix that is
      the first one's with its arguments swapped. */
  function Swapped(rows: RowPair, cmpPrefix': (nat, nat) -> int): RowPair
  {
    RowPair(rows.null2, rows.null1, cmpPrefix', rows.mbmaxlen)
  }

  /** Swapping the rows flips every part's verdict of one key. */
  lemma {:induction false} RecKeyPartsFlip(k: KeyDef, rows: RowPair, cmpPrefix': (nat, nat) -> int, j: nat)
    requires VisitedParts(k) <= |k.parts| && j <= VisitedParts(k)
    requires forall f, n :: Sign(cmpPrefix'(f, n)) == -Sign(rows.cmpPrefix(f, n))
    ensures var vs := RecKeyParts(k, rows, j);
            var ws := RecKeyParts(k, Swapped(rows, cmpPrefix'), j);
            |vs| == |ws| && forall m :: 0 <= m < |vs| ==> Sign(ws[m]) == -Sign(vs[m])
    decreases VisitedParts(k) - j
  {
    if j < VisitedParts(k) {
      var p := k.parts[j];
      var n := p.length / rows.mbmaxlen(p.field);
      assert Sign(cmpPrefix'(p.field, n)) == -Sign(rows.cmpPrefix(p.field, n));
      RecKeyPartsFlip(k, rows, cmpPrefix', j + 1);
      var vs := RecKeyParts(k, rows, j);
      var ws := RecKeyParts(k, Swapped(rows, cmpPrefix'), j);
      var vs' := RecKeyParts(k, rows, j + 1);
      var ws' := RecKeyParts(k, Swapped(rows, cmpPrefix'), j + 1);
      forall m | 0 <= m < |vs|
        ensures Sign(ws[m]) == -Sign(vs[m])
      {
        if m > 0 {
          assert vs[m] == vs'[m - 1] && ws[m] == ws'[m - 1];
        }
      }
    }
  }

  /** Swapping the rows flips every part's verdict of the key list. */
  lemma {:induction false} RecPartsFlip(keys: seq<KeyDef>, rows: RowPair, cmpPrefix': (nat, nat) -> int, k: nat)
    requires KeysShaped(keys) && k <= |keys|
    requires forall f, n :: Sign(cmpPrefix'(f, n)) == -Sign(rows.cmpPrefix(f, n))
    ensures var vs := RecParts(keys, rows, k);
            var ws := RecParts(keys, Swapped(rows, cmpPrefix'), k);
            |vs| == |ws| && forall m :: 0 <= m < |vs| ==> Sign(ws[m]) == -Sign(vs[m])
    decreases |keys| - k
  {
    if k < |keys| {
      RecKeyPartsFlip(keys[k], rows, cmpPrefix', 0);
      RecPartsFlip(keys, rows, cmpPrefix', k + 1);
      var a := RecKeyParts(keys[k], rows, 0);
      var b := RecKeyParts(keys[k], Swapped(rows, cmpPrefix'), 0);
      var a' := RecParts(keys, rows, k + 1);
      var b' := RecParts(keys, Swapped(rows, cmpPrefix'), k + 1);
      forall m | 0 <= m < |a + a'|
        ensures Sign((b + b')[m]) == -Sign((a + a')[m])
      {
        if m < |a| {
          assert (a + a')[m] == a[m] && (b + b')[m] == b[m];
        } else {
          assert (a + a')[m] == a'[m - |a|] && (b + b')[m] == b'[m - |a|];
        }
      }
    }
  }

  /** key_rec_cmp is antisymmetric when cmp_prefix is: comparing the rows
      the other way round gives the opposite sign. */
  lemma KeyRecCmpAntisymmetric(keys: seq<KeyDef>, rows: RowPair, cmpPrefix': (nat, nat) -> int)
    requires KeysShaped(keys)
    requires forall f, n :: Sign(cmpPrefix'(f, n)) == -Sign(rows.cmpPrefix(f, n))
    ensures Sign(FirstNonzero(RecParts(keys, Swapped(rows, cmpPrefix'), 0)))
         == -Sign(FirstNonzero(RecParts(keys, rows, 0)))
  {
    RecPartsFlip(keys, rows, cmpPrefix', 0);
    FirstNonzeroFlip(RecParts(keys, rows, 0), RecParts(keys, Swapped(rows, cmpPrefix'), 0));
  }
}
