/** The key descriptors of sql/key.cc and the two routines that read them
    without comparing values: find_ref_key, which locates a field inside
    the table's keys, and key_copy, which lays a record's key parts out in
    a key buffer (a null indicator byte before every nullable part, two
    length bytes before every blob or varchar part). Field and character
    set calls are parameters. */
module KeyInfo {
  import opened Common

  /** HA_KEYTYPE_* of a key part, as far as the hashing and buffer
      comparison care: fixed strings, length-prefixed strings, the rest. */
  datatype KeyType = Text | Binary | VarText1 | VarText2 | VarBinary1 | VarBinary2 | OtherType

  /** KEY_PART_INFO. `field` names the Field; `lengthPrefixed` is
      HA_BLOB_PART or HA_VAR_LENGTH_PART in key_part_flag; `nullable` is a
      non-zero null_bit. */
  datatype KeyPart = KeyPart(
    field: nat,
    offset: nat,
    bitField: bool,
    length: nat,
    storeLength: nat,
    nullable: bool,
    nullOffset: nat,
    nullBit: bv8,
    lengthPrefixed: bool,
    keyType: KeyType)

  /** KEY: its parts, user_defined_key_parts and key_length. */
  datatype KeyDef = KeyDef(parts: seq<KeyPart>, userParts: nat, keyLength: nat)

  /** store_length counts the null byte, the two length bytes and the data. */
  predicate PartLaid(p: KeyPart)
  {
    && p.length > 0
    && p.storeLength == (if p.nullable then 1 else 0) + (if p.lengthPrefixed then 2 else 0) + p.length
  }

  /** Every key has at least one part and its user-defined parts exist. */
  predicate KeyShaped(k: KeyDef)
  {
    1 <= k.userParts <= |k.parts|
  }

  /** Total store_length of parts[i..j). */
  function Span(parts: seq<KeyPart>, i: nat, j: nat): nat
    requires i <= j <= |parts|
    decreases j - i
  {
    if i == j then 0 else parts[i].storeLength + Span(parts, i + 1, j)
  }

  lemma {:induction false} SpanSnoc(parts: seq<KeyPart>, i: nat, j: nat)
    requires i <= j < |parts|
    ensures Span(parts, i, j + 1) == Span(parts, i, j) + parts[j].storeLength
    decreases j - i
  {
    if i < j {
      SpanSnoc(parts, i + 1, j);
    }
  }

  /* ---------------------------------------------------------------- */
  /* find_ref_key                                                      */
  /* ---------------------------------------------------------------- */

  /** A key part that find_ref_key accepts for a field at `fieldpos`. */
  predicate Refers(p: KeyPart, fieldpos: nat)
  {
    p.offset == fieldpos && !p.bitField
  }

  /** find_ref_key: the first key whose first part is the field, with
      key_length and keypart 0; failing that the first key that holds the
      field among its user-defined parts, with keypart its position and
      key_length the store lengths before it; failing that -1, with keypart
      untouched and key_length the store length of the last key's parts. */
  method FindRefKey(keys: seq<KeyDef>, fieldpos: nat, keyLength0: nat, keypart0: nat)
    returns (r: int, keyLength: nat, keypart: nat)
    requires forall i :: 0 <= i < |keys| ==> 1 <= keys[i].userParts <= |keys[i].parts|
    ensures -1 <= r < |keys|
    ensures r == -1 <==>
              forall i, j :: 0 <= i < |keys| && 0 <= j < keys[i].userParts ==> !Refers(keys[i].parts[j], fieldpos)
    ensures 0 <= r && Refers(keys[r].parts[0], fieldpos) ==>
              keyLength == 0 && keypart == 0 &&
              forall i :: 0 <= i < r ==> !Refers(keys[i].parts[0], fieldpos)
    ensures 0 <= r && !Refers(keys[r].parts[0], fieldpos) ==>
              && (forall i :: 0 <= i < |keys| ==> !Refers(keys[i].parts[0], fieldpos))
              && (forall i, j :: 0 <= i < r && 0 <= j < keys[i].userParts ==> !Refers(keys[i].parts[j], fieldpos))
              && keypart < keys[r].userParts && Refers(keys[r].parts[keypart], fieldpos)
              && (forall j :: 0 <= j < keypart ==> !Refers(keys[r].parts[j], fieldpos))
              && keyLength == Span(keys[r].parts, 0, keypart)
    ensures r == -1 ==>
              keypart == keypart0 &&
              keyLength == (if keys == [] then keyLength0
                            else Span(keys[|keys| - 1].parts, 0, keys[|keys| - 1].userParts))
  {
    keyLength, keypart := keyLength0, keypart0;
    var i := 0;
    while i < |keys|
      invariant 0 <= i <= |keys|
      invariant forall i' :: 0 <= i' < i ==> !Refers(keys[i'].parts[0], fieldpos)
    {
      if Refers(keys[i].parts[0], fieldpos) {
        return i, 0, 0;
      }
      i := i + 1;
    }
    i := 0;
    while i < |keys|
      invariant 0 <= i <= |keys|
      invariant forall i', j :: 0 <= i' < i && 0 <= j < keys[i'].userParts ==> !Refers(keys[i'].parts[j], fieldpos)
      invariant keyLength == (if i == 0 then keyLength0 else Span(keys[i - 1].parts, 0, keys[i - 1].userParts))
    {
      var parts := keys[i].parts;
      keyLength := 0;
      var j := 0;
      while j < keys[i].userParts
        invariant 0 <= j <= keys[i].userParts
        invariant forall j' :: 0 <= j' < j ==> !Refers(parts[j'], fieldpos)
        invariant keyLength == Span(parts, 0, j)
      {
        if Refers(parts[j], fieldpos) {
          return i, keyLength, j;
        }
        SpanSnoc(parts, 0, j);
        keyLength := keyLength + parts[j].storeLength;
        j := j + 1;
      }
      i := i + 1;
    }
    return -1, keyLength, keypart;
  }

  /* ---------------------------------------------------------------- */
  /* key_copy                                                          */
  /* ---------------------------------------------------------------- */

  function Min(a: int, b: int): int
  {
    if a <= b then a else b
  }

  function Zeros(n: nat): (z: seq<byte>)
    ensures |z| == n && forall k :: 0 <= k < n ==> z[k] == 0
  {
    if n == 0 then [] else [0] + Zeros(n - 1)
  }

  /** The null indicator key_copy stores: 1 when the record's null bit is set. */
  function Indicator(record: seq<bv8>, p: KeyPart): (b: byte)
    requires p.nullOffset < |record|
    ensures b == 1 <==> record[p.nullOffset] & p.nullBit != 0
    ensures b == 0 || b == 1
  {
    if record[p.nullOffset] & p.nullBit != 0 then 1 else 0
  }

  /** Every nullable part's null byte lies inside the record. */
  predicate RecordCovers(record: seq<bv8>, parts: seq<KeyPart>)
  {
    forall t :: 0 <= t < |parts| && parts[t].nullable ==> parts[t].nullOffset < |record|
  }

  /** The fixed inputs of one key_copy call: the key's parts, the record,
      with_zerofill, and the Field::get_key_image and charset fill
      callbacks, each taking the part's position in the key. */
  datatype CopyEnv = CopyEnv(parts: seq<KeyPart>, record: seq<bv8>, zerofill: bool,
                             image: (nat, nat) -> seq<byte>, fill: (nat, nat) -> seq<byte>)

  /** What key_copy relies on: laid-out parts, a record holding every null
      byte, a key image of at most the length asked for (two more for the
      length bytes of a length-prefixed part) and a fill of exactly the
      length asked for. */
  ghost predicate EnvOk(e: CopyEnv)
  {
    && (forall t :: 0 <= t < |e.parts| ==> PartLaid(e.parts[t]))
    && RecordCovers(e.record, e.parts)
    && (forall t: nat, len: nat :: t < |e.parts| ==>
          |e.image(t, len)| <= len + (if e.parts[t].lengthPrefixed then 2 else 0))
    && (forall t: nat, n: nat :: |e.fill(t, n)| == n)
  }

  /** The data length key_copy copies for part `p` when `kl` bytes of key
      length are left after its null byte: for a length-prefixed part the
      two length bytes come off first, and a negative remainder is a huge
      unsigned number, so the whole part length is used. */
  function DataLength(p: KeyPart, kl: int): nat
    requires p.lengthPrefixed || kl >= 0
  {
    if p.lengthPrefixed then
      (if kl - 2 < 0 then p.length else Min(kl - 2, p.length))
    else
      Min(kl, p.length)
  }

  /** One iteration of key_copy's loop: the bytes written from the part's
      slot on, how far the buffer pointer moves, and the key length left. */
  datatype Step = Step(write: seq<byte>, advance: nat, left: int)

  /** An iteration for a part with a `store`-byte slot and `kl` > 0 bytes
      of key length left stays inside the slot; when the key length covers
      the slot it uses up exactly the slot, and otherwise it ends the copy. */
  predicate StepWithin(s: Step, store: nat, kl: int)
  {
    && |s.write| <= s.advance <= store
    && (kl >= store ==> s.advance == store && s.left == kl - store)
    && (kl < store ==> s.left <= 0)
  }

  /** A loop body that keeps to every part's slot. */
  ghost predicate BodyFits(body: (nat, int) -> Step, parts: seq<KeyPart>)
  {
    forall t: nat, kl: int :: t < |parts| && kl > 0 ==> StepWithin(body(t, kl), parts[t].storeLength, kl)
  }

  /** The data length after the null byte of a NULL part: store_length - 1
      as an unsigned number, so a zero store_length wraps to a huge one. */
  function NullDataLength(p: KeyPart, kl: nat): nat
  {
    if p.storeLength == 0 then kl else Min(kl, p.storeLength - 1)
  }

  /** The iteration for part `t` with `kl` bytes of key length left: a
      NULL value, a blob or varchar part, or a fixed-length part. Past the
      last part, or with no key length left, the loop does not run. */
  function PartStep(e: CopyEnv, t: nat, kl: int): Step
  {
    if t >= |e.parts| || kl <= 0 then Step([], 0, kl)
    else if NullByte(e, t) == [1] then NullPartStep(e, t, kl)
    else
      var ind := NullByte(e, t);
      var s := ValuePartStep(e, t, kl - |ind|);
      Step(ind + s.write, |ind| + s.advance, s.left)
  }

  /** The null indicator byte a nullable part starts with. */
  function NullByte(e: CopyEnv, t: nat): seq<byte>
    requires t < |e.parts|
  {
    var p := e.parts[t];
    if p.nullable && p.nullOffset < |e.record| then [Indicator(e.record, p)] else []
  }

  /** A NULL value: the indicator 1, then zeros over the rest of the slot
      with with_zerofill, nothing otherwise. */
  function NullPartStep(e: CopyEnv, t: nat, kl: int): Step
    requires t < |e.parts| && kl > 0
  {
    var len := NullDataLength(e.parts[t], kl - 1);
    Step([1] + (if e.zerofill then Zeros(len) else []), 1 + len, kl - 1 - len)
  }

  /** A non-NULL value after its null byte, with `kl` bytes of key length
      left: a blob or varchar part writes its key image (the two length
      bytes included) and, with with_zerofill, zeros after a short image;
      any other part writes its key image and the charset fill after a
      short image. */
  function ValuePartStep(e: CopyEnv, t: nat, kl: int): Step
    requires t < |e.parts| && kl >= 0
  {
    var p := e.parts[t];
    var len := DataLength(p, kl);
    var img := e.image(t, len);
    if p.lengthPrefixed then
      Step(img + (if e.zerofill && |img| < len then Zeros(len - |img|) else []), 2 + len, kl - 2 - len)
    else
      Step(img + (if |img| < len then e.fill(t, len - |img|) else []), len, kl - len)
  }

  /** key_copy's loop body as a function of the part and the key length left. */
  function Body(e: CopyEnv): (nat, int) -> Step
  {
    (t: nat, kl: int) => PartStep(e, t, kl)
  }

  /** `body` is key_copy's loop body for `e`, as Body(e) is; it is stated
      pointwise so that a proof only meets the iterations it looks at. */
  ghost predicate IsBody(body: (nat, int) -> Step, e: CopyEnv)
  {
    forall t: nat, kl: int {:trigger PartStep(e, t, kl)} :: body(t, kl) == PartStep(e, t, kl)
  }

  lemma BodyIsBody(e: CopyEnv)
    ensures IsBody(Body(e), e)
  {
  }

  /** Every iteration of key_copy stays inside its part's store_length slot. */
  lemma PartStepFits(e: CopyEnv, body: (nat, int) -> Step)
    requires EnvOk(e) && IsBody(body, e)
    ensures BodyFits(body, e.parts)
  {
    forall t: nat, kl: int | t < |e.parts| && kl > 0
      ensures StepWithin(body(t, kl), e.parts[t].storeLength, kl)
    {
      assert body(t, kl) == PartStep(e, t, kl);
      var p := e.parts[t];
      assert PartLaid(p);
      var kl1 := if p.nullable then kl - 1 else kl;
      if !(p.nullable && Indicator(e.record, p) == 1) {
        var len := DataLength(p, kl1);
        var img := e.image(t, len);
        assert |img| <= len + (if p.lengthPrefixed then 2 else 0);
        if !p.lengthPrefixed && |img| < len {
          assert |e.fill(t, len - |img|)| == len - |img|;
        }
      }
    }
  }

  /** The iterations of a loop with body `body` from part `i` on with `kl`
      bytes of key length left: one per part until the key length runs out. */
  function Steps(body: (nat, int) -> Step, parts: seq<KeyPart>, i: nat, kl: int): (r: seq<Step>)
    requires BodyFits(body, parts) && i <= |parts| && kl <= Span(parts, i, |parts|)
    ensures |r| <= |parts| - i
    ensures StepsFit(r) && Reach(r) <= Span(parts, i, |parts|)
    decreases |parts| - i
  {
    if kl <= 0 then []
    else
      var s := body(i, kl);
      [s] + Steps(body, parts, i + 1, s.left)
  }

  lemma StepsCons(body: (nat, int) -> Step, parts: seq<KeyPart>, i: nat, kl: int)
    requires BodyFits(body, parts) && i <= |parts| && 0 < kl <= Span(parts, i, |parts|)
    ensures i < |parts| && body(i, kl).left <= Span(parts, i + 1, |parts|)
    ensures Steps(body, parts, i, kl) == [body(i, kl)] + Steps(body, parts, i + 1, body(i, kl).left)
  {
  }

  /** One iteration of the copy, seen from the buffer: applying the
      iterations from part `i` on is applying the first one and then the
      rest from where it leaves the pointer. */
  lemma ApplyCons(body: (nat, int) -> Step, parts: seq<KeyPart>, a: seq<byte>, i: nat, kl: int, pos: nat)
    requires BodyFits(body, parts) && i <= |parts| && 0 < kl <= Span(parts, i, |parts|)
    requires pos + Span(parts, i, |parts|) <= |a|
    ensures i < |parts| && body(i, kl).left <= Span(parts, i + 1, |parts|)
    ensures |body(i, kl).write| <= body(i, kl).advance
    ensures pos + body(i, kl).advance + Span(parts, i + 1, |parts|) <= |a|
    ensures Apply(a, Steps(body, parts, i, kl), pos)
         == Apply(Overlay(a, pos, body(i, kl).write), Steps(body, parts, i + 1, body(i, kl).left), pos + body(i, kl).advance)
  {
    StepsCons(body, parts, i, kl);
    SpanHead(parts, i, |parts|);
  }

  /** Each iteration writes no further than it moves the pointer. */
  predicate StepsFit(steps: seq<Step>)
  {
    steps == [] || (|steps[0].write| <= steps[0].advance && StepsFit(steps[1..]))
  }

  /** How far a run of iterations moves the buffer pointer. */
  function Reach(steps: seq<Step>): nat
  {
    if steps == [] then 0 else steps[0].advance + Reach(steps[1..])
  }

  /** The buffer `a` after the iterations `steps`, the first writing at `pos`. */
  function Apply(a: seq<byte>, steps: seq<Step>, pos: nat): (r: seq<byte>)
    requires StepsFit(steps) && pos + Reach(steps) <= |a|
    ensures |r| == |a|
    decreases |steps|
  {
    if steps == [] then a
    else Apply(Overlay(a, pos, steps[0].write), steps[1..], pos + steps[0].advance)
  }

  /** The key length key_copy works with: 0 means the whole key. */
  function CopyLength(key: KeyDef, keyLength: nat): nat
  {
    if keyLength == 0 then key.keyLength else keyLength
  }

  /** key_copy: the buffer afterwards is the effect of the loop's
      iterations on it, each inside its part's slot. */
  method KeyCopy(to: array<byte>, record: seq<bv8>, key: KeyDef, keyLength: nat, zerofill: bool,
                 image: (nat, nat) -> seq<byte>, fill: (nat, nat) -> seq<byte>, ghost body: (nat, int) -> Step)
    requires EnvOk(CopyEnv(key.parts, record, zerofill, image, fill))
    requires IsBody(body, CopyEnv(key.parts, record, zerofill, image, fill))
    requires CopyLength(key, keyLength) <= Span(key.parts, 0, |key.parts|) <= to.Length
    modifies to
    ensures && BodyFits(body, key.parts)
            && to[..] == Apply(old(to[..]), Steps(body, key.parts, 0, CopyLength(key, keyLength)), 0)
  {
    var e := CopyEnv(key.parts, record, zerofill, image, fill);
    PartStepFits(e, body);
    var parts := key.parts;
    var kl: int := CopyLength(key, keyLength);
    var pos: nat := 0;
    var i: nat := 0;
    ghost var goal := Apply(to[..], Steps(body, parts, 0, kl), 0);
    while kl > 0
      invariant CopyInv(body, parts, to[..], i, kl, pos, goal)
      decreases |parts| - i
    {
      var w, advance, left := CopyPart(e, i, kl, body);
      ghost var a, i0, kl0, pos0 := to[..], i, kl, pos;
      CopyFits(body, parts, a, i, kl, pos, goal);
      Put(to, pos, w);
      pos, kl, i := pos + advance, left, i + 1;
      CopyInvStep(body, parts, a, i0, kl0, pos0, goal, to[..], i, kl, pos);
    }
  }

  /** key_copy's loop invariant: the iterations still to come, applied to
      the buffer as it is, give the final buffer. */
  ghost predicate CopyInv(body: (nat, int) -> Step, parts: seq<KeyPart>, a: seq<byte>, i: nat, kl: int, pos: nat,
                          goal: seq<byte>)
  {
    && BodyFits(body, parts)
    && i <= |parts| && kl <= Span(parts, i, |parts|) && pos + Span(parts, i, |parts|) <= |a|
    && Apply(a, Steps(body, parts, i, kl), pos) == goal
  }

  /** The part under the pointer is there and its iteration writes inside
      the buffer. */
  lemma CopyFits(body: (nat, int) -> Step, parts: seq<KeyPart>, a: seq<byte>, i: nat, kl: int, pos: nat,
                 goal: seq<byte>)
    requires CopyInv(body, parts, a, i, kl, pos, goal) && kl > 0
    ensures i < |parts| && pos + |body(i, kl).write| <= |a|
  {
    ApplyCons(body, parts, a, i, kl, pos);
  }

  /** One iteration keeps CopyInv: it moves to the next part with the key
      length and the pointer it leaves, and the buffer it wrote. */
  lemma CopyInvStep(body: (nat, int) -> Step, parts: seq<KeyPart>, a: seq<byte>, i: nat, kl: int, pos: nat,
                    goal: seq<byte>, a': seq<byte>, i': nat, kl': int, pos': nat)
    requires CopyInv(body, parts, a, i, kl, pos, goal) && kl > 0
    requires i < |parts| && pos + |body(i, kl).write| <= |a|
    requires a' == Overlay(a, pos, body(i, kl).write)
    requires i' == i + 1 && kl' == body(i, kl).left && pos' == pos + body(i, kl).advance
    ensures CopyInv(body, parts, a', i', kl', pos', goal)
  {
    ApplyCons(body, parts, a, i, kl, pos);
  }

  /** The body of key_copy's loop for part `i` with `kl` > 0 bytes of key
      length left. */
  method CopyPart(e: CopyEnv, i: nat, kl: int, ghost body: (nat, int) -> Step) returns (w: seq<byte>, advance: nat, left: int)
    requires EnvOk(e) && IsBody(body, e) && i < |e.parts| && kl > 0
    ensures w == body(i, kl).write && advance == body(i, kl).advance && left == body(i, kl).left
  {
    var p := e.parts[i];
    assert PartLaid(p);
    assert body(i, kl) == PartStep(e, i, kl);
    left := kl;
    w, advance := [], 0;
    if p.nullable {
      w, left, advance := [Indicator(e.record, p)], kl - 1, 1;
    }
    if p.nullable && Indicator(e.record, p) == 1 {
      var length := Min(left, p.storeLength - 1);
      if e.zerofill {
        w := w + Zeros(length);
      }
      advance, left := advance + length, left - length;
    } else {
      assert w == NullByte(e, i);
      var data, more;
      data, more, left := CopyValue(e, i, left);
      w, advance := w + data, advance + more;
    }
  }

  /** The rest of key_copy's loop body for a part whose value is not NULL,
      with `kl` bytes of key length left after its null byte. */
  method CopyValue(e: CopyEnv, i: nat, kl: int) returns (w: seq<byte>, advance: nat, left: int)
    requires EnvOk(e) && i < |e.parts| && kl >= 0
    ensures Step(w, advance, left) == ValuePartStep(e, i, kl)
  {
    var p := e.parts[i];
    var length := DataLength(p, kl);
    var img := e.image(i, length);
    w, advance, left := img, 0, kl;
    if p.lengthPrefixed {
      left := left - 2;
      if e.zerofill && |img| < length {
        w := w + Zeros(length - |img|);
      }
      advance := advance + 2;
    } else if |img| < length {
      w := w + e.fill(i, length - |img|);
    }
    advance, left := advance + length, left - length;
  }

  /** Bytes before the first iteration's position are never written. */
  lemma {:induction false} ApplyKeepsBefore(a: seq<byte>, steps: seq<Step>, pos: nat, k: nat)
    requires StepsFit(steps) && pos + Reach(steps) <= |a|
    requires k < pos
    ensures Apply(a, steps, pos)[k] == a[k]
    decreases |steps|
  {
    if steps != [] {
      OverlayAt(a, pos, steps[0].write, k);
      ApplyKeepsBefore(Overlay(a, pos, steps[0].write), steps[1..], pos + steps[0].advance, k);
    }
  }

  /** Bytes past the last iteration's reach are never written. */
  lemma {:induction false} ApplyKeepsAfter(a: seq<byte>, steps: seq<Step>, pos: nat, k: nat)
    requires StepsFit(steps) && pos + Reach(steps) <= k < |a|
    ensures Apply(a, steps, pos)[k] == a[k]
    decreases |steps|
  {
    if steps != [] {
      OverlayAt(a, pos, steps[0].write, k);
      ApplyKeepsAfter(Overlay(a, pos, steps[0].write), steps[1..], pos + steps[0].advance, k);
    }
  }

  /** Inside the span of iteration `j`, the buffer holds what iteration `j`
      wrote, followed by what was there before. */
  lemma {:induction false} ApplySlot(a: seq<byte>, steps: seq<Step>, pos: nat, j: nat, k: nat)
    requires StepsFit(steps) && pos + Reach(steps) <= |a|
    requires j < |steps| && k < |a|
    requires pos + Reach(steps[..j]) <= k < pos + Reach(steps[..j]) + steps[j].advance
    ensures var start := pos + Reach(steps[..j]);
            Apply(a, steps, pos)[k] == if k < start + |steps[j].write| then steps[j].write[k - start] else a[k]
    decreases j
  {
    var a' := Overlay(a, pos, steps[0].write);
    assert Apply(a, steps, pos) == Apply(a', steps[1..], pos + steps[0].advance);
    if j == 0 {
      assert steps[..0] == [];
      ApplyKeepsBefore(a', steps[1..], pos + steps[0].advance, k);
      OverlayAt(a, pos, steps[0].write, k);
      assert a'[k] == if k < pos + |steps[0].write| then steps[0].write[k - pos] else a[k];
    } else {
      assert steps[..j][1..] == steps[1..][..j - 1];
      assert steps[1..][j - 1] == steps[j];
      ApplySlot(a', steps[1..], pos + steps[0].advance, j - 1, k);
    }
  }

  /** While the key length covers parts i..t, iteration t - i is part t's
      with the key length reduced by the slots before it, every earlier
      iteration moved the pointer by its part's store_length, and part t's
      iteration does too. */
  lemma {:induction false} CoveredStep(body: (nat, int) -> Step, parts: seq<KeyPart>, i: nat, kl: int, t: nat,
                                       n: nat, kt: int)
    requires BodyFits(body, parts) && i <= t < |parts| && kl <= Span(parts, i, |parts|)
    requires Span(parts, i, t + 1) <= kl && parts[t].storeLength > 0
    requires n == t - i && kt == kl - Span(parts, i, t)
    ensures var steps := Steps(body, parts, i, kl);
            && n < |steps|
            && kt >= parts[t].storeLength
            && steps[n] == body(t, kt)
            && Reach(steps[..n]) == Span(parts, i, t)
            && steps[n].advance == parts[t].storeLength
    decreases n, 1
  {
    if n == 0 {
      CoveredFirst(body, parts, i, kl);
    } else {
      CoveredLater(body, parts, i, kl, t, n, kt);
    }
  }

  /** CoveredStep when part t is the first of the run. */
  lemma CoveredFirst(body: (nat, int) -> Step, parts: seq<KeyPart>, i: nat, kl: int)
    requires BodyFits(body, parts) && i < |parts| && kl <= Span(parts, i, |parts|)
    requires Span(parts, i, i + 1) <= kl && parts[i].storeLength > 0
    ensures var steps := Steps(body, parts, i, kl);
            && 0 < |steps|
            && kl >= parts[i].storeLength
            && steps[0] == body(i, kl)
            && Reach(steps[..0]) == Span(parts, i, i)
            && steps[0].advance == parts[i].storeLength
  {
    SpanSnoc(parts, i, i);
    StepsCons(body, parts, i, kl);
    assert StepWithin(body(i, kl), parts[i].storeLength, kl);
    assert Steps(body, parts, i, kl)[..0] == [];
  }

  /** CoveredStep when part t comes after the first part of the run: the
      first iteration moves past part i, and the rest is the run from
      part i + 1. */
  lemma {:induction false} CoveredLater(body: (nat, int) -> Step, parts: seq<KeyPart>, i: nat, kl: int, t: nat,
                                        n: nat, kt: int)
    requires BodyFits(body, parts) && i < t < |parts| && kl <= Span(parts, i, |parts|)
    requires Span(parts, i, t + 1) <= kl && parts[t].storeLength > 0
    requires n == t - i && kt == kl - Span(parts, i, t)
    ensures var steps := Steps(body, parts, i, kl);
            && n < |steps|
            && kt >= parts[t].storeLength
            && steps[n] == body(t, kt)
            && Reach(steps[..n]) == Span(parts, i, t)
            && steps[n].advance == parts[t].storeLength
    decreases n, 0
  {
    SpanSnoc(parts, i, t);
    StepsCons(body, parts, i, kl);
    var s := body(i, kl);
    assert StepWithin(s, parts[i].storeLength, kl);
    SpanHead(parts, i, t + 1);
    SpanHead(parts, i, t);
    assert s.left == kl - parts[i].storeLength;
    CoveredStep(body, parts, i + 1, s.left, t, n - 1, kt);
    ConsPrefix(s, Steps(body, parts, i + 1, s.left), n);
  }

  /** Indexing and pointer reach past the first iteration of a run. */
  lemma ConsPrefix(s: Step, rest: seq<Step>, n: nat)
    requires 0 < n <= |rest|
    ensures ([s] + rest)[n] == rest[n - 1]
    ensures Reach(([s] + rest)[..n]) == s.advance + Reach(rest[..n - 1])
  {
    assert ([s] + rest)[..n] == [s] + rest[..n - 1];
    ReachCons(s, rest[..n - 1]);
  }

  /** The null-byte layout of key_copy, byte by byte over the slot of a
      nullable part that the key length covers, for a loop body that is
      key_copy's at that part (as Body(e) is at every part): the slot
      starts with 1 exactly when the record's null bit is set and 0
      otherwise; the other store_length - 1 bytes of a NULL part are zeros
      when zero-filling and left as they were otherwise. */
  lemma KeyCopyNullLayout(body: (nat, int) -> Step, e: CopyEnv, a: seq<byte>, K: int, t: nat, k: nat)
    requires EnvOk(e) && IsBody(body, e) && K <= Span(e.parts, 0, |e.parts|) <= |a|
    requires t < |e.parts| && e.parts[t].nullable && Span(e.parts, 0, t + 1) <= K
    requires Span(e.parts, 0, t) <= k < Span(e.parts, 0, t) + e.parts[t].storeLength
    ensures BodyFits(body, e.parts) &&
            var r := Apply(a, Steps(body, e.parts, 0, K), 0);
            var start := Span(e.parts, 0, t);
            var p := e.parts[t];
            var isNull := e.record[p.nullOffset] & p.nullBit != 0;
            && k < |r|
            && (k == start ==> r[k] == if isNull then 1 else 0)
            && (isNull && k > start ==> r[k] == if e.zerofill then 0 else a[k])
  {
    var p := e.parts[t];
    NullStep(e, body, t, K);
    NullSlot(body, e.parts, a, K, t, k, Indicator(e.record, p), e.zerofill);
  }

  /** A null byte `ind`, followed for 1 by zeros over the rest of the slot
      when `zeros` holds. */
  predicate NullWrite(w: seq<byte>, ind: byte, zeros: bool, store: nat)
  {
    |w| >= 1 && w[0] == ind && (ind == 1 ==> store >= 1 && w == [1] + (if zeros then Zeros(store - 1) else []))
  }

  /** The slot bytes of a part whose iteration writes the indicator `ind`
      and, for 1, zeros over the rest of the slot when `zeros` holds. */
  lemma NullSlot(body: (nat, int) -> Step, parts: seq<KeyPart>, a: seq<byte>, K: int, t: nat, k: nat,
                 ind: byte, zeros: bool)
    requires BodyFits(body, parts) && K <= Span(parts, 0, |parts|) <= |a|
    requires t < |parts| && parts[t].storeLength > 0 && Span(parts, 0, t + 1) <= K
    requires NullWrite(body(t, K - Span(parts, 0, t)).write, ind, zeros, parts[t].storeLength)
    requires Span(parts, 0, t) <= k < Span(parts, 0, t) + parts[t].storeLength
    ensures var r := Apply(a, Steps(body, parts, 0, K), 0);
            var start := Span(parts, 0, t);
            && k < |r|
            && (k == start ==> r[k] == ind)
            && (ind == 1 && k > start ==> r[k] == if zeros then 0 else a[k])
  {
    SlotAt(body, parts, a, K, t, k);
  }

  /** What a covered nullable part's iteration writes: its indicator, and
      for a NULL value store_length - 1 zeros with with_zerofill. */
  lemma NullStep(e: CopyEnv, body: (nat, int) -> Step, t: nat, K: int)
    requires EnvOk(e) && IsBody(body, e) && t < |e.parts| && e.parts[t].nullable
    requires Span(e.parts, 0, t + 1) <= K
    ensures BodyFits(body, e.parts) && e.parts[t].storeLength > 0
    ensures NullWrite(body(t, K - Span(e.parts, 0, t)).write, Indicator(e.record, e.parts[t]), e.zerofill, e.parts[t].storeLength)
  {
    PartStepFits(e, body);
    SpanSnoc(e.parts, 0, t);
    var kl := K - Span(e.parts, 0, t);
    assert PartLaid(e.parts[t]);
    assert body(t, kl) == PartStep(e, t, kl);
  }

  /** The null byte a non-NULL part's iteration writes: 0 when the part is
      nullable, nothing otherwise. */
  function NotNullPrefix(p: KeyPart): (pre: seq<byte>)
    ensures |pre| == (if p.nullable then 1 else 0) && (p.nullable ==> pre[0] == 0)
  {
    if p.nullable then [0] else []
  }

  /** The data bytes of a fixed-length part: the field's key image padded
      by the charset fill up to the part length. */
  function Padded(e: CopyEnv, t: nat): seq<byte>
    requires t < |e.parts|
  {
    var img := e.image(t, e.parts[t].length);
    img + (if |img| < e.parts[t].length then e.fill(t, e.parts[t].length - |img|) else [])
  }

  /** What a covered, non-NULL, fixed-length part's iteration writes: its
      null byte 0 when nullable, then the key image padded by the fill. */
  lemma ValueStep(e: CopyEnv, body: (nat, int) -> Step, t: nat, K: int)
    requires EnvOk(e) && IsBody(body, e) && t < |e.parts| && !e.parts[t].lengthPrefixed
    requires Span(e.parts, 0, t + 1) <= K
    requires e.parts[t].nullable ==> Indicator(e.record, e.parts[t]) == 0
    ensures BodyFits(body, e.parts) && e.parts[t].storeLength > 0
    ensures |Padded(e, t)| == e.parts[t].length
    ensures body(t, K - Span(e.parts, 0, t)).write == NotNullPrefix(e.parts[t]) + Padded(e, t)
  {
    PartStepFits(e, body);
    SpanSnoc(e.parts, 0, t);
    var kl := K - Span(e.parts, 0, t);
    var p := e.parts[t];
    assert PartLaid(p);
    var kl1 := if p.nullable then kl - 1 else kl;
    assert DataLength(p, kl1) == p.length;
    assert body(t, kl) == PartStep(e, t, kl);
  }

  /** A covered, non-NULL, fixed-length part holds its null byte 0 (when
      nullable), then the field's key image padded by the charset fill to
      the part length (`j` picks the data byte), for a loop body that is
      key_copy's at that part. */
  lemma KeyCopyValue(body: (nat, int) -> Step, e: CopyEnv, a: seq<byte>, K: int, t: nat, j: nat)
    requires EnvOk(e) && IsBody(body, e) && K <= Span(e.parts, 0, |e.parts|) <= |a|
    requires t < |e.parts| && !e.parts[t].lengthPrefixed && Span(e.parts, 0, t + 1) <= K
    requires e.parts[t].nullable ==> e.record[e.parts[t].nullOffset] & e.parts[t].nullBit == 0
    requires j < e.parts[t].length
    ensures BodyFits(body, e.parts) &&
            var r := Apply(a, Steps(body, e.parts, 0, K), 0);
            var start := Span(e.parts, 0, t);
            var p := e.parts[t];
            var d := if p.nullable then 1 else 0;
            var v := Padded(e, t);
            && start + p.storeLength <= |r|
            && (p.nullable ==> r[start] == 0)
            && j < |v| && r[start + d + j] == v[j]
  {
    ValueStep(e, body, t, K);
    ValueSlot(body, e.parts, a, K, t, j, NotNullPrefix(e.parts[t]), Padded(e, t), if e.parts[t].nullable then 1 else 0);
  }

  /** The slot bytes of a part whose iteration writes `pre`, then `v`. */
  lemma ValueSlot(body: (nat, int) -> Step, parts: seq<KeyPart>, a: seq<byte>, K: int, t: nat, j: nat,
                  pre: seq<byte>, v: seq<byte>, d: nat)
    requires BodyFits(body, parts) && K <= Span(parts, 0, |parts|) <= |a|
    requires t < |parts| && parts[t].storeLength > 0 && Span(parts, 0, t + 1) <= K
    requires body(t, K - Span(parts, 0, t)).write == pre + v && j < |v| && d == |pre|
    ensures var r := Apply(a, Steps(body, parts, 0, K), 0);
            var start := Span(parts, 0, t);
            && start + parts[t].storeLength <= |r|
            && start + d + |v| <= start + parts[t].storeLength
            && (pre != [] ==> r[start] == pre[0])
            && r[start + d + j] == v[j]
  {
    var start := Span(parts, 0, t);
    SlotAt(body, parts, a, K, t, start);
    SlotAt(body, parts, a, K, t, start + d + j);
  }

  /** Byte `k` of the slot of a part the key length covers holds what the
      part's iteration wrote there, or what the buffer held before past the
      end of what it wrote. */
  lemma SlotAt(body: (nat, int) -> Step, parts: seq<KeyPart>, a: seq<byte>, K: int, t: nat, k: nat)
    requires BodyFits(body, parts) && K <= Span(parts, 0, |parts|) <= |a|
    requires t < |parts| && parts[t].storeLength > 0 && Span(parts, 0, t + 1) <= K
    requires Span(parts, 0, t) <= k < Span(parts, 0, t) + parts[t].storeLength
    ensures var r := Apply(a, Steps(body, parts, 0, K), 0);
            var start := Span(parts, 0, t);
            var w := body(t, K - start).write;
            && start + parts[t].storeLength <= |r|
            && |w| <= parts[t].storeLength
            && r[k] == if k < start + |w| then w[k - start] else a[k]
  {
    SpanSnoc(parts, 0, t);
    SpanWithin(parts, t);
    CoveredStep(body, parts, 0, K, t, t, K - Span(parts, 0, t));
    ApplySlot(a, Steps(body, parts, 0, K), 0, t, k);
  }

  lemma ReachCons(s: Step, rest: seq<Step>)
    ensures Reach([s] + rest) == s.advance + Reach(rest)
  {
    assert ([s] + rest)[1..] == rest;
  }

  lemma SpanHead(parts: seq<KeyPart>, i: nat, t: nat)
    requires i < t <= |parts|
    ensures Span(parts, i, t) == parts[i].storeLength + Span(parts, i + 1, t)
  {
  }

  /** The slot of part `t` lies inside the whole key. */
  lemma {:induction false} SpanWithin(parts: seq<KeyPart>, t: nat)
    requires t < |parts|
    ensures Span(parts, 0, t + 1) <= Span(parts, 0, |parts|)
  {
    SpanSplit(parts, 0, t + 1, |parts|);
  }

  lemma {:induction false} SpanSplit(parts: seq<KeyPart>, i: nat, j: nat, n: nat)
    requires i <= j <= n <= |parts|
    ensures Span(parts, i, n) == Span(parts, i, j) + Span(parts, j, n)
    decreases j - i
  {
    if i < j {
      SpanSplit(parts, i + 1, j, n);
    }
  }
}
