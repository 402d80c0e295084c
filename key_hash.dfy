/** Hashing and equality of key buffers in sql/key.cc (key_hashnr and
    key_buf_cmp), as the hash join buffer uses them: NULL parts hash alike
    and compare equal, string parts go through the collation (the
    character set's hash_sort and strnncollsp are parameters), any other
    part byte by byte. */
module KeyHash {
  import opened Common
  import opened KeyInfo

  /** The collation a string part is hashed and compared with: the
      field's character set for TEXT and VARTEXT, my_charset_bin for
      BINARY and VARBINARY. */
  datatype Coll = FieldColl(field: nat) | BinColl

  /** VARCHAR-style key types, whose data follows two length bytes. */
  predicate IsVar(t: KeyType)
  {
    t == VarText1 || t == VarText2 || t == VarBinary1 || t == VarBinary2
  }

  /** The collation of a string part; None for the other key types. */
  function PartColl(p: KeyPart): Option<Coll>
  {
    match p.keyType
    case Text => Some(FieldColl(p.field))
    case VarText1 => Some(FieldColl(p.field))
    case VarText2 => Some(FieldColl(p.field))
    case Binary => Some(BinColl)
    case VarBinary1 => Some(BinColl)
    case VarBinary2 => Some(BinColl)
    case OtherType => None
  }

  /** How far both loops move the key pointer over a part: its length,
      its null byte and, for VARCHAR-style types, the two length bytes. */
  function Width(p: KeyPart): nat
  {
    (if p.nullable then 1 else 0) + p.length + (if IsVar(p.keyType) then 2 else 0)
  }

  /** The bytes a non-NULL part is hashed or compared on, starting at its
      data position `d` (after the null byte). */
  predicate DataReadable(p: KeyPart, key: seq<byte>, d: nat)
  {
    if IsVar(p.keyType) then d + 2 <= |key| && d + 2 + Uint2Korr(key, d) <= |key|
    else d + p.length <= |key|
  }

  /** A VARCHAR-style part holds as many characters as its two length
      bytes say; any other part its length in bytes. */
  function Data(p: KeyPart, key: seq<byte>, d: nat): seq<byte>
    requires DataReadable(p, key, d)
  {
    if IsVar(p.keyType) then key[d + 2..d + 2 + Uint2Korr(key, d)] else key[d..d + p.length]
  }

  /** Whether a key part is NULL in the buffer: a non-zero null byte. */
  predicate IsNullAt(p: KeyPart, key: seq<byte>, pos: nat)
  {
    p.nullable && pos < |key| && key[pos] != 0
  }

  /** What the loops read of a part at `pos`: the null byte, and the data
      of a value that is not NULL. */
  predicate PartReadable(p: KeyPart, key: seq<byte>, pos: nat)
  {
    && (p.nullable ==> pos < |key|)
    && (IsNullAt(p, key, pos) || DataReadable(p, key, (if p.nullable then pos + 1 else pos)))
  }

  /** Parts i..n of a key buffer can be read, the first at `pos`. */
  predicate Readable(parts: seq<KeyPart>, n: nat, key: seq<byte>, i: nat, pos: nat)
    requires n <= |parts|
    decreases n - i
  {
    i >= n || (PartReadable(parts[i], key, pos) && Readable(parts, n, key, i + 1, pos + Width(parts[i])))
  }

  /* ---------------------------------------------------------------- */
  /* key_hashnr                                                        */
  /* ---------------------------------------------------------------- */

  /** The pair (nr, nr2) of 64-bit words the hash is kept in. */
  datatype Hash = Hash(nr: bv64, nr2: bv64)

  /** The hash before any part: nr = 1, nr2 = 4. */
  const HashStart := Hash(1, 4)

  /** A NULL part: nr ^= (nr << 1) | 1. */
  function MixNull(h: Hash): Hash
  {
    Hash(h.nr ^ ((h.nr << 1) | 1), h.nr2)
  }

  /** One byte of a part that is not a string:
      nr ^= (((nr & 63) + nr2) * b) + (nr << 8); nr2 += 3, all modulo 2^64. */
  function MixByte(h: Hash, b: byte): Hash
  {
    Hash(h.nr ^ ((((h.nr & 63) + h.nr2) * (b as bv64)) + (h.nr << 8)), h.nr2 + 3)
  }

  /** The two ways key_hashnr mixes data into the hash: the collation's
      hash_sort for strings, and a step per byte (MixByte) for the rest. */
  datatype Hasher = Hasher(hashSort: (Coll, seq<byte>, Hash) -> Hash, mix: (Hash, byte) -> Hash)

  /** The bytes of a part that is not a string, first to last, each
      mixed in by `mix`. */
  function MixBytes(mix: (Hash, byte) -> Hash, h: Hash, bytes: seq<byte>): Hash
    decreases |bytes|
  {
    if bytes == [] then h else MixBytes(mix, mix(h, bytes[0]), bytes[1..])
  }

  /** The hash after one part. */
  function HashPart(p: KeyPart, key: seq<byte>, pos: nat, h: Hash, hs: Hasher): Hash
    requires PartReadable(p, key, pos)
  {
    if IsNullAt(p, key, pos) then MixNull(h)
    else HashData(p, key, if p.nullable then pos + 1 else pos, h, hs)
  }

  /** The hash after the data of a part that is not NULL, at `d`: a
      string through the collation's hash_sort, anything else byte by
      byte. */
  function HashData(p: KeyPart, key: seq<byte>, d: nat, h: Hash, hs: Hasher): Hash
    requires DataReadable(p, key, d)
  {
    match PartColl(p)
    case Some(c) => hs.hashSort(c, Data(p, key, d), h)
    case None => MixBytes(hs.mix, h, Data(p, key, d))
  }

  /** The hash after parts i..n, the first at `pos`. */
  function HashParts(parts: seq<KeyPart>, n: nat, key: seq<byte>, i: nat, pos: nat, h: Hash,
                     hs: Hasher): Hash
    requires n <= |parts| && Readable(parts, n, key, i, pos)
    decreases n - i
  {
    if i >= n then h
    else HashParts(parts, n, key, i + 1, pos + Width(parts[i]), HashPart(parts[i], key, pos, h, hs), hs)
  }

  /** key_hashnr: the hash of the first `usedKeyParts` parts of `key`. */
  method KeyHashnr(parts: seq<KeyPart>, usedKeyParts: nat, key: seq<byte>, hashSort: (Coll, seq<byte>, Hash) -> Hash)
    returns (nr: bv64)
    requires usedKeyParts <= |parts| && Readable(parts, usedKeyParts, key, 0, 0)
    ensures nr == HashParts(parts, usedKeyParts, key, 0, 0, HashStart, Hasher(hashSort, MixByte)).nr
  {
    var hs := Hasher(hashSort, MixByte);
    var h := HashStart;
    var i: nat, pos: nat := 0, 0;
    while i < usedKeyParts
      invariant HashInv(parts, usedKeyParts, key, i, pos, h, hs)
      decreases usedKeyParts - i
    {
      HashInvStep(parts, usedKeyParts, key, i, pos, h, hs);
      h, pos := HashKeyPart(parts[i], key, pos, h, hs);
      i := i + 1;
    }
    nr := h.nr;
  }

  /** The state of key_hashnr's loop: the parts from `i` on are readable
      at `pos`, and hashing them into `h` gives the hash of the whole. */
  ghost predicate HashInv(parts: seq<KeyPart>, n: nat, key: seq<byte>, i: nat, pos: nat, h: Hash, hs: Hasher)
  {
    i <= n <= |parts| && Readable(parts, n, key, 0, 0) && Readable(parts, n, key, i, pos) &&
    HashParts(parts, n, key, i, pos, h, hs) == HashParts(parts, n, key, 0, 0, HashStart, hs)
  }

  lemma HashInvStep(parts: seq<KeyPart>, n: nat, key: seq<byte>, i: nat, pos: nat, h: Hash, hs: Hasher)
    requires HashInv(parts, n, key, i, pos, h, hs) && i < n
    ensures PartReadable(parts[i], key, pos)
    ensures HashInv(parts, n, key, i + 1, pos + Width(parts[i]), HashPart(parts[i], key, pos, h, hs), hs)
  {
  }

  /** The body of key_hashnr's loop: hashes the part at `pos` into `h`
      and moves past it. */
  method HashKeyPart(p: KeyPart, key: seq<byte>, pos: nat, h0: Hash, hs: Hasher)
    returns (h: Hash, next: nat)
    requires PartReadable(p, key, pos)
    ensures h == HashPart(p, key, pos, h0, hs) && next == pos + Width(p)
  {
    h := h0;
    next := pos + p.length;
    var at := pos;
    if p.nullable {
      next := next + 1;
      if key[at] != 0 {
        h := MixNull(h);
        if IsVar(p.keyType) {
          next := next + 2;
        }
        return;
      }
      at := at + 1;
    }
    h := HashValue(p, key, at, h, hs);
    next := next + (if IsVar(p.keyType) then 2 else 0);
  }

  /** The string or byte hashing of key_hashnr's loop body for a value
      that is not NULL, its data at `at`. */
  method HashValue(p: KeyPart, key: seq<byte>, at: nat, h0: Hash, hs: Hasher)
    returns (h: Hash)
    requires DataReadable(p, key, at)
    ensures h == HashData(p, key, at, h0, hs)
  {
    match PartColl(p) {
      case Some(c) =>
        if IsVar(p.keyType) {
          var length := Uint2Korr(key, at);
          h := hs.hashSort(c, key[at + 2..at + 2 + length], h0);
        } else {
          h := hs.hashSort(c, key[at..at + p.length], h0);
        }
      case None =>
        h := MixLoop(hs.mix, h0, key, at, at + p.length);
    }
  }

  /** The byte loop of key_hashnr over key[from..to), for any byte
      mixing step. */
  method MixLoop(mix: (Hash, byte) -> Hash, h0: Hash, key: seq<byte>, from: nat, to: nat) returns (h: Hash)
    requires from <= to <= |key|
    ensures h == MixBytes(mix, h0, key[from..to])
  {
    h := h0;
    var at := from;
    while at < to
      invariant from <= at <= to
      invariant MixBytes(mix, h, key[at..to]) == MixBytes(mix, h0, key[from..to])
    {
      assert key[at..to][1..] == key[at + 1..to];
      h := mix(h, key[at]);
      at := at + 1;
    }
  }

  /* ---------------------------------------------------------------- */
  /* key_buf_cmp                                                       */
  /* ---------------------------------------------------------------- */

  /** Whether one part differs between the two buffers: two NULLs are
      equal, one NULL is a difference, string data compare through the
      collation, other data byte by byte. */
  predicate PartDiffers(p: KeyPart, key1: seq<byte>, key2: seq<byte>, pos: nat,
                        collCmp: (Coll, seq<byte>, seq<byte>) -> int)
    requires PartReadable(p, key1, pos) && PartReadable(p, key2, pos)
  {
    if IsNullAt(p, key1, pos) && IsNullAt(p, key2, pos) then false
    else if p.nullable && key1[pos] != key2[pos] then true
    else DataDiffers(p, key1, key2, if p.nullable then pos + 1 else pos, collCmp)
  }

  /** Whether the data of a part that is NULL in neither buffer differs:
      strings through the collation's strnncollsp, anything else byte by
      byte. */
  predicate DataDiffers(p: KeyPart, key1: seq<byte>, key2: seq<byte>, d: nat,
                        collCmp: (Coll, seq<byte>, seq<byte>) -> int)
    requires DataReadable(p, key1, d) && DataReadable(p, key2, d)
  {
    match PartColl(p)
    case Some(c) => collCmp(c, Data(p, key1, d), Data(p, key2, d)) != 0
    case None => Data(p, key1, d) != Data(p, key2, d)
  }

  /** Whether some part among i..n differs, the first at `pos`. */
  predicate BufDiffer(parts: seq<KeyPart>, n: nat, key1: seq<byte>, key2: seq<byte>, i: nat, pos: nat,
                      collCmp: (Coll, seq<byte>, seq<byte>) -> int)
    requires n <= |parts| && Readable(parts, n, key1, i, pos) && Readable(parts, n, key2, i, pos)
    decreases n - i
  {
    i < n &&
    (PartDiffers(parts[i], key1, key2, pos, collCmp) ||
     BufDiffer(parts, n, key1, key2, i + 1, pos + Width(parts[i]), collCmp))
  }

  /** key_buf_cmp: true iff the first `usedKeyParts` parts of the two
      buffers differ. */
  method KeyBufCmp(parts: seq<KeyPart>, usedKeyParts: nat, key1: seq<byte>, key2: seq<byte>,
                   collCmp: (Coll, seq<byte>, seq<byte>) -> int) returns (differ: bool)
    requires usedKeyParts <= |parts|
    requires Readable(parts, usedKeyParts, key1, 0, 0) && Readable(parts, usedKeyParts, key2, 0, 0)
    ensures differ == BufDiffer(parts, usedKeyParts, key1, key2, 0, 0, collCmp)
  {
    var i: nat, pos: nat := 0, 0;
    while i < usedKeyParts
      invariant CmpInv(parts, usedKeyParts, key1, key2, i, pos, collCmp)
      decreases usedKeyParts - i
    {
      var partDiffers, next := CmpKeyPart(parts[i], key1, key2, pos, collCmp);
      if partDiffers {
        CmpInvDiffers(parts, usedKeyParts, key1, key2, i, pos, collCmp);
        return true;
      }
      CmpInvStep(parts, usedKeyParts, key1, key2, i, pos, collCmp, next);
      i, pos := i + 1, next;
    }
    return false;
  }

  /** key_buf_cmp's loop invariant: the parts before i are equal, so the
      buffers differ iff a part from i on does. */
  ghost predicate CmpInv(parts: seq<KeyPart>, n: nat, key1: seq<byte>, key2: seq<byte>, i: nat, pos: nat,
                         collCmp: (Coll, seq<byte>, seq<byte>) -> int)
  {
    i <= n <= |parts| && Readable(parts, n, key1, 0, 0) && Readable(parts, n, key2, 0, 0) &&
    Readable(parts, n, key1, i, pos) && Readable(parts, n, key2, i, pos) &&
    BufDiffer(parts, n, key1, key2, 0, 0, collCmp) == BufDiffer(parts, n, key1, key2, i, pos, collCmp)
  }

  /** A turn of key_buf_cmp's loop that finds the part at i equal keeps
      the invariant. */
  lemma CmpInvStep(parts: seq<KeyPart>, n: nat, key1: seq<byte>, key2: seq<byte>, i: nat, pos: nat,
                   collCmp: (Coll, seq<byte>, seq<byte>) -> int, next: nat)
    requires CmpInv(parts, n, key1, key2, i, pos, collCmp) && i < n && next == pos + Width(parts[i])
    requires !PartDiffers(parts[i], key1, key2, pos, collCmp)
    ensures CmpInv(parts, n, key1, key2, i + 1, next, collCmp)
  {
  }

  /** A part found different at i makes the buffers differ. */
  lemma CmpInvDiffers(parts: seq<KeyPart>, n: nat, key1: seq<byte>, key2: seq<byte>, i: nat, pos: nat,
                      collCmp: (Coll, seq<byte>, seq<byte>) -> int)
    requires CmpInv(parts, n, key1, key2, i, pos, collCmp) && i < n
    requires PartDiffers(parts[i], key1, key2, pos, collCmp)
    ensures BufDiffer(parts, n, key1, key2, 0, 0, collCmp)
  {
  }

  /** The body of key_buf_cmp's loop: whether the part at `pos` differs,
      and where the next part starts. */
  method CmpKeyPart(p: KeyPart, key1: seq<byte>, key2: seq<byte>, pos: nat,
                    collCmp: (Coll, seq<byte>, seq<byte>) -> int) returns (differ: bool, next: nat)
    requires PartReadable(p, key1, pos) && PartReadable(p, key2, pos)
    ensures differ == PartDiffers(p, key1, key2, pos, collCmp) && next == pos + Width(p)
  {
    differ := false;
    next := pos + p.length;
    var at := pos;
    if p.nullable {
      next := next + 1;
      if key1[at] != 0 && key2[at] != 0 {
        if IsVar(p.keyType) {
          next := next + 2;
        }
        return;
      }
      if key1[at] != key2[at] {
        differ := true;
        next := next + (if IsVar(p.keyType) then 2 else 0);
        return;
      }
      at := at + 1;
    }
    differ := CmpValue(p, key1, key2, at, collCmp);
    next := next + (if IsVar(p.keyType) then 2 else 0);
  }

  /** The string or byte comparison of key_buf_cmp's loop body for a part
      that is NULL in neither buffer, its data at `at`. */
  method CmpValue(p: KeyPart, key1: seq<byte>, key2: seq<byte>, at: nat,
                  collCmp: (Coll, seq<byte>, seq<byte>) -> int) returns (differ: bool)
    requires DataReadable(p, key1, at) && DataReadable(p, key2, at)
    ensures differ == DataDiffers(p, key1, key2, at, collCmp)
  {
    match PartColl(p) {
      case Some(c) =>
        if IsVar(p.keyType) {
          var length1 := Uint2Korr(key1, at);
          var length2 := Uint2Korr(key2, at);
          differ := collCmp(c, key1[at + 2..at + 2 + length1], key2[at + 2..at + 2 + length2]) != 0;
        } else {
          differ := collCmp(c, key1[at..at + p.length], key2[at..at + p.length]) != 0;
        }
      case None =>
        var same := SameBytes(key1, key2, at, at + p.length);
        differ := !same;
    }
  }

  /** The byte loop of key_buf_cmp over [from, to) of both buffers. */
  method SameBytes(key1: seq<byte>, key2: seq<byte>, from: nat, to: nat) returns (same: bool)
    requires from <= to <= |key1| && to <= |key2|
    ensures same == (key1[from..to] == key2[from..to])
  {
    var at := from;
    while at < to
      invariant from <= at <= to
      invariant key1[from..at] == key2[from..at]
    {
      if key1[at] != key2[at] {
        assert key1[from..to][at - from] != key2[from..to][at - from];
        return false;
      }
      assert key1[from..at + 1] == key1[from..at] + [key1[at]];
      assert key2[from..at + 1] == key2[from..at] + [key2[at]];
      at := at + 1;
    }
    return true;
  }

  /* ---------------------------------------------------------------- */
  /* Hash and equality agree                                           */
  /* ---------------------------------------------------------------- */

  /** hash_sort agrees with strnncollsp: data the collation calls equal
      hash alike. */
  ghost predicate HashRespectsCollation(hs: Hasher,
                                        collCmp: (Coll, seq<byte>, seq<byte>) -> int)
  {
    forall c, a, b, h :: collCmp(c, a, b) == 0 ==> hs.hashSort(c, a, h) == hs.hashSort(c, b, h)
  }

  /** Keys that key_buf_cmp calls equal get the same key_hashnr, from any
      hash state on, when hash_sort agrees with strnncollsp: the pair is
      what the hash join buffer relies on. */
  lemma {:induction false} EqualKeysHashAlike(parts: seq<KeyPart>, n: nat, key1: seq<byte>, key2: seq<byte>,
                                              i: nat, pos: nat, h: Hash,
                                              hs: Hasher,
                                              collCmp: (Coll, seq<byte>, seq<byte>) -> int)
    requires n <= |parts| && Readable(parts, n, key1, i, pos) && Readable(parts, n, key2, i, pos)
    requires HashRespectsCollation(hs, collCmp)
    requires !BufDiffer(parts, n, key1, key2, i, pos, collCmp)
    ensures HashParts(parts, n, key1, i, pos, h, hs) == HashParts(parts, n, key2, i, pos, h, hs)
    decreases n - i
  {
    if i < n {
      var p := parts[i];
      var h1 := HashPart(p, key1, pos, h, hs);
      var h2 := HashPart(p, key2, pos, h, hs);
      if !IsNullAt(p, key1, pos) {
        var d := if p.nullable then pos + 1 else pos;
        match PartColl(p)
        case Some(c) =>
          assert collCmp(c, Data(p, key1, d), Data(p, key2, d)) == 0;
        case None =>
      }
      assert h1 == h2;
      EqualKeysHashAlike(parts, n, key1, key2, i + 1, pos + Width(p), h1, hs, collCmp);
    }
  }

  /** A key buffer equals itself when the collation calls every string
      equal to itself. */
  lemma {:induction false} KeyBufCmpReflexive(parts: seq<KeyPart>, n: nat, key: seq<byte>, i: nat, pos: nat,
                                              collCmp: (Coll, seq<byte>, seq<byte>) -> int)
    requires n <= |parts| && Readable(parts, n, key, i, pos)
    requires forall c, a :: collCmp(c, a, a) == 0
    ensures !BufDiffer(parts, n, key, key, i, pos, collCmp)
    decreases n - i
  {
    if i < n {
      var p := parts[i];
      if !IsNullAt(p, key, pos) {
        var d := if p.nullable then pos + 1 else pos;
        match PartColl(p)
        case Some(c) =>
          assert collCmp(c, Data(p, key, d), Data(p, key, d)) == 0;
        case None =>
      }
      KeyBufCmpReflexive(parts, n, key, i + 1, pos + Width(p), collCmp);
    }
  }

  /** key_buf_cmp does not depend on the order of its buffers when the
      collation's equality is symmetric. */
  lemma {:induction false} KeyBufCmpSymmetric(parts: seq<KeyPart>, n: nat, key1: seq<byte>, key2: seq<byte>,
                                              i: nat, pos: nat, collCmp: (Coll, seq<byte>, seq<byte>) -> int)
    requires n <= |parts| && Readable(parts, n, key1, i, pos) && Readable(parts, n, key2, i, pos)
    requires forall c, a, b :: (collCmp(c, a, b) == 0) == (collCmp(c, b, a) == 0)
    ensures BufDiffer(parts, n, key1, key2, i, pos, collCmp) == BufDiffer(parts, n, key2, key1, i, pos, collCmp)
    decreases n - i
  {
    if i < n {
      PartDiffersSymmetric(parts[i], key1, key2, pos, collCmp);
      KeyBufCmpSymmetric(parts, n, key1, key2, i + 1, pos + Width(parts[i]), collCmp);
    }
  }

  /** One part differs the same whichever buffer comes first. */
  lemma PartDiffersSymmetric(p: KeyPart, key1: seq<byte>, key2: seq<byte>, pos: nat,
                             collCmp: (Coll, seq<byte>, seq<byte>) -> int)
    requires PartReadable(p, key1, pos) && PartReadable(p, key2, pos)
    requires forall c, a, b :: (collCmp(c, a, b) == 0) == (collCmp(c, b, a) == 0)
    ensures PartDiffers(p, key1, key2, pos, collCmp) == PartDiffers(p, key2, key1, pos, collCmp)
  {
    var d := if p.nullable then pos + 1 else pos;
    if !IsNullAt(p, key1, pos) && !IsNullAt(p, key2, pos) {
      match PartColl(p)
      case Some(c) =>
        assert (collCmp(c, Data(p, key1, d), Data(p, key2, d)) == 0) == (collCmp(c, Data(p, key2, d), Data(p, key1, d)) == 0);
      case None =>
    }
  }
}
