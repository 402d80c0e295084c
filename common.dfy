/** Definitions shared by the models of the server and client files:
    an option type, bytes, little-endian integer reads and the decimal
    rendering used by the string helpers (int10_to_str, llstr). */
module Common {

  datatype Option<T> = None | Some(value: T)

  type byte = x: int | 0 <= x < 256

  /** Little-endian two-byte read (uint2korr). */
  function Uint2Korr(s: seq<byte>, i: nat): (r: nat)
    requires i + 2 <= |s|
    ensures r < 0x1_0000
    ensures r % 256 == s[i] && r / 256 == s[i + 1]
  {
    s[i] as int + 256 * (s[i + 1] as int)
  }

  /** Little-endian four-byte read (uint4korr). */
  function Uint4Korr(s: seq<byte>, i: nat): (r: nat)
    requires i + 4 <= |s|
    ensures r < 0x1_0000_0000
    ensures r % 0x1_0000 == Uint2Korr(s, i) && r / 0x1_0000 == Uint2Korr(s, i + 2)
  {
    Uint2Korr(s, i) + 0x1_0000 * Uint2Korr(s, i + 2)
  }

  /** Little-endian six-byte read (uint6korr). */
  function Uint6Korr(s: seq<byte>, i: nat): (r: nat)
    requires i + 6 <= |s|
    ensures r < 0x1_0000_0000_0000
    ensures r % 0x1_0000_0000 == Uint4Korr(s, i) && r / 0x1_0000_0000 == Uint2Korr(s, i + 4)
  {
    Uint4Korr(s, i) + 0x1_0000_0000 * Uint2Korr(s, i + 4)
  }

  /** Little-endian three-byte read (uint3korr). */
  function Uint3Korr(s: seq<byte>, i: nat): (r: nat)
    requires i + 3 <= |s|
    ensures r < 0x100_0000
    ensures r % 0x1_0000 == Uint2Korr(s, i) && r / 0x1_0000 == s[i + 2]
  {
    Uint2Korr(s, i) + 0x1_0000 * (s[i + 2] as int)
  }

  /** Little-endian two-byte write (int2store). */
  function Int2Store(v: nat): (s: seq<byte>)
    requires v < 0x1_0000
    ensures |s| == 2 && Uint2Korr(s, 0) == v
  {
    [v % 256, v / 256]
  }

  /** Little-endian three-byte write (int3store). */
  function Int3Store(v: nat): (s: seq<byte>)
    requires v < 0x100_0000
    ensures |s| == 3 && Uint3Korr(s, 0) == v
  {
    Int2Store(v % 0x1_0000) + [v / 0x1_0000]
  }

  /** Little-endian four-byte write (int4store). */
  function Int4Store(v: nat): (s: seq<byte>)
    requires v < 0x1_0000_0000
    ensures |s| == 4 && Uint4Korr(s, 0) == v
  {
    var lo, hi := Int2Store(v % 0x1_0000), Int2Store(v / 0x1_0000);
    assert (lo + hi)[2..4] == hi;
    lo + hi
  }

  /** Little-endian six-byte write (int6store). */
  function Int6Store(v: nat): (s: seq<byte>)
    requires v < 0x1_0000_0000_0000
    ensures |s| == 6 && Uint6Korr(s, 0) == v
  {
    var lo, hi := Int4Store(v % 0x1_0000_0000), Int2Store(v / 0x1_0000_0000);
    assert (lo + hi)[..4] == lo && (lo + hi)[4..6] == hi;
    lo + hi
  }

  /** Little-endian eight-byte write (int8store); its low four bytes
      are the four-byte write of the low half. */
  function Int8Store(v: nat): (s: seq<byte>)
    requires v < 0x1_0000_0000_0000_0000
    ensures |s| == 8 && s[..4] == Int4Store(v % 0x1_0000_0000)
  {
    Int4Store(v % 0x1_0000_0000) + Int4Store(v / 0x1_0000_0000)
  }

  /** A little-endian read depends only on the bytes it covers. */
  lemma KorrAt(s: seq<byte>, i: nat, w: seq<byte>)
    requires i + |w| <= |s| && s[i..i + |w|] == w
    ensures |w| >= 2 ==> Uint2Korr(s, i) == Uint2Korr(w, 0)
    ensures |w| >= 3 ==> Uint3Korr(s, i) == Uint3Korr(w, 0)
    ensures |w| >= 4 ==> Uint4Korr(s, i) == Uint4Korr(w, 0)
    ensures |w| >= 6 ==> Uint6Korr(s, i) == Uint6Korr(w, 0)
  {
    assert forall k :: 0 <= k < |w| ==> s[i + k] == w[k];
  }

  predicate IsDigit(c: char) { '0' <= c <= '9' }

  function DigitChar(d: nat): (c: char)
    requires d < 10
    ensures IsDigit(c) && c as int - '0' as int == d
  {
    (d + '0' as int) as char
  }

  /** Decimal text of a natural number, most significant digit first (int10_to_str). */
  function Decimal(n: nat): (s: string)
    ensures 1 <= |s|
    ensures forall i :: 0 <= i < |s| ==> IsDigit(s[i])
    ensures |s| > 1 ==> s[0] != '0'
    decreases n
  {
    if n < 10 then [DigitChar(n)] else Decimal(n / 10) + [DigitChar(n % 10)]
  }

  /** The number a string of decimal digits denotes. */
  function DigitsValue(s: string): nat
    requires forall i :: 0 <= i < |s| ==> IsDigit(s[i])
  {
    if s == [] then 0
    else
      assert IsDigit(s[|s| - 1]);
      10 * DigitsValue(s[..|s| - 1]) + (s[|s| - 1] as int - '0' as int)
  }

  /** Reading back the digits int10_to_str writes gives the number again. */
  lemma {:induction false} DecimalRoundTrip(n: nat)
    ensures DigitsValue(Decimal(n)) == n
    decreases n
  {
    var s := Decimal(n);
    if n >= 10 {
      DecimalRoundTrip(n / 10);
      assert s[..|s| - 1] == Decimal(n / 10);
    }
  }

  /** Decimal text of a signed value, with a leading '-' when negative (llstr). */
  function SignedDecimal(v: int): (s: string)
    ensures 1 <= |s|
    ensures (v < 0) == (s[0] == '-')
  {
    if v < 0 then "-" + Decimal(-v) else Decimal(v)
  }

  /** `n` blanks. */
  function Spaces(n: nat): (s: string)
    ensures |s| == n && forall k :: 0 <= k < n ==> s[k] == ' '
  {
    if n == 0 then "" else " " + Spaces(n - 1)
  }

  /** printf's "%-*s": `s` left-justified in a field of `width`
      characters, never cut. */
  function LeftJustify(s: string, width: nat): (r: string)
    ensures |r| == if |s| < width then width else |s|
    ensures r[..|s|] == s && forall k :: |s| <= k < |r| ==> r[k] == ' '
  {
    if |s| < width then s + Spaces(width - |s|) else s
  }

  /** `bytes` written over `a` from position `at`. */
  function Overlay(a: seq<byte>, at: nat, bytes: seq<byte>): (r: seq<byte>)
    requires at + |bytes| <= |a|
    ensures |r| == |a|
  {
    a[..at] + bytes + a[at + |bytes|..]
  }

  lemma OverlayAt(a: seq<byte>, at: nat, bytes: seq<byte>, k: nat)
    requires at + |bytes| <= |a| && k < |a|
    ensures Overlay(a, at, bytes)[k] == if at <= k < at + |bytes| then bytes[k - at] else a[k]
  {
  }

  /** Writes `bytes` into `to` from position `at` (memcpy). */
  method Put(to: array<byte>, at: nat, bytes: seq<byte>)
    requires at + |bytes| <= to.Length
    modifies to
    ensures to[..] == Overlay(old(to[..]), at, bytes)
  {
    var k := 0;
    while k < |bytes|
      invariant 0 <= k <= |bytes|
      invariant forall m :: 0 <= m < to.Length ==>
                  to[m] == if at <= m < at + k then bytes[m - at] else old(to[m])
    {
      to[at + k] := bytes[k];
      k := k + 1;
    }
    forall m | 0 <= m < to.Length
      ensures to[..][m] == Overlay(old(to[..]), at, bytes)[m]
    {
      OverlayAt(old(to[..]), at, bytes, m);
    }
    assert to[..] == Overlay(old(to[..]), at, bytes);
  }
}
