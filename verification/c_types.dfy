// C machine types used by the sources: bytes, 32-bit unsigned wrap-around, the signed
// reading of a 32-bit word, and little-endian words in memory.
module CTypes {

  datatype Option<+T> = None | Some(value: T) {
    function GetOr(default: T): T {
      if Some? then value else default
    }
  }

  type byte = b: int | 0 <= b < 256

  const TWO_32: int := 0x1_0000_0000
  const TWO_31: int := 0x8000_0000

  // Conversion to `unsigned int`.
  function U32(x: int): (r: nat)
    ensures r < TWO_32
    ensures 0 <= x < TWO_32 ==> r == x
  {
    x % TWO_32
  }

  // Conversion to `int`.
  function Int32(x: int): (r: int)
    ensures -TWO_31 <= r < TWO_31
    ensures -TWO_31 <= x < TWO_31 ==> r == x
  {
    var u := U32(x);
    if u < TWO_31 then u else u - TWO_32
  }

  lemma Int32Of(x: nat)
    requires x < TWO_32
    ensures Int32(x) == if x < TWO_31 then x else x - TWO_32
  {}

  // The four bytes of an `unsigned int` on a little-endian machine.
  function EncodeU32(x: nat): (s: seq<byte>)
    requires x < TWO_32
    ensures |s| == 4
  {
    [x % 256, x / 0x100 % 256, x / 0x1_0000 % 256, x / 0x100_0000]
  }

  function DecodeU32(s: seq<byte>): (x: nat)
    requires |s| == 4
    ensures x < TWO_32
  {
    var b0: int, b1: int, b2: int, b3: int := s[0], s[1], s[2], s[3];
    b0 + 0x100 * b1 + 0x1_0000 * b2 + 0x100_0000 * b3
  }

  // Storing a word and loading it back gives the word.
  lemma U32RoundTrip(x: nat)
    requires x < TWO_32
    ensures DecodeU32(EncodeU32(x)) == x
  {
    var hi := x / 0x1_0000;
    assert x / 0x100 % 256 == x / 0x100 - 256 * hi;
    assert x / 0x1_0000 % 256 == hi - 256 * (x / 0x100_0000);
  }

  // A C string: the bytes before the terminating zero.
  type cstring = s: seq<byte> | forall i :: 0 <= i < |s| ==> s[i] != 0

  // The bytes before the first zero.
  function CString(s: seq<byte>): cstring {
    if s == [] || s[0] == 0 then [] else [s[0]] + CString(s[1..])
  }

  // A string followed by a zero reads back as itself.
  lemma {:induction false} CStringStops(s: seq<byte>, c: cstring)
    requires c <= s && |c| < |s| && s[|c|] == 0
    ensures CString(s) == c
  {
    if c != [] {
      CStringStops(s[1..], c[1..]);
    }
  }

  function Min(a: int, b: int): int { if a <= b then a else b }
  function Max(a: int, b: int): int { if a >= b then a else b }

  // As much of `s` as fits into n bytes.
  function First(n: nat, s: seq<byte>): (t: seq<byte>)
    ensures |t| == Min(n, |s|)
  {
    s[..Min(n, |s|)]
  }

  // Where `x` occurs first, |xs| when it does not occur.
  function Position<T(==)>(xs: seq<T>, x: T): (k: nat)
    ensures k <= |xs| && (k < |xs| ==> xs[k] == x)
    ensures forall i :: 0 <= i < k ==> xs[i] != x
  {
    if xs == [] || xs[0] == x then 0 else 1 + Position(xs[1..], x)
  }

  const NAME_SIZE: int := 64

  // What strncpy(dst, name, 63) keeps of a name, for the 64-byte name fields.
  function Clip(name: cstring): (c: cstring)
    ensures |c| < NAME_SIZE && c <= name
    ensures c == name <==> |name| < NAME_SIZE
  {
    name[..Min(|name|, NAME_SIZE - 1)]
  }

  function Zeros(n: nat): (s: seq<byte>)
    ensures |s| == n
    ensures forall i :: 0 <= i < n ==> s[i] == 0
  {
    seq(n, _ => 0)
  }

  // `s` with `bytes` copied over it from `at` on.
  function Put(s: seq<byte>, at: nat, bytes: seq<byte>): (t: seq<byte>)
    requires at + |bytes| <= |s|
    ensures |t| == |s|
    ensures forall k :: 0 <= k < |s| ==>
              t[k] == if at <= k < at + |bytes| then bytes[k - at] else s[k]
  {
    s[..at] + bytes + s[at + |bytes|..]
  }

  // memcpy into a byte buffer.
  method CopyInto(a: array<byte>, at: nat, bytes: seq<byte>)
    requires at + |bytes| <= a.Length
    modifies a
    ensures a[..] == Put(old(a[..]), at, bytes)
  {
    for k := 0 to |bytes|
      invariant a[..] == Put(old(a[..]), at, bytes[..k])
    {
      a[at + k] := bytes[k];
    }
  }
}
