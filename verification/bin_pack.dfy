// ST_BIN_BUFF, the packet buffer, and its growth by appends.
module BinPacks {
  import opened CTypes
  import opened NetSpec
  import opened Framing

  class BinPack {
    var size: int            // header plus body capacity
    var len: int             // header plus data
    var binDataLen: nat      // the header word
    const body: array<byte>  // follows the header in memory

    ghost predicate Valid()
      reads this
    {
      && size == HEAD + body.Length && InRange(body.Length)
      && binDataLen <= body.Length && len == HEAD + binDataLen
    }

    ghost function Stored(): seq<byte>
      requires Valid()
      reads this, body
    {
      body[..binDataLen]
    }

    // mxx_alloc_bin_pack once malloc has succeeded; the capacity is forced into 1..10240.
    constructor (dataLen: int)
      ensures Valid() && Stored() == [] && fresh(body)
      ensures body.Length == Max(1, Min(dataLen, 10240))
    {
      var n := dataLen;
      if n <= BIN_PACK_MIN_SIZE { n := BIN_PACK_MIN_SIZE; }
      if n >= BIN_PACK_MAX_SIZE { n := BIN_PACK_MAX_SIZE; }
      body := new byte[n](_ => 0);
      size, len, binDataLen := n + HEAD, HEAD, 0;
    }

    method Clear()
      requires Valid()
      modifies this, body
      ensures Valid() && Stored() == [] && size == old(size)
      ensures body[..] == Put(old(body[..]), 0, Zeros(old(binDataLen)))
    {
      var n := binDataLen;
      binDataLen := 0;
      forall k | 0 <= k < n {
        body[k] := 0;
      }
      len := HEAD;
    }

    // The packet as it lies in memory, header first (mxx_bin_pack_ptr and mxx_bin_pack_len).
    method Packet() returns (bytes: seq<byte>)
      requires Valid()
      ensures bytes == Frame(Stored())
    {
      bytes := EncodeU32(binDataLen) + body[..binDataLen];
    }

    // mxx_bin_pack_append; an empty `data` stands for a null pointer or a length below one.
    method Append(data: seq<byte>) returns (rc: int)
      requires Valid()
      modifies this, body
      ensures Valid() && size == old(size)
      ensures (Stored(), rc) == AppendOne(body.Length, old(Stored()), data)
      ensures rc == if data == [] then -1 else if |old(Stored())| == body.Length then -2
                    else Min(|data|, body.Length - |old(Stored())|)
    {
      if data == [] {
        return -1;
      }
      var avail := size - HEAD - binDataLen;
      if avail <= 0 {
        return -2;
      }
      var n := |data|;
      if avail < n { n := avail; }
      CopyInto(body, binDataLen, data[..n]);
      assert body[..binDataLen + n] == old(Stored()) + data[..n];
      binDataLen := binDataLen + n;
      len := binDataLen + HEAD;
      rc := n;
    }
  }

  // The bytes stored in a packet of capacity `cap`, and the answer, after one append.
  function AppendOne(cap: nat, stored: seq<byte>, data: seq<byte>): (r: (seq<byte>, int))
    requires |stored| <= cap
    ensures |r.0| <= cap
  {
    if data == [] then (stored, -1)
    else if |stored| == cap then (stored, -2)
    else
      var n := Min(cap - |stored|, |data|);
      (stored + data[..n], n)
  }

  // A run of appends: what is stored, and the sum of the counts answered.
  function Appends(cap: nat, stored: seq<byte>, chunks: seq<seq<byte>>): (seq<byte>, int)
    requires |stored| <= cap
    decreases |chunks|
  {
    if chunks == [] then (stored, 0)
    else
      var (s, rc) := AppendOne(cap, stored, chunks[0]);
      var (z, sum) := Appends(cap, s, chunks[1..]);
      (z, Max(rc, 0) + sum)
  }

  // A run of appends stores as much of the concatenated input as fits, and the counts add up.
  lemma {:induction false} AppendsFill(cap: nat, stored: seq<byte>, chunks: seq<seq<byte>>)
    requires |stored| <= cap
    ensures Appends(cap, stored, chunks)
         == (First(cap, stored + Concat(chunks)), |First(cap, stored + Concat(chunks))| - |stored|)
    decreases |chunks|
  {
    if chunks == [] {
      assert stored + [] == stored;
    } else {
      var (s, rc) := AppendOne(cap, stored, chunks[0]);
      AppendsFill(cap, s, chunks[1..]);
      assert First(cap, s + Concat(chunks[1..])) == First(cap, stored + (chunks[0] + Concat(chunks[1..])));
    }
  }
}
