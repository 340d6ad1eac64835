// The undo record as bytes: ST_TABLE_RECORD (152 bytes on LP64) followed by the saved data.
module RecordSpec {
  import opened CTypes

  const SIZEOF_RECORD: int := 152

  datatype Entry = Entry(db: cstring, tb: cstring, op: byte, uid: nat, data: seq<byte>)

  predicate Representable(e: Entry) {
    e.uid < TWO_32 && 0 < |e.data|
  }

  // The record as push_record builds it in zeroed memory.
  function Encode(e: Entry): (s: seq<byte>)
    requires Representable(e)
    ensures |s| == SIZEOF_RECORD + |e.data|
  {
    var s := Put(Zeros(SIZEOF_RECORD + |e.data|), 0, Clip(e.db));
    var s := Put(s, 64, Clip(e.tb));
    var s := Put(s, 132, EncodeU32(e.uid));
    var s := Put(s, 128, [e.op]);
    var s := Put(s, SIZEOF_RECORD, e.data);
    Put(s, 144, EncodeU32(U32(|e.data|)))
  }

  lemma PutWithin(s: seq<byte>, p: nat, mid: seq<byte>, at: nat, bytes: seq<byte>)
    requires p + |mid| <= |s| && at + |bytes| <= |mid|
    ensures Put(Put(s, p, mid), p + at, bytes) == Put(s, p, Put(mid, at, bytes))
  {}

  // The same field stores carried out inside a larger buffer.
  lemma FieldsMakeRecord(s: seq<byte>, p: nat, e: Entry)
    requires Representable(e) && p + SIZEOF_RECORD + |e.data| <= |s|
    requires s == Put(s, p, Zeros(SIZEOF_RECORD + |e.data|))
    ensures var t := Put(s, p, Clip(e.db));
            var t := Put(t, p + 64, Clip(e.tb));
            var t := Put(t, p + 132, EncodeU32(e.uid));
            var t := Put(t, p + 128, [e.op]);
            var t := Put(t, p + SIZEOF_RECORD, e.data);
            Put(t, p + 144, EncodeU32(U32(|e.data|))) == Put(s, p, Encode(e))
  {
    hide Put;
    var r0 := Zeros(SIZEOF_RECORD + |e.data|);
    PutWithin(s, p, r0, 0, Clip(e.db));
    var r1 := Put(r0, 0, Clip(e.db));
    PutWithin(s, p, r1, 64, Clip(e.tb));
    var r2 := Put(r1, 64, Clip(e.tb));
    PutWithin(s, p, r2, 132, EncodeU32(e.uid));
    var r3 := Put(r2, 132, EncodeU32(e.uid));
    PutWithin(s, p, r3, 128, [e.op]);
    var r4 := Put(r3, 128, [e.op]);
    PutWithin(s, p, r4, SIZEOF_RECORD, e.data);
    var r5 := Put(r4, SIZEOF_RECORD, e.data);
    PutWithin(s, p, r5, 144, EncodeU32(U32(|e.data|)));
  }

  // The field stores of push_record over zeroed memory at the end of a buffer.
  lemma Laid(s: seq<byte>, p: nat, e: Entry)
    requires Representable(e) && p + SIZEOF_RECORD + |e.data| == |s|
    requires s[p..] == Zeros(SIZEOF_RECORD + |e.data|)
    ensures var t := Put(s, p, Clip(e.db));
            var t := Put(t, p + 64, Clip(e.tb));
            var t := Put(t, p + 132, EncodeU32(e.uid));
            var t := Put(t, p + 128, [e.op]);
            var t := Put(t, p + SIZEOF_RECORD, e.data);
            Put(t, p + 144, EncodeU32(U32(|e.data|))) == s[..p] + Encode(e)
  {
    hide Encode;
    assert s == Put(s, p, Zeros(SIZEOF_RECORD + |e.data|));
    FieldsMakeRecord(s, p, e);
    assert Put(s, p, Encode(e)) == s[..p] + Encode(e);
  }

  // Reading the record back; the saved length is a signed int.
  function Decode(s: seq<byte>): Entry
    requires |s| >= SIZEOF_RECORD
  {
    var size := Int32(DecodeU32(s[144..148]));
    Entry(CString(s[0..64]), CString(s[64..128]), s[128], DecodeU32(s[132..136]),
          if 0 <= size <= |s| - SIZEOF_RECORD then s[SIZEOF_RECORD..SIZEOF_RECORD + size] else [])
  }

  function Stored(e: Entry): Entry {
    e.(db := Clip(e.db), tb := Clip(e.tb))
  }

  // Where the fields of the record lie.
  lemma Fields(e: Entry)
    requires Representable(e)
    ensures var s := Encode(e);
            && Clip(e.db) <= s[0..64] && s[|Clip(e.db)|] == 0
            && Clip(e.tb) <= s[64..128] && s[64 + |Clip(e.tb)|] == 0
            && s[128] == e.op && s[132..136] == EncodeU32(e.uid)
            && s[144..148] == EncodeU32(U32(|e.data|)) && s[152..] == e.data
  {}

  // The record read back is the record pushed, names and all, exactly when no name has more than
  // 63 bytes and the data length fits a signed int.
  lemma RecordExactly(e: Entry)
    requires Representable(e)
    ensures Decode(Encode(e)) == e <==> |e.db| <= 63 && |e.tb| <= 63 && |e.data| < TWO_31
  {
    RecordRoundTrip(e);
    hide Encode, Decode;
    assert Stored(e) == e <==> |e.db| <= 63 && |e.tb| <= 63;
  }

  // The record read back is the record pushed with both names clipped to 63 bytes, exactly
  // when the data length fits a signed int.
  lemma RecordRoundTrip(e: Entry)
    requires Representable(e)
    ensures Decode(Encode(e)) == Stored(e) <==> |e.data| < TWO_31
  {
    hide Encode, EncodeU32, DecodeU32, CString, Clip;
    var s, n := Encode(e), |e.data|;
    Fields(e);
    CStringStops(s[0..64], Clip(e.db));
    CStringStops(s[64..128], Clip(e.tb));
    U32RoundTrip(e.uid);
    U32RoundTrip(U32(n));
    if n < TWO_31 {
      assert s[SIZEOF_RECORD..SIZEOF_RECORD + n] == e.data;
    } else {
      assert |Decode(s).data| != n;
    }
  }
}
