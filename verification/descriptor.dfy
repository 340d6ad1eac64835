// CFieldDescriptor: the vector of field descriptions and the struct/serial conversions that
// its offsets drive.
module FieldDescriptors {
  import opened CTypes

  datatype Field = Field(index: int, dataType: int, name: cstring, count: int,
                         stOffset: int, protoOffset: int, size: int)

  // RDT_CHAR .. RDT_LONG, RDT_DOUBLE, RDT_STR and RDT_VAR_STR; RDT_ULONG (8) is not accepted.
  predicate ValidType(t: int) { 1 <= t <= 7 || 9 <= t <= 11 }

  function Named(fields: seq<Field>, name: cstring): (k: nat)
    ensures k <= |fields| && (k < |fields| ==> fields[k].name == name)
    ensures forall i :: 0 <= i < k ==> fields[i].name != name
  {
    var all := seq(|fields|, i requires 0 <= i < |fields| => fields[i].name);
    assert forall i :: 0 <= i < |fields| ==> all[i] == fields[i].name;
    Position(all, name)
  }

  // Serial offset that the size-only append_field computes.
  function NextOffset(fields: seq<Field>): int {
    if fields == [] then 0
    else fields[|fields| - 1].stOffset + fields[|fields| - 1].size
  }

  // append_field's answer.
  function AppendCode(fields: seq<Field>, dataType: int, name: cstring): int {
    if !ValidType(dataType) then -1
    else if name == [] then -2
    else if Named(fields, name) < |fields| then -3
    else 0
  }

  // The fields after append_field: one more at the end, with the clipped name, unless refused.
  function Appended(fields: seq<Field>, dataType: int, name: cstring, stOffset: int, offset: int, size: int,
                    count: int): seq<Field> {
    if AppendCode(fields, dataType, name) != 0 then fields
    else fields + [Field(|fields|, dataType, Clip(name), count, stOffset, offset, size)]
  }

  ghost predicate DistinctNames(fields: seq<Field>) {
    forall i, j :: 0 <= i < j < |fields| ==> fields[i].name != fields[j].name
  }

  // A field is converted when it ends inside both buffers, measured at its struct offset.
  predicate Fits(f: Field, src: nat, dst: nat) {
    f.stOffset + f.size <= src && f.stOffset + f.size <= dst
  }

  // The memory ranges of a converted field.
  predicate Bounded(f: Field, serial: nat, struct_: nat) {
    && 0 <= f.size && 0 <= f.stOffset && f.stOffset + f.size <= struct_
    && 0 <= f.protoOffset && f.protoOffset + f.size <= serial
  }

  ghost predicate AllBounded(fields: seq<Field>, serial: nat, struct_: nat) {
    forall i :: 0 <= i < |fields| && Fits(fields[i], serial, struct_) ==> Bounded(fields[i], serial, struct_)
  }

  // memcpy of `n` bytes.
  function Copy(dst: seq<byte>, at: int, src: seq<byte>, from: int, n: int): (r: seq<byte>)
    ensures |r| == |dst|
    ensures 0 <= at <= at + n <= |dst| && 0 <= from <= from + n <= |src| ==>
              forall k :: 0 <= k < |dst| ==> r[k] == if at <= k < at + n then src[from + k - at] else dst[k]
  {
    if 0 <= at <= at + n <= |dst| && 0 <= from <= from + n <= |src|
    then dst[..at] + src[from..from + n] + dst[at + n..] else dst
  }

  // convert_struct2serial on the first k fields.
  function ToSerial(fields: seq<Field>, k: nat, src: seq<byte>, dst: seq<byte>): (r: seq<byte>)
    requires k <= |fields|
    ensures |r| == |dst|
  {
    if k == 0 then dst
    else
      var f, d := fields[k - 1], ToSerial(fields, k - 1, src, dst);
      if Fits(f, |src|, |dst|) then Copy(d, f.protoOffset, src, f.stOffset, f.size) else d
  }

  // convert_serial2struct on the first k fields.
  function ToStruct(fields: seq<Field>, k: nat, src: seq<byte>, dst: seq<byte>): (r: seq<byte>)
    requires k <= |fields|
    ensures |r| == |dst|
  {
    if k == 0 then dst
    else
      var f, d := fields[k - 1], ToStruct(fields, k - 1, src, dst);
      if Fits(f, |src|, |dst|) then Copy(d, f.stOffset, src, f.protoOffset, f.size) else d
  }

  // Byte p of a struct of that size belongs to one of the first k fields that end inside it.
  predicate Covered(fields: seq<Field>, k: nat, size: nat, p: nat)
    requires k <= |fields|
  {
    exists i | 0 <= i < k :: fields[i].stOffset + fields[i].size <= size
      && fields[i].stOffset <= p < fields[i].stOffset + fields[i].size
  }

  class Descriptor {
    var fields: seq<Field>      // m_field_list

    constructor ()
      ensures fields == []
    {
      fields := [];
    }

    // append_field with every offset given.
    method AppendAt(dataType: int, name: cstring, stOffset: int, offset: int, size: int, count: int)
      returns (rc: int)
      modifies this
      ensures rc == AppendCode(old(fields), dataType, name)
      ensures fields == Appended(old(fields), dataType, name, stOffset, offset, size, count)
      ensures rc == 0 <==> && (1 <= dataType <= 7 || 9 <= dataType <= 11) && name != []
                           && forall i :: 0 <= i < |old(fields)| ==> old(fields)[i].name != name
      ensures if rc != 0 then fields == old(fields)
              else && |fields| == |old(fields)| + 1 && fields[..|old(fields)|] == old(fields)
                   && var f := fields[|old(fields)|];
                      && f.index == |old(fields)| && f.dataType == dataType && f.name == name[..Min(|name|, 63)]
                      && f.count == count && f.stOffset == stOffset && f.protoOffset == offset && f.size == size
    {
      if !ValidType(dataType) {
        return -1;
      }
      if name == [] {
        return -2;
      }
      for i := 0 to |fields|
        invariant fields == old(fields) && forall k :: 0 <= k < i ==> fields[k].name != name
      {
        if fields[i].name == name {
          return -3;
        }
      }
      fields := fields + [Field(|fields|, dataType, Clip(name), count, stOffset, offset, size)];
      rc := 0;
    }

    // append_field that places the field behind the last one.
    method Append(dataType: int, name: cstring, stOffset: int, size: int) returns (rc: int)
      modifies this
      ensures rc == AppendCode(old(fields), dataType, name)
      ensures fields == Appended(old(fields), dataType, name, stOffset, NextOffset(old(fields)), size, 1)
    {
      var offset := 0;
      var index := |fields|;
      if index > 0 {
        offset := fields[index - 1].stOffset + fields[index - 1].size;
      }
      rc := AppendAt(dataType, name, stOffset, offset, size, 1);
    }

    method FindByName(name: cstring) returns (r: Option<Field>)
      ensures var k := Named(fields, name); r == if k == |fields| then None else Some(fields[k])
    {
      for i := 0 to |fields|
        invariant forall k :: 0 <= k < i ==> fields[k].name != name
      {
        if fields[i].name == name {
          return Some(fields[i]);
        }
      }
      r := None;
    }

    method FindByIndex(index: int) returns (r: Option<Field>)
      ensures r.Some? <==> 0 <= index < |fields|
      ensures r.Some? ==> r.value == fields[index]
    {
      r := if index < 0 || index >= |fields| then None else Some(fields[index]);
    }

    method StructToSerial(src: array<byte>, dst: array<byte>)
      requires src != dst && AllBounded(fields, dst.Length, src.Length)
      modifies dst
      ensures dst[..] == ToSerial(fields, |fields|, src[..], old(dst[..]))
    {
      for i := 0 to |fields|
        invariant dst[..] == ToSerial(fields, i, src[..], old(dst[..]))
      {
        var f := fields[i];
        if f.stOffset + f.size <= src.Length && f.stOffset + f.size <= dst.Length {
          CopyInto(dst, f.protoOffset, src[f.stOffset..f.stOffset + f.size]);
        }
      }
    }

    method SerialToStruct(src: array<byte>, dst: array<byte>)
      requires src != dst && AllBounded(fields, src.Length, dst.Length)
      modifies dst
      ensures dst[..] == ToStruct(fields, |fields|, src[..], old(dst[..]))
    {
      for i := 0 to |fields|
        invariant dst[..] == ToStruct(fields, i, src[..], old(dst[..]))
      {
        var f := fields[i];
        if f.stOffset + f.size <= src.Length && f.stOffset + f.size <= dst.Length {
          CopyInto(dst, f.stOffset, src[f.protoOffset..f.protoOffset + f.size]);
        }
      }
    }

    // clear_struct: zeroes the fields and nothing else.
    method ClearStruct(dst: array<byte>)
      requires forall i :: 0 <= i < |fields| ==> 0 <= fields[i].stOffset && 0 <= fields[i].size
      modifies dst
      ensures forall p :: 0 <= p < dst.Length ==>
                dst[p] == if Covered(fields, |fields|, dst.Length, p) then 0 else old(dst[p])
    {
      for i := 0 to |fields|
        invariant forall p :: 0 <= p < dst.Length ==>
                    dst[p] == if Covered(fields, i, dst.Length, p) then 0 else old(dst[p])
      {
        var f := fields[i];
        if f.stOffset + f.size <= dst.Length {
          forall p | f.stOffset <= p < f.stOffset + f.size {
            dst[p] := 0;
          }
        }
        assert forall p :: 0 <= p < dst.Length && Covered(fields, i, dst.Length, p) ==>
                 Covered(fields, i + 1, dst.Length, p);
      }
    }
  }

  // ---------- what the offsets guarantee ----------

  // The fields were appended with the size-only append_field.
  ghost predicate SizeOnly(fields: seq<Field>) {
    forall i {:trigger fields[i].protoOffset} :: 0 <= i < |fields| ==>
      fields[i].protoOffset == if i == 0 then 0 else fields[i - 1].stOffset + fields[i - 1].size
  }

  ghost predicate NonNegative(fields: seq<Field>) {
    forall i :: 0 <= i < |fields| ==> 0 <= fields[i].stOffset && 0 <= fields[i].size
  }

  // Struct order, without overlap; padding in between is allowed.
  ghost predicate Increasing(fields: seq<Field>) {
    forall i {:trigger fields[i].size} :: 0 <= i < |fields| - 1 ==>
      fields[i].stOffset + fields[i].size <= fields[i + 1].stOffset
  }

  lemma AppendKeepsSizeOnly(fields: seq<Field>, f: Field)
    requires SizeOnly(fields) && f.protoOffset == NextOffset(fields)
    ensures SizeOnly(fields + [f])
  {}

  // Calls of the size-only append_field, one after another, refused ones included.
  datatype Ask = Ask(dataType: int, name: cstring, stOffset: int, size: int)

  function AppendAll(fields: seq<Field>, asks: seq<Ask>): seq<Field>
    decreases |asks|
  {
    if asks == [] then fields
    else
      var a := asks[0];
      AppendAll(Appended(fields, a.dataType, a.name, a.stOffset, NextOffset(fields), a.size, 1), asks[1..])
  }

  // Stored names are shorter than their 64 bytes.
  ghost predicate ShortNames(fields: seq<Field>) {
    forall i :: 0 <= i < |fields| ==> |fields[i].name| < NAME_SIZE
  }

  // Any run of them leaves each field's serial offset where the field before it ends in the struct.
  lemma {:induction false} AppendAllSizeOnly(fields: seq<Field>, asks: seq<Ask>)
    requires SizeOnly(fields) && ShortNames(fields)
    ensures SizeOnly(AppendAll(fields, asks)) && ShortNames(AppendAll(fields, asks))
    decreases |asks|
  {
    if asks != [] {
      var a := asks[0];
      var f := Field(|fields|, a.dataType, Clip(a.name), 1, a.stOffset, NextOffset(fields), a.size);
      AppendKeepsSizeOnly(fields, f);
      AppendAllSizeOnly(Appended(fields, a.dataType, a.name, a.stOffset, NextOffset(fields), a.size, 1), asks[1..]);
    }
  }

  // Names stay distinct exactly when the stored one is new.
  lemma AppendKeepsNames(fields: seq<Field>, f: Field)
    requires DistinctNames(fields)
    ensures DistinctNames(fields + [f]) <==> Named(fields, f.name) == |fields|
  {
    var all, k := fields + [f], Named(fields, f.name);
    if k < |fields| {
      assert all[k].name == all[|fields|].name;
    } else {
      assert forall i :: 0 <= i < |fields| ==> all[i].name != f.name;
    }
  }

  // append_field compares the whole name but stores 63 bytes of it.  So it lets a name collide with
  // a stored one exactly when the name has 64 bytes or more and its first 63 are taken.
  lemma CollidesExactly(fields: seq<Field>, dataType: int, name: cstring, stOffset: int, offset: int, size: int,
                        count: int)
    requires ShortNames(fields) && DistinctNames(fields)
    ensures !DistinctNames(Appended(fields, dataType, name, stOffset, offset, size, count))
            <==> ValidType(dataType) && |name| >= NAME_SIZE && Named(fields, Clip(name)) < |fields|
  {
    AppendKeepsNames(fields, Field(|fields|, dataType, Clip(name), count, stOffset, offset, size));
  }

  function Letters(n: nat): (s: cstring)
    ensures |s| == n
  {
    seq(n, _ => 97)
  }

  // Names of 63 and of 64 letters are both accepted, and the stored names are the same.
  lemma CollisionExample()
    ensures AppendCode([], 1, Letters(63)) == 0
    ensures var one := Appended([], 1, Letters(63), 0, 0, 1, 1);
            && AppendCode(one, 1, Letters(64)) == 0
            && var two := Appended(one, 1, Letters(64), 1, 1, 1, 1);
               |two| == 2 && two[0].name == two[1].name
  {
    assert Letters(63) == Letters(64)[..63];
  }

  // Serial offsets never exceed struct offsets exactly when the fields came in struct order.
  lemma OffsetsBelowExactly(fields: seq<Field>)
    requires SizeOnly(fields) && NonNegative(fields)
    ensures (forall i :: 0 <= i < |fields| ==> fields[i].protoOffset <= fields[i].stOffset)
            <==> Increasing(fields)
  {
    if Increasing(fields) {
      forall i | 0 <= i < |fields| ensures fields[i].protoOffset <= fields[i].stOffset {
        assert i > 0 ==> fields[i - 1].stOffset + fields[i - 1].size <= fields[i].stOffset;
      }
    } else {
      var i :| 0 <= i < |fields| - 1 && fields[i].stOffset + fields[i].size > fields[i + 1].stOffset;
      assert fields[i + 1].protoOffset > fields[i + 1].stOffset;
    }
  }

  ghost predicate InOrder(fields: seq<Field>) {
    SizeOnly(fields) && NonNegative(fields) && Increasing(fields)
  }

  lemma {:induction false} StructOrdered(fields: seq<Field>, i: nat, j: nat)
    requires InOrder(fields) && i < j < |fields|
    ensures fields[i].stOffset + fields[i].size <= fields[j].stOffset
    decreases j
  {
    if i + 1 < j {
      StructOrdered(fields, i, j - 1);
    }
  }

  // Serial ranges are ordered and disjoint.
  lemma SerialOrdered(fields: seq<Field>, i: nat, j: nat)
    requires InOrder(fields) && i < j < |fields|
    ensures fields[i].protoOffset + fields[i].size <= fields[j].protoOffset
  {
    OffsetsBelowExactly(fields);
    if i < j - 1 {
      StructOrdered(fields, i, j - 1);
    }
  }

  // So the conversions stay inside both buffers, whatever their sizes.
  lemma InOrderBounded(fields: seq<Field>, serial: nat, struct_: nat)
    requires InOrder(fields)
    ensures AllBounded(fields, serial, struct_)
  {
    OffsetsBelowExactly(fields);
    forall i | 0 <= i < |fields| && Fits(fields[i], serial, struct_)
      ensures Bounded(fields[i], serial, struct_)
    {
      assert fields[i].protoOffset == if i == 0 then 0 else fields[i - 1].stOffset + fields[i - 1].size;
    }
  }

  function Bytes(s: seq<byte>, at: int, n: int): seq<byte> {
    if 0 <= at <= at + n <= |s| then s[at..at + n] else []
  }

  lemma CopyThere(d: seq<byte>, at: int, s: seq<byte>, from: int, n: int)
    requires 0 <= at <= at + n <= |d| && 0 <= from <= from + n <= |s|
    ensures Bytes(Copy(d, at, s, from, n), at, n) == Bytes(s, from, n)
  {}

  lemma CopyElsewhere(d: seq<byte>, at: int, s: seq<byte>, from: int, n: int, p: int, q: int)
    requires p + q <= at || 0 <= at <= at + n <= p
    ensures Bytes(Copy(d, at, s, from, n), p, q) == Bytes(d, p, q)
  {}

  lemma OneBounded(fields: seq<Field>, k: nat, serial: nat, struct_: nat)
    requires InOrder(fields) && k < |fields| && Fits(fields[k], serial, struct_)
    ensures Bounded(fields[k], serial, struct_)
  {
    InOrderBounded(fields, serial, struct_);
  }

  lemma {:induction false} SerialHolds(fields: seq<Field>, m: nat, k: nat, s: seq<byte>, ser: seq<byte>)
    requires InOrder(fields) && k < m <= |fields| && Fits(fields[k], |s|, |ser|)
    ensures var f := fields[k];
            Bytes(ToSerial(fields, m, s, ser), f.protoOffset, f.size) == Bytes(s, f.stOffset, f.size)
    decreases m
  {
    hide InOrder, Copy, Bytes;
    var f, g, d := fields[k], fields[m - 1], ToSerial(fields, m - 1, s, ser);
    OneBounded(fields, k, |ser|, |s|);
    if k == m - 1 {
      CopyThere(d, f.protoOffset, s, f.stOffset, f.size);
    } else {
      SerialHolds(fields, m - 1, k, s, ser);
      SerialOrdered(fields, k, m - 1);
      CopyElsewhere(d, g.protoOffset, s, g.stOffset, g.size, f.protoOffset, f.size);
    }
  }

  lemma {:induction false} StructHolds(fields: seq<Field>, m: nat, k: nat, ser: seq<byte>, out: seq<byte>)
    requires InOrder(fields) && k < m <= |fields| && Fits(fields[k], |ser|, |out|)
    ensures var f := fields[k];
            Bytes(ToStruct(fields, m, ser, out), f.stOffset, f.size) == Bytes(ser, f.protoOffset, f.size)
    decreases m
  {
    hide InOrder, Copy, Bytes;
    var f, g, d := fields[k], fields[m - 1], ToStruct(fields, m - 1, ser, out);
    OneBounded(fields, k, |ser|, |out|);
    if k == m - 1 {
      CopyThere(d, f.stOffset, ser, f.protoOffset, f.size);
    } else {
      StructHolds(fields, m - 1, k, ser, out);
      StructOrdered(fields, k, m - 1);
      CopyElsewhere(d, g.stOffset, ser, g.protoOffset, g.size, f.stOffset, f.size);
    }
  }

  // Struct to serial and back restores the bytes of every field that ends inside all three
  // buffers, whatever was in the other two before.
  lemma RoundTrip(fields: seq<Field>, k: nat, s: seq<byte>, ser: seq<byte>, out: seq<byte>)
    requires InOrder(fields) && k < |fields|
    requires Fits(fields[k], |s|, |ser|) && Fits(fields[k], |ser|, |out|)
    ensures var f, n := fields[k], |fields|;
            var back := ToStruct(fields, n, ToSerial(fields, n, s, ser), out);
            Bytes(back, f.stOffset, f.size) == Bytes(s, f.stOffset, f.size)
  {
    SerialHolds(fields, |fields|, k, s, ser);
    StructHolds(fields, |fields|, k, ToSerial(fields, |fields|, s, ser), out);
  }

  // Bytes of the struct that belong to no converted field keep their value.
  lemma {:induction false} PaddingKept(fields: seq<Field>, m: nat, p: nat, ser: seq<byte>, out: seq<byte>)
    requires InOrder(fields) && m <= |fields| && p < |out|
    requires forall i :: 0 <= i < m && Fits(fields[i], |ser|, |out|) ==>
               !(fields[i].stOffset <= p < fields[i].stOffset + fields[i].size)
    ensures ToStruct(fields, m, ser, out)[p] == out[p]
  {
    if m > 0 {
      PaddingKept(fields, m - 1, p, ser, out);
    }
  }

  // Fields appended in struct order survive the round trip, however many appends were refused.
  lemma AppendedRoundTrip(asks: seq<Ask>, k: nat, s: seq<byte>, ser: seq<byte>, out: seq<byte>)
    requires var fields := AppendAll([], asks);
             && NonNegative(fields) && Increasing(fields) && k < |fields|
             && Fits(fields[k], |s|, |ser|) && Fits(fields[k], |ser|, |out|)
    ensures var fields := AppendAll([], asks);
            var f, n := fields[k], |fields|;
            var back := ToStruct(fields, n, ToSerial(fields, n, s, ser), out);
            Bytes(back, f.stOffset, f.size) == Bytes(s, f.stOffset, f.size)
  {
    AppendAllSizeOnly([], asks);
    RoundTrip(AppendAll([], asks), k, s, ser, out);
  }

  // ---------- what was asked for ----------

  // A request is accepted when its type is one of the ten, it has a name, and no accepted request
  // before it had that name as its first 63 bytes.
  ghost predicate Accepts(accepted: seq<Ask>, a: Ask) {
    && (1 <= a.dataType <= 7 || 9 <= a.dataType <= 11) && a.name != []
    && forall i :: 0 <= i < |accepted| ==> Clip(accepted[i].name) != a.name
  }

  ghost function Accepted(before: seq<Ask>, asks: seq<Ask>): seq<Ask>
    decreases |asks|
  {
    if asks == [] then before
    else Accepted(if Accepts(before, asks[0]) then before + [asks[0]] else before, asks[1..])
  }

  // Field i is the i-th accepted request, its serial offset where the one before ends.
  ghost predicate FieldOf(accepted: seq<Ask>, i: nat, f: Field)
    requires i < |accepted|
  {
    var a := accepted[i];
    && f.index == i && f.dataType == a.dataType && f.name == a.name[..Min(|a.name|, 63)] && f.count == 1
    && f.stOffset == a.stOffset && f.size == a.size
    && f.protoOffset == if i == 0 then 0 else accepted[i - 1].stOffset + accepted[i - 1].size
  }

  ghost predicate AllFields(accepted: seq<Ask>, fields: seq<Field>) {
    |fields| == |accepted| && forall i :: 0 <= i < |fields| ==> FieldOf(accepted, i, fields[i])
  }

  lemma OneField(accepted: seq<Ask>, fields: seq<Field>, k: nat)
    requires AllFields(accepted, fields) && k < |accepted|
    ensures |fields| == |accepted| && FieldOf(accepted, k, fields[k]) && fields[k].name == Clip(accepted[k].name)
  {
    assert FieldOf(accepted, k, fields[k]);
  }

  lemma AcceptsExactly(accepted: seq<Ask>, fields: seq<Field>, a: Ask)
    requires AllFields(accepted, fields)
    ensures Accepts(accepted, a) <==> AppendCode(fields, a.dataType, a.name) == 0
  {
    var k := Named(fields, a.name);
    SameRanges(accepted, fields);
    hide AllFields, FieldOf, Clip, Named;
    if k < |fields| {
      OneField(accepted, fields, k);
    } else {
      forall i | 0 <= i < |accepted| ensures Clip(accepted[i].name) != a.name {
        OneField(accepted, fields, i);
      }
    }
  }

  lemma OneMoreField(accepted: seq<Ask>, fields: seq<Field>, a: Ask, f: Field)
    requires AllFields(accepted, fields) && FieldOf(accepted + [a], |accepted|, f)
    ensures AllFields(accepted + [a], fields + [f])
  {
    var more, next := accepted + [a], fields + [f];
    forall i | 0 <= i < |next| ensures FieldOf(more, i, next[i]) {
      if i < |fields| {
        OneField(accepted, fields, i);
      }
    }
  }

  lemma AcceptedFirst(accepted: seq<Ask>, fields: seq<Field>, a: Ask)
    requires AllFields(accepted, fields)
    ensures var next := Appended(fields, a.dataType, a.name, a.stOffset, NextOffset(fields), a.size, 1);
            if Accepts(accepted, a) then AllFields(accepted + [a], next) else next == fields
  {
    AcceptsExactly(accepted, fields, a);
    hide AllFields, Accepts, AppendCode;
    if Accepts(accepted, a) {
      var n := |accepted|;
      var f := Field(n, a.dataType, Clip(a.name), 1, a.stOffset, NextOffset(fields), a.size);
      SameRanges(accepted, fields);
      assert FieldOf(accepted + [a], n, f);
      OneMoreField(accepted, fields, a, f);
    }
  }

  lemma {:induction false} AppendedFrom(accepted: seq<Ask>, fields: seq<Field>, asks: seq<Ask>)
    requires AllFields(accepted, fields)
    ensures AllFields(Accepted(accepted, asks), AppendAll(fields, asks))
    decreases |asks|
  {
    hide AllFields, Accepts, Appended;
    if asks != [] {
      var a := asks[0];
      AcceptedFirst(accepted, fields, a);
      AppendedFrom(if Accepts(accepted, a) then accepted + [a] else accepted,
                   Appended(fields, a.dataType, a.name, a.stOffset, NextOffset(fields), a.size, 1), asks[1..]);
    }
  }

  // After any run of size-only appends the fields are the accepted requests, in order, with
  // everything they asked for.
  lemma AppendedExactly(asks: seq<Ask>)
    ensures AllFields(Accepted([], asks), AppendAll([], asks))
  {
    AppendedFrom([], [], asks);
  }

  // The accepted requests came in struct order, without overlap.
  ghost predicate AskedInOrder(accepted: seq<Ask>) {
    && (forall i :: 0 <= i < |accepted| ==> 0 <= accepted[i].stOffset && 0 <= accepted[i].size)
    && forall i {:trigger accepted[i].size} :: 0 <= i < |accepted| - 1 ==>
         accepted[i].stOffset + accepted[i].size <= accepted[i + 1].stOffset
  }

  lemma FieldsInOrder(accepted: seq<Ask>, fields: seq<Field>)
    requires AllFields(accepted, fields) && AskedInOrder(accepted)
    ensures InOrder(fields)
  {
    forall i | 0 <= i < |fields|
      ensures fields[i].stOffset == accepted[i].stOffset && fields[i].size == accepted[i].size
      ensures fields[i].protoOffset == if i == 0 then 0 else accepted[i - 1].stOffset + accepted[i - 1].size
    {
      assert FieldOf(accepted, i, fields[i]);
    }
  }

  // Every accepted request whose range ends inside the buffers is converted: its bytes lie in the
  // serial buffer where the request before ends in the struct, and come back to where they were.
  lemma RequestedRoundTrip(asks: seq<Ask>, k: nat, s: seq<byte>, ser: seq<byte>, out: seq<byte>)
    requires AskedInOrder(Accepted([], asks)) && k < |Accepted([], asks)|
    requires var a := Accepted([], asks)[k];
             var end := a.stOffset + a.size;
             end <= |s| && end <= |ser| && end <= |out|
    ensures var accepted, fields := Accepted([], asks), AppendAll([], asks);
            var a, at := accepted[k], if k == 0 then 0 else accepted[k - 1].stOffset + accepted[k - 1].size;
            var there := ToSerial(fields, |fields|, s, ser);
            var back := ToStruct(fields, |fields|, there, out);
            && 0 <= at <= a.stOffset && 0 <= a.size
            && there[at..at + a.size] == s[a.stOffset..a.stOffset + a.size]
            && back[a.stOffset..a.stOffset + a.size] == s[a.stOffset..a.stOffset + a.size]
  {
    hide AllFields, AskedInOrder, Accepted, AppendAll, ToSerial, ToStruct, InOrder;
    var accepted, fields := Accepted([], asks), AppendAll([], asks);
    AppendedExactly(asks);
    FieldsInOrder(accepted, fields);
    OneField(accepted, fields, k);
    OneBounded(fields, k, |ser|, |s|);
    OffsetBelow(fields, k);
    SerialHolds(fields, |fields|, k, s, ser);
    RoundTrip(fields, k, s, ser, out);
  }

  lemma OffsetBelow(fields: seq<Field>, k: nat)
    requires InOrder(fields) && k < |fields|
    ensures fields[k].protoOffset <= fields[k].stOffset
  {
    OffsetsBelowExactly(fields);
  }

  // Byte p lies in the range of an accepted request that ends inside a buffer of that size.
  ghost predicate Asked(accepted: seq<Ask>, size: nat, p: nat) {
    exists i | 0 <= i < |accepted| :: accepted[i].stOffset + accepted[i].size <= size
      && accepted[i].stOffset <= p < accepted[i].stOffset + accepted[i].size
  }

  // Those are the bytes that clear_struct zeroes.
  lemma CoveredByRequest(asks: seq<Ask>, size: nat, p: nat)
    ensures var fields := AppendAll([], asks);
            Covered(fields, |fields|, size, p) <==> Asked(Accepted([], asks), size, p)
  {
    hide AllFields, Accepted, AppendAll;
    AppendedExactly(asks);
    SameCovered(Accepted([], asks), AppendAll([], asks), size, p);
  }

  lemma SameCovered(accepted: seq<Ask>, fields: seq<Field>, size: nat, p: nat)
    requires AllFields(accepted, fields)
    ensures Covered(fields, |fields|, size, p) <==> Asked(accepted, size, p)
  {
    SameRanges(accepted, fields);
    hide AllFields;
    if Covered(fields, |fields|, size, p) {
      var i :| 0 <= i < |fields| && fields[i].stOffset + fields[i].size <= size
        && fields[i].stOffset <= p < fields[i].stOffset + fields[i].size;
      assert accepted[i].stOffset == fields[i].stOffset && accepted[i].size == fields[i].size;
    }
    if Asked(accepted, size, p) {
      var i :| 0 <= i < |accepted| && accepted[i].stOffset + accepted[i].size <= size
        && accepted[i].stOffset <= p < accepted[i].stOffset + accepted[i].size;
      assert fields[i].stOffset == accepted[i].stOffset && fields[i].size == accepted[i].size;
    }
  }

  lemma SameRanges(accepted: seq<Ask>, fields: seq<Field>)
    requires AllFields(accepted, fields)
    ensures |fields| == |accepted|
    ensures forall i :: 0 <= i < |fields| ==>
              fields[i].stOffset == accepted[i].stOffset && fields[i].size == accepted[i].size
  {
    forall i | 0 <= i < |fields|
      ensures fields[i].stOffset == accepted[i].stOffset && fields[i].size == accepted[i].size
    {
      assert FieldOf(accepted, i, fields[i]);
    }
  }

  // ---------- iteration ----------

  // CFieldDescIterator: begin is cursor 0, end is cursor -1.
  class FieldIterator {
    const container: Descriptor
    var cursor: int

    constructor (container: Descriptor)
      ensures this.container == container && cursor == 0
    {
      this.container, cursor := container, 0;
    }

    // operator->; none stands for the null pointer that operator* would follow.
    method Current() returns (f: Option<Field>)
      ensures f == if 0 <= cursor < |container.fields| then Some(container.fields[cursor]) else None
    {
      if cursor >= 0 {
        f := container.FindByIndex(cursor);
      } else {
        f := None;
      }
    }

    // operator++
    method Advance()
      modifies this
      ensures cursor == if old(cursor) + 1 >= |container.fields| then -1 else old(cursor) + 1
    {
      cursor := cursor + 1;
      if cursor >= |container.fields| {
        cursor := -1;
      }
    }
  }

  // A loop from begin to end reaches every field once, in order.  It follows a null pointer
  // exactly when the descriptor is empty.
  method Walk(d: Descriptor) returns (visited: seq<Option<Field>>)
    ensures d.fields != [] ==>
              |visited| == |d.fields| && forall i :: 0 <= i < |visited| ==> visited[i] == Some(d.fields[i])
    ensures None in visited <==> d.fields == []
  {
    var it := new FieldIterator(d);
    visited := [];
    while it.cursor != -1
      invariant it.container == d && d.fields == old(d.fields)
      invariant if it.cursor == -1 then |visited| == Max(1, |d.fields|)
                else 0 <= it.cursor == |visited| && (it.cursor == 0 || it.cursor < |d.fields|)
      invariant forall i :: 0 <= i < |visited| ==>
                  visited[i] == if d.fields == [] then None else Some(d.fields[i])
      decreases if it.cursor == -1 then 0 else 1 + Max(1, |d.fields|) - it.cursor
    {
      var f := it.Current();
      visited := visited + [f];
      it.Advance();
    }
    assert visited[0] in visited;
  }
}
