// rttiFieldDescriptor: field descriptions chained into a ring by the comma operator.
module FieldRing {
  import opened CTypes

  class Field {
    const name: cstring
    const index: int
    var prev: Field
    var next: Field

    // A new description is a ring of its own.
    constructor (name: cstring, index: int)
      ensures this.name == Clip(name) && this.index == index
      ensures IsRing([this])
    {
      this.name := Clip(name);
      this.index := index;
      prev, next := this, this;
    }
  }

  ghost predicate Distinct(xs: seq<Field>) {
    forall i, j :: 0 <= i < j < |xs| ==> xs[i] != xs[j]
  }

  ghost predicate Apart(xs: seq<Field>, ys: seq<Field>) {
    forall i, j :: 0 <= i < |xs| && 0 <= j < |ys| ==> xs[i] != ys[j]
  }

  // Neighbours in `xs` point at each other.
  ghost predicate Chained(xs: seq<Field>)
    reads xs
  {
    && (forall i {:trigger xs[i].next} :: 0 <= i < |xs| - 1 ==> xs[i].next == xs[i + 1])
    && (forall i {:trigger xs[i].prev} :: 0 < i < |xs| ==> xs[i].prev == xs[i - 1])
  }

  function Last(xs: seq<Field>): Field
    requires xs != []
  {
    xs[|xs| - 1]
  }

  // The end of `xs` and the start of `ys` point at each other.
  ghost predicate Joint(xs: seq<Field>, ys: seq<Field>)
    requires xs != [] && ys != []
    reads Last(xs), ys[0]
  {
    Last(xs).next == ys[0] && ys[0].prev == Last(xs)
  }

  // `xs` is the traversal of a ring, once round.
  ghost predicate IsRing(xs: seq<Field>)
    reads xs
  {
    xs != [] && Distinct(xs) && Chained(xs) && Joint(xs, xs)
  }

  lemma RingOfTwo(xs: seq<Field>, ys: seq<Field>)
    requires xs != [] && ys != []
    ensures IsRing(xs + ys) <==>
              && Distinct(xs) && Distinct(ys) && Apart(xs, ys) && Chained(xs) && Chained(ys)
              && Joint(xs, ys) && Joint(ys, xs)
  {
    DistinctOfTwo(xs, ys);
    ChainedOfTwo(xs, ys);
  }

  lemma DistinctOfTwo(xs: seq<Field>, ys: seq<Field>)
    ensures Distinct(xs + ys) <==> Distinct(xs) && Distinct(ys) && Apart(xs, ys)
  {
    var zs, n := xs + ys, |xs|;
    assert forall i :: 0 <= i < n ==> zs[i] == xs[i];
    assert forall j :: 0 <= j < |ys| ==> zs[n + j] == ys[j];
    if Distinct(zs) {
      forall i, j | 0 <= i < n && 0 <= j < |ys| ensures xs[i] != ys[j] {
        assert zs[i] != zs[n + j];
      }
    }
  }

  lemma ChainedOfTwo(xs: seq<Field>, ys: seq<Field>)
    requires xs != [] && ys != []
    ensures Chained(xs + ys) <==> Chained(xs) && Chained(ys) && Joint(xs, ys)
  {
    var zs, n := xs + ys, |xs|;
    assert forall i :: 0 <= i < n ==> zs[i] == xs[i];
    assert forall j :: 0 <= j < |ys| ==> zs[n + j] == ys[j];
    if Chained(zs) {
      assert zs[n - 1].next == zs[n] && zs[n].prev == zs[n - 1];
      forall j | 0 <= j < |ys| - 1 ensures ys[j].next == ys[j + 1] {
        assert zs[n + j].next == zs[n + j + 1];
      }
      forall j | 0 < j < |ys| ensures ys[j].prev == ys[j - 1] {
        assert zs[n + j].prev == zs[n + j - 1];
      }
    }
  }

  // `a, b`: two rings become one that lists the ring of `a`, then the ring of `b`.  Applied to
  // two nodes of one ring the same four assignments cut it in two at these nodes.
  method Comma(a: Field, b: Field, ghost xs: seq<Field>, ghost ys: seq<Field>, ghost two: bool)
    returns (head: Field)
    requires xs != [] && ys != [] && a == xs[0] && b == ys[0]
    requires if two then IsRing(xs) && IsRing(ys) && Apart(xs, ys) else IsRing(xs + ys)
    modifies a`prev, b`prev, Last(xs)`next, Last(ys)`next
    ensures head == a
    ensures if two then IsRing(xs + ys) else IsRing(xs) && IsRing(ys) && Apart(xs, ys)
  {
    RingOfTwo(xs, ys);
    hide Distinct;
    var tail := b.prev;
    tail.next := a;
    a.prev.next := b;
    b.prev := a.prev;
    a.prev := tail;
    head := a;
    RingOfTwo(xs, ys);
  }

  // A ring can be traversed from any of its nodes.
  lemma Rotated(xs: seq<Field>, ys: seq<Field>)
    requires IsRing(xs + ys)
    ensures IsRing(ys + xs)
  {
    if xs == [] {
      assert xs + ys == ys + xs;
    } else if ys == [] {
      assert xs + ys == ys + xs;
    } else {
      RingOfTwo(xs, ys);
      RingOfTwo(ys, xs);
    }
  }

  // RTTI_TYPE_DESCRIPTOR(fields): f0, f1, f2, ... joined from the left list the fields in
  // declaration order.
  method Describe(fields: seq<Field>) returns (head: Field)
    requires fields != [] && Distinct(fields)
    requires forall i :: 0 <= i < |fields| ==> IsRing([fields[i]])
    modifies fields
    ensures head == fields[0] && IsRing(fields)
  {
    head := fields[0];
    assert fields[..1] == [fields[0]];
    for k := 1 to |fields|
      invariant head == fields[0] && IsRing(fields[..k])
      invariant forall i :: k <= i < |fields| ==> IsRing([fields[i]])
    {
      head := Comma(head, fields[k], fields[..k], [fields[k]], true);
      assert fields[..k + 1] == fields[..k] + [fields[k]];
    }
    assert fields[..|fields|] == fields;
  }

  // Position of the first field with that name, |xs| when there is none.
  function FirstNamed(xs: seq<Field>, name: cstring): (k: nat)
    ensures k <= |xs| && (k < |xs| ==> xs[k].name == name)
    ensures forall i :: 0 <= i < k ==> xs[i].name != name
  {
    var all := seq(|xs|, i requires 0 <= i < |xs| => xs[i].name);
    assert forall i :: 0 <= i < |xs| ==> all[i] == xs[i].name;
    Position(all, name)
  }

  function FirstIndexed(xs: seq<Field>, index: int): (k: nat)
    ensures k <= |xs| && (k < |xs| ==> xs[k].index == index)
    ensures forall i :: 0 <= i < k ==> xs[i].index != index
  {
    var all := seq(|xs|, i requires 0 <= i < |xs| => xs[i].index);
    assert forall i :: 0 <= i < |xs| ==> all[i] == xs[i].index;
    Position(all, index)
  }

  lemma NextInRing(xs: seq<Field>, k: nat)
    requires IsRing(xs) && k < |xs|
    ensures xs[k].next == if k + 1 < |xs| then xs[k + 1] else xs[0]
    ensures xs[k].next == xs[0] <==> k + 1 == |xs|
  {}

  // find_field by name: the first match in ring order from `from`; an empty name finds nothing.
  method FindByName(from: Field, name: cstring, ghost xs: seq<Field>) returns (r: Field?)
    requires IsRing(xs) && from == xs[0]
    ensures var k := FirstNamed(xs, name);
            r == if name == [] || k == |xs| then null else xs[k]
  {
    hide Chained, Distinct;
    if name == [] {
      return null;
    }
    var rfd := from;
    ghost var k := 0;
    while true
      invariant 0 <= k < |xs| && rfd == xs[k]
      invariant forall i :: 0 <= i < k ==> xs[i].name != name
      decreases |xs| - k
    {
      if rfd.name == name {
        return rfd;
      }
      NextInRing(xs, k);
      rfd, k := rfd.next, k + 1;
      if rfd == from {
        break;
      }
    }
    r := null;
  }

  // find_field by index.
  method FindByIndex(from: Field, index: int, ghost xs: seq<Field>) returns (r: Field?)
    requires IsRing(xs) && from == xs[0]
    ensures var k := FirstIndexed(xs, index); r == if k == |xs| then null else xs[k]
  {
    hide Chained, Distinct;
    var rfd := from;
    ghost var k := 0;
    while true
      invariant 0 <= k < |xs| && rfd == xs[k]
      invariant forall i :: 0 <= i < k ==> xs[i].index != index
      decreases |xs| - k
    {
      if rfd.index == index {
        return rfd;
      }
      NextInRing(xs, k);
      rfd, k := rfd.next, k + 1;
      if rfd == from {
        break;
      }
    }
    r := null;
  }

  ghost predicate DistinctNames(xs: seq<Field>) {
    forall i, j :: 0 <= i < j < |xs| ==> xs[i].name != xs[j].name
  }

  lemma OnlyNamed(xs: seq<Field>, name: cstring, p: nat)
    requires DistinctNames(xs) && p < |xs| && xs[p].name == name
    ensures FirstNamed(xs, name) == p
  {
    var k := FirstNamed(xs, name);
    assert k <= p && (k < |xs| ==> xs[k].name == name);
  }

  // Where the search starts does not matter when names are distinct.
  lemma FoundFromAnywhere(xs: seq<Field>, ys: seq<Field>, name: cstring)
    requires DistinctNames(xs + ys)
    ensures var zs, ws := xs + ys, ys + xs;
            var k, m := FirstNamed(zs, name), FirstNamed(ws, name);
            if k == |zs| then m == |ws| else m < |ws| && zs[k] == ws[m]
  {
    hide DistinctNames, FirstNamed;
    var zs, ws := xs + ys, ys + xs;
    var k, m := FirstNamed(zs, name), FirstNamed(ws, name);
    if k < |zs| {
      assert zs[k] == ws[if k < |xs| then |ys| + k else k - |xs|];
    }
    if m < |ws| {
      var p := if m < |ys| then |xs| + m else m - |ys|;
      assert zs[p] == ws[m];
      OnlyNamed(zs, name, p);
    }
  }
}
