// The rollback protocol the transaction exists for: before each change its record is pushed,
// and rolling back pops records and undoes them one by one.
module Rollback {
  import opened CTypes
  import opened RecordSpec
  import opened Transactions
  import PoolSpec

  datatype Key = Key(db: cstring, tb: cstring, uid: nat)

  type Database = map<Key, seq<byte>>

  // An insert or update writes `image`; a delete ignores it.
  datatype Change = Change(key: Key, op: byte, image: seq<byte>)

  predicate Storable(data: seq<byte>) {
    0 < |data| < TWO_31
  }

  predicate Applicable(d: Database, c: Change) {
    && ValidOp(c.op) && c.key.uid < TWO_32
    && if c.op == DB_OPT_TYPE_INSERT then c.key !in d && Storable(c.image)
       else c.key in d && Storable(d[c.key])
  }

  function Apply(d: Database, c: Change): Database {
    if c.op == DB_OPT_TYPE_DELETE then d - {c.key} else d[c.key := c.image]
  }

  // The record saved before the change: the new row for an insert, the old one otherwise.
  function Before(d: Database, c: Change): Entry
    requires Applicable(d, c)
  {
    Entry(c.key.db, c.key.tb, c.op, c.key.uid,
          if c.op == DB_OPT_TYPE_INSERT then c.image else d[c.key])
  }

  function Undo(d: Database, e: Entry): Database {
    var key := Key(e.db, e.tb, e.uid);
    if e.op == DB_OPT_TYPE_INSERT then d - {key} else d[key := e.data]
  }

  predicate AllApplicable(d: Database, cs: seq<Change>)
    decreases |cs|
  {
    cs == [] || (Applicable(d, cs[0]) && AllApplicable(Apply(d, cs[0]), cs[1..]))
  }

  // The database after the changes and the records on the stack, as pop_record reads them.
  function Run(d: Database, cs: seq<Change>): (Database, seq<Entry>)
    requires AllApplicable(d, cs)
    decreases |cs|
  {
    if cs == [] then (d, [])
    else
      var (z, rest) := Run(Apply(d, cs[0]), cs[1..]);
      (z, [Decode(Encode(Before(d, cs[0])))] + rest)
  }

  function RollBack(d: Database, stack: seq<Entry>): Database
    decreases |stack|
  {
    if stack == [] then d
    else RollBack(Undo(d, stack[|stack| - 1]), stack[..|stack| - 1])
  }

  predicate NamesFit(key: Key) {
    |key.db| < NAME_SIZE && |key.tb| < NAME_SIZE
  }

  // The key as its record keeps it.
  function Clipped(key: Key): (k: Key)
    ensures NamesFit(k) && (k == key <==> NamesFit(key))
  {
    key.(db := Clip(key.db), tb := Clip(key.tb))
  }

  lemma {:induction false} RollBackLast(d: Database, e: Entry, rest: seq<Entry>)
    ensures RollBack(d, [e] + rest) == Undo(RollBack(d, rest), e)
    decreases |rest|
  {
    var s := [e] + rest;
    if rest == [] {
      assert s[..0] == [];
    } else {
      var n := |rest| - 1;
      assert s[..n + 1] == [e] + rest[..n];
      RollBackLast(Undo(d, rest[n]), e, rest[..n]);
    }
  }

  function Look(d: Database, key: Key): Option<seq<byte>> {
    if key in d then Some(d[key]) else None
  }

  // The database before change i.
  function DbAt(d: Database, cs: seq<Change>, i: nat): Database
    requires AllApplicable(d, cs) && i <= |cs|
    decreases i
  {
    if i == 0 then d else DbAt(Apply(d, cs[0]), cs[1..], i - 1)
  }

  // What the rollback leaves at a key: what the record of the first change to that key, as the
  // records name it, says was there.
  function Left(d: Database, cs: seq<Change>, key: Key): Option<seq<byte>>
    requires AllApplicable(d, cs)
    decreases |cs|
  {
    if cs == [] then Look(d, key)
    else if Clipped(cs[0].key) == key then
      if cs[0].op == DB_OPT_TYPE_INSERT then None else Some(d[cs[0].key])
    else Left(Apply(d, cs[0]), cs[1..], key)
  }

  lemma {:induction false} RollBackLeaves(d: Database, cs: seq<Change>, key: Key)
    requires AllApplicable(d, cs)
    ensures var (z, stack) := Run(d, cs); Look(RollBack(z, stack), key) == Left(d, cs, key)
    decreases |cs|
  {
    hide Encode, Decode, Apply, Clipped;
    if cs != [] {
      var (z, rest) := Run(Apply(d, cs[0]), cs[1..]);
      RollBackLeaves(Apply(d, cs[0]), cs[1..], key);
      RollBackLast(z, Decode(Encode(Before(d, cs[0]))), rest);
      UndoKey(RollBack(z, rest), d, cs[0], key);
    }
  }

  lemma UndoKey(z: Database, d: Database, c: Change, key: Key)
    requires Applicable(d, c)
    ensures Look(Undo(z, Decode(Encode(Before(d, c)))), key)
         == if Clipped(c.key) != key then Look(z, key)
            else if c.op == DB_OPT_TYPE_INSERT then None else Some(d[c.key])
  {
    hide Encode, Decode;
    RecordRoundTrip(Before(d, c));
  }

  // No change before change i has a record for the same key.
  predicate FirstRecord(cs: seq<Change>, i: nat)
    requires i < |cs|
  {
    forall j :: 0 <= j < i ==> Clipped(cs[j].key) != Clipped(cs[i].key)
  }

  lemma {:induction false} LeftByFirst(d: Database, cs: seq<Change>, i: nat)
    requires AllApplicable(d, cs) && i < |cs| && FirstRecord(cs, i)
    ensures Applicable(DbAt(d, cs, i), cs[i])
    ensures Left(d, cs, Clipped(cs[i].key))
         == if cs[i].op == DB_OPT_TYPE_INSERT then None else Some(DbAt(d, cs, i)[cs[i].key])
    decreases i
  {
    hide Apply, Clipped, Applicable;
    if i > 0 {
      assert FirstRecord(cs[1..], i - 1) by {
        forall j | 0 <= j < i - 1 ensures Clipped(cs[1..][j].key) != Clipped(cs[1..][i - 1].key) {
          assert Clipped(cs[j + 1].key) != Clipped(cs[i].key);
        }
      }
      LeftByFirst(Apply(d, cs[0]), cs[1..], i - 1);
    }
  }

  lemma {:induction false} LeftAlone(d: Database, cs: seq<Change>, key: Key)
    requires AllApplicable(d, cs) && forall i :: 0 <= i < |cs| ==> Clipped(cs[i].key) != key
    ensures Left(d, cs, key) == Look(DbAt(d, cs, |cs|), key)
    decreases |cs|
  {
    hide Apply, Clipped, Applicable;
    if cs != [] {
      LeftAlone(Apply(d, cs[0]), cs[1..], key);
    }
  }

  lemma {:induction false} Untouched(d: Database, cs: seq<Change>, i: nat, key: Key)
    requires AllApplicable(d, cs) && i <= |cs| && forall j :: 0 <= j < i ==> cs[j].key != key
    ensures Look(DbAt(d, cs, i), key) == Look(d, key)
    decreases i
  {
    if i > 0 {
      Untouched(Apply(d, cs[0]), cs[1..], i - 1, key);
    }
  }

  // A change under a long name is made up for: its row is at the end as it was at the start,
  // and its record, if it is the first for the clipped key, puts there what was there.
  predicate MadeUpFor(d: Database, cs: seq<Change>, i: nat)
    requires AllApplicable(d, cs) && i < |cs|
  {
    var full, short, di := cs[i].key, Clipped(cs[i].key), DbAt(d, cs, i);
    && Look(DbAt(d, cs, |cs|), full) == Look(d, full)
    && (FirstRecord(cs, i) ==>
          Look(d, short) == if cs[i].op == DB_OPT_TYPE_INSERT then None else Look(di, full))
  }

  ghost predicate Restorable(d: Database, cs: seq<Change>)
    requires AllApplicable(d, cs)
  {
    forall i :: 0 <= i < |cs| && !NamesFit(cs[i].key) ==> MadeUpFor(d, cs, i)
  }

  lemma FirstOf(cs: seq<Change>, key: Key) returns (i: nat)
    ensures i <= |cs| && (i < |cs| ==> Clipped(cs[i].key) == key && FirstRecord(cs, i))
    ensures forall j :: 0 <= j < i ==> Clipped(cs[j].key) != key
  {
    hide Clipped;
    var keys := seq(|cs|, i requires 0 <= i < |cs| => Clipped(cs[i].key));
    assert forall j :: 0 <= j < |cs| ==> keys[j] == Clipped(cs[j].key);
    i := Position(keys, key);
  }

  // In a restorable run every key is left as it was at the start.
  lemma LeftAsBefore(d: Database, cs: seq<Change>, key: Key)
    requires AllApplicable(d, cs) && Restorable(d, cs)
    ensures Left(d, cs, key) == Look(d, key)
  {
    hide AllApplicable, Apply, Clipped, DbAt, Left;
    var i := FirstOf(cs, key);
    if i == |cs| {
      LeftAlone(d, cs, key);
      if j :| 0 <= j < |cs| && cs[j].key == key {
        assert MadeUpFor(d, cs, j);
      } else {
        Untouched(d, cs, |cs|, key);
      }
    } else {
      LeftByFirst(d, cs, i);
      if NamesFit(cs[i].key) {
        Untouched(d, cs, i, key);
      } else {
        assert MadeUpFor(d, cs, i);
      }
    }
  }

  // Popping every record undoes a run of changes exactly when every change under a name too
  // long for its field is made up for.
  lemma RestoredExactly(d: Database, cs: seq<Change>)
    requires AllApplicable(d, cs)
    ensures var (z, stack) := Run(d, cs); RollBack(z, stack) == d <==> Restorable(d, cs)
  {
    hide AllApplicable, Apply, DbAt, Left, Run, RollBack, MadeUpFor;
    var (z, stack) := Run(d, cs);
    var r := RollBack(z, stack);
    if r == d {
      forall i | 0 <= i < |cs| && !NamesFit(cs[i].key) ensures MadeUpFor(d, cs, i) {
        RollBackLeaves(d, cs, cs[i].key);
        RollBackLeaves(d, cs, Clipped(cs[i].key));
        LongMadeUpFor(d, cs, i);
      }
    }
    if Restorable(d, cs) {
      forall key ensures Look(r, key) == Look(d, key) {
        RollBackLeaves(d, cs, key);
        LeftAsBefore(d, cs, key);
      }
      SameLooks(r, d);
    }
  }

  lemma LongMadeUpFor(d: Database, cs: seq<Change>, i: nat)
    requires AllApplicable(d, cs) && i < |cs| && !NamesFit(cs[i].key)
    requires Left(d, cs, cs[i].key) == Look(d, cs[i].key)
    requires Left(d, cs, Clipped(cs[i].key)) == Look(d, Clipped(cs[i].key))
    ensures MadeUpFor(d, cs, i)
  {
    hide AllApplicable, Apply, DbAt, Left;
    LeftAlone(d, cs, cs[i].key);
    if FirstRecord(cs, i) {
      LeftByFirst(d, cs, i);
    }
  }

  lemma SameLooks(a: Database, b: Database)
    requires forall key :: Look(a, key) == Look(b, key)
    ensures a == b
  {
    assert forall key :: key in a ==> Look(a, key) == Look(b, key);
    assert forall key :: key in b ==> Look(a, key) == Look(b, key);
  }

  // So it undoes any run of changes whose names all fit.
  lemma RollBackRestores(d: Database, cs: seq<Change>)
    requires AllApplicable(d, cs) && forall i :: 0 <= i < |cs| ==> NamesFit(cs[i].key)
    ensures var (z, stack) := Run(d, cs); RollBack(z, stack) == d
  {
    hide AllApplicable, Run, RollBack;
    RestoredExactly(d, cs);
  }

  // Which changes can be made, operation code by operation code: a row is inserted ('0') under a
  // free key, updated ('1') or deleted ('2') under a used one.
  lemma ApplicableExactly(d: Database, c: Change)
    ensures c.op == 48 ==> (Applicable(d, c) <==> c.key.uid < TWO_32 && c.key !in d && 0 < |c.image| < TWO_31)
    ensures c.op == 49 || c.op == 50 ==>
              (Applicable(d, c) <==> c.key.uid < TWO_32 && c.key in d && 0 < |d[c.key]| < TWO_31)
    ensures Applicable(d, c) ==> 48 <= c.op <= 50
  {}

  // Each of the three operations on one row whose names have at most 63 bytes does what it says
  // and is taken back by the rollback.
  lemma RowRolledBack(d: Database, key: Key, image: seq<byte>)
    requires |key.db| <= 63 && |key.tb| <= 63 && key.uid < TWO_32
    ensures key in d && 0 < |d[key]| < TWO_31 ==>
              var cs := [Change(key, 50, image)];
              && AllApplicable(d, cs) && Run(d, cs).0 == d - {key}
              && RollBack(Run(d, cs).0, Run(d, cs).1) == d
    ensures key in d && 0 < |d[key]| < TWO_31 ==>
              var cs := [Change(key, 49, image)];
              && AllApplicable(d, cs) && Run(d, cs).0 == d[key := image]
              && RollBack(Run(d, cs).0, Run(d, cs).1) == d
    ensures key !in d && 0 < |image| < TWO_31 ==>
              var cs := [Change(key, 48, image)];
              && AllApplicable(d, cs) && Run(d, cs).0 == d[key := image]
              && RollBack(Run(d, cs).0, Run(d, cs).1) == d
  {
    hide AllApplicable, Applicable, Apply, Run, RollBack;
    if key in d && 0 < |d[key]| < TWO_31 {
      OneApplied(d, Change(key, 50, image));
      OneApplied(d, Change(key, 49, image));
      RollBackRestores(d, [Change(key, 50, image)]);
      RollBackRestores(d, [Change(key, 49, image)]);
    }
    if key !in d && 0 < |image| < TWO_31 {
      OneApplied(d, Change(key, 48, image));
      RollBackRestores(d, [Change(key, 48, image)]);
    }
  }

  lemma OneApplied(d: Database, c: Change)
    requires c.key.uid < TWO_32
    requires if c.op == 48 then c.key !in d && 0 < |c.image| < TWO_31
             else (c.op == 49 || c.op == 50) && c.key in d && 0 < |d[c.key]| < TWO_31
    ensures AllApplicable(d, [c])
    ensures Run(d, [c]).0 == if c.op == 50 then d - {c.key} else d[c.key := c.image]
  {
    ApplicableExactly(d, c);
    hide Applicable, Encode, Decode;
    assert [c][1..] == [] && AllApplicable(Apply(d, c), []);
  }

  // One change is undone exactly when both names fit their 63 bytes.  With a longer name the
  // record points at the clipped key, which helps only an update that changed nothing and
  // whose clipped key happens to hold the same row.
  lemma UndoneExactly(d: Database, c: Change)
    requires Applicable(d, c)
    ensures Undo(Apply(d, c), Decode(Encode(Before(d, c)))) == d <==>
              || NamesFit(c.key)
              || (c.op == DB_OPT_TYPE_UPDATE && c.image == d[c.key]
                  && Clipped(c.key) in d && d[Clipped(c.key)] == d[c.key])
  {
    hide Encode, Decode;
    var e, full, short := Before(d, c), c.key, Clipped(c.key);
    RecordRoundTrip(e);
    assert Decode(Encode(e)) == Stored(e);
    UndoneByKey(d, c.op, full, short, c.image);
  }

  // Undoing, under the key `short`, a change made under the key `full`.
  lemma UndoneByKey(d: Database, op: byte, full: Key, short: Key, image: seq<byte>)
    requires op == DB_OPT_TYPE_INSERT ==> full !in d
    requires op != DB_OPT_TYPE_INSERT ==> full in d
    ensures var z := if op == DB_OPT_TYPE_DELETE then d - {full} else d[full := image];
            (if op == DB_OPT_TYPE_INSERT then z - {short}
             else z[short := d[full]]) == d <==>
              || full == short
              || (op != DB_OPT_TYPE_INSERT && op != DB_OPT_TYPE_DELETE && image == d[full]
                  && short in d && d[short] == d[full])
  {
    if op != DB_OPT_TYPE_INSERT && op != DB_OPT_TYPE_DELETE && full != short {
      var z := d[full := image][short := d[full]];
      assert z[full] == image && z[short] == d[full];
    }
  }

  // A row inserted under a table name of 64 letters is still there after its undoing.
  lemma LongNameExample(image: seq<byte>)
    requires Storable(image)
    ensures var name: cstring := seq(64, _ => 97);
            var c := Change(Key([], name, 0), DB_OPT_TYPE_INSERT, image);
            Applicable(map[], c) && Undo(Apply(map[], c), Decode(Encode(Before(map[], c)))) == map[c.key := image]
  {
    var name: cstring := seq(64, _ => 97);
    var c := Change(Key([], name, 0), DB_OPT_TYPE_INSERT, image);
    var e := Before(map[], c);
    hide Encode, Decode;
    RecordRoundTrip(e);
    assert |Clip(name)| < |name|;
  }

  // ---------- the protocol carried out on a transaction ----------

  // The databases that the changes lead through.
  ghost predicate Trail(dbs: seq<Database>, cs: seq<Change>) {
    && |dbs| == |cs| + 1
    && forall i :: 0 <= i < |cs| ==> Applicable(dbs[i], cs[i]) && dbs[i + 1] == Apply(dbs[i], cs[i])
  }

  // The records above the first `base` are those saved before the changes.
  ghost predicate Saved(stack: seq<Issue>, base: nat, dbs: seq<Database>, cs: seq<Change>)
    requires Trail(dbs, cs)
  {
    && |stack| == base + |cs|
    && forall i :: 0 <= i < |cs| ==> stack[base + i].entry == Before(dbs[i], cs[i])
  }

  lemma OneMoreSaved(was: seq<Issue>, stack: seq<Issue>, base: nat, dbs: seq<Database>, cs: seq<Change>, c: Change)
    requires Trail(dbs, cs) && Saved(was, base, dbs, cs) && Applicable(dbs[|cs|], c)
    requires |stack| == |was| + 1 && stack[..|was|] == was && stack[|was|].entry == Before(dbs[|cs|], c)
    ensures var more := dbs + [Apply(dbs[|cs|], c)];
            Trail(more, cs + [c]) && Saved(stack, base, more, cs + [c]) && stack[..base] == was[..base]
  {
    forall i | 0 <= i < |cs| ensures stack[base + i].entry == Before(dbs[i], cs[i]) {
      assert stack[..|was|][base + i] == was[base + i];
    }
    assert stack[..base] == stack[..|was|][..base];
  }

  // A record of a change is refused only for lack of memory.
  lemma Savable(d: Database, c: Change, p: PoolSpec.PoolS)
    requires Applicable(d, c)
    ensures var e := Before(d, c);
            e.uid < TWO_32 && e.data != [] && ValidOp(e.op) && Servable(p, SIZEOF_RECORD + |e.data|, true)
  {}

  // Saves the record of one change and makes it; `cs` are the changes made before.
  method MakeChange(d: Database, c: Change, tx: Transaction, newPool: bool, heap: bool,
                    ghost base: nat, ghost dbs: seq<Database>, ghost cs: seq<Change>)
    returns (z: Database, made: bool)
    requires tx.Valid() && Applicable(d, c)
    requires Trail(dbs, cs) && dbs[|cs|] == d && Saved(tx.stack, base, dbs, cs)
    modifies tx, tx.pool, tx.Blocks(), tx.Buffers()
    ensures tx.Valid() && tx.Grows() && base <= |tx.stack|
    ensures if made then z == Apply(d, c) && Trail(dbs + [z], cs + [c]) && Saved(tx.stack, base, dbs + [z], cs + [c])
                         && tx.stack[..base] == old(tx.stack)[..base]
            else z == d && tx.stack == old(tx.stack)
    ensures (old(tx.pool) != null || newPool) && heap ==> made
  {
    assert base <= |tx.stack|;
    hide Transaction.Valid, Servable, Before, Applicable, Apply, Trail, Saved;
    Savable(d, c, tx.Arena());
    ghost var was := tx.stack;
    z := d;
    var rc := tx.PushRecord(Before(d, c), newPool, heap);
    made := rc == 0;
    if made {
      OneMoreSaved(was, tx.stack, base, dbs, cs, c);
      z := Apply(d, c);
    }
  }

  // Saves and makes the changes in turn, until one cannot be saved.
  method MakeChanges(d: Database, cs: seq<Change>, tx: Transaction, newPool: bool, heap: seq<bool>)
    returns (z: Database, done: nat, ghost dbs: seq<Database>)
    requires tx.Valid() && AllApplicable(d, cs) && |heap| == |cs|
    modifies tx, tx.pool, tx.Blocks(), tx.Buffers()
    ensures tx.Valid() && done <= |cs| && Trail(dbs, cs[..done]) && dbs[0] == d && dbs[done] == z
    ensures Saved(tx.stack, |old(tx.stack)|, dbs, cs[..done]) && tx.stack[..|old(tx.stack)|] == old(tx.stack)
    ensures (old(tx.pool) != null || newPool) && (forall i :: 0 <= i < |heap| ==> heap[i]) ==> done == |cs|
  {
    hide Transaction.Valid, Saved, Applicable, Apply;
    ghost var base := |tx.stack|;
    z, done, dbs := d, 0, [d];
    NothingSaved(tx.stack, d);
    assert cs[0..] == cs && cs[..0] == [] && tx.stack[..base] == tx.stack;
    while done < |cs|
      invariant done <= |cs| && tx.Valid() && tx.Grows()
      invariant Trail(dbs, cs[..done]) && dbs[0] == d && dbs[done] == z && AllApplicable(z, cs[done..])
      invariant Saved(tx.stack, base, dbs, cs[..done])
      invariant base <= |tx.stack| && tx.stack[..base] == old(tx.stack)
    {
      var c := cs[done];
      assert cs[done..][0] == c && cs[done..][1..] == cs[done + 1..] && cs[..done] + [c] == cs[..done + 1];
      var made;
      z, made := MakeChange(z, c, tx, newPool, heap[done], base, dbs, cs[..done]);
      if !made {
        return;
      }
      dbs, done := dbs + [z], done + 1;
    }
  }

  lemma NothingSaved(stack: seq<Issue>, d: Database)
    ensures Trail([d], []) && Saved(stack, |stack|, [d], [])
  {}

  // The records of a trail are those of the run.
  lemma {:induction false} TrailRun(dbs: seq<Database>, cs: seq<Change>)
    requires Trail(dbs, cs)
    ensures AllApplicable(dbs[0], cs) && |Run(dbs[0], cs).1| == |cs| && Run(dbs[0], cs).0 == dbs[|cs|]
    ensures forall i :: 0 <= i < |cs| ==> Run(dbs[0], cs).1[i] == Decode(Encode(Before(dbs[i], cs[i])))
    decreases |cs|
  {
    hide Encode, Decode, Before, Applicable, Apply;
    if cs != [] {
      assert Trail(dbs[1..], cs[1..]) by {
        forall i | 0 <= i < |cs| - 1
          ensures Applicable(dbs[1..][i], cs[1..][i]) && dbs[1..][i + 1] == Apply(dbs[1..][i], cs[1..][i])
        {
          assert Applicable(dbs[i + 1], cs[i + 1]);
        }
      }
      TrailRun(dbs[1..], cs[1..]);
    }
  }

  // Pops the records saved for the changes and undoes them, last one first.
  method UndoChanges(z: Database, cs: seq<Change>, tx: Transaction, ghost base: nat, ghost dbs: seq<Database>)
    returns (d: Database)
    requires tx.Valid() && Trail(dbs, cs) && Saved(tx.stack, base, dbs, cs) && dbs[|cs|] == z
    modifies tx`records, tx`stack
    ensures tx.Valid() && tx.stack == old(tx.stack)[..base]
    ensures AllApplicable(dbs[0], cs) && d == RollBack(z, Run(dbs[0], cs).1)
  {
    hide Transaction.Valid, Encode, Decode, Before, Applicable, Apply, Undo, Run;
    TrailRun(dbs, cs);
    d := z;
    ghost var stack, entries := tx.stack, Run(dbs[0], cs).1;
    var k := |cs|;
    assert stack[..|stack|] == stack && entries[..k] == entries;
    while k > 0
      invariant 0 <= k <= |cs| && tx.Valid() && tx.stack == stack[..base + k]
      invariant RollBack(d, entries[..k]) == RollBack(z, entries)
    {
      k := k - 1;
      var m := tx.PopRecord();
      var e := Decode(m.block.buff[m.offset..m.offset + m.len]);
      assert stack[..base + k + 1][..base + k] == stack[..base + k];
      assert entries[..k + 1][k] == e && entries[..k + 1][..k] == entries[..k];
      d := Undo(d, e);
    }
  }

  // Changes followed by a rollback leave the records as they were, and the database exactly when
  // the changes made are restorable, also when memory for a record was refused on the way.
  method ChangeAndRollBack(d: Database, cs: seq<Change>, tx: Transaction, newPool: bool, heap: seq<bool>)
    returns (z: Database, done: nat)
    requires tx.Valid() && AllApplicable(d, cs) && |heap| == |cs|
    modifies tx, tx.pool, tx.Blocks(), tx.Buffers()
    ensures tx.Valid() && tx.stack == old(tx.stack)
    ensures done <= |cs| && AllApplicable(d, cs[..done]) && (z == d <==> Restorable(d, cs[..done]))
    ensures (old(tx.pool) != null || newPool) && (forall i :: 0 <= i < |heap| ==> heap[i]) ==> done == |cs|
    ensures (forall i :: 0 <= i < |cs| ==> NamesFit(cs[i].key)) ==> z == d
  {
    hide Transaction.Valid, Trail, Saved, Run, RollBack, AllApplicable, MadeUpFor;
    ghost var dbs;
    ghost var base := |tx.stack|;
    z, done, dbs := MakeChanges(d, cs, tx, newPool, heap);
    z := UndoChanges(z, cs[..done], tx, base, dbs);
    TrailRun(dbs, cs[..done]);
    RestoredExactly(d, cs[..done]);
  }
}
