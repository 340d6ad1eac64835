// The sorted list of buy orders of the matching engine.
module BuyBooks {

  const PRICE_PRECISION: real := 0.000001

  datatype Entrust = Entrust(sysNo: nat, entrustQty: nat, doneQty: nat, bsFlag: char, doneAttr: char,
                             price: real, doneAvgPrice: real)

  // cmp_buy_entrust: above zero when the first order goes first.
  function Cmp(a: Entrust, b: Entrust): int {
    if a.price - b.price > PRICE_PRECISION then 1
    else if a.price - b.price < -PRICE_PRECISION then -1
    else if a.sysNo < b.sysNo then 1
    else if a.sysNo > b.sysNo then -1
    else 0
  }

  // The higher price goes first; prices within a millionth of each other count as equal, and then
  // the lower number goes first.
  lemma CmpExactly(a: Entrust, b: Entrust)
    ensures Cmp(a, b) > 0 <==>
              a.price > b.price + 0.000001 || (b.price - 0.000001 <= a.price <= b.price + 0.000001 && a.sysNo < b.sysNo)
    ensures Cmp(a, b) == 0 <==> b.price - 0.000001 <= a.price <= b.price + 0.000001 && a.sysNo == b.sysNo
    ensures Cmp(b, a) == -Cmp(a, b)
  {}

  // The first order that the new one goes before.
  function Place(book: seq<Entrust>, o: Entrust): (p: nat)
    ensures p <= |book| && (p < |book| ==> Cmp(book[p], o) < 0)
    ensures forall i :: 0 <= i < p ==> Cmp(book[i], o) >= 0
  {
    if book == [] || Cmp(book[0], o) < 0 then 0 else Place(book[1..], o) + 1
  }

  function Push(book: seq<Entrust>, o: Entrust): seq<Entrust> {
    var p := Place(book, o);
    book[..p] + [o] + book[p..]
  }

  class ExchMatchMaking {
    var buyList: seq<Entrust>

    constructor ()
      ensures buyList == []
    {
      buyList := [];
    }

    // push_buy_entrust
    method PushBuyEntrust(o: Entrust) returns (rc: int)
      modifies this
      ensures buyList == Push(old(buyList), o) && rc == 0
    {
      var i := 0;
      while i < |buyList| && Cmp(buyList[i], o) >= 0
        invariant 0 <= i <= |buyList| && Place(buyList, o) == i + Place(buyList[i..], o)
      {
        assert buyList[i..][1..] == buyList[i + 1..];
        i := i + 1;
      }
      if i == |buyList| {
        buyList := buyList + [o];
        assert old(buyList)[..i] == old(buyList);
      } else {
        buyList := buyList[..i] + [o] + buyList[i..];
      }
      rc := 0;
    }
  }

  // The book after the orders have come in one after another.
  function Book(orders: seq<Entrust>): seq<Entrust> {
    if orders == [] then [] else Push(Book(orders[..|orders| - 1]), orders[|orders| - 1])
  }

  // No order stands right behind one that should come after it.
  predicate NoInversion(book: seq<Entrust>) {
    forall i {:trigger book[i]} :: 0 < i < |book| ==> Cmp(book[i - 1], book[i]) >= 0
  }

  lemma Antisymmetric(a: Entrust, b: Entrust)
    ensures Cmp(a, b) == -Cmp(b, a)
  {}

  lemma Between(book: seq<Entrust>, o: Entrust, p: nat)
    requires p <= |book|
    ensures multiset(book[..p] + [o] + book[p..]) == multiset(book) + multiset{o}
  {
    assert book == book[..p] + book[p..];
  }

  lemma PushAdds(book: seq<Entrust>, o: Entrust)
    ensures multiset(Push(book, o)) == multiset(book) + multiset{o}
  {
    hide Place;
    Between(book, o, Place(book, o));
  }

  lemma PushKeeps(book: seq<Entrust>, o: Entrust)
    requires NoInversion(book)
    ensures NoInversion(Push(book, o))
  {
    hide Cmp, NoInversion;
    var p := Place(book, o);
    if p < |book| { Antisymmetric(o, book[p]); }
    PushedBetween(book, o, p);
  }

  lemma PushedBetween(book: seq<Entrust>, o: Entrust, p: nat)
    requires NoInversion(book) && p <= |book|
    requires (p > 0 ==> Cmp(book[p - 1], o) >= 0) && (p < |book| ==> Cmp(o, book[p]) >= 0)
    ensures NoInversion(book[..p] + [o] + book[p..])
  {
    hide Cmp;
  }

  lemma LastOf(orders: seq<Entrust>)
    requires orders != []
    ensures multiset(orders) == multiset(orders[..|orders| - 1]) + multiset{orders[|orders| - 1]}
  {
    assert orders == orders[..|orders| - 1] + [orders[|orders| - 1]];
  }

  // Any run of pushes keeps every order, and leaves no inverted neighbours.
  lemma {:induction false} BookKeeps(orders: seq<Entrust>)
    ensures multiset(Book(orders)) == multiset(orders)
    ensures NoInversion(Book(orders))
  {
    if orders != [] {
      var n := |orders| - 1;
      BookKeeps(orders[..n]);
      hide NoInversion, Push;
      PushKeeps(Book(orders[..n]), orders[n]);
      PushAdds(Book(orders[..n]), orders[n]);
      LastOf(orders);
    }
  }

  lemma PushLast(book: seq<Entrust>, o: Entrust)
    requires book != []
    ensures Push(book, o) == if Cmp(book[0], o) < 0 then [o] + book else [book[0]] + Push(book[1..], o)
  {
    hide Cmp;
    if Cmp(book[0], o) >= 0 {
      PlacedBehind(book, o, Place(book[1..], o));
    } else {
      assert book[..0] + [o] + book[0..] == [o] + book;
    }
  }

  lemma PlacedBehind(book: seq<Entrust>, o: Entrust, q: nat)
    requires q < |book|
    ensures var t := book[1..];
            book[..q + 1] + [o] + book[q + 1..] == [book[0]] + (t[..q] + [o] + t[q..])
  {}

  lemma BookOfTwo(a: Entrust, b: Entrust)
    requires Cmp(a, b) > 0
    ensures Book([a, b]) == [a, b]
  {
    hide Cmp;
    assert [a, b][..1] == [a] && [a][..0] == [] && [a][1..] == [];
    assert Book([a]) == [a];
    PushLast([a], b);
  }

  lemma BookThen(p: seq<Entrust>, o: Entrust)
    ensures Book(p + [o]) == Push(Book(p), o)
  {
    assert (p + [o])[..|p|] == p;
  }

  lemma PushTwice(a: Entrust, b: Entrust, c: Entrust)
    requires Cmp(a, b) > 0
    ensures Book([a, b, c]) == if Cmp(a, c) < 0 then [c, a, b] else if Cmp(b, c) < 0 then [a, c, b] else [a, b, c]
  {
    hide *;
    var first, last := [a, b], [b];
    BookOfTwo(a, b);
    BookThen(first, c);
    assert first + [c] == [a, b, c];
    PushLast(first, c);
    assert first[1..] == last;
    PushBehind(b, c);
    if Cmp(a, c) < 0 {
      assert [c] + first == [c, a, b];
    } else if Cmp(b, c) < 0 {
      assert [a] + [c, b] == [a, c, b];
    } else {
      assert [a] + [b, c] == [a, b, c];
    }
  }

  lemma PushBehind(b: Entrust, c: Entrust)
    ensures Push([b], c) == if Cmp(b, c) < 0 then [c, b] else [b, c]
  {
    hide Cmp;
    PushLast([b], c);
    assert [b][1..] == [] && [c] + [b] == [c, b] && [b] + [c] == [b, c];
  }

  // Prices within the precision of each other are not always transitive: two books of the same
  // three orders, each with an order standing before one that goes before it.
  lemma ToleranceExample()
    returns (x: Entrust, y: Entrust, z: Entrust)
    ensures Cmp(x, y) > 0 && Cmp(y, z) > 0 && Cmp(z, x) > 0
    ensures Book([x, y, z]) == [z, x, y] && Book([y, z, x]) == [x, y, z]
  {
    hide Book, Push, Place;
    x := Entrust(1, 1, 0, '0', ' ', 0.0, 0.0);
    y := Entrust(2, 1, 0, '0', ' ', 0.0000006, 0.0);
    z := Entrust(3, 1, 0, '0', ' ', 0.0000012, 0.0);
    PushTwice(x, y, z);
    PushTwice(y, z, x);
  }

  // Two orders that the comparison tells apart by price or, at the same price, by number.
  predicate Apart(a: Entrust, b: Entrust) {
    && a.sysNo != b.sysNo
    && (a.price == b.price || a.price - b.price > 0.000001 || b.price - a.price > 0.000001)
  }

  predicate AllApart(orders: seq<Entrust>) {
    forall i, j :: 0 <= i < j < |orders| ==> Apart(orders[i], orders[j])
  }

  // Price descending, then number ascending.
  predicate GoesFirst(a: Entrust, b: Entrust) {
    a.price > b.price || (a.price == b.price && a.sysNo < b.sysNo)
  }

  predicate Sorted(book: seq<Entrust>) {
    forall i, j :: 0 <= i < j < |book| ==> GoesFirst(book[i], book[j])
  }

  lemma CmpOfApart(a: Entrust, b: Entrust)
    requires Apart(a, b)
    ensures Cmp(a, b) > 0 <==> GoesFirst(a, b)
    ensures Cmp(a, b) < 0 <==> GoesFirst(b, a)
  {}

  lemma PushSorted(book: seq<Entrust>, o: Entrust)
    requires Sorted(book) && forall i :: 0 <= i < |book| ==> Apart(book[i], o)
    ensures Sorted(Push(book, o))
  {
    var p := Place(book, o);
    forall i | 0 <= i < |book| ensures if i < p then GoesFirst(book[i], o) else GoesFirst(o, book[i]) {
      CmpOfApart(book[i], o);
      if p < i {
        CmpOfApart(book[p], o);
      }
    }
  }

  lemma ApartFromLast(orders: seq<Entrust>, x: Entrust)
    requires orders != [] && AllApart(orders) && x in multiset(orders[..|orders| - 1])
    ensures Apart(x, orders[|orders| - 1])
  {
    var s := orders[..|orders| - 1];
    assert x in s;
    var i :| 0 <= i < |s| && s[i] == x;
    assert orders[i] == x;
  }

  lemma FewerApart(orders: seq<Entrust>, n: nat)
    requires n <= |orders| && AllApart(orders)
    ensures AllApart(orders[..n])
  {}

  lemma BookApart(orders: seq<Entrust>, i: nat)
    requires orders != [] && AllApart(orders) && i < |Book(orders[..|orders| - 1])|
    ensures Apart(Book(orders[..|orders| - 1])[i], orders[|orders| - 1])
  {
    hide AllApart, Book;
    var book := Book(orders[..|orders| - 1]);
    BookKeeps(orders[..|orders| - 1]);
    assert book[i] in multiset(book);
    ApartFromLast(orders, book[i]);
  }

  // When all orders are apart the book is sorted.
  lemma {:induction false} BookSorted(orders: seq<Entrust>)
    requires AllApart(orders)
    ensures Sorted(Book(orders))
  {
    if orders != [] {
      hide Apart, AllApart, Push, Sorted, GoesFirst, NoInversion;
      var n := |orders| - 1;
      var book := Book(orders[..n]);
      FewerApart(orders, n);
      BookSorted(orders[..n]);
      forall i | 0 <= i < |book| ensures Apart(book[i], orders[n]) {
        BookApart(orders, i);
      }
      PushSorted(book, orders[n]);
    }
  }
}
