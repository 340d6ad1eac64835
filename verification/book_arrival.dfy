// When the buy book depends on the order in which its orders came in.
module BookArrival {
  import opened BuyBooks

  // Every order of arrival makes the same book.
  ghost predicate ArrivalFree(orders: seq<Entrust>) {
    forall others :: multiset(others) == multiset(orders) ==> Book(others) == Book(orders)
  }

  ghost predicate Tie(orders: seq<Entrust>, x: Entrust, y: Entrust) {
    x in orders && y in orders && x != y && Cmp(x, y) == 0
  }

  ghost predicate Cycle(orders: seq<Entrust>, x: Entrust, y: Entrust, z: Entrust) {
    && x in orders && y in orders && z in orders
    && Cmp(x, y) > 0 && Cmp(y, z) > 0 && Cmp(z, x) > 0
  }

  // The comparison ranks the orders: it tells any two apart, and no three go round in a circle.
  ghost predicate Ranked(orders: seq<Entrust>) {
    && (forall x, y :: !Tie(orders, x, y))
    && (forall x, y, z :: !Cycle(orders, x, y, z))
  }

  // ---------- ranked orders make one book ----------

  predicate Follows(a: Entrust, b: Entrust) { a == b || Cmp(a, b) > 0 }

  predicate Ordered(book: seq<Entrust>) {
    forall i, j :: 0 <= i < j < |book| ==> Follows(book[i], book[j])
  }

  lemma FollowsOn(orders: seq<Entrust>, x: Entrust, y: Entrust, z: Entrust)
    requires Ranked(orders) && x in orders && y in orders && z in orders
    requires Follows(x, y) && Follows(y, z)
    ensures Follows(x, z)
  {
    hide Cmp;
    assert !Cycle(orders, x, y, z) && !Tie(orders, x, z);
    Antisymmetric(x, z);
    Antisymmetric(x, y);
  }

  lemma PushOrdered(orders: seq<Entrust>, book: seq<Entrust>, o: Entrust)
    requires Ranked(orders) && Ordered(book) && o in orders
    requires forall i :: 0 <= i < |book| ==> book[i] in orders
    ensures Ordered(Push(book, o))
  {
    hide Cmp, Ranked;
    var p := Place(book, o);
    forall i | 0 <= i < |book| ensures if i < p then Follows(book[i], o) else Follows(o, book[i]) {
      if i < p {
        NoTie(orders, book[i], o);
      } else {
        Antisymmetric(o, book[p]);
        FollowsOn(orders, o, book[p], book[i]);
      }
    }
  }

  lemma NoTie(orders: seq<Entrust>, x: Entrust, y: Entrust)
    requires Ranked(orders) && x in orders && y in orders && Cmp(x, y) >= 0
    ensures Follows(x, y)
  {
    assert !Tie(orders, x, y);
  }

  lemma FromOrders(orders: seq<Entrust>, n: nat, i: nat)
    requires n <= |orders| && i < |Book(orders[..n])|
    ensures Book(orders[..n])[i] in orders
  {
    hide Book, NoInversion;
    var book := Book(orders[..n]);
    BookKeeps(orders[..n]);
    assert book[i] in multiset(book);
    assert book[i] in orders[..n];
  }

  lemma {:induction false} BookOrdered(orders: seq<Entrust>, n: nat)
    requires Ranked(orders) && n <= |orders|
    ensures Ordered(Book(orders[..n]))
  {
    if n > 0 {
      hide Ranked, Ordered, Push;
      var book := Book(orders[..n - 1]);
      BookOrdered(orders, n - 1);
      assert orders[..n][..n - 1] == orders[..n - 1];
      forall i | 0 <= i < |book| ensures book[i] in orders {
        FromOrders(orders, n - 1, i);
      }
      PushOrdered(orders, book, orders[n - 1]);
    }
  }

  lemma {:induction false} OrderedUnique(a: seq<Entrust>, b: seq<Entrust>)
    requires Ordered(a) && Ordered(b) && multiset(a) == multiset(b)
    ensures a == b
  {
    hide Ordered, Follows, Cmp;
    if a == [] {
      assert |multiset(b)| == 0;
    } else {
      SameFirst(a, b);
      WithoutFirst(a);
      WithoutFirst(b);
      TailOrdered(a);
      TailOrdered(b);
      OrderedUnique(a[1..], b[1..]);
    }
  }

  lemma WithoutFirst(a: seq<Entrust>)
    requires a != []
    ensures a == [a[0]] + a[1..] && multiset(a[1..]) == multiset(a) - multiset{a[0]}
  {
    assert a == [a[0]] + a[1..];
  }

  lemma TailOrdered(a: seq<Entrust>)
    requires a != [] && Ordered(a)
    ensures Ordered(a[1..])
  {}

  lemma SameFirst(a: seq<Entrust>, b: seq<Entrust>)
    requires a != [] && Ordered(a) && Ordered(b) && multiset(a) == multiset(b)
    ensures b != [] && a[0] == b[0]
  {
    hide Cmp;
    assert a[0] in multiset(b);
    assert b[0] in multiset(a);
    var i :| 0 <= i < |a| && a[i] == b[0];
    var j :| 0 <= j < |b| && b[j] == a[0];
    Antisymmetric(a[0], b[0]);
  }

  lemma RankedSame(orders: seq<Entrust>, others: seq<Entrust>)
    requires Ranked(orders) && multiset(orders) == multiset(others)
    ensures Ranked(others)
  {
    hide Cmp;
    assert forall x :: x in others <==> x in multiset(others);
    assert forall x :: x in orders <==> x in multiset(orders);
    forall x, y ensures !Tie(others, x, y) {
      assert !Tie(orders, x, y);
    }
    forall x, y, z ensures !Cycle(others, x, y, z) {
      assert !Cycle(orders, x, y, z);
    }
  }

  lemma RankedFree(orders: seq<Entrust>)
    requires Ranked(orders)
    ensures ArrivalFree(orders)
  {
    hide Ranked, Ordered, Book, NoInversion;
    forall others | multiset(others) == multiset(orders) ensures Book(others) == Book(orders) {
      RankedSame(orders, others);
      BookOrdered(orders, |orders|);
      BookOrdered(others, |others|);
      assert orders[..|orders|] == orders && others[..|others|] == others;
      BookKeeps(orders);
      BookKeeps(others);
      OrderedUnique(Book(orders), Book(others));
    }
  }

  // ---------- a tie or a cycle makes two books ----------

  // Nothing in the book comes after the order.
  predicate AllAhead(book: seq<Entrust>, o: Entrust) {
    forall i :: 0 <= i < |book| ==> Cmp(book[i], o) >= 0
  }

  lemma PushBetween(front: seq<Entrust>, back: seq<Entrust>, o: Entrust)
    requires AllAhead(front, o) && (back != [] ==> Cmp(back[0], o) < 0)
    ensures Push(front + back, o) == front + [o] + back
  {
    hide Cmp;
    var book := front + back;
    assert forall i :: 0 <= i < |front| ==> book[i] == front[i];
    assert back != [] ==> book[|front|] == back[0];
    assert Place(book, o) == |front|;
    assert book[..|front|] == front && book[|front|..] == back;
  }

  function Copies(o: Entrust, n: nat): (s: seq<Entrust>) {
    if n == 0 then [] else Copies(o, n - 1) + [o]
  }

  lemma {:induction false} CopiesFacts(o: Entrust, n: nat)
    ensures |Copies(o, n)| == n && AllAhead(Copies(o, n), o)
    ensures forall i :: 0 <= i < n ==> Copies(o, n)[i] == o
    ensures multiset(Copies(o, n)) == multiset{}[o := n]
  {
    if n > 0 {
      CopiesFacts(o, n - 1);
    }
  }

  lemma AheadPlus(a: seq<Entrust>, b: seq<Entrust>, o: Entrust)
    ensures AllAhead(a + b, o) <==> AllAhead(a, o) && AllAhead(b, o)
  {
    hide Cmp;
    if AllAhead(a + b, o) {
      assert forall i :: 0 <= i < |a| ==> (a + b)[i] == a[i];
      assert forall i :: 0 <= i < |b| ==> (a + b)[|a| + i] == b[i];
    }
  }

  // A run of one order behind a book with nothing in it that comes after the order.
  lemma {:induction false} RunLast(p: seq<Entrust>, o: Entrust, n: nat)
    requires AllAhead(Book(p), o)
    ensures Book(p + Copies(o, n)) == Book(p) + Copies(o, n)
  {
    hide AllAhead, Book, Push;
    if n == 0 {
      assert p + [] == p && Book(p) + [] == Book(p);
    } else {
      var c := Copies(o, n - 1);
      RunLast(p, o, n - 1);
      CopiesFacts(o, n - 1);
      AheadPlus(Book(p), c, o);
      assert p + Copies(o, n) == (p + c) + [o];
      BookThen(p + c, o);
      PushBetween(Book(p) + c, [], o);
      assert Book(p) + c + [] == Book(p) + c && Book(p) + c + [o] + [] == Book(p) + (c + [o]);
    }
  }

  // A run of one order before a book whose first order comes after it.
  lemma {:induction false} RunFirst(p: seq<Entrust>, o: Entrust, n: nat)
    requires Book(p) != [] && Cmp(Book(p)[0], o) < 0
    ensures Book(p + Copies(o, n)) == Copies(o, n) + Book(p)
  {
    hide AllAhead, Book, Push, Cmp;
    if n == 0 {
      assert p + [] == p && [] + Book(p) == Book(p);
    } else {
      var c := Copies(o, n - 1);
      RunFirst(p, o, n - 1);
      CopiesFacts(o, n - 1);
      assert p + Copies(o, n) == (p + c) + [o];
      BookThen(p + c, o);
      PushBetween(c, Book(p), o);
    }
  }

  // The orders of a set, and all others.
  function Only(s: seq<Entrust>, k: set<Entrust>): seq<Entrust> {
    if s == [] then [] else (if s[0] in k then [s[0]] else []) + Only(s[1..], k)
  }

  function Without(s: seq<Entrust>, k: set<Entrust>): seq<Entrust> {
    if s == [] then [] else (if s[0] in k then [] else [s[0]]) + Without(s[1..], k)
  }

  lemma OnlyFirst(a: seq<Entrust>, b: seq<Entrust>, k: set<Entrust>)
    requires a != []
    ensures Only(a + b, k) == (if a[0] in k then [a[0]] else []) + Only(a[1..] + b, k)
  {
    assert (a + b)[1..] == a[1..] + b;
  }

  lemma {:induction false} OnlyPlus(a: seq<Entrust>, b: seq<Entrust>, k: set<Entrust>)
    ensures Only(a + b, k) == Only(a, k) + Only(b, k)
  {
    if a == [] {
      assert a + b == b && [] + Only(b, k) == Only(b, k);
    } else {
      OnlyFirst(a, b, k);
      OnlyPlus(a[1..], b, k);
      var h, t, r := if a[0] in k then [a[0]] else [], Only(a[1..], k), Only(b, k);
      assert Only(a, k) == h + t;
      hide Only;
      assert h + (t + r) == (h + t) + r;
    }
  }

  lemma {:induction false} OnlyAll(s: seq<Entrust>, k: set<Entrust>)
    requires forall i :: 0 <= i < |s| ==> s[i] in k
    ensures Only(s, k) == s
  {
    if s != [] {
      OnlyAll(s[1..], k);
    }
  }

  lemma {:induction false} WithoutFacts(s: seq<Entrust>, k: set<Entrust>)
    ensures forall e :: multiset(Without(s, k))[e] == if e in k then 0 else multiset(s)[e]
  {
    if s != [] {
      WithoutFacts(s[1..], k);
      assert s == [s[0]] + s[1..];
      assert multiset(s) == multiset{s[0]} + multiset(s[1..]);
    }
  }

  // Orders outside the set do not move those inside it.
  lemma PushOutside(book: seq<Entrust>, o: Entrust, k: set<Entrust>)
    requires o !in k
    ensures Only(Push(book, o), k) == Only(book, k)
  {
    hide Cmp, Place;
    var p := Place(book, o);
    assert book == book[..p] + book[p..];
    OnlyPlus(book[..p], book[p..], k);
    OnlyPlus(book[..p] + [o], book[p..], k);
    OnlyPlus(book[..p], [o], k);
    assert [o][1..] == [];
  }

  lemma {:induction false} BookOutside(p: seq<Entrust>, r: seq<Entrust>, k: set<Entrust>)
    requires forall i :: 0 <= i < |r| ==> r[i] !in k
    ensures Only(Book(p + r), k) == Only(Book(p), k)
  {
    if r == [] {
      assert p + r == p;
    } else {
      hide Push, Only;
      var n := |r| - 1;
      assert (p + r)[..|p + r| - 1] == p + r[..n];
      BookOutside(p, r[..n], k);
      PushOutside(Book(p + r[..n]), r[n], k);
    }
  }

  predicate Inside(p: seq<Entrust>, k: set<Entrust>) { forall i :: 0 <= i < |p| ==> p[i] in k }

  // `p` holds every copy of the orders in the set, and nothing else.
  ghost predicate Gathers(orders: seq<Entrust>, p: seq<Entrust>, k: set<Entrust>) {
    multiset(p) + multiset(Without(orders, k)) == multiset(orders) && Inside(p, k)
  }

  // With everything else behind them they keep the book they make alone.
  lemma GatheredFirst(orders: seq<Entrust>, p: seq<Entrust>, k: set<Entrust>)
    requires Gathers(orders, p, k)
    ensures multiset(p + Without(orders, k)) == multiset(orders)
    ensures Only(Book(p + Without(orders, k)), k) == Book(p)
  {
    OthersOutside(orders, k);
    BookOutside(p, Without(orders, k), k);
    BookInside(p, k);
    hide Book, Without, Only;
    OnlyAll(Book(p), k);
  }

  lemma OthersOutside(orders: seq<Entrust>, k: set<Entrust>)
    ensures forall i :: 0 <= i < |Without(orders, k)| ==> Without(orders, k)[i] !in k
  {
    var r := Without(orders, k);
    WithoutFacts(orders, k);
    forall i | 0 <= i < |r| ensures r[i] !in k {
      assert r[i] in multiset(r);
    }
  }

  lemma BookInside(p: seq<Entrust>, k: set<Entrust>)
    requires Inside(p, k)
    ensures Inside(Book(p), k)
  {
    BookKeeps(p);
    hide Book, NoInversion;
    forall i | 0 <= i < |Book(p)| ensures Book(p)[i] in k {
      assert Book(p)[i] in multiset(Book(p));
      assert Book(p)[i] in p;
    }
  }

  // Two runs of the same orders that make different books make different books with the rest.
  lemma TwoBooks(orders: seq<Entrust>, p: seq<Entrust>, q: seq<Entrust>, k: set<Entrust>)
    requires Gathers(orders, p, k) && Gathers(orders, q, k) && Book(p) != Book(q)
    ensures !ArrivalFree(orders)
  {
    hide Book, Without, Only, Gathers;
    GatheredFirst(orders, p, k);
    GatheredFirst(orders, q, k);
    var a, b := p + Without(orders, k), q + Without(orders, k);
    assert Book(a) != Book(b);
    assert ArrivalFree(orders) ==> Book(a) == Book(orders) && Book(b) == Book(orders);
  }

  lemma BookOfCopies(x: Entrust, n: nat)
    ensures Book(Copies(x, n)) == Copies(x, n)
  {
    RunLast([], x, n);
    assert [] + Copies(x, n) == Copies(x, n);
  }

  // All copies of one order, then all copies of one that it does not come after.
  lemma BookOfRuns(x: Entrust, m: nat, y: Entrust, n: nat)
    requires m > 0 && Cmp(x, y) >= 0
    ensures Book(Copies(x, m) + Copies(y, n)) == Copies(x, m) + Copies(y, n)
  {
    hide Book, Cmp;
    BookOfCopies(x, m);
    CopiesFacts(x, m);
    RunLast(Copies(x, m), y, n);
  }

  // All copies of some of the orders, one after the other.
  function Two(orders: seq<Entrust>, x: Entrust, y: Entrust): seq<Entrust> {
    Copies(x, multiset(orders)[x]) + Copies(y, multiset(orders)[y])
  }

  function Three(orders: seq<Entrust>, x: Entrust, y: Entrust, z: Entrust): seq<Entrust> {
    Two(orders, x, y) + Copies(z, multiset(orders)[z])
  }

  lemma InsidePlus(a: seq<Entrust>, b: seq<Entrust>, k: set<Entrust>)
    requires Inside(a, k) && Inside(b, k)
    ensures Inside(a + b, k)
  {}

  lemma CopiesInside(x: Entrust, n: nat, k: set<Entrust>)
    requires x in k
    ensures Inside(Copies(x, n), k)
  {
    CopiesFacts(x, n);
  }

  lemma TwoInside(orders: seq<Entrust>, x: Entrust, y: Entrust, k: set<Entrust>)
    requires x in k && y in k
    ensures Inside(Two(orders, x, y), k)
  {
    hide Inside, Copies;
    CopiesInside(x, multiset(orders)[x], k);
    CopiesInside(y, multiset(orders)[y], k);
    InsidePlus(Copies(x, multiset(orders)[x]), Copies(y, multiset(orders)[y]), k);
  }

  lemma TwoGathered(orders: seq<Entrust>, x: Entrust, y: Entrust)
    requires x != y
    ensures Gathers(orders, Two(orders, x, y), {x, y})
  {
    hide AllAhead, Without, Copies, Inside;
    WithoutFacts(orders, {x, y});
    CopiesFacts(x, multiset(orders)[x]);
    CopiesFacts(y, multiset(orders)[y]);
    TwoInside(orders, x, y, {x, y});
  }

  lemma ThreeCounts(orders: seq<Entrust>, x: Entrust, y: Entrust, z: Entrust)
    requires x != y && y != z && z != x
    ensures multiset(Three(orders, x, y, z)) + multiset(Without(orders, {x, y, z})) == multiset(orders)
  {
    hide AllAhead, Without, Copies;
    WithoutFacts(orders, {x, y, z});
    CopiesFacts(x, multiset(orders)[x]);
    CopiesFacts(y, multiset(orders)[y]);
    CopiesFacts(z, multiset(orders)[z]);
  }

  lemma ThreeGathered(orders: seq<Entrust>, x: Entrust, y: Entrust, z: Entrust)
    requires x != y && y != z && z != x
    ensures Gathers(orders, Three(orders, x, y, z), {x, y, z})
  {
    hide Without, Copies, Inside, Two;
    ThreeCounts(orders, x, y, z);
    TwoInside(orders, x, y, {x, y, z});
    CopiesInside(z, multiset(orders)[z], {x, y, z});
    InsidePlus(Two(orders, x, y), Copies(z, multiset(orders)[z]), {x, y, z});
  }

  lemma CopiesStart(x: Entrust, n: nat, s: seq<Entrust>)
    requires n > 0
    ensures Copies(x, n) + s != [] && (Copies(x, n) + s)[0] == x
  {
    CopiesFacts(x, n);
  }

  // An order that does not come after the other: all its copies come first.
  lemma TwoBook(orders: seq<Entrust>, x: Entrust, y: Entrust)
    requires x in orders && Cmp(x, y) >= 0
    ensures Book(Two(orders, x, y)) == Two(orders, x, y) != [] && Two(orders, x, y)[0] == x
  {
    hide Book, Cmp, Copies;
    var m, n := multiset(orders)[x], multiset(orders)[y];
    assert m > 0;
    BookOfRuns(x, m, y, n);
    CopiesStart(x, m, Copies(y, n));
  }

  lemma TieNotFree(orders: seq<Entrust>, x: Entrust, y: Entrust)
    requires Tie(orders, x, y)
    ensures !ArrivalFree(orders)
  {
    Antisymmetric(x, y);
    hide Book, Cmp, Gathers, Two, ArrivalFree;
    TwoBook(orders, x, y);
    TwoBook(orders, y, x);
    TwoGathered(orders, x, y);
    TwoGathered(orders, y, x);
    assert {y, x} == {x, y};
    TwoBooks(orders, Two(orders, x, y), Two(orders, y, x), {x, y});
  }

  // Three orders in a circle: whichever two come first, the third goes before them.
  lemma ThreeBook(orders: seq<Entrust>, x: Entrust, y: Entrust, z: Entrust)
    requires Cycle(orders, x, y, z)
    ensures Book(Three(orders, x, y, z)) != [] && Book(Three(orders, x, y, z))[0] == z
  {
    Antisymmetric(x, z);
    hide Book, Cmp, Copies, Two;
    var n := multiset(orders)[z];
    assert n > 0;
    TwoBook(orders, x, y);
    RunFirst(Two(orders, x, y), z, n);
    CopiesFacts(z, n);
    CopiesStart(z, n, Two(orders, x, y));
  }

  lemma CycleNotFree(orders: seq<Entrust>, x: Entrust, y: Entrust, z: Entrust)
    requires Cycle(orders, x, y, z)
    ensures !ArrivalFree(orders)
  {
    Antisymmetric(x, y);
    Antisymmetric(y, z);
    Antisymmetric(x, z);
    hide Book, Cmp, Gathers, Three, ArrivalFree;
    ThreeBook(orders, x, y, z);
    ThreeBook(orders, y, z, x);
    ThreeGathered(orders, x, y, z);
    ThreeGathered(orders, y, z, x);
    assert {y, z, x} == {x, y, z};
    TwoBooks(orders, Three(orders, x, y, z), Three(orders, y, z, x), {x, y, z});
  }

  // Every order of arrival makes the same book exactly when the comparison ranks the orders.
  lemma ArrivalExactly(orders: seq<Entrust>)
    ensures ArrivalFree(orders) <==> Ranked(orders)
  {
    hide ArrivalFree, Tie, Cycle;
    if Ranked(orders) {
      RankedFree(orders);
    } else if x, y :| Tie(orders, x, y) {
      TieNotFree(orders, x, y);
    } else {
      var x, y, z :| Cycle(orders, x, y, z);
      CycleNotFree(orders, x, y, z);
    }
  }

  // With numbers of their own no two orders tie, so only circles are left.
  lemma ArrivalByNumber(orders: seq<Entrust>)
    requires forall i, j :: 0 <= i < j < |orders| ==> orders[i].sysNo != orders[j].sysNo
    ensures ArrivalFree(orders) <==> forall x, y, z :: !Cycle(orders, x, y, z)
  {
    ArrivalExactly(orders);
    hide ArrivalFree, Cycle;
    forall x, y ensures !Tie(orders, x, y) {
      if x in orders && y in orders {
        var i :| 0 <= i < |orders| && orders[i] == x;
        var j :| 0 <= j < |orders| && orders[j] == y;
      }
    }
  }

  // In particular when all orders are apart.
  lemma ArrivalOrderIrrelevant(orders: seq<Entrust>)
    requires AllApart(orders)
    ensures ArrivalFree(orders)
  {
    ArrivalByNumber(orders);
    hide ArrivalFree;
    forall x, y, z ensures !Cycle(orders, x, y, z) {
      if x in orders && y in orders && z in orders {
        CmpOfTwo(orders, x, y);
        CmpOfTwo(orders, y, z);
        CmpOfTwo(orders, z, x);
      }
    }
  }

  lemma CmpOfTwo(orders: seq<Entrust>, x: Entrust, y: Entrust)
    requires AllApart(orders) && x in orders && y in orders
    ensures Cmp(x, y) > 0 ==> GoesFirst(x, y)
  {
    var i :| 0 <= i < |orders| && orders[i] == x;
    var j :| 0 <= j < |orders| && orders[j] == y;
    if i < j {
      assert Apart(orders[i], orders[j]);
    } else if j < i {
      assert Apart(orders[j], orders[i]);
    }
  }
}
