/**
 * lab1's shop inventory (lab1/entities.h, lab1/lab1.cpp).  Products lose
 * stock through `purchase`; each selling thread records what it sold in its
 * own `Bill`, registered in a shared `BillList`; the shop account collects
 * the money; `inventoryCheck` compares, product by product, the money for
 * the stock that left the database with the money for the quantity billed.
 * The mutexes are no-ops here and the threads run one after another;
 * `rand()` becomes sequences of draws.
 */
module Inventory {
  /** `PRODUCT_COUNT`, `THREAD_COUNT` and `THREAD_OPERATIONS`. */
  const ProductCount := 20000
  const ThreadCount := 4
  const ThreadOperations := 400000

  function Min(a: int, b: int): int { if a <= b then a else b }
  function Max(a: int, b: int): int { if a >= b then a else b }

  /** The fields of a product that the bookkeeping reads. */
  datatype Stock = Stock(price: int, quantity: int, initialQuantity: int)

  /** Units that left the database: `getInitialQuantity() - getQuantity()`. */
  function Sold(s: Stock): int { s.initialQuantity - s.quantity }

  /** The money for the units that left the database. */
  function Revenue(s: Stock): int { s.price * Sold(s) }

  /** An entry of a bill's product map, 0 when the id is absent. */
  function QuantityIn(m: map<int, int>, id: int): int
  {
    if id in m then m[id] else 0
  }

  // ---------------------------------------------------------------- decimal text

  function DigitChar(d: int): char
    requires 0 <= d < 10
  {
    (48 + d) as char
  }

  /** `std::to_string` of a natural number. */
  function NatToString(n: nat): (s: string)
    ensures |s| >= 1 && forall i :: 0 <= i < |s| ==> '0' <= s[i] <= '9'
    decreases n
  {
    if n < 10 then [DigitChar(n)] else NatToString(n / 10) + [DigitChar(n % 10)]
  }

  /** `std::to_string` of an int: a minus sign before the digits of a negative number. */
  function IntToString(i: int): (s: string)
    ensures |s| >= 1 && (s[0] == '-' <==> i < 0)
    ensures forall k :: (if i < 0 then 1 else 0) <= k < |s| ==> '0' <= s[k] <= '9'
  {
    if i < 0 then "-" + NatToString(-i) else NatToString(i)
  }

  /** The number a string of decimal digits denotes. */
  function ParseNat(s: string): int
  {
    if s == [] then 0 else ParseNat(s[..|s| - 1]) * 10 + (s[|s| - 1] as int - 48)
  }

  lemma {:induction false} ParseNatRoundTrip(n: nat)
    ensures ParseNat(NatToString(n)) == n
    decreases n
  {
    if n >= 10 {
      ParseNatRoundTrip(n / 10);
      var s := NatToString(n);
      assert s[..|s| - 1] == NatToString(n / 10);
    }
  }

  /** The number a `std::to_string` text denotes. */
  function ParseInt(s: string): int
  {
    if |s| > 0 && s[0] == '-' then -ParseNat(s[1..]) else ParseNat(s)
  }

  /** Printing an int and reading it back gives the int: no two ints print alike. */
  lemma IntToStringRoundTrip(i: int)
    ensures ParseInt(IntToString(i)) == i
  {
    var s := IntToString(i);
    if i < 0 {
      assert s == "-" + NatToString(-i);
      assert s[0] == '-' && s[1..] == NatToString(-i);
      ParseNatRoundTrip(-i);
    } else {
      assert s == NatToString(i) && '0' <= s[0] <= '9';
      ParseNatRoundTrip(i);
    }
  }

  /** Equal texts with equal surroundings have equal middles. */
  lemma SameFrame(head: string, a: string, b: string, tail: string)
    ensures head + a + tail == head + b + tail ==> a == b
  {
    if head + a + tail == head + b + tail {
      assert |a| == |b|;
      assert a == (head + a + tail)[|head|..|head| + |a|];
      assert b == (head + b + tail)[|head|..|head| + |b|];
    }
  }

  // ---------------------------------------------------------------- entities

  class Product {
    var price: int
    var id: int
    var quantity: int
    var initialQuantity: int
    var name: string

    /** `Product(id, price, quantity, name)`: the initial quantity is the starting stock. */
    constructor (id: int, price: int, quantity: int, name: string)
      ensures this.id == id && this.price == price && this.name == name
      ensures this.quantity == quantity && initialQuantity == quantity
    {
      this.id := id;
      this.price := price;
      this.quantity := quantity;
      initialQuantity := quantity;
      this.name := name;
    }

    function State(): Stock
      reads this
    {
      Stock(price, quantity, initialQuantity)
    }

    /**
     * `purchase(amount)`: takes `amount` from the stock, or all of it when
     * there is less; the amount actually taken is returned, and it is
     * exactly what the stock went down by.
     */
    method Purchase(amount: int) returns (bought: int)
      modifies this
      ensures bought == Min(amount, old(quantity))
      ensures quantity == Max(old(quantity) - amount, 0)
      ensures old(quantity) - quantity == bought
      ensures price == old(price) && id == old(id) && name == old(name)
      ensures initialQuantity == old(initialQuantity)
    {
      quantity := quantity - amount;
      bought := amount;
      if quantity < 0 {
        bought := bought + quantity;
        quantity := 0;
      }
    }

    /** The text before the last figure of `toString`. */
    function Head(): string
      reads this
    {
      "{ id: " + IntToString(id) + ", name: " + name + ", price: " + IntToString(price) +
      ", quantity: " + IntToString(quantity) + ", initial quantity: "
    }

    /** `toString` as written: the "initial quantity" label is followed by the current quantity. */
    function ToString(): (s: string)
      reads this
      ensures |s| > 8 && s[..6] == "{ id: " && s[|s| - 2..] == " }"
    {
      Head() + IntToString(quantity) + " }"
    }

    /** `toString` with the initial quantity under its own label. */
    function ToStringCorrected(): string
      reads this
    {
      Head() + IntToString(initialQuantity) + " }"
    }
  }

  /** As written, `toString` cannot tell two products apart that differ only in their initial quantity. */
  lemma ToStringIgnoresInitialQuantity(p: Product, q: Product)
    requires p.id == q.id && p.name == q.name && p.price == q.price && p.quantity == q.quantity
    requires p.initialQuantity != q.initialQuantity
    ensures p.ToString() == q.ToString()
  {
  }

  /** Corrected, two products that differ only in their initial quantity print differently. */
  lemma ToStringCorrectedShowsInitialQuantity(p: Product, q: Product)
    requires p.id == q.id && p.name == q.name && p.price == q.price && p.quantity == q.quantity
    requires p.initialQuantity != q.initialQuantity
    ensures p.ToStringCorrected() != q.ToStringCorrected()
  {
    var head := p.Head();
    assert head == q.Head();
    IntToStringRoundTrip(p.initialQuantity);
    IntToStringRoundTrip(q.initialQuantity);
    SameFrame(head, IntToString(p.initialQuantity), IntToString(q.initialQuantity), " }");
  }

  class ShopBankAccount {
    var total: int

    constructor ()
      ensures total == 0
    {
      total := 0;
    }

    /** `registerTransaction(amount)`: the total grows by `amount`. */
    method RegisterTransaction(amount: int)
      modifies this
      ensures total == old(total) + amount
    {
      total := total + amount;
    }
  }

  class Bill {
    /** Product id to units bought. */
    var products: map<int, int>
    var totalAmount: int

    constructor ()
      ensures products == map[] && totalAmount == 0
    {
      products := map[];
      totalAmount := 0;
    }

    /**
     * `addProduct(id, quantity, price)`: the entry for `id` grows by
     * `quantity` (starting from 0 when absent), every other entry stays, and
     * the bill value grows by the unit price.
     */
    method AddProduct(id: int, quantity: int, price: int)
      modifies this
      ensures products.Keys == old(products.Keys) + {id}
      ensures forall other :: QuantityIn(products, other) == QuantityIn(old(products), other) + if other == id then quantity else 0
      ensures totalAmount == old(totalAmount) + price
    {
      if id in products {
        products := products[id := products[id] + quantity];
      } else {
        products := products[id := quantity];
      }
      totalAmount := totalAmount + price;
    }

    /** `addProduct` with the bill value growing by quantity times price. */
    method AddProductCorrected(id: int, quantity: int, price: int)
      modifies this
      ensures products.Keys == old(products.Keys) + {id}
      ensures forall other :: QuantityIn(products, other) == QuantityIn(old(products), other) + if other == id then quantity else 0
      ensures totalAmount == old(totalAmount) + quantity * price
    {
      if id in products {
        products := products[id := products[id] + quantity];
      } else {
        products := products[id := quantity];
      }
      totalAmount := totalAmount + quantity * price;
    }

    /** `getQuantityFor(id)`: the units billed for `id`, 0 for an id never added. */
    method GetQuantityFor(id: int) returns (result: int)
      ensures id !in products ==> result == 0
      ensures id in products ==> result == products[id]
    {
      result := 0;
      if id in products {
        result := products[id];
      }
    }
  }

  /** The product maps of a list of bills. */
  function TalliesOf(bs: seq<Bill>): (t: seq<map<int, int>>)
    reads set b | b in bs
    ensures |t| == |bs| && forall i :: 0 <= i < |bs| ==> t[i] == bs[i].products
  {
    if bs == [] then [] else TalliesOf(bs[..|bs| - 1]) + [bs[|bs| - 1].products]
  }

  /** The values of a list of bills. */
  function TotalsOf(bs: seq<Bill>): (t: seq<int>)
    reads set b | b in bs
    ensures |t| == |bs| && forall i :: 0 <= i < |bs| ==> t[i] == bs[i].totalAmount
  {
    if bs == [] then [] else TotalsOf(bs[..|bs| - 1]) + [bs[|bs| - 1].totalAmount]
  }

  /** Units of `id` over a list of bills. */
  function SumFor(t: seq<map<int, int>>, id: int): int
  {
    if t == [] then 0 else SumFor(t[..|t| - 1], id) + QuantityIn(t[|t| - 1], id)
  }

  function Sum(xs: seq<int>): int
  {
    if xs == [] then 0 else Sum(xs[..|xs| - 1]) + xs[|xs| - 1]
  }

  /** Replacing one bill's map changes the units of `id` by that bill's difference. */
  lemma {:induction false} SumForUpdate(t: seq<map<int, int>>, j: int, m: map<int, int>, id: int)
    requires 0 <= j < |t|
    ensures SumFor(t[j := m], id) == SumFor(t, id) + QuantityIn(m, id) - QuantityIn(t[j], id)
  {
    var n := |t| - 1;
    var u := t[j := m];
    if j < n {
      assert u[..n] == t[..n][j := m];
      SumForUpdate(t[..n], j, m, id);
    } else {
      assert u[..n] == t[..n];
    }
  }

  /** Replacing one bill's value changes the sum by the difference. */
  lemma {:induction false} SumUpdate(xs: seq<int>, j: int, x: int)
    requires 0 <= j < |xs|
    ensures Sum(xs[j := x]) == Sum(xs) + x - xs[j]
  {
    var n := |xs| - 1;
    var u := xs[j := x];
    if j < n {
      assert u[..n] == xs[..n][j := x];
      SumUpdate(xs[..n], j, x);
    } else {
      assert u[..n] == xs[..n];
    }
  }

  /** No bill is registered twice. */
  ghost predicate Unique(bs: seq<Bill>)
  {
    forall i, j :: 0 <= i < j < |bs| ==> bs[i] != bs[j]
  }

  class BillList {
    var bills: seq<Bill>

    constructor ()
      ensures bills == []
    {
      bills := [];
    }

    function Tallies(): seq<map<int, int>>
      reads this, set b | b in bills
    {
      TalliesOf(bills)
    }

    /** `registerBill(bill)`: appended at the end. */
    method RegisterBill(bill: Bill)
      modifies this
      ensures bills == old(bills) + [bill]
    {
      bills := bills + [bill];
    }

    /** `getTotalQuantityFor(id)`: the sum of `getQuantityFor(id)` over the registered bills. */
    method GetTotalQuantityFor(id: int) returns (total: int)
      ensures total == SumFor(Tallies(), id)
    {
      total := 0;
      var i := 0;
      while i < |bills|
        invariant 0 <= i <= |bills|
        invariant total == SumFor(TalliesOf(bills)[..i], id)
      {
        var q := bills[i].GetQuantityFor(id);
        assert TalliesOf(bills)[..i + 1][..i] == TalliesOf(bills)[..i];
        total := total + q;
        i := i + 1;
      }
      assert TalliesOf(bills)[..i] == TalliesOf(bills);
    }

    /** `getTotalAmount()`: the sum of the bill values. */
    method GetTotalAmount() returns (total: int)
      ensures total == Sum(TotalsOf(bills))
    {
      total := 0;
      var i := 0;
      while i < |bills|
        invariant 0 <= i <= |bills|
        invariant total == Sum(TotalsOf(bills)[..i])
      {
        assert TotalsOf(bills)[..i + 1][..i] == TotalsOf(bills)[..i];
        total := total + bills[i].totalAmount;
        i := i + 1;
      }
      assert TotalsOf(bills)[..i] == TotalsOf(bills);
    }
  }

  // ---------------------------------------------------------------- the database

  /** The stock of every product in the database. */
  function Stocks(db: map<int, Product>): (s: map<int, Stock>)
    reads db.Values
    ensures s.Keys == db.Keys && forall id :: id in db ==> s[id] == db[id].State()
  {
    map id | id in db :: db[id].State()
  }

  /** The money for everything sold from products 1 .. n. */
  function Takings(s: map<int, Stock>, n: int): int
    decreases n
  {
    if n <= 0 then 0 else Takings(s, n - 1) + if n in s then Revenue(s[n]) else 0
  }

  /** Changing one product's stock changes the takings by its change in revenue. */
  lemma {:induction false} TakingsUpdate(s: map<int, Stock>, key: int, st: Stock, n: int)
    requires key in s
    ensures Takings(s[key := st], n) == Takings(s, n) + if 1 <= key <= n then Revenue(st) - Revenue(s[key]) else 0
    decreases n
  {
    if n > 0 {
      TakingsUpdate(s, key, st, n - 1);
    }
  }

  /** The database `getProducts` builds: ids 1 .. |db|, one product object each. */
  ghost predicate Catalogue(db: map<int, Product>)
  {
    |db| >= 1 &&
    (forall k :: 1 <= k <= |db| ==> k in db) &&
    (forall i, j :: i in db && j in db && i != j ==> db[i] != db[j])
  }

  /**
   * `getProducts()`: ids 1 .. count, product `index` with stock 100·index,
   * price `rand() % 100 + 1` and name "Product<index>".
   */
  method GetProducts(count: nat, priceDraws: seq<nat>) returns (db: map<int, Product>)
    requires |priceDraws| >= count
    ensures |db| == count && forall k :: k in db <==> 1 <= k <= count
    ensures forall i, j :: i in db && j in db && i != j ==> db[i] != db[j]
    ensures forall k :: k in db ==> fresh(db[k])
    ensures forall k :: k in db ==>
      db[k].id == k && db[k].quantity == 100 * k && db[k].initialQuantity == db[k].quantity &&
      db[k].price == priceDraws[k - 1] % 100 + 1 && 1 <= db[k].price <= 100 &&
      db[k].name == "Product" + IntToString(k)
  {
    db := map[];
    var index := 1;
    while index < count + 1
      invariant 1 <= index <= count + 1
      invariant |db| == index - 1 && forall k :: k in db <==> 1 <= k < index
      invariant forall i, j :: i in db && j in db && i != j ==> db[i] != db[j]
      invariant forall k :: k in db ==> fresh(db[k])
      invariant forall k :: k in db ==>
        db[k].id == k && db[k].quantity == 100 * k && db[k].initialQuantity == db[k].quantity &&
        db[k].price == priceDraws[k - 1] % 100 + 1 && 1 <= db[k].price <= 100 &&
        db[k].name == "Product" + IntToString(k)
    {
      var product := new Product(index, priceDraws[index - 1] % 100 + 1, 100 * index, "Product" + IntToString(index));
      db := db[index := product];
      index := index + 1;
    }
  }

  // ---------------------------------------------------------------- the check

  /** What a check reports: success, or the first product whose figures disagree. */
  datatype Verdict =
    | Consistent
    | Mismatch(id: int, quantityDb: int, quantityBills: int, moneyDb: int, moneyBills: int)

  /** The comparison `inventoryCheck` makes for one product. */
  predicate Balanced(s: Stock, billed: int)
  {
    s.price * Sold(s) == s.price * billed
  }

  function MismatchReport(id: int, s: Stock, billed: int): Verdict
  {
    Mismatch(id, Sold(s), billed, s.price * Sold(s), s.price * billed)
  }

  /** The verdict a check must reach on stocks `s` and bills `t`: the smallest id that does not balance, if any. */
  ghost predicate IsVerdict(s: map<int, Stock>, t: seq<map<int, int>>, v: Verdict)
  {
    match v
    case Consistent => forall id :: id in s ==> Balanced(s[id], SumFor(t, id))
    case Mismatch(id, _, _, _, _) =>
      id in s && !Balanced(s[id], SumFor(t, id)) && v == MismatchReport(id, s[id], SumFor(t, id)) &&
      forall k :: k in s && k < id ==> Balanced(s[k], SumFor(t, k))
  }

  /** Each state has one verdict, so any two checks over it agree. */
  lemma VerdictUnique(s: map<int, Stock>, t: seq<map<int, int>>, v: Verdict, w: Verdict)
    requires IsVerdict(s, t, v) && IsVerdict(s, t, w)
    ensures v == w
  {
    if v.Mismatch? && w.Mismatch? {
      assert !(v.id < w.id) && !(w.id < v.id);
    }
  }

  /** A nonempty finite set of ids has a least element. */
  lemma Least(ids: set<int>) returns (m: int)
    requires ids != {}
    ensures m in ids && forall k :: k in ids ==> m <= k
  {
    if forall y :: y !in ids {
      assert false;
    }
    var x :| x in ids;
    if ids == {x} {
      return x;
    }
    var rest := ids - {x};
    var r := Least(rest);
    m := if x < r then x else r;
    forall k | k in ids
      ensures m <= k
    {
      if k != x {
        assert k in rest;
      }
    }
  }

  /** The body both checks run for one product. */
  method CompareProduct(id: int, product: Product, bills: BillList) returns (outcome: Verdict)
    ensures outcome == Consistent <==> Balanced(product.State(), SumFor(bills.Tallies(), id))
    ensures outcome != Consistent ==> outcome == MismatchReport(id, product.State(), SumFor(bills.Tallies(), id))
  {
    var price := product.price;
    var quantityDb := product.initialQuantity - product.quantity;
    var moneyFromDatabase := price * quantityDb;
    var quantityBills := bills.GetTotalQuantityFor(id);
    var moneyFromBills := price * quantityBills;
    if moneyFromDatabase != moneyFromBills {
      return Mismatch(id, quantityDb, quantityBills, moneyFromDatabase, moneyFromBills);
    }
    return Consistent;
  }

  /**
   * `inventoryCheck`: walks the database in ascending id order and stops at
   * the first product whose money from the database differs from the money
   * from the bills.
   */
  method InventoryCheck(db: map<int, Product>, bills: BillList) returns (verdict: Verdict)
    ensures IsVerdict(Stocks(db), bills.Tallies(), verdict)
  {
    ghost var stocks, tallies := Stocks(db), bills.Tallies();
    var remaining := db.Keys;
    while remaining != {}
      invariant remaining <= db.Keys
      invariant forall k :: k in stocks && k !in remaining ==> Balanced(stocks[k], SumFor(tallies, k))
      invariant forall k, j :: k in db && k !in remaining && j in remaining ==> k < j
      decreases remaining
    {
      ghost var least := Least(remaining);
      var id :| id in remaining && forall k :: k in remaining ==> id <= k;
      verdict := CompareProduct(id, db[id], bills);
      if verdict != Consistent {
        return;
      }
      remaining := remaining - {id};
    }
    verdict := Consistent;
  }

  /**
   * `inventoryCheckSlow`: locks every product first (a no-op here), then
   * runs the same ascending walk.
   */
  method InventoryCheckSlow(db: map<int, Product>, bills: BillList) returns (verdict: Verdict)
    ensures IsVerdict(Stocks(db), bills.Tallies(), verdict)
  {
    verdict := InventoryCheck(db, bills);
  }

  /** The two checks reach the same verdict on the same state. */
  method ChecksAgree(db: map<int, Product>, bills: BillList) returns (fast: Verdict, slow: Verdict)
    ensures fast == slow
  {
    fast := InventoryCheck(db, bills);
    slow := InventoryCheckSlow(db, bills);
    VerdictUnique(Stocks(db), bills.Tallies(), fast, slow);
  }

  // ---------------------------------------------------------------- selling

  /** Per product, units sold minus units billed. */
  function DriftOf(s: map<int, Stock>, t: seq<map<int, int>>): map<int, int>
  {
    map id | id in s :: Sold(s[id]) - SumFor(t, id)
  }

  /** The stock after `amount` units of `key` are sold. */
  function Taken(s: map<int, Stock>, key: int, amount: int): (r: map<int, Stock>)
    requires key in s
    ensures r.Keys == s.Keys && Sold(r[key]) == Sold(s[key]) + amount
    ensures forall id :: id in s && id != key ==> r[id] == s[id]
  {
    s[key := s[key].(quantity := s[key].quantity - amount)]
  }

  /** Moving `amount` units of `key` out of the stock and into bill j changes no product's drift. */
  lemma SaleKeepsDrift(s: map<int, Stock>, t: seq<map<int, int>>, key: int, amount: int, j: int, m: map<int, int>)
    requires key in s && 0 <= j < |t|
    requires forall id :: QuantityIn(m, id) == QuantityIn(t[j], id) + if id == key then amount else 0
    ensures DriftOf(Taken(s, key, amount), t[j := m]) == DriftOf(s, t)
  {
    forall id | id in s
      ensures SumFor(t[j := m], id) == SumFor(t, id) + if id == key then amount else 0
    {
      SumForUpdate(t, j, m, id);
    }
  }

  /** Selling `amount` units of `key` raises the takings by amount·price. */
  lemma SaleTakings(s: map<int, Stock>, key: int, amount: int, n: int)
    requires key in s && 1 <= key <= n
    ensures Takings(Taken(s, key, amount), n) == Takings(s, n) + amount * s[key].price
  {
    var st := s[key].(quantity := s[key].quantity - amount);
    assert Taken(s, key, amount) == s[key := st];
    TakingsUpdate(s, key, st, n);
    assert Sold(st) == Sold(s[key]) + amount;
    assert Revenue(st) == s[key].price * Sold(s[key]) + s[key].price * amount;
  }

  /** A bill with no products adds nothing to anyone's billed units. */
  lemma EmptyBillKeepsDrift(s: map<int, Stock>, t: seq<map<int, int>>)
    ensures DriftOf(s, t + [map[]]) == DriftOf(s, t)
  {
    assert (t + [map[]])[..|t|] == t;
  }

  /** `rand() % size + 1`: always the id of a product in the database. */
  function SaleKey(draw: nat, size: int): (key: int)
    requires size >= 1
    ensures 1 <= key <= size
  {
    draw % size + 1
  }

  /** `purchase` on the product stored under `key`: only that product's stock changes. */
  method TakeStock(db: map<int, Product>, key: int, request: int) returns (amount: int)
    requires key in db && forall i, j :: i in db && j in db && i != j ==> db[i] != db[j]
    modifies db[key]
    ensures amount == Min(request, old(db[key].quantity))
    ensures Stocks(db) == Taken(old(Stocks(db)), key, amount)
  {
    ghost var stocks := Stocks(db);
    amount := db[key].Purchase(request);
    forall id | id in db
      ensures db[id].State() == Taken(stocks, key, amount)[id]
    {
      if id != key {
        assert db[id] != db[key];
      }
    }
  }

  /** The money and the bill entry of one sale: amount·price to the account, `addProduct` on the bill. */
  method Record(db: map<int, Product>, bills: BillList, bill: Bill, shop: ShopBankAccount, key: int, amount: int, price: int)
    returns (ghost j: int)
    requires bill in bills.bills && Unique(bills.bills)
    modifies bill, shop
    ensures Stocks(db) == old(Stocks(db))
    ensures 0 <= j < |bills.bills| && bills.bills[j] == bill
    ensures bills.Tallies() == old(bills.Tallies())[j := bill.products]
    ensures forall id :: QuantityIn(bill.products, id) == QuantityIn(old(bill.products), id) + if id == key then amount else 0
    ensures shop.total == old(shop.total) + amount * price
    ensures bill.totalAmount == old(bill.totalAmount) + price
  {
    j :| 0 <= j < |bills.bills| && bills.bills[j] == bill;
    shop.RegisterTransaction(amount * price);
    bill.AddProduct(key, amount, price);
  }

  /**
   * One pass of `threadWork`'s loop: a product is drawn, `purchase(rand() %
   * 100 + 1)` takes what it can, the shop account gets amount·price and the
   * thread's bill records the amount at the unit price.  No product's drift
   * changes, and neither does the gap between the account and the takings.
   */
  method Sale(db: map<int, Product>, bills: BillList, bill: Bill, shop: ShopBankAccount, keyDraw: nat, amountDraw: nat)
    returns (key: int, amount: int)
    requires Catalogue(db) && bill in bills.bills && Unique(bills.bills)
    modifies db.Values, bill, shop
    ensures key == SaleKey(keyDraw, |db|) && key in db
    ensures amount == Min(amountDraw % 100 + 1, old(db[key].quantity))
    ensures bill.totalAmount == old(bill.totalAmount) + db[key].price
    ensures DriftOf(Stocks(db), bills.Tallies()) == old(DriftOf(Stocks(db), bills.Tallies()))
    ensures shop.total - Takings(Stocks(db), |db|) == old(shop.total - Takings(Stocks(db), |db|))
  {
    key := SaleKey(keyDraw, |db|);
    var product := db[key];
    ghost var stocks, tallies := Stocks(db), bills.Tallies();
    amount := TakeStock(db, key, amountDraw % 100 + 1);
    assert bills.Tallies() == tallies;
    ghost var j := Record(db, bills, bill, shop, key, amount, product.price);
    SaleKeepsDrift(stocks, tallies, key, amount, j, bill.products);
    SaleTakings(stocks, key, amount, |db|);
  }

  /** `Record` with the corrected `addProduct`: the bill grows by amount·price too. */
  method RecordCorrected(bills: BillList, bill: Bill, shop: ShopBankAccount, key: int, amount: int, price: int) returns (ghost j: int)
    requires bill in bills.bills && Unique(bills.bills)
    modifies bill, shop
    ensures 0 <= j < |bills.bills| && bills.bills[j] == bill
    ensures TotalsOf(bills.bills) == old(TotalsOf(bills.bills))[j := bill.totalAmount]
    ensures shop.total == old(shop.total) + amount * price
    ensures bill.totalAmount == old(bill.totalAmount) + amount * price
  {
    j :| 0 <= j < |bills.bills| && bills.bills[j] == bill;
    shop.RegisterTransaction(amount * price);
    bill.AddProductCorrected(key, amount, price);
  }

  /** The sale step with `addProduct` corrected: the bill values then add up to the account. */
  method SaleCorrected(db: map<int, Product>, bills: BillList, bill: Bill, shop: ShopBankAccount, keyDraw: nat, amountDraw: nat)
    returns (key: int, amount: int)
    requires Catalogue(db) && bill in bills.bills && Unique(bills.bills)
    modifies db.Values, bill, shop
    ensures key == SaleKey(keyDraw, |db|) && key in db
    ensures Sum(TotalsOf(bills.bills)) - shop.total == old(Sum(TotalsOf(bills.bills)) - shop.total)
  {
    key := SaleKey(keyDraw, |db|);
    var product := db[key];
    ghost var totals, paid := TotalsOf(bills.bills), shop.total;
    amount := TakeStock(db, key, amountDraw % 100 + 1);
    assert TotalsOf(bills.bills) == totals && shop.total == paid;
    ghost var j := RecordCorrected(bills, bill, shop, key, amount, product.price);
    SumUpdate(totals, j, bill.totalAmount);
  }

  /** As written, a sale of two units at price 10 adds 10 to the bill and 20 to the account. */
  method UnitPriceExample() returns (billValue: int, accountTotal: int)
    ensures billValue == 10 && accountTotal == 20
  {
    var bill := new Bill();
    var shop := new ShopBankAccount();
    bill.AddProduct(1, 2, 10);
    shop.RegisterTransaction(2 * 10);
    billValue, accountTotal := bill.totalAmount, shop.total;
  }

  /** `registerBill` of a thread's new, empty bill: no product's drift changes. */
  method RegisterEmpty(db: map<int, Product>, bills: BillList, bill: Bill)
    requires Unique(bills.bills) && bill !in bills.bills && bill.products == map[]
    modifies bills
    ensures bills.bills == old(bills.bills) + [bill] && Unique(bills.bills)
    ensures Stocks(db) == old(Stocks(db))
    ensures DriftOf(Stocks(db), bills.Tallies()) == old(DriftOf(Stocks(db), bills.Tallies()))
  {
    ghost var stocks, tallies := Stocks(db), bills.Tallies();
    bills.RegisterBill(bill);
    assert Stocks(db) == stocks;
    assert bills.Tallies() == tallies + [map[]];
    EmptyBillKeepsDrift(stocks, tallies);
  }

  /** `threadWork`'s loop: one sale per pair of draws, all recorded on `bill`. */
  method SellAll(db: map<int, Product>, bills: BillList, bill: Bill, shop: ShopBankAccount, draws: seq<(nat, nat)>)
    requires Catalogue(db) && bill in bills.bills && Unique(bills.bills)
    modifies db.Values, bill, shop
    ensures DriftOf(Stocks(db), bills.Tallies()) == old(DriftOf(Stocks(db), bills.Tallies()))
    ensures shop.total - Takings(Stocks(db), |db|) == old(shop.total - Takings(Stocks(db), |db|))
  {
    var count := |draws|;
    while count > 0
      invariant 0 <= count <= |draws|
      invariant DriftOf(Stocks(db), bills.Tallies()) == old(DriftOf(Stocks(db), bills.Tallies()))
      invariant shop.total - Takings(Stocks(db), |db|) == old(shop.total - Takings(Stocks(db), |db|))
    {
      var draw := draws[|draws| - count];
      count := count - 1;
      var key, amount := Sale(db, bills, bill, shop, draw.0, draw.1);
    }
  }

  /**
   * `threadWork`: registers a fresh bill, then runs one sale per pair of
   * draws.  No product's drift changes, and neither does the gap between
   * the account and the takings.
   */
  method ThreadWork(db: map<int, Product>, bills: BillList, shop: ShopBankAccount, draws: seq<(nat, nat)>)
    requires Catalogue(db) && Unique(bills.bills)
    modifies db.Values, bills, shop
    ensures |bills.bills| == |old(bills.bills)| + 1 && bills.bills[..|old(bills.bills)|] == old(bills.bills)
    ensures fresh(bills.bills[|old(bills.bills)|]) && Unique(bills.bills)
    ensures DriftOf(Stocks(db), bills.Tallies()) == old(DriftOf(Stocks(db), bills.Tallies()))
    ensures shop.total - Takings(Stocks(db), |db|) == old(shop.total - Takings(Stocks(db), |db|))
  {
    var bill := new Bill();
    assert Stocks(db) == old(Stocks(db)) && bills.Tallies() == old(bills.Tallies());
    RegisterEmpty(db, bills, bill);
    SellAll(db, bills, bill, shop, draws);
    assert bills.bills[..|old(bills.bills)|] == old(bills.bills);
  }

  /** Every product's units sold equal its units billed. */
  predicate NoDrift(drift: map<int, int>)
  {
    forall id :: id in drift ==> drift[id] == 0
  }

  /** Before any sale and any bill, no product has drifted. */
  lemma UnsoldHasNoDrift(s: map<int, Stock>)
    requires forall id :: id in s ==> s[id].quantity == s[id].initialQuantity
    ensures NoDrift(DriftOf(s, []))
  {
  }

  /** With no drift anywhere, the only verdict is success. */
  lemma ReconciledIsConsistent(s: map<int, Stock>, t: seq<map<int, int>>, verdict: Verdict)
    requires NoDrift(DriftOf(s, t))
    requires IsVerdict(s, t, verdict)
    ensures verdict == Consistent
  {
    forall id | id in s
      ensures Balanced(s[id], SumFor(t, id))
    {
      assert DriftOf(s, t)[id] == 0;
    }
    VerdictUnique(s, t, verdict, Consistent);
  }

  /** The sale threads of `main`, run one after another: none of them makes a product drift. */
  method RunThreads(db: map<int, Product>, bills: BillList, shop: ShopBankAccount, threadDraws: seq<seq<(nat, nat)>>)
    requires Catalogue(db) && Unique(bills.bills) && NoDrift(DriftOf(Stocks(db), bills.Tallies()))
    modifies db.Values, bills, shop
    ensures Unique(bills.bills) && |bills.bills| == |old(bills.bills)| + |threadDraws|
    ensures NoDrift(DriftOf(Stocks(db), bills.Tallies()))
  {
    var t := 0;
    while t < |threadDraws|
      invariant 0 <= t <= |threadDraws|
      invariant Unique(bills.bills) && |bills.bills| == |old(bills.bills)| + t
      invariant DriftOf(Stocks(db), bills.Tallies()) == old(DriftOf(Stocks(db), bills.Tallies()))
    {
      ThreadWork(db, bills, shop, threadDraws[t]);
      t := t + 1;
    }
  }

  /** `main`'s closing `inventoryCheck`, after sales that left no product drifting: it succeeds. */
  method FinalCheck(db: map<int, Product>, bills: BillList) returns (verdict: Verdict)
    requires NoDrift(DriftOf(Stocks(db), bills.Tallies()))
    ensures verdict == Consistent
  {
    ghost var stocks, tallies := Stocks(db), bills.Tallies();
    verdict := InventoryCheck(db, bills);
    assert Stocks(db) == stocks && bills.Tallies() == tallies;
    ReconciledIsConsistent(stocks, tallies, verdict);
  }

  /**
   * `main`'s run with the threads one after another: fresh products, an
   * empty bill list and account, the sales of every thread, then the final
   * `inventoryCheck`, which succeeds.
   */
  method SalesThenCheck(count: nat, priceDraws: seq<nat>, threadDraws: seq<seq<(nat, nat)>>) returns (verdict: Verdict)
    requires count >= 1 && |priceDraws| >= count
    ensures verdict == Consistent
  {
    var bills := new BillList();
    var shop := new ShopBankAccount();
    var db := GetProducts(count, priceDraws);
    UnsoldHasNoDrift(Stocks(db));
    assert bills.Tallies() == [];
    RunThreads(db, bills, shop, threadDraws);
    verdict := FinalCheck(db, bills);
  }
}
