/** Orders and stock (controllers/orderController.js): creating, soft-deleting and restoring orders,
    each in a transaction that commits or rolls back. */
module Orders {
  type ProductId = nat

  /** An item as the request names it. */
  datatype Item = Item(product: ProductId, quantity: int)
  /** An item as it is stored, with the price at the time of the order. */
  datatype OrderItem = OrderItem(product: ProductId, quantity: int, unitPrice: real)

  datatype Status = Pending | Processing | Shipped | Delivered | Cancelled

  datatype Order = Order(customer: nat, items: seq<OrderItem>, total: real, status: Status, deleted: bool)

  /** Orders are identified by their place in the sequence. */
  datatype State = State(stock: map<ProductId, int>, price: map<ProductId, real>, orders: seq<Order>)

  datatype Reply = Placed(id: nat) | Removed | Restored | Updated | NotFound | BadRequest | ServerError

  // ---------- Quantities ----------

  /** How much of a product a list of stored items takes. */
  function Taken(items: seq<OrderItem>, p: ProductId): int {
    if items == [] then 0
    else Taken(items[..|items| - 1], p) + if items[|items| - 1].product == p then items[|items| - 1].quantity else 0
  }

  /** How much of a product the orders that are not soft-deleted hold. */
  function Reserved(orders: seq<Order>, p: ProductId): int {
    if orders == [] then 0
    else Reserved(orders[..|orders| - 1], p) + Held(orders[|orders| - 1], p)
  }

  function Held(order: Order, p: ProductId): int { if order.deleted then 0 else Taken(order.items, p) }

  /** Price times quantity over all items. */
  function Cost(items: seq<OrderItem>): real {
    if items == [] then 0.0
    else Cost(items[..|items| - 1]) + items[|items| - 1].unitPrice * (items[|items| - 1].quantity as real)
  }

  /** The stock after the items were taken from it (`sign` 1) or put back (`sign` -1). */
  function Move(stock: map<ProductId, int>, items: seq<OrderItem>, sign: int): map<ProductId, int> {
    map p | p in stock :: stock[p] - sign * Taken(items, p)
  }

  function Priced(items: seq<Item>, price: map<ProductId, real>): seq<OrderItem>
    requires forall i :: 0 <= i < |items| ==> items[i].product in price
  {
    seq(|items|, i requires 0 <= i < |items| => OrderItem(items[i].product, items[i].quantity, price[items[i].product]))
  }

  // ---------- The three handlers as functions ----------

  ghost predicate Valid(s: State) {
    && s.stock.Keys == s.price.Keys
    && (forall o :: 0 <= o < |s.orders| ==> s.orders[o].total == Cost(s.orders[o].items))
    && (forall o :: 0 <= o < |s.orders| && s.orders[o].deleted ==> s.orders[o].status == Cancelled)
  }

  /** The checks before anything is written: each item on its own. */
  predicate Available(s: State, items: seq<Item>) {
    forall i :: 0 <= i < |items| ==>
      items[i].product in s.stock && items[i].product in s.price && s.stock[items[i].product] >= items[i].quantity
  }

  function Create(s: State, customer: nat, items: seq<Item>, fault: bool): (State, Reply) {
    if !Available(s, items) || fault then (s, ServerError)
    else
      var stored := Priced(items, s.price);
      (s.(stock := Move(s.stock, stored, 1), orders := s.orders + [Order(customer, stored, Cost(stored), Pending, false)]),
       Placed(|s.orders|))
  }

  function SoftDelete(s: State, id: nat, fault: bool): (State, Reply) {
    if id >= |s.orders| || s.orders[id].deleted then (s, NotFound)
    else if s.orders[id].status == Delivered then (s, BadRequest)
    else if fault then (s, ServerError)
    else (s.(stock := Move(s.stock, s.orders[id].items, -1),
             orders := s.orders[id := s.orders[id].(status := Cancelled, deleted := true)]), Removed)
  }

  function Restore(s: State, id: nat, fault: bool): (State, Reply) {
    if id >= |s.orders| then (s, NotFound)
    else if !s.orders[id].deleted then (s, BadRequest)
    else if fault then (s, ServerError)
    else (s.(stock := Move(s.stock, s.orders[id].items, 1),
             orders := s.orders[id := s.orders[id].(status := Pending, deleted := false)]), Restored)
  }

  /** `patchOrderStatus`: deleted orders are not found, delivered ones stay as they are. */
  function PatchStatus(s: State, id: nat, status: Status): (State, Reply) {
    if id >= |s.orders| || s.orders[id].deleted then (s, NotFound)
    else if s.orders[id].status == Delivered then (s, BadRequest)
    else (s.(orders := s.orders[id := s.orders[id].(status := status)]), Updated)
  }

  // ---------- Conservation over every run ----------

  datatype Event = CreateOrder(customer: nat, items: seq<Item>, fault: bool)
                 | DeleteOrder(id: nat, fault: bool)
                 | RestoreOrder(id: nat, fault: bool)
                 | StatusChange(id: nat, status: Status)

  function Step(s: State, e: Event): State {
    match e
    case CreateOrder(customer, items, fault) => Create(s, customer, items, fault).0
    case DeleteOrder(id, fault) => SoftDelete(s, id, fault).0
    case RestoreOrder(id, fault) => Restore(s, id, fault).0
    case StatusChange(id, status) => PatchStatus(s, id, status).0
  }

  function Run(s: State, events: seq<Event>): State {
    if events == [] then s else Step(Run(s, events[..|events| - 1]), events[|events| - 1])
  }

  /** What is in stock and what live orders hold of it. */
  function Owned(s: State, p: ProductId): int
    requires p in s.stock
  {
    s.stock[p] + Reserved(s.orders, p)
  }

  lemma {:induction false} ReservedUpdate(orders: seq<Order>, id: nat, order: Order, p: ProductId)
    requires id < |orders|
    ensures Reserved(orders[id := order], p) == Reserved(orders, p) - Held(orders[id], p) + Held(order, p)
  {
    var n := |orders| - 1;
    hide Held;
    if id == n {
      assert orders[id := order][..n] == orders[..n];
    } else {
      assert orders[id := order][..n] == orders[..n][id := order];
      ReservedUpdate(orders[..n], id, order, p);
    }
  }

  lemma ReservedAppend(orders: seq<Order>, order: Order, p: ProductId)
    ensures Reserved(orders + [order], p) == Reserved(orders, p) + Held(order, p)
  {
    assert (orders + [order])[..|orders|] == orders;
  }

  lemma StepConserves(s: State, e: Event, p: ProductId)
    requires p in s.stock
    ensures Step(s, e).stock.Keys == s.stock.Keys && Owned(Step(s, e), p) == Owned(s, p)
  {
    match e
    case CreateOrder(customer, items, fault) =>
      if Available(s, items) && !fault {
        var stored := Priced(items, s.price);
        ReservedAppend(s.orders, Order(customer, stored, Cost(stored), Pending, false), p);
      }
    case DeleteOrder(id, fault) =>
      if id < |s.orders| { ReservedUpdate(s.orders, id, s.orders[id].(status := Cancelled, deleted := true), p); }
    case RestoreOrder(id, fault) =>
      if id < |s.orders| { ReservedUpdate(s.orders, id, s.orders[id].(status := Pending, deleted := false), p); }
    case StatusChange(id, status) =>
      if id < |s.orders| { ReservedUpdate(s.orders, id, s.orders[id].(status := status), p); }
  }

  lemma StepKeepsTotals(s: State, e: Event)
    requires Valid(s)
    ensures Valid(Step(s, e))
  {
    hide Cost, Taken;
  }

  /** In every run the stock of a product plus what live orders hold of it never changes, and every
      order's total is its price times quantity; also with rollbacks and repeated products. */
  lemma {:induction false} RunConserves(s: State, events: seq<Event>, p: ProductId)
    requires Valid(s) && p in s.stock
    ensures Valid(Run(s, events)) && Run(s, events).stock.Keys == s.stock.Keys && Owned(Run(s, events), p) == Owned(s, p)
  {
    if events != [] {
      var (init, e) := (events[..|events| - 1], events[|events| - 1]);
      RunConserves(s, init, p);
      StepConserves(Run(s, init), e, p);
      StepKeepsTotals(Run(s, init), e);
    }
  }

  /** A step never touches the items, price or customer of an order, and none disappears. */
  lemma StepKeepsOrders(s: State, e: Event, id: nat)
    requires Valid(s) && id < |s.orders|
    ensures var (o, o') := (s.orders[id], Step(s, e).orders);
            && id < |o'| && o'[id].items == o.items && o'[id].total == o.total && o'[id].customer == o.customer
            && (o.status == Delivered ==> o'[id] == o)
  {
    hide Move, Cost;
  }

  /** A delivered order stays exactly as it is through every run: it is neither changed, nor deleted,
      nor restored. */
  lemma {:induction false} DeliveredIsFinal(s: State, events: seq<Event>, id: nat)
    requires Valid(s) && id < |s.orders| && s.orders[id].status == Delivered
    ensures Valid(Run(s, events)) && id < |Run(s, events).orders| && Run(s, events).orders[id] == s.orders[id]
  {
    hide Step, Valid;
    if events != [] {
      var (init, e) := (events[..|events| - 1], events[|events| - 1]);
      DeliveredIsFinal(s, init, id);
      StepKeepsTotals(Run(s, init), e);
      StepKeepsOrders(Run(s, init), e, id);
    }
  }

  /** What an event of a run does: an order more exactly for an accepted request, and of the order named
      the mark of deletion or the status changed exactly when the handler accepts. */
  lemma StepActs(s: State, e: Event)
    ensures var s' := Step(s, e);
            && |s'.orders| == |s.orders| + (if e.CreateOrder? && Available(s, e.items) && !e.fault then 1 else 0)
            && (e.DeleteOrder? && e.id < |s.orders| ==>
                  (s'.orders[e.id].deleted <==> s.orders[e.id].deleted || (s.orders[e.id].status != Delivered && !e.fault)))
            && (e.RestoreOrder? && e.id < |s.orders| ==> (s'.orders[e.id].deleted <==> s.orders[e.id].deleted && e.fault))
            && (e.StatusChange? && e.id < |s.orders| ==>
                  s'.orders[e.id].status == if s.orders[e.id].deleted || s.orders[e.id].status == Delivered
                                            then s.orders[e.id].status else e.status)
  {
    hide Move, Cost, Priced;
  }

  // ---------- When stock stays non-negative ----------

  ghost predicate InStock(s: State) { forall p :: p in s.stock ==> s.stock[p] >= 0 }

  /** How much of a product a request asks for, over all its items. */
  function Asked(items: seq<Item>, p: ProductId): int {
    if items == [] then 0
    else Asked(items[..|items| - 1], p) + if items[|items| - 1].product == p then items[|items| - 1].quantity else 0
  }

  lemma {:induction false} AskedIsTaken(items: seq<Item>, price: map<ProductId, real>, p: ProductId)
    requires forall i :: 0 <= i < |items| ==> items[i].product in price
    ensures Taken(Priced(items, price), p) == Asked(items, p)
  {
    if items != [] {
      var n := |items| - 1;
      AskedIsTaken(items[..n], price, p);
      assert Priced(items, price)[..n] == Priced(items[..n], price);
    }
  }

  /** An accepted order leaves the stock non-negative exactly when no product is asked for more often
      in total than there is of it; the handler checks only each item on its own. */
  lemma CreateInStockIff(s: State, customer: nat, items: seq<Item>)
    requires Available(s, items)
    ensures InStock(Create(s, customer, items, false).0) <==> forall p :: p in s.stock ==> Asked(items, p) <= s.stock[p]
  {
    var s' := Create(s, customer, items, false).0;
    forall p | p in s.stock ensures s'.stock[p] == s.stock[p] - Asked(items, p) {
      AskedIsTaken(items, s.price, p);
    }
  }

  /** What a request costs at given prices. */
  function Bill(items: seq<Item>, price: map<ProductId, real>): real
    requires forall i :: 0 <= i < |items| ==> items[i].product in price
  {
    if items == [] then 0.0
    else
      var last := items[|items| - 1];
      Bill(items[..|items| - 1], price) + price[last.product] * (last.quantity as real)
  }

  lemma {:induction false} BillIsCost(items: seq<Item>, price: map<ProductId, real>)
    requires forall i :: 0 <= i < |items| ==> items[i].product in price
    ensures Cost(Priced(items, price)) == Bill(items, price)
  {
    if items != [] {
      var n := |items| - 1;
      BillIsCost(items[..n], price);
      assert Priced(items, price)[..n] == Priced(items[..n], price);
    }
  }

  /** An accepted order: its items are those asked for at the prices of the moment, its total is the
      bill, it is pending, the stock is down by what was asked for, and nothing else has changed. */
  lemma CreateBills(s: State, customer: nat, items: seq<Item>)
    requires Available(s, items)
    ensures var (s', reply) := Create(s, customer, items, false);
            && reply == Placed(|s.orders|) && |s'.orders| == |s.orders| + 1 && s'.orders[..|s.orders|] == s.orders
            && s'.price == s.price && s'.stock.Keys == s.stock.Keys
            && (forall p :: p in s.stock ==> s'.stock[p] == s.stock[p] - Asked(items, p))
            && var order := s'.orders[|s.orders|];
               && order.customer == customer && order.status == Pending && !order.deleted
               && order.total == Bill(items, s.price) && |order.items| == |items|
               && forall i :: 0 <= i < |items| ==>
                    && order.items[i].product == items[i].product && order.items[i].quantity == items[i].quantity
                    && order.items[i].unitPrice == s.price[items[i].product]
  {
    forall p | p in s.stock { AskedIsTaken(items, s.price, p); }
    BillIsCost(items, s.price);
    hide Asked, Bill, Cost, Taken;
  }

  predicate MissingOrShort(s: State, it: Item) {
    it.product !in s.stock || it.product !in s.price || s.stock[it.product] < it.quantity
  }

  /** An order is refused if and only if a product is missing or short, or the transaction fails, and
      then nothing has changed. */
  lemma CreateRefused(s: State, customer: nat, items: seq<Item>, fault: bool)
    ensures var (s', reply) := Create(s, customer, items, fault);
            && (reply == ServerError || reply.Placed?)
            && (reply == ServerError <==>
                  fault || exists i :: 0 <= i < |items| && MissingOrShort(s, items[i]))
            && (reply == ServerError ==> s' == s)
  {
    hide Priced, Move, Cost;
  }

  /** What the other handlers answer, and what they leave of an order. */
  lemma HandlersAnswer(s: State, id: nat, status: Status, fault: bool)
    ensures var there := id < |s.orders| && !s.orders[id].deleted;
            var final := there && s.orders[id].status == Delivered;
            var (removed, restored, patched) := (SoftDelete(s, id, fault), Restore(s, id, fault), PatchStatus(s, id, status));
            && (removed.1 == NotFound <==> !there) && (removed.1 == BadRequest <==> final)
            && (removed.1 == Removed <==> there && !final && !fault) && (removed.1 != Removed ==> removed.0 == s)
            && (restored.1 == NotFound <==> id >= |s.orders|) && (restored.1 == BadRequest <==> there)
            && (restored.1 == Restored <==> id < |s.orders| && !there && !fault) && (restored.1 != Restored ==> restored.0 == s)
            && (patched.1 == NotFound <==> !there) && (patched.1 == BadRequest <==> final)
            && (patched.1 == Updated <==> there && !final) && (patched.1 != Updated ==> patched.0 == s)
            && (removed.1 == Removed ==> removed.0.orders[id].status == Cancelled && removed.0.orders[id].deleted)
            && (restored.1 == Restored ==> restored.0.orders[id].status == Pending && !restored.0.orders[id].deleted)
            && (patched.1 == Updated ==> patched.0.orders[id].status == status && patched.0.stock == s.stock)
  {
    hide Move;
  }

  /** Deleting puts back what the order took, restoring takes it again: together they cancel out. */
  lemma DeleteRestoreCancels(s: State, id: nat)
    requires Valid(s) && SoftDelete(s, id, false).1 == Removed
    ensures var s1 := SoftDelete(s, id, false).0;
            && (forall p :: p in s.stock ==> p in s1.stock && s1.stock[p] == s.stock[p] + Taken(s.orders[id].items, p))
            && Restore(s1, id, false).1 == Restored
            && Restore(s1, id, false).0 == s.(orders := s.orders[id := s.orders[id].(status := Pending)])
  {
    hide Taken, Cost;
    var s1 := SoftDelete(s, id, false).0;
    var s2 := Restore(s1, id, false).0;
    assert s1.orders[id].items == s.orders[id].items;
    assert s2.stock == s.stock;
    assert s2.orders == s.orders[id := s.orders[id].(status := Pending)];
  }

  lemma {:induction false} AskedOnce(items: seq<Item>, p: ProductId)
    requires forall i, j :: 0 <= i < j < |items| ==> items[i].product != items[j].product
    ensures Asked(items, p) == 0 || exists i :: 0 <= i < |items| && items[i].product == p && Asked(items, p) == items[i].quantity
  {
    if items != [] {
      var n := |items| - 1;
      AskedOnce(items[..n], p);
      if items[n].product == p {
        AskedNone(items[..n], p);
        assert items[n].product == p && Asked(items, p) == items[n].quantity;
      } else if Asked(items[..n], p) != 0 {
        var i :| 0 <= i < n && items[..n][i].product == p && Asked(items[..n], p) == items[..n][i].quantity;
        assert items[i].product == p;
      }
    }
  }

  lemma {:induction false} AskedNone(items: seq<Item>, p: ProductId)
    requires forall i :: 0 <= i < |items| ==> items[i].product != p
    ensures Asked(items, p) == 0
  {
    if items != [] { AskedNone(items[..|items| - 1], p); }
  }

  /** Without repeated products the check of the handler is enough. */
  lemma DistinctInStock(s: State, customer: nat, items: seq<Item>, fault: bool)
    requires InStock(s) && forall i, j :: 0 <= i < j < |items| ==> items[i].product != items[j].product
    ensures InStock(Create(s, customer, items, fault).0)
  {
    if Available(s, items) && !fault {
      forall p | p in s.stock ensures Asked(items, p) <= s.stock[p] {
        AskedOnce(items, p);
      }
      CreateInStockIff(s, customer, items);
    }
  }

  /** Restoring never looks at the stock. */
  lemma RestoreInStockIff(s: State, id: nat)
    requires id < |s.orders| && s.orders[id].deleted
    ensures InStock(Restore(s, id, false).0) <==> forall p :: p in s.stock ==> Taken(s.orders[id].items, p) <= s.stock[p]
  {
    var s' := Restore(s, id, false).0;
    forall p | p in s.stock ensures s'.stock[p] == s.stock[p] - Taken(s.orders[id].items, p) {}
  }

  /** One product with one piece left, named twice in one order. */
  lemma TwiceInOneOrder()
    ensures var s := State(map[7 := 1], map[7 := 2.5], []);
            var items := [Item(7, 1), Item(7, 1)];
            Valid(s) && InStock(s) && Available(s, items) && Create(s, 0, items, false).0.stock[7] == -1
  {
    var s := State(map[7 := 1], map[7 := 2.5], []);
    var items := [Item(7, 1), Item(7, 1)];
    assert items[..1] == [Item(7, 1)];
    assert Asked(items, 7) == 2;
    AskedIsTaken(items, s.price, 7);
  }

  /** A soft-deleted order for one piece, restored when none is left. */
  lemma RestoredWithoutStock()
    ensures var order := Order(0, [OrderItem(7, 1, 2.5)], 2.5, Cancelled, true);
            var s := State(map[7 := 0], map[7 := 2.5], [order]);
            Valid(s) && InStock(s) && Restore(s, 0, false).0.stock[7] == -1
  {
    var items := [OrderItem(7, 1, 2.5)];
    assert items[..0] == [];
    assert Taken(items, 7) == 1 && Cost(items) == 2.5;
  }

  // ---------- The handlers step by step ----------

  lemma TakenMore(items: seq<OrderItem>, it: OrderItem, p: ProductId)
    ensures Taken(items + [it], p) == Taken(items, p) + if it.product == p then it.quantity else 0
  {
    assert (items + [it])[..|items|] == items;
  }

  /** One row updated after another is the whole movement. */
  lemma MoveMore(stock: map<ProductId, int>, items: seq<OrderItem>, it: OrderItem, sign: int)
    requires sign == 1 || sign == -1
    ensures var now := Move(stock, items, sign);
            Move(stock, items + [it], sign) == if it.product in stock then now[it.product := now[it.product] - sign * it.quantity] else now
  {
    forall p | p in stock { TakenMore(items, it, p); }
    hide Taken;
  }

  lemma MoveNothing(stock: map<ProductId, int>, sign: int)
    ensures Move(stock, [], sign) == stock
  {
  }

  lemma CostMore(items: seq<OrderItem>, it: OrderItem)
    ensures Cost(items + [it]) == Cost(items) + it.unitPrice * (it.quantity as real)
  {
    assert (items + [it])[..|items|] == items;
  }

  class Shop {
    var stock: map<ProductId, int>
    var price: map<ProductId, real>
    var orders: seq<Order>

    ghost function View(): State reads this { State(stock, price, orders) }

    /** The row of a product is changed by a quantity; without such a row nothing happens. */
    method UpdateStock(p: ProductId, change: int)
      modifies this`stock
      ensures stock == if p in old(stock) then old(stock)[p := old(stock)[p] + change] else old(stock)
    {
      if p in stock { stock := stock[p := stock[p] + change]; }
    }

    /** The loops over the stored items in `softDeleteOrder` (`sign` -1) and `restoreOrder` (`sign` 1);
        the statement for item `faultAt` fails. */
    method MoveStock(items: seq<OrderItem>, sign: int, faultAt: nat) returns (ok: bool)
      requires sign == 1 || sign == -1
      modifies this`stock
      ensures ok <==> faultAt >= |items|
      ensures ok ==> stock == Move(old(stock), items, sign)
    {
      hide Move;
      MoveNothing(stock, sign);
      for i := 0 to |items|
        invariant i <= faultAt && stock == Move(old(stock), items[..i], sign)
      {
        if i == faultAt { return false; }
        MoveMore(old(stock), items[..i], items[i], sign);
        assert items[..i + 1] == items[..i] + [items[i]];
        MoveKeys(old(stock), items[..i], sign);
        UpdateStock(items[i].product, -(sign * items[i].quantity));
      }
      assert items[..|items|] == items;
      ok := true;
    }

    /** The checks of `createOrder`. */
    method Check(items: seq<Item>) returns (ok: bool)
      ensures ok == Available(View(), items)
    {
      for i := 0 to |items|
        invariant forall j :: 0 <= j < i ==>
                    items[j].product in stock && items[j].product in price && stock[items[j].product] >= items[j].quantity
      {
        if items[i].product !in stock || items[i].product !in price { return false; }
        if stock[items[i].product] < items[i].quantity { return false; }
      }
      ok := true;
    }

    /** The loop of `createOrder` that writes the items, takes the stock and adds up the total. */
    method WriteItems(items: seq<Item>, faultAt: nat) returns (ok: bool, stored: seq<OrderItem>, total: real)
      requires Available(View(), items)
      modifies this`stock
      ensures ok <==> faultAt >= |items|
      ensures ok ==> stored == Priced(items, price) && total == Cost(stored) && stock == Move(old(stock), stored, 1)
    {
      stored, total := [], 0.0;
      MoveNothing(stock, 1);
      hide Move, Cost;
      assert Cost([]) == 0.0 by { CostNothing(); }
      for i := 0 to |items|
        invariant i <= faultAt && stored == Priced(items[..i], price)
        invariant total == Cost(stored) && stock == Move(old(stock), stored, 1)
      {
        if i == faultAt { return false, stored, total; }
        var it := OrderItem(items[i].product, items[i].quantity, price[items[i].product]);
        CostMore(stored, it);
        MoveMore(old(stock), stored, it, 1);
        MoveKeys(old(stock), stored, 1);
        assert Priced(items[..i + 1], price) == Priced(items[..i], price) + [it];
        total := total + it.unitPrice * (it.quantity as real);
        stored := stored + [it];
        UpdateStock(it.product, -it.quantity);
      }
      assert items[..|items|] == items;
      ok := true;
    }

    /** `createOrder`; the transaction fails at item `faultAt`, or at its commit when that is their number. */
    method CreateOrder(customer: nat, items: seq<Item>, faultAt: nat) returns (reply: Reply)
      modifies this`stock, this`orders
      ensures (View(), reply) == Create(old(View()), customer, items, faultAt <= |items|)
    {
      hide Priced, Move, Cost;
      var available := Check(items);
      if !available { return ServerError; }
      var (stock0, orders0) := (stock, orders);
      orders := orders + [Order(customer, [], 0.0, Pending, false)];
      var ok, stored, total := WriteItems(items, faultAt);
      if !ok || faultAt == |items| {
        stock, orders := stock0, orders0;
        return ServerError;
      }
      var id := |orders| - 1;
      orders := orders[id := orders[id].(items := stored, total := total)];
      assert orders == orders0 + [Order(customer, stored, total, Pending, false)];
      reply := Placed(id);
    }

    /** `softDeleteOrder`. */
    method SoftDeleteOrder(id: nat, faultAt: nat) returns (reply: Reply)
      modifies this`stock, this`orders
      ensures id < |old(orders)| ==> (View(), reply) == SoftDelete(old(View()), id, faultAt <= |old(orders)[id].items|)
      ensures id >= |old(orders)| ==> (View(), reply) == SoftDelete(old(View()), id, false)
    {
      hide Move;
      if id >= |orders| || orders[id].deleted { return NotFound; }
      if orders[id].status == Delivered { return BadRequest; }
      var (stock0, orders0, items) := (stock, orders, orders[id].items);
      var ok := MoveStock(items, -1, faultAt);
      orders := orders[id := orders[id].(status := Cancelled)];
      orders := orders[id := orders[id].(deleted := true)];
      assert orders == orders0[id := orders0[id].(status := Cancelled, deleted := true)];
      if !ok || faultAt == |items| {
        stock, orders := stock0, orders0;
        return ServerError;
      }
      reply := Removed;
    }

    /** `patchOrderStatus`. */
    method PatchOrderStatus(id: nat, status: Status) returns (reply: Reply)
      modifies this`orders
      ensures (View(), reply) == PatchStatus(old(View()), id, status)
    {
      if id >= |orders| || orders[id].deleted { return NotFound; }
      if orders[id].status == Delivered { return BadRequest; }
      orders := orders[id := orders[id].(status := status)];
      reply := Updated;
    }

    /** `restoreOrder`. */
    method RestoreOrder(id: nat, faultAt: nat) returns (reply: Reply)
      modifies this`stock, this`orders
      ensures id < |old(orders)| ==> (View(), reply) == Restore(old(View()), id, faultAt <= |old(orders)[id].items|)
      ensures id >= |old(orders)| ==> (View(), reply) == Restore(old(View()), id, false)
    {
      hide Move;
      if id >= |orders| { return NotFound; }
      if !orders[id].deleted { return BadRequest; }
      var (stock0, orders0, items) := (stock, orders, orders[id].items);
      orders := orders[id := orders[id].(deleted := false)];
      orders := orders[id := orders[id].(status := Pending)];
      assert orders == orders0[id := orders0[id].(status := Pending, deleted := false)];
      var ok := MoveStock(items, 1, faultAt);
      if !ok || faultAt == |items| {
        stock, orders := stock0, orders0;
        return ServerError;
      }
      reply := Restored;
    }
  }

  lemma CostNothing()
    ensures Cost([]) == 0.0
  {
  }

  lemma MoveKeys(stock: map<ProductId, int>, items: seq<OrderItem>, sign: int)
    ensures Move(stock, items, sign).Keys == stock.Keys
  {
  }
}
