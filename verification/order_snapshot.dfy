/** The basket-to-order snapshot script: it picks the first superuser, the
    first art with an available variant and that art's first available
    variant, makes sure the superuser's basket has a line, creates an order
    for the basket subtotal, freezes every basket line into an order line and
    empties the basket. */
module OrderSnapshot {
  import opened Values
  import opened Records
  import opened Text

  datatype User = User(pk: int, isSuperuser: bool, email: string, fullName: string, username: string)

  datatype Basket = Basket(pk: int, user: int)

  /** What `bi.display_artwork` shows of a line: a title, the artist's name
      when there is an artist, and a medium. */
  datatype Display = Display(title: string, artistName: Option<string>, medium: Option<string>)

  /** A basket line with its related rows resolved: `variant` is the row
      `bi.variant` refers to, `display` is `bi.display_artwork`. */
  datatype Line = Line(
    pk: int,
    basket: int,
    art: Option<int>,
    variant: Option<Variant>,
    quantity: nat,
    priceAtAddition: Option<nat>,
    display: Option<Display>)

  datatype Order = Order(
    pk: int,
    user: int,
    totalAmount: nat,
    paymentMethod: string,
    stripePaymentIntent: string,
    email: string,
    fullName: string,
    addressLine1: string,
    city: string,
    postalCode: string,
    country: string)

  datatype Shop = Shop(
    users: seq<User>,
    arts: seq<Art>,
    variants: seq<Variant>,
    baskets: seq<Basket>,
    lines: seq<Line>,
    orders: seq<Order>,
    orderItems: seq<OrderItem>)

  /** The three `SystemExit(1)` aborts, and a database error the script
      does not catch. */
  datatype Abort = NoSuperuser | NoArtWithAvailableVariant | NoAvailableVariant | Raised(error: DbError)

  // ---------------------------------------------------------------------
  // Lookups

  /** `User.objects.filter(is_superuser=True).first()`. */
  function FirstSuperuser(users: seq<User>): (r: Option<User>)
    ensures r.None? <==> forall i :: 0 <= i < |users| ==> !users[i].isSuperuser
    ensures r.Some? ==> r.value in users && r.value.isSuperuser
    ensures r.Some? ==> exists i :: 0 <= i < |users| && users[i] == r.value &&
                                 forall j :: 0 <= j < i ==> !users[j].isSuperuser
    decreases |users|
  {
    if |users| == 0 then None
    else if users[0].isSuperuser then Some(users[0])
    else FirstSuperuser(users[1..])
  }

  predicate IsAvailableVariantOf(v: Variant, art: int) {
    v.art == art && v.isAvailable
  }

  predicate HasAvailableVariant(vs: seq<Variant>, art: int) {
    exists k :: 0 <= k < |vs| && IsAvailableVariantOf(vs[k], art)
  }

  /** `Art.objects.filter(variants__is_available=True).distinct().first()`. */
  function FirstArtOnSale(arts: seq<Art>, vs: seq<Variant>): (r: Option<Art>)
    ensures r.None? <==> forall i :: 0 <= i < |arts| ==> !HasAvailableVariant(vs, arts[i].pk)
    ensures r.Some? ==> r.value in arts && HasAvailableVariant(vs, r.value.pk)
    ensures r.Some? ==> exists i :: 0 <= i < |arts| && arts[i] == r.value &&
                                 forall j :: 0 <= j < i ==> !HasAvailableVariant(vs, arts[j].pk)
    decreases |arts|
  {
    if |arts| == 0 then None
    else if HasAvailableVariant(vs, arts[0].pk) then Some(arts[0])
    else FirstArtOnSale(arts[1..], vs)
  }

  /** `ArtVariant.objects.filter(art=art, is_available=True).first()`. */
  function FirstAvailableVariant(vs: seq<Variant>, art: int): (r: Option<Variant>)
    ensures r.None? <==> !HasAvailableVariant(vs, art)
    ensures r.Some? ==> r.value in vs && IsAvailableVariantOf(r.value, art)
    ensures r.Some? ==> exists i :: 0 <= i < |vs| && vs[i] == r.value &&
                                 forall j :: 0 <= j < i ==> !IsAvailableVariantOf(vs[j], art)
    decreases |vs|
  {
    if |vs| == 0 then None
    else if IsAvailableVariantOf(vs[0], art) then Some(vs[0])
    else
      assert forall k :: 1 <= k < |vs| ==> vs[k] == vs[1..][k - 1];
      FirstAvailableVariant(vs[1..], art)
  }

  // ---------------------------------------------------------------------
  // The basket

  function BasketPks(bs: seq<Basket>): (r: seq<int>)
    ensures |r| == |bs| && forall i :: 0 <= i < |bs| ==> r[i] == bs[i].pk
  {
    seq(|bs|, i requires 0 <= i < |bs| => bs[i].pk)
  }

  function LinePks(ls: seq<Line>): (r: seq<int>)
    ensures |r| == |ls| && forall i :: 0 <= i < |ls| ==> r[i] == ls[i].pk
  {
    seq(|ls|, i requires 0 <= i < |ls| => ls[i].pk)
  }

  function OrderPks(os: seq<Order>): (r: seq<int>)
    ensures |r| == |os| && forall i :: 0 <= i < |os| ==> r[i] == os[i].pk
  {
    seq(|os|, i requires 0 <= i < |os| => os[i].pk)
  }

  function OrderItemPks(os: seq<OrderItem>): (r: seq<int>)
    ensures |r| == |os| && forall i :: 0 <= i < |os| ==> r[i] == os[i].pk
  {
    seq(|os|, i requires 0 <= i < |os| => os[i].pk)
  }

  datatype BasketStep = BasketStep(baskets: seq<Basket>, basket: Basket, created: bool)

  /** The position of the user's basket, if any. */
  function BasketIndex(bs: seq<Basket>, user: int): (r: Option<nat>)
    ensures r.None? <==> forall i :: 0 <= i < |bs| ==> bs[i].user != user
    ensures r.Some? ==> r.value < |bs| && bs[r.value].user == user
    decreases |bs|
  {
    if |bs| == 0 then None
    else if bs[|bs| - 1].user == user then Some(|bs| - 1)
    else BasketIndex(bs[..|bs| - 1], user)
  }

  /** The user has more than one basket. */
  predicate TwoBaskets(bs: seq<Basket>, user: int) {
    exists i, j :: 0 <= i < j < |bs| && bs[i].user == user && bs[j].user == user
  }

  /** `Basket.objects.get_or_create(user=u)`: the user's one basket, a new
      one when there is none, and `MultipleObjectsReturned` when there are
      several. */
  function GetOrCreateBasket(bs: seq<Basket>, user: int): (r: Result<BasketStep, DbError>)
    ensures r.Failure? <==> TwoBaskets(bs, user)
    ensures r.Success? ==> r.value.basket.user == user && r.value.basket in r.value.baskets
    ensures r.Success? ==> (!r.value.created <==> exists i :: 0 <= i < |bs| && bs[i].user == user)
    ensures r.Success? && !r.value.created ==>
      r.value.baskets == bs && forall i :: 0 <= i < |bs| && bs[i].user == user ==> bs[i] == r.value.basket
    ensures r.Success? && r.value.created ==>
      r.value.baskets == bs + [r.value.basket] && forall i :: 0 <= i < |bs| ==> bs[i].pk < r.value.basket.pk
  {
    if TwoBaskets(bs, user) then Failure(MultipleObjectsReturned)
    else
      match BasketIndex(bs, user)
      case Some(i) =>
        assert forall j :: 0 <= j < |bs| && bs[j].user == user ==> j == i;
        Success(BasketStep(bs, bs[i], false))
      case None =>
        var b := Basket(NextPk(BasketPks(bs)), user);
        Success(BasketStep(bs + [b], b, true))
  }

  /** `b.items.all()`: the basket's lines in table order. */
  function ItemsOf(ls: seq<Line>, basket: int): (r: seq<Line>)
    ensures |r| <= |ls|
    decreases |ls|
  {
    if |ls| == 0 then []
    else (if ls[0].basket == basket then [ls[0]] else []) + ItemsOf(ls[1..], basket)
  }

  /** `b.clear()`: the lines of the basket are deleted, the others kept in
      order. */
  function Clear(ls: seq<Line>, basket: int): (r: seq<Line>)
    ensures |r| <= |ls|
    decreases |ls|
  {
    if |ls| == 0 then []
    else (if ls[0].basket != basket then [ls[0]] else []) + Clear(ls[1..], basket)
  }

  /** The basket's lines are exactly the lines of the table with that
      basket. */
  lemma {:induction false} ItemsOfMembers(ls: seq<Line>, basket: int)
    ensures forall l :: l in ItemsOf(ls, basket) <==> l in ls && l.basket == basket
    decreases |ls|
  {
    if |ls| > 0 {
      ItemsOfMembers(ls[1..], basket);
      assert forall l :: l in ls <==> l == ls[0] || l in ls[1..];
    }
  }

  /** The cleared table keeps exactly the lines of other baskets. */
  lemma {:induction false} ClearMembers(ls: seq<Line>, basket: int)
    ensures forall l :: l in Clear(ls, basket) <==> l in ls && l.basket != basket
    decreases |ls|
  {
    if |ls| > 0 {
      ClearMembers(ls[1..], basket);
      assert forall l :: l in ls <==> l == ls[0] || l in ls[1..];
    }
  }

  lemma {:induction false} ItemsOfAppend(ls: seq<Line>, l: Line, basket: int)
    ensures ItemsOf(ls + [l], basket) == ItemsOf(ls, basket) + (if l.basket == basket then [l] else [])
    decreases |ls|
  {
    var tail := if l.basket == basket then [l] else [];
    if |ls| == 0 {
      assert ls + [l] == [l] && [l][1..] == [];
      assert ItemsOf([l], basket) == tail + ItemsOf([], basket);
    } else {
      var h := if ls[0].basket == basket then [ls[0]] else [];
      assert (ls + [l])[0] == ls[0];
      assert (ls + [l])[1..] == ls[1..] + [l];
      assert ItemsOf(ls + [l], basket) == h + ItemsOf(ls[1..] + [l], basket);
      ItemsOfAppend(ls[1..], l, basket);
      assert h + (ItemsOf(ls[1..], basket) + tail) == (h + ItemsOf(ls[1..], basket)) + tail;
    }
  }

  /** The line created for an empty basket: quantity 1, the chosen art and
      variant. The script passes no price; `snapshot` is whatever the
      model's `save()` stores as `price_at_addition`, which this model does
      not see. */
  function NewLine(pk: int, basket: int, art: Art, v: Variant, display: Option<Display>, snapshot: Option<nat>): Line {
    Line(pk, basket, Some(art.pk), Some(v), 1, snapshot, display)
  }

  /** An empty basket gets one line, a non-empty one is left alone. */
  function EnsureLine(ls: seq<Line>, basket: int, art: Art, v: Variant, display: Option<Display>, snapshot: Option<nat>): (r: seq<Line>)
    ensures ItemsOf(ls, basket) != [] ==> r == ls
    ensures ItemsOf(ls, basket) == [] ==>
      |r| == |ls| + 1 && r[..|ls|] == ls && ItemsOf(r, basket) == [NewLine(NextPk(LinePks(ls)), basket, art, v, display, snapshot)]
  {
    if ItemsOf(ls, basket) != [] then ls
    else
      var l := NewLine(NextPk(LinePks(ls)), basket, art, v, display, snapshot);
      ItemsOfAppend(ls, l, basket);
      assert (ls + [l])[..|ls|] == ls;
      ls + [l]
  }

  // ---------------------------------------------------------------------
  // Totals

  /** A line's contribution: the snapshot price (0 when missing) times the
      quantity. */
  function LineTotal(l: Line): nat {
    l.priceAtAddition.GetOr(0) * l.quantity
  }

  /** `b.get_total_price()`. */
  function Subtotal(ls: seq<Line>): nat
    decreases |ls|
  {
    if |ls| == 0 then 0 else LineTotal(ls[0]) + Subtotal(ls[1..])
  }

  /** The value of an order line. */
  function ItemTotal(oi: OrderItem): nat {
    oi.price.GetOr(0) * oi.quantity
  }

  function ItemsTotal(ois: seq<OrderItem>): nat
    decreases |ois|
  {
    if |ois| == 0 then 0 else ItemTotal(ois[0]) + ItemsTotal(ois[1..])
  }

  // ---------------------------------------------------------------------
  // Freezing

  /** `str(bi.price_at_addition)`: a two-place Decimal, or `None`. */
  function PriceText(p: Option<nat>): string {
    match p
    case Some(h) => Decimal2(h)
    case None => "None"
  }

  /** The frozen title, artist and medium of a line. */
  function FrozenTitle(l: Line): string {
    if l.display.Some? then l.display.value.title else PriceText(l.priceAtAddition)
  }

  function FrozenArtist(l: Line): string {
    if l.display.Some? && l.display.value.artistName.Some? then l.display.value.artistName.value else ""
  }

  function FrozenMedium(l: Line): string {
    if l.display.Some? then TextOr(l.display.value.medium, "") else ""
  }

  /** `oi` is the order line the script writes for `l`. */
  predicate Freezes(oi: OrderItem, order: int, l: Line) {
    && oi.order == order
    && oi.art == l.art && oi.artwork.None?
    && oi.title == FrozenTitle(l) && oi.artist == FrozenArtist(l) && oi.medium == FrozenMedium(l)
    && oi.quantity == l.quantity && oi.price == l.priceAtAddition
    && oi.variantId == (if l.variant.Some? then Some(l.variant.value.pk) else None)
    && oi.variantMedium == (if l.variant.Some? then MediumLabel(l.variant.value.medium) else "")
  }

  function FreezeLine(pk: int, order: int, l: Line): (oi: OrderItem)
    ensures oi.pk == pk && Freezes(oi, order, l)
  {
    OrderItem(pk, order, l.art, None, FrozenTitle(l), FrozenArtist(l), FrozenMedium(l), l.quantity,
      l.priceAtAddition, if l.variant.Some? then Some(l.variant.value.pk) else None,
      if l.variant.Some? then MediumLabel(l.variant.value.medium) else "")
  }

  /** The lines the freezing loop appends to the order-line table: one per
      basket line, in basket order. Each `create` takes the next key, so the
      keys count up from the first free one, `base`. */
  function FreezeLines(base: int, order: int, ls: seq<Line>): (added: seq<OrderItem>)
    ensures |added| == |ls|
    ensures forall i :: 0 <= i < |ls| ==> Freezes(added[i], order, ls[i]) && added[i].pk == base + i
  {
    seq(|ls|, i requires 0 <= i < |ls| => FreezeLine(base + i, order, ls[i]))
  }

  /** Frozen lines keep the value of the basket lines they copy. */
  lemma {:induction false} FrozenTotal(ois: seq<OrderItem>, order: int, ls: seq<Line>)
    requires |ois| == |ls|
    requires forall i :: 0 <= i < |ls| ==> Freezes(ois[i], order, ls[i])
    ensures ItemsTotal(ois) == Subtotal(ls)
    decreases |ls|
  {
    if |ls| > 0 {
      assert Freezes(ois[0], order, ls[0]);
      assert forall i :: 0 <= i < |ls| - 1 ==> ois[1..][i] == ois[i + 1] && ls[1..][i] == ls[i + 1];
      FrozenTotal(ois[1..], order, ls[1..]);
    }
  }

  // ---------------------------------------------------------------------
  // The script

  /** What a completed run leaves behind. */
  datatype Snapshot = Snapshot(shop: Shop, basket: Basket, basketCreated: bool, lines: seq<Line>, order: Order)

  /** The order row: the basket subtotal, the fixed test values, the user's
      e-mail or '' and full name or username. */
  function NewOrder(pk: int, u: User, total: nat): Order {
    Order(pk, u.pk, total, "admin-test", "TEST", u.email,
      if u.fullName != "" then u.fullName else u.username,
      "Test Address", "Nowhere", "00000", "US")
  }

  /** The script after the three lookups and the basket `get_or_create`,
      for the superuser `u`, its basket step `bs`, the art `art` and its
      variant `v`. `display` is what `display_artwork` shows and `snapshot`
      the `price_at_addition` stored for a line the script creates. */
  function Proceed(shop: Shop, u: User, bs: BasketStep, art: Art, v: Variant, display: Option<Display>, snapshot: Option<nat>): Snapshot {
    var ls := EnsureLine(shop.lines, bs.basket.pk, art, v, display, snapshot);
    var items := ItemsOf(ls, bs.basket.pk);
    var order := NewOrder(NextPk(OrderPks(shop.orders)), u, Subtotal(items));
    var added := FreezeLines(NextPk(OrderItemPks(shop.orderItems)), order.pk, items);
    Snapshot(
      shop.(baskets := bs.baskets, lines := Clear(ls, bs.basket.pk), orders := shop.orders + [order],
            orderItems := shop.orderItems + added),
      bs.basket, bs.created, items, order)
  }

  /** The whole script. */
  function Run(shop: Shop, display: Option<Display>, snapshot: Option<nat>): Result<Snapshot, Abort> {
    match FirstSuperuser(shop.users)
    case None => Failure(NoSuperuser)
    case Some(u) =>
      match FirstArtOnSale(shop.arts, shop.variants)
      case None => Failure(NoArtWithAvailableVariant)
      case Some(art) =>
        match FirstAvailableVariant(shop.variants, art.pk)
        case None => Failure(NoAvailableVariant)
        case Some(v) =>
          match GetOrCreateBasket(shop.baskets, u.pk)
          case Failure(e) => Failure(Raised(e))
          case Success(bs) => Success(Proceed(shop, u, bs, art, v, display, snapshot))
  }

  /** A successful run is `Proceed` on the first superuser, its basket,
      the first art on sale and its first available variant. */
  lemma RunProceeds(shop: Shop, display: Option<Display>, snapshot: Option<nat>) returns (u: User, bs: BasketStep, art: Art, v: Variant)
    requires Run(shop, display, snapshot).Success?
    ensures FirstSuperuser(shop.users) == Some(u)
    ensures GetOrCreateBasket(shop.baskets, u.pk) == Success(bs)
    ensures FirstArtOnSale(shop.arts, shop.variants) == Some(art)
    ensures v.isAvailable && v.art == art.pk
    ensures Run(shop, display, snapshot) == Success(Proceed(shop, u, bs, art, v, display, snapshot))
  {
    u := FirstSuperuser(shop.users).value;
    art := FirstArtOnSale(shop.arts, shop.variants).value;
    v := FirstAvailableVariant(shop.variants, art.pk).value;
    bs := GetOrCreateBasket(shop.baskets, u.pk).value;
  }

  /** The script aborts exactly when there is no superuser or no art with an
      available variant; the third abort cannot happen, since the chosen art
      has an available variant. Past the lookups it fails exactly when the
      superuser has several baskets. */
  lemma AbortCases(shop: Shop, display: Option<Display>, snapshot: Option<nat>)
    ensures Run(shop, display, snapshot) == Failure(NoSuperuser) <==> FirstSuperuser(shop.users).None?
    ensures Run(shop, display, snapshot) == Failure(NoArtWithAvailableVariant) <==>
      FirstSuperuser(shop.users).Some? && forall i :: 0 <= i < |shop.arts| ==> !HasAvailableVariant(shop.variants, shop.arts[i].pk)
    ensures Run(shop, display, snapshot) != Failure(NoAvailableVariant)
    ensures Run(shop, display, snapshot) == Failure(Raised(MultipleObjectsReturned)) <==>
      && FirstSuperuser(shop.users).Some?
      && (exists i :: 0 <= i < |shop.arts| && HasAvailableVariant(shop.variants, shop.arts[i].pk))
      && TwoBaskets(shop.baskets, FirstSuperuser(shop.users).value.pk)
  {
  }

  /** The basket the order is made from is the superuser's, and it holds
      at least one line: the new line when it was empty, else its own
      lines unchanged. */
  lemma BasketHasALine(shop: Shop, display: Option<Display>, snapshot: Option<nat>)
    requires Run(shop, display, snapshot).Success?
    ensures var s := Run(shop, display, snapshot).value;
      && s.lines != []
      && s.basket.user == FirstSuperuser(shop.users).value.pk
      && (ItemsOf(shop.lines, s.basket.pk) != [] ==> s.lines == ItemsOf(shop.lines, s.basket.pk))
      && (ItemsOf(shop.lines, s.basket.pk) == [] ==>
            |s.lines| == 1 && s.lines[0].quantity == 1 && s.lines[0].variant.Some?
            && s.lines[0].variant.value.isAvailable && s.lines[0].priceAtAddition == snapshot)
  {
    var u, bs, art, v := RunProceeds(shop, display, snapshot);
    var ls := EnsureLine(shop.lines, bs.basket.pk, art, v, display, snapshot);
    var s := Proceed(shop, u, bs, art, v, display, snapshot);
    assert s.basket == bs.basket && s.lines == ItemsOf(ls, bs.basket.pk);
  }

  /** The order is appended, addressed to the superuser, and totals the
      basket subtotal taken before any order line exists; its frozen lines,
      one per basket line, add up to the same total. */
  lemma OrderMatchesBasket(shop: Shop, display: Option<Display>, snapshot: Option<nat>)
    requires Run(shop, display, snapshot).Success?
    ensures var s := Run(shop, display, snapshot).value;
      && s.shop.orders == shop.orders + [s.order]
      && (forall i :: 0 <= i < |shop.orders| ==> shop.orders[i].pk < s.order.pk)
      && s.order.user == FirstSuperuser(shop.users).value.pk
      && s.order.totalAmount == Subtotal(s.lines)
      && |s.shop.orderItems| == |shop.orderItems| + |s.lines|
      && s.shop.orderItems[..|shop.orderItems|] == shop.orderItems
      && ItemsTotal(s.shop.orderItems[|shop.orderItems|..]) == s.order.totalAmount
  {
    var u, bs, art, v := RunProceeds(shop, display, snapshot);
    var s := Proceed(shop, u, bs, art, v, display, snapshot);
    var added := FreezeLines(NextPk(OrderItemPks(shop.orderItems)), s.order.pk, s.lines);
    assert s.shop.orderItems == shop.orderItems + added;
    assert s.shop.orderItems[|shop.orderItems|..] == added;
    assert s.shop.orderItems[..|shop.orderItems|] == shop.orderItems;
    FrozenTotal(added, s.order.pk, s.lines);
  }

  /** Order line `i` of the run freezes basket line `i`. */
  lemma OrderLinesFreezeBasket(shop: Shop, display: Option<Display>, snapshot: Option<nat>, s: Snapshot, i: int)
    requires Run(shop, display, snapshot) == Success(s)
    requires 0 <= i < |s.lines|
    ensures |shop.orderItems| + i < |s.shop.orderItems|
    ensures Freezes(s.shop.orderItems[|shop.orderItems| + i], s.order.pk, s.lines[i])
  {
    var u, bs, art, v := RunProceeds(shop, display, snapshot);
    var p := Proceed(shop, u, bs, art, v, display, snapshot);
    assert p == s;
    var added := FreezeLines(NextPk(OrderItemPks(shop.orderItems)), s.order.pk, s.lines);
    assert s.shop.orderItems == shop.orderItems + added;
    AppendedFreezes(shop.orderItems, NextPk(OrderItemPks(shop.orderItems)), s.order.pk, s.lines, i);
  }

  lemma AppendedFreezes(table: seq<OrderItem>, base: int, order: int, ls: seq<Line>, i: int)
    requires 0 <= i < |ls|
    ensures |table| + i < |table + FreezeLines(base, order, ls)|
    ensures Freezes((table + FreezeLines(base, order, ls))[|table| + i], order, ls[i])
  {
    var added := FreezeLines(base, order, ls);
    assert (table + added)[|table| + i] == added[i];
  }

  /** A frozen line copies quantity, price and variant; with nothing to
      display, the title falls back to the price text and the artist and
      medium to ''. */
  lemma FreezeFallbacks(oi: OrderItem, order: int, l: Line)
    requires Freezes(oi, order, l)
    ensures oi.quantity == l.quantity && oi.price == l.priceAtAddition
    ensures l.variant.None? ==> oi.variantId.None? && oi.variantMedium == ""
    ensures l.variant.Some? ==> oi.variantId == Some(l.variant.value.pk) && oi.variantMedium == MediumLabel(l.variant.value.medium)
    ensures l.display.None? ==> oi.title == PriceText(l.priceAtAddition) && oi.artist == "" && oi.medium == ""
    ensures l.display.None? && l.priceAtAddition.None? ==> oi.title == "None"
  {
  }

  /** A table without lines of the basket gives it no items. */
  lemma {:induction false} NoItemsOf(ls: seq<Line>, basket: int)
    requires forall i :: 0 <= i < |ls| ==> ls[i].basket != basket
    ensures ItemsOf(ls, basket) == []
    decreases |ls|
  {
    if |ls| > 0 {
      NoItemsOf(ls[1..], basket);
    }
  }

  /** `b.clear()` leaves the basket with no line. */
  lemma ClearEmpties(ls: seq<Line>, basket: int)
    ensures ItemsOf(Clear(ls, basket), basket) == []
  {
    ClearMembers(ls, basket);
    var r := Clear(ls, basket);
    assert forall i :: 0 <= i < |r| ==> r[i] in r;
    NoItemsOf(r, basket);
  }

  /** At the end the basket is empty, every other basket keeps its lines,
      and the catalogue is untouched. */
  lemma BasketEmptiedAfterward(shop: Shop, display: Option<Display>, snapshot: Option<nat>)
    requires Run(shop, display, snapshot).Success?
    ensures var s := Run(shop, display, snapshot).value;
      && ItemsOf(s.shop.lines, s.basket.pk) == []
      && (forall l :: l in shop.lines && l.basket != s.basket.pk ==> l in s.shop.lines)
      && s.shop.arts == shop.arts && s.shop.variants == shop.variants && s.shop.users == shop.users
  {
    var u, bs, art, v := RunProceeds(shop, display, snapshot);
    ProceedEmptiesBasket(shop, u, bs, art, v, display, snapshot);
  }

  lemma ProceedEmptiesBasket(shop: Shop, u: User, bs: BasketStep, art: Art, v: Variant, display: Option<Display>, snapshot: Option<nat>)
    ensures var s := Proceed(shop, u, bs, art, v, display, snapshot);
      && ItemsOf(s.shop.lines, s.basket.pk) == []
      && (forall l :: l in shop.lines && l.basket != s.basket.pk ==> l in s.shop.lines)
      && s.shop.arts == shop.arts && s.shop.variants == shop.variants && s.shop.users == shop.users
  {
    var ls := EnsureLine(shop.lines, bs.basket.pk, art, v, display, snapshot);
    assert Proceed(shop, u, bs, art, v, display, snapshot).shop.lines == Clear(ls, bs.basket.pk);
    ClearEmpties(ls, bs.basket.pk);
    ClearMembers(ls, bs.basket.pk);
    assert |shop.lines| <= |ls| && ls[..|shop.lines|] == shop.lines;
    forall l | l in shop.lines ensures l in ls {
      var k :| 0 <= k < |shop.lines| && shop.lines[k] == l;
      assert ls[k] == ls[..|shop.lines|][k];
    }
  }
}
