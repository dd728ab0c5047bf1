/** Data migration 0010 (the last of the three definitions in the file, the
    one Django runs): before the variant column becomes required, every
    basket item without a variant is given one. The preferred variant is an
    available original of the item's art, then any available variant of it,
    then any variant of it, then a global fallback: the first variant in the
    table or, when there is none, an original created on the first art. A
    missing price snapshot is filled from the chosen variant. */
module VariantRequired {
  import opened Values
  import opened Records

  /** The three `.first()` queries, in the order they are tried. */
  datatype Preference = AvailableOriginal | AnyAvailable | AnyVariant

  predicate Satisfies(v: Variant, p: Preference) {
    match p
    case AvailableOriginal => v.medium == Original && v.isAvailable
    case AnyAvailable => v.isAvailable
    case AnyVariant => true
  }

  /** `vs[i]` is the first row meeting `p`. */
  predicate FirstAt(vs: seq<Variant>, i: int, p: Preference) {
    0 <= i < |vs| && Satisfies(vs[i], p) && forall j :: 0 <= j < i ==> !Satisfies(vs[j], p)
  }

  /** `.filter(…).first()`: the first row in key order meeting `p`. */
  function FirstWhere(vs: seq<Variant>, p: Preference): (r: Option<Variant>)
    ensures r.None? <==> forall i :: 0 <= i < |vs| ==> !Satisfies(vs[i], p)
    ensures r.Some? ==> exists i :: FirstAt(vs, i, p) && vs[i] == r.value
    decreases |vs|
  {
    if |vs| == 0 then None
    else if Satisfies(vs[0], p) then
      assert FirstAt(vs, 0, p);
      Some(vs[0])
    else
      var r := FirstWhere(vs[1..], p);
      assert forall i :: 1 <= i < |vs| ==> vs[i] == vs[1..][i - 1];
      if r.Some? then
        var i :| FirstAt(vs[1..], i, p) && vs[1..][i] == r.value;
        assert FirstAt(vs, i + 1, p);
        r
      else r
  }

  /** The preference chain over the variants of one art. */
  function Choose(vs: seq<Variant>): (r: Option<Variant>)
    ensures r.None? <==> |vs| == 0
    ensures r.Some? ==> r.value in vs
  {
    if |vs| > 0 then assert Satisfies(vs[0], AnyVariant); ChooseChain(vs) else ChooseChain(vs)
  }

  function ChooseChain(vs: seq<Variant>): Option<Variant> {
    match FirstWhere(vs, AvailableOriginal)
    case Some(v) => Some(v)
    case None =>
      match FirstWhere(vs, AnyAvailable)
      case Some(v) => Some(v)
      case None => FirstWhere(vs, AnyVariant)
  }

  /** An independent reading of the preference: lower is better. */
  function Rank(v: Variant): nat {
    if v.medium == Original && v.isAvailable then 0
    else if v.isAvailable then 1
    else 2
  }

  /** `vs[k]` has the best rank of all, and every earlier row a worse one. */
  predicate EarliestBest(vs: seq<Variant>, k: int) {
    && 0 <= k < |vs|
    && (forall j :: 0 <= j < |vs| ==> Rank(vs[k]) <= Rank(vs[j]))
    && (forall j :: 0 <= j < k ==> Rank(vs[j]) > Rank(vs[k]))
  }

  /** The chain picks the earliest variant of best rank. */
  lemma ChooseIsEarliestBest(vs: seq<Variant>)
    requires |vs| > 0
    ensures exists k :: EarliestBest(vs, k) && vs[k] == Choose(vs).value
  {
    var o := FirstWhere(vs, AvailableOriginal);
    var a := FirstWhere(vs, AnyAvailable);
    if o.Some? {
      var i :| FirstAt(vs, i, AvailableOriginal) && vs[i] == o.value;
      assert EarliestBest(vs, i);
    } else if a.Some? {
      var i :| FirstAt(vs, i, AnyAvailable) && vs[i] == a.value;
      assert forall j :: 0 <= j < |vs| ==> !Satisfies(vs[j], AvailableOriginal);
      assert EarliestBest(vs, i);
    } else {
      assert forall j :: 0 <= j < |vs| ==> !Satisfies(vs[j], AnyAvailable);
      assert FirstAt(vs, 0, AnyVariant);
      assert EarliestBest(vs, 0);
    }
  }

  /** The variant table after the fallback step, and the fallback itself. */
  datatype FallbackStep = FallbackStep(variants: seq<Variant>, fallback: Option<Variant>)

  /** `ArtVariant.objects.first()`, or an original created on the first art
      with its availability, `price or 0` and `currency or 'USD'`. */
  function Fallback(arts: seq<Art>, vs: seq<Variant>): (r: FallbackStep)
    ensures |vs| > 0 ==> r == FallbackStep(vs, Some(vs[0]))
    ensures |vs| == 0 && |arts| == 0 ==> r == FallbackStep(vs, None)
    ensures |vs| == 0 && |arts| > 0 ==>
      var a := arts[0];
      && r.fallback.Some?
      && r.variants == [r.fallback.value]
      && IsVariantOf(r.fallback.value, a.pk, Original)
      && r.fallback.value.isAvailable == a.isAvailable
      && r.fallback.value.price == Some(AmountOr(a.price, 0))
      && r.fallback.value.currency == Some(TextOr(a.currency, "USD"))
  {
    if |vs| > 0 then FallbackStep(vs, Some(vs[0]))
    else if |arts| == 0 then FallbackStep(vs, None)
    else
      var a := arts[0];
      var v := Variant(NextPk(VariantPks(vs)), a.pk, Original, a.isAvailable,
        Some(AmountOr(a.price, 0)), Some(TextOr(a.currency, "USD")));
      FallbackStep(vs + [v], Some(v))
  }

  /** `getattr(item, 'art', None)` followed by the price read: the item's art
      row, when it has one. */
  function ItemArt(arts: seq<Art>, item: BasketItem): Option<Art> {
    match item.art
    case None => None
    case Some(pk) => ArtByPk(arts, pk)
  }

  /** The variant the loop picks for an item: the preference chain over its
      art's variants, else the fallback. */
  function Target(arts: seq<Art>, vs: seq<Variant>, fallback: Option<Variant>, item: BasketItem): Option<Variant> {
    var chosen := match ItemArt(arts, item)
      case None => None
      case Some(a) => Choose(VariantsOf(vs, a.pk));
    if chosen.Some? then chosen else fallback
  }

  /** `target.price or art_price or 0`. */
  function SnapshotPrice(target: Variant, art: Option<Art>): nat {
    var artPrice := match art case None => None case Some(a) => a.price;
    AmountOr(PyOr(target.price, artPrice), 0)
  }

  /** The loop body for one item: only items without a variant are touched;
      a truthy price snapshot is kept. */
  function BackfillItem(arts: seq<Art>, vs: seq<Variant>, fallback: Option<Variant>, item: BasketItem): (r: BasketItem)
    ensures item.variant.Some? ==> r == item
    ensures r.pk == item.pk && r.art == item.art && r.artwork == item.artwork && r.quantity == item.quantity
    ensures TruthyAmount(item.priceAtAddition) ==> r.priceAtAddition == item.priceAtAddition
  {
    if item.variant.Some? then item
    else
      match Target(arts, vs, fallback, item)
      case None => item
      case Some(t) =>
        var price := if TruthyAmount(item.priceAtAddition) then item.priceAtAddition
          else Some(SnapshotPrice(t, ItemArt(arts, item)));
        item.(variant := Some(t.pk), priceAtAddition := price)
  }

  datatype Tables = Tables(arts: seq<Art>, variants: seq<Variant>, items: seq<BasketItem>)

  /** `forwards`. The variant table changes only in the fallback step; the
      items are rewritten one by one against that table. */
  function Forwards(t: Tables): (r: Tables)
    ensures r.arts == t.arts
    ensures |r.items| == |t.items|
  {
    var step := Fallback(t.arts, t.variants);
    var items := seq(|t.items|, i requires 0 <= i < |t.items| =>
      BackfillItem(t.arts, step.variants, step.fallback, t.items[i]));
    Tables(t.arts, step.variants, items)
  }

  /** `backwards`: the legacy fields cannot be restored, so nothing happens. */
  function Backwards(t: Tables): (r: Tables)
    ensures r == t
  {
    t
  }

  /** Items that already had a variant come through unchanged, and the
      others keep their key, art, artwork and quantity. */
  lemma OnlyNullVariantsChange(t: Tables, i: int)
    requires 0 <= i < |t.items|
    ensures t.items[i].variant.Some? ==> Forwards(t).items[i] == t.items[i]
    ensures var r := Forwards(t).items[i];
      r.pk == t.items[i].pk && r.art == t.items[i].art && r.quantity == t.items[i].quantity
  {
  }

  /** When the item's art has variants, the chosen one is one of them, and
      it is the earliest of the best preference rank. */
  lemma ChosenBelongsToArt(t: Tables, i: int, a: Art)
    requires 0 <= i < |t.items|
    requires t.items[i].variant.None?
    requires ItemArt(t.arts, t.items[i]) == Some(a)
    requires |VariantsOf(Fallback(t.arts, t.variants).variants, a.pk)| > 0
    ensures var own := VariantsOf(Fallback(t.arts, t.variants).variants, a.pk);
      exists k :: EarliestBest(own, k) && own[k].art == a.pk && Forwards(t).items[i].variant == Some(own[k].pk)
  {
    var step := Fallback(t.arts, t.variants);
    var own := VariantsOf(step.variants, a.pk);
    ChooseIsEarliestBest(own);
    assert Target(t.arts, step.variants, step.fallback, t.items[i]) == Choose(own);
    assert Forwards(t).items[i] == BackfillItem(t.arts, step.variants, step.fallback, t.items[i]);
    var k :| EarliestBest(own, k) && own[k] == Choose(own).value;
    assert own[k] in own;
  }

  /** With at least one art or variant, no item is left without a variant,
      and every variant assigned is a row of the variant table. */
  lemma EveryItemGetsAVariant(t: Tables)
    requires |t.arts| > 0 || |t.variants| > 0
    ensures forall i :: 0 <= i < |t.items| ==> Forwards(t).items[i].variant.Some?
    ensures forall i :: 0 <= i < |t.items| && t.items[i].variant.None? ==>
      exists v :: v in Forwards(t).variants && Forwards(t).items[i].variant == Some(v.pk)
  {
    var step := Fallback(t.arts, t.variants);
    assert step.fallback.Some? && step.fallback.value in step.variants;
    forall i | 0 <= i < |t.items| && t.items[i].variant.None?
      ensures exists v :: v in Forwards(t).variants && Forwards(t).items[i].variant == Some(v.pk)
    {
      var target := Target(t.arts, step.variants, step.fallback, t.items[i]);
      assert target.Some? && target.value in step.variants;
      assert Forwards(t).items[i].variant == Some(target.value.pk);
    }
  }

  /** With no art and no variant there is nothing to assign: the tables are
      left as they were. */
  lemma EmptyCatalogueLeavesItems(t: Tables)
    requires |t.arts| == 0 && |t.variants| == 0
    ensures Forwards(t) == t
  {
    assert forall i :: 0 <= i < |t.items| ==> Forwards(t).items[i] == t.items[i];
  }

  /** The price snapshot of a filled-in item: a truthy snapshot is never
      overwritten, the item always ends with one, and it is truthy exactly
      when the item's own, the chosen variant's or the art's price was. */
  lemma SnapshotRule(t: Tables, i: int)
    requires 0 <= i < |t.items| && t.items[i].variant.None?
    ensures var step := Fallback(t.arts, t.variants);
      var item := t.items[i];
      var target := Target(t.arts, step.variants, step.fallback, item);
      var artPrice := match ItemArt(t.arts, item) case None => None case Some(a) => a.price;
      var r := Forwards(t).items[i];
      target.Some? ==>
        && r.variant == Some(target.value.pk)
        && r.priceAtAddition.Some?
        && (TruthyAmount(item.priceAtAddition) ==> r.priceAtAddition == item.priceAtAddition)
        && (TruthyAmount(r.priceAtAddition) <==>
              TruthyAmount(item.priceAtAddition) || TruthyAmount(target.value.price) || TruthyAmount(artPrice))
  {
  }

  /** Running the migration a second time changes nothing: every item it
      could give a variant already has one, and the variant table no longer
      needs a fallback row. */
  lemma ForwardsIdempotent(t: Tables)
    ensures Forwards(Forwards(t)) == Forwards(t)
  {
    var r := Forwards(t);
    var step := Fallback(t.arts, t.variants);
    var again := Fallback(r.arts, r.variants);
    assert again.variants == r.variants;
    assert again.fallback.None? ==> step.fallback.None?;
    forall i | 0 <= i < |r.items|
      ensures BackfillItem(r.arts, again.variants, again.fallback, r.items[i]) == r.items[i]
    {
      var item := t.items[i];
      if item.variant.None? {
        assert Target(t.arts, step.variants, step.fallback, item).None? ==>
          Target(r.arts, again.variants, again.fallback, r.items[i]).None?;
      }
    }
    assert Forwards(r).items == r.items;
  }

  /** The existing variant rows are kept; a row is added only to an empty
      variant table. */
  lemma VariantTableOnlyGrowsWhenEmpty(t: Tables)
    ensures |t.variants| > 0 ==> Forwards(t).variants == t.variants
    ensures |t.variants| == 0 ==> |Forwards(t).variants| <= 1
  {
  }
}
