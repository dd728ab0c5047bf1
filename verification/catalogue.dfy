/** The public catalogue: the `create_artwork_equivalent` fixture that builds
    an art with its variants, the size and price texts shown on artwork
    pages, and the filters of the artwork list and featured pages. The
    displays and filters are the behaviour the gallery's tests assert; the
    model states them as functions of an art row. */
module Catalogue {
  import opened Values
  import opened Records
  import opened Text

  /** One keyword argument of the fixture: not passed at all, or passed
      with a value that may be `None`. */
  datatype Kwarg<T> = Absent | Given(value: Option<T>)

  /** `kwargs.get(name, default)`. */
  function Get<T>(k: Kwarg<T>, default: Option<T>): Option<T> {
    match k
    case Absent => default
    case Given(v) => v
  }

  /** The argument was passed with a value other than `None`. */
  predicate Passed<T>(k: Kwarg<T>) {
    k.Given? && k.value.Some?
  }

  /** A value that is `None` is dropped from the create call, so the
      column's model default is stored instead. */
  function Kept<T>(v: Option<T>, modelDefault: Option<T>): Option<T> {
    if v.Some? then v else modelDefault
  }

  /** The keyword arguments the fixture reads. */
  datatype ArtKwargs = ArtKwargs(
    medium: Kwarg<string>,
    width: Kwarg<nat>,
    height: Kwarg<nat>,
    depth: Kwarg<nat>,
    yearCreated: Kwarg<int>,
    price: Kwarg<nat>,
    currency: Kwarg<string>,
    description: Kwarg<string>,
    isAvailable: Kwarg<bool>,
    isFeatured: Kwarg<bool>)

  /** The column defaults of the Art and ArtVariant models. */
  datatype ColumnDefaults = ColumnDefaults(
    medium: Option<string>,
    width: Option<nat>,
    height: Option<nat>,
    depth: Option<nat>,
    yearCreated: Option<int>,
    price: Option<nat>,
    currency: Option<string>,
    description: string,
    isAvailable: bool,
    isFeatured: bool,
    variant: VariantDefaults)

  /** The tables the fixture writes. */
  datatype Gallery = Gallery(collections: seq<Collection>, arts: seq<Art>, variants: seq<Variant>)

  /** The art row the fixture creates. Each column holds the passed value;
      a column passed as `None` holds the model default; a column not passed
      holds the fixture's own default (`''` for medium and description,
      `'USD'` for currency, `False` for the flags) or, for the dimensions,
      the year and the price, the model default. */
  function FixtureArt(pk: int, collection: int, title: string, kw: ArtKwargs, md: ColumnDefaults): (a: Art)
    ensures a.pk == pk && a.collection == collection && a.title == title
    ensures Passed(kw.price) ==> a.price == kw.price.value
    ensures !Passed(kw.price) ==> a.price == md.price
    ensures Passed(kw.width) ==> a.width == kw.width.value
    ensures !Passed(kw.width) ==> a.width == md.width
    ensures Passed(kw.height) ==> a.height == kw.height.value
    ensures !Passed(kw.height) ==> a.height == md.height
    ensures Passed(kw.depth) ==> a.depth == kw.depth.value
    ensures !Passed(kw.depth) ==> a.depth == md.depth
    ensures Passed(kw.yearCreated) ==> a.yearCreated == kw.yearCreated.value
    ensures !Passed(kw.yearCreated) ==> a.yearCreated == md.yearCreated
    ensures Passed(kw.medium) ==> a.medium == kw.medium.value
    ensures kw.medium == Absent ==> a.medium == Some("")
    ensures kw.medium == Given(None) ==> a.medium == md.medium
    ensures Passed(kw.currency) ==> a.currency == kw.currency.value
    ensures kw.currency == Absent ==> a.currency == Some("USD")
    ensures kw.currency == Given(None) ==> a.currency == md.currency
    ensures Passed(kw.description) ==> a.description == kw.description.value.value
    ensures !Passed(kw.description) ==> a.description == (if kw.description == Absent then "" else md.description)
    ensures Passed(kw.isAvailable) ==> a.isAvailable == kw.isAvailable.value.value
    ensures !Passed(kw.isAvailable) ==> a.isAvailable == (kw.isAvailable != Absent && md.isAvailable)
    ensures Passed(kw.isFeatured) ==> a.isFeatured == kw.isFeatured.value.value
    ensures !Passed(kw.isFeatured) ==> a.isFeatured == (kw.isFeatured != Absent && md.isFeatured)
    ensures a.artworkLink.None? && a.legacy == NoLegacy
  {
    Art(pk, collection, title,
      Kept(Get(kw.medium, Some("")), md.medium),
      Kept(Get(kw.width, None), md.width),
      Kept(Get(kw.height, None), md.height),
      Kept(Get(kw.depth, None), md.depth),
      Kept(Get(kw.yearCreated, None), md.yearCreated),
      Kept(Get(kw.price, None), md.price),
      Kept(Get(kw.currency, Some("USD")), md.currency),
      Kept(Get(kw.description, Some("")), Some(md.description)).value,
      Kept(Get(kw.isAvailable, Some(false)), Some(md.isAvailable)).value,
      Kept(Get(kw.isFeatured, Some(false)), Some(md.isFeatured)).value,
      None, NoLegacy)
  }

  /** For the nullable columns, passing `None` is the same as not passing
      the argument: both leave the model default. */
  lemma NoneIsOmittedForNullable(pk: int, collection: int, title: string, kw: ArtKwargs, md: ColumnDefaults)
    ensures FixtureArt(pk, collection, title,
              kw.(width := Given(None), height := Given(None), depth := Given(None), yearCreated := Given(None), price := Given(None)), md)
         == FixtureArt(pk, collection, title,
              kw.(width := Absent, height := Absent, depth := Absent, yearCreated := Absent, price := Absent), md)
  {
  }

  /** The fixture sells the original: `is_available` was passed truthy and a
      price other than `None` was passed (a zero price counts). */
  predicate WantsOriginal(kw: ArtKwargs) {
    kw.isAvailable == Given(Some(true)) && Passed(kw.price)
  }

  /** The variant rows the fixture adds for the art with key `art`: one
      available original at the passed price, or else a poster and a
      digital placeholder through `get_or_create`. */
  function FixtureVariants(vs: seq<Variant>, art: int, kw: ArtKwargs, vd: VariantDefaults): (r: Result<seq<Variant>, DbError>)
    ensures r.Success? ==> |vs| <= |r.value| && r.value[..|vs|] == vs
    ensures WantsOriginal(kw) ==>
      && r.Success? && |r.value| == |vs| + 1
      && IsVariantOf(r.value[|vs|], art, Original) && r.value[|vs|].isAvailable
      && r.value[|vs|].price == kw.price.value
      && r.value[|vs|].currency == Get(kw.currency, Some("USD"))
      && forall k :: 0 <= k < |vs| ==> vs[k].pk < r.value[|vs|].pk
    ensures !WantsOriginal(kw) && r.Success? ==> HasVariant(r.value, art, Poster) && HasVariant(r.value, art, Digital)
  {
    if WantsOriginal(kw) then
      var v := Variant(NextPk(VariantPks(vs)), art, Original, true, kw.price.value, Get(kw.currency, Some("USD")));
      assert (vs + [v])[..|vs|] == vs;
      Success(vs + [v])
    else
      match GetOrCreateVariant(vs, art, Poster, vd)
      case Failure(e) => Failure(e)
      case Success(v2) =>
        match GetOrCreateVariant(v2, art, Digital, vd)
        case Failure(e) => Failure(e)
        case Success(v3) =>
          assert v3[..|vs|] == v2[..|vs|];
          ExtendKeepsVariant(v2, v3, art, Poster);
          Success(v3)
  }

  /** On an art with no variants yet the fixture cannot fail; it adds the
      original alone when it sells it, and otherwise exactly a poster and
      a digital row with the model's variant defaults, none of them an
      original. */
  lemma FixtureVariantsOnFreshArt(vs: seq<Variant>, art: int, kw: ArtKwargs, vd: VariantDefaults)
    requires NoVariantsOf(vs, art)
    ensures FixtureVariants(vs, art, kw, vd).Success?
    ensures var r := FixtureVariants(vs, art, kw, vd).value;
      && (HasVariant(r, art, Original) <==> WantsOriginal(kw))
      && (!WantsOriginal(kw) ==>
            && |r| == |vs| + 2
            && IsVariantOf(r[|vs|], art, Poster) && DefaultsOf(r[|vs|]) == vd
            && IsVariantOf(r[|vs| + 1], art, Digital) && DefaultsOf(r[|vs| + 1]) == vd)
  {
    var r := FixtureVariants(vs, art, kw, vd).value;
    if WantsOriginal(kw) {
      assert IsVariantOf(r[|vs|], art, Original);
    } else {
      var v2 := AppendFresh(vs, art, Poster, vd);
      assert !HasVariant(v2, art, Digital) by {
        forall k | 0 <= k < |v2| ensures !IsVariantOf(v2[k], art, Digital) {
          if k < |vs| {
            assert v2[k] == vs[k];
          }
        }
      }
      var v3 := AppendFresh(v2, art, Digital, vd);
      assert r == v3;
      forall k | 0 <= k < |r| ensures !IsVariantOf(r[k], art, Original) {
        if k < |vs| {
          assert r[k] == vs[k];
        } else if k == |vs| {
          assert r[k] == v2[k];
        }
      }
    }
  }

  datatype Created = Created(gallery: Gallery, art: Art)

  /** `create_artwork_equivalent(title, artist, **kwargs)`: find or create
      the artist's 'Test' collection, create the art in it, then its
      variants. */
  function CreateArtworkEquivalent(g: Gallery, title: string, artist: int, kw: ArtKwargs, md: ColumnDefaults): (r: Result<Created, DbError>)
    ensures r.Success? ==>
      && r.value.gallery.arts == g.arts + [r.value.art]
      && r.value.art.title == title
      && (forall i :: 0 <= i < |g.arts| ==> g.arts[i].pk < r.value.art.pk)
      && exists c :: c in r.value.gallery.collections && c.pk == r.value.art.collection && IsNamedCollection(c, Some(artist), "Test")
    ensures (exists i, j :: 0 <= i < j < |g.collections| && IsNamedCollection(g.collections[i], Some(artist), "Test") && IsNamedCollection(g.collections[j], Some(artist), "Test"))
      ==> r.Failure?
  {
    match GetOrCreateCollection(g.collections, Some(artist), "Test")
    case Failure(e) => Failure(e)
    case Success(cs) =>
      var art := FixtureArt(NextPk(ArtPks(g.arts)), cs.coll.pk, title, kw, md);
      match FixtureVariants(g.variants, art.pk, kw, md.variant)
      case Failure(e) => Failure(e)
      case Success(vs) => Success(Created(Gallery(cs.collections, g.arts + [art], vs), art))
  }

  /** Every variant belongs to an art of the table. */
  predicate VariantsReferenceArts(g: Gallery) {
    forall k :: 0 <= k < |g.variants| ==> exists i :: 0 <= i < |g.arts| && g.arts[i].pk == g.variants[k].art
  }

  /** On a consistent gallery the fixture fails only on an ambiguous 'Test'
      collection, and the new art has an original exactly when the fixture
      sells it, and otherwise the two placeholders. */
  lemma FixtureCreates(g: Gallery, title: string, artist: int, kw: ArtKwargs, md: ColumnDefaults)
    requires VariantsReferenceArts(g)
    ensures var r := CreateArtworkEquivalent(g, title, artist, kw, md);
      r.Failure? <==> GetOrCreateCollection(g.collections, Some(artist), "Test").Failure?
    ensures var r := CreateArtworkEquivalent(g, title, artist, kw, md);
      r.Success? ==>
        var vs := r.value.gallery.variants;
        && vs[..|g.variants|] == g.variants
        && (HasVariant(vs, r.value.art.pk, Original) <==> WantsOriginal(kw))
        && (!WantsOriginal(kw) ==> HasVariant(vs, r.value.art.pk, Poster) && HasVariant(vs, r.value.art.pk, Digital))
  {
    var pk := NextPk(ArtPks(g.arts));
    forall k | 0 <= k < |g.variants| ensures g.variants[k].art != pk {
      var i :| 0 <= i < |g.arts| && g.arts[i].pk == g.variants[k].art;
      assert ArtPks(g.arts)[i] == g.arts[i].pk;
    }
    FixtureVariantsOnFreshArt(g.variants, pk, kw, md.variant);
  }

  /** `get_size_display()`: "W x H cm", or "W x H x D cm" when the depth is
      set, each figure with two decimals; without a width and a height,
      "Size not specified". A zero dimension counts as unset. */
  function SizeDisplay(a: Art): string {
    if TruthyAmount(a.width) && TruthyAmount(a.height) then
      if TruthyAmount(a.depth) then
        Decimal2(a.width.value) + " x " + Decimal2(a.height.value) + " x " + Decimal2(a.depth.value) + " cm"
      else
        Decimal2(a.width.value) + " x " + Decimal2(a.height.value) + " cm"
    else "Size not specified"
  }

  /** The size text opens with the width and height and ends in " cm"
      exactly when both are set; it carries the depth just before " cm"
      exactly when that is set too. */
  lemma SizeDisplayCases(a: Art)
    ensures var r := SizeDisplay(a);
      && (EndsWith(r, " cm") <==> TruthyAmount(a.width) && TruthyAmount(a.height))
      && (r == "Size not specified" <==> !(TruthyAmount(a.width) && TruthyAmount(a.height)))
      && (TruthyAmount(a.width) && TruthyAmount(a.height) ==>
            StartsWith(r, Decimal2(a.width.value) + " x " + Decimal2(a.height.value)))
      && (TruthyAmount(a.width) && TruthyAmount(a.height) && TruthyAmount(a.depth) ==>
            EndsWith(r, " x " + Decimal2(a.depth.value) + " cm"))
  {
    var r := SizeDisplay(a);
    if TruthyAmount(a.width) && TruthyAmount(a.height) {
      var head := Decimal2(a.width.value) + " x " + Decimal2(a.height.value);
      assert StartsWith(head, head);
      if TruthyAmount(a.depth) {
        var tail := " x " + Decimal2(a.depth.value) + " cm";
        assert r == head + tail;
        StartsWithAppend(head, tail, head);
        assert r[|r| - |tail|..] == tail;
        assert r[|r| - 3..] == tail[|tail| - 3..];
      } else {
        assert r == head + " cm";
        StartsWithAppend(head, " cm", head);
      }
      assert r[|r| - 1] == 'm';
    }
  }

  /** How an f-string prints a nullable currency column. */
  function CurrencyText(c: Option<string>): string {
    match c
    case Some(s) => s
    case None => "None"
  }

  /** `get_price_display()`: the currency and the price with thousands
      separators and two decimals; without a (truthy) price, "Price not
      available". */
  function PriceDisplay(a: Art): string {
    if TruthyAmount(a.price) then CurrencyText(a.currency) + " " + GroupedDecimal2(a.price.value)
    else "Price not available"
  }

  /** The price text is the fallback exactly when there is no price;
      otherwise it is the currency, a space, and a figure that, without its
      separators, is the plain two-place rendering of the price. */
  lemma PriceDisplayReadsBack(a: Art)
    ensures var r := PriceDisplay(a);
      && (r == "Price not available" <==> !TruthyAmount(a.price))
      && (TruthyAmount(a.price) ==>
            var head := CurrencyText(a.currency) + " ";
            && StartsWith(r, head)
            && Without(r[|head|..], ',') == Decimal2(a.price.value))
  {
    if TruthyAmount(a.price) {
      var r := PriceDisplay(a);
      var head := CurrencyText(a.currency) + " ";
      var fig := GroupedDecimal2(a.price.value);
      assert r == head + fig;
      assert r[..|head|] == head;
      assert r[|head|..] == fig;
      GroupedDecimal2ReadsBack(a.price.value);
      var p := Pad2(a.price.value % 100);
      assert fig[|fig| - 1] == p[1];
      assert r[|r| - 1] == fig[|fig| - 1];
      assert IsDigit(p[1]);
    }
  }

  /** The query string of the artwork list. Bounds are in hundredths. */
  datatype ListQuery = ListQuery(search: Option<string>, minPrice: Option<nat>, maxPrice: Option<nat>)

  const NoQuery := ListQuery(None, None, None)

  /** The title or the medium contains the search text. */
  predicate MatchesSearch(a: Art, q: string) {
    Contains(a.title, q) || (a.medium.Some? && Contains(a.medium.value, q))
  }

  /** An art the list shows for the query: it is available, it matches the
      search, and its price is within each bound that is given. */
  predicate Listed(a: Art, q: ListQuery) {
    && a.isAvailable
    && (q.search.None? || MatchesSearch(a, q.search.value))
    && (q.minPrice.None? || (a.price.Some? && q.minPrice.value <= a.price.value))
    && (q.maxPrice.None? || (a.price.Some? && a.price.value <= q.maxPrice.value))
  }

  /** The rows satisfying `p`, in table order. */
  function Where(arts: seq<Art>, p: Art -> bool): (r: seq<Art>)
    ensures |r| <= |arts|
    decreases |arts|
  {
    if |arts| == 0 then []
    else (if p(arts[0]) then [arts[0]] else []) + Where(arts[1..], p)
  }

  /** `Where` keeps exactly the rows satisfying the filter. */
  lemma {:induction false} WhereMembers(arts: seq<Art>, p: Art -> bool)
    ensures forall a :: a in Where(arts, p) <==> a in arts && p(a)
    decreases |arts|
  {
    if |arts| > 0 {
      WhereMembers(arts[1..], p);
      assert arts == [arts[0]] + arts[1..];
    }
  }

  /** How many rows satisfy `p`. */
  function CountWhere(arts: seq<Art>, p: Art -> bool): nat
    decreases |arts|
  {
    if |arts| == 0 then 0
    else (if p(arts[0]) then 1 else 0) + CountWhere(arts[1..], p)
  }

  /** The filtered queryset's `count()` is the number of rows satisfying
      the filter. */
  lemma {:induction false} WhereCount(arts: seq<Art>, p: Art -> bool)
    ensures |Where(arts, p)| == CountWhere(arts, p)
    decreases |arts|
  {
    if |arts| > 0 {
      WhereCount(arts[1..], p);
    }
  }

  /** The artwork list view's queryset. */
  function ArtworkList(arts: seq<Art>, q: ListQuery): seq<Art> {
    Where(arts, (a: Art) => Listed(a, q))
  }

  /** The list shows exactly the available rows matching the query; with
      no query, exactly the available rows; a search or a bound only ever
      narrows it. */
  lemma ArtworkListMembers(arts: seq<Art>, q: ListQuery)
    ensures forall a :: a in ArtworkList(arts, q) <==> a in arts && Listed(a, q)
    ensures forall a :: a in ArtworkList(arts, NoQuery) <==> a in arts && a.isAvailable
    ensures forall a :: a in ArtworkList(arts, q) ==> a in ArtworkList(arts, NoQuery)
  {
    WhereMembers(arts, (a: Art) => Listed(a, q));
    WhereMembers(arts, (a: Art) => Listed(a, NoQuery));
  }

  /** A listed row under a bound has a price within it; a row without a
      price is never listed once a bound is given. */
  lemma PriceBoundsHold(arts: seq<Art>, q: ListQuery, a: Art)
    requires a in ArtworkList(arts, q)
    ensures q.minPrice.Some? ==> a.price.Some? && q.minPrice.value <= a.price.value
    ensures q.maxPrice.Some? ==> a.price.Some? && a.price.value <= q.maxPrice.value
    ensures q.search.Some? ==> MatchesSearch(a, q.search.value)
  {
    WhereMembers(arts, (a: Art) => Listed(a, q));
  }

  /** The featured view's queryset. */
  function FeaturedList(arts: seq<Art>): seq<Art> {
    Where(arts, (a: Art) => a.isFeatured)
  }

  /** The featured page shows exactly the featured rows. */
  lemma FeaturedListMembers(arts: seq<Art>)
    ensures forall a :: a in FeaturedList(arts) <==> a in arts && a.isFeatured
  {
    WhereMembers(arts, (a: Art) => a.isFeatured);
  }
}
