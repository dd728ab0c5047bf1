/** The database rows the rules read and write, as immutable records. A table
    is a sequence in primary-key order, so Django's `.first()` on an unordered
    queryset is the first element satisfying the filter, and a row created by
    the rules is appended with a primary key above every existing one. Decimal
    amounts are hundredths; `None` is SQL NULL (or, for legacy columns, an
    attribute the historical model no longer has). */
module Records {
  import opened Values

  /** The three fixed formats of an ArtVariant. */
  datatype Medium = Original | Poster | Digital

  /** The stored choice value of a medium. */
  function MediumValue(m: Medium): string {
    match m
    case Original => "original_piece"
    case Poster => "printed_poster"
    case Digital => "digital_copy"
  }

  /** `get_medium_display()`: the human-readable choice label. */
  function MediumLabel(m: Medium): string {
    match m
    case Original => "Original piece"
    case Poster => "Printed poster"
    case Digital => "Digital copy"
  }

  /** The per-medium columns Art carried before variants replaced them. */
  datatype LegacyFields = LegacyFields(
    physicalAvailable: Option<bool>,
    physicalPrice: Option<nat>,
    digitalAvailable: Option<bool>,
    digitalPrice: Option<nat>)

  const NoLegacy := LegacyFields(None, None, None, None)

  datatype Art = Art(
    pk: int,
    collection: int,
    title: string,
    medium: Option<string>,
    width: Option<nat>,
    height: Option<nat>,
    depth: Option<nat>,
    yearCreated: Option<int>,
    price: Option<nat>,
    currency: Option<string>,
    description: string,
    isAvailable: bool,
    isFeatured: bool,
    artworkLink: Option<int>,
    legacy: LegacyFields)

  datatype Variant = Variant(
    pk: int,
    art: int,
    medium: Medium,
    isAvailable: bool,
    price: Option<nat>,
    currency: Option<string>)

  datatype Collection = Collection(pk: int, artist: Option<int>, name: string)

  datatype BasketItem = BasketItem(
    pk: int,
    art: Option<int>,
    artwork: Option<int>,
    variant: Option<int>,
    quantity: nat,
    priceAtAddition: Option<nat>)

  /** A frozen order line. Only the columns the rules write are kept. */
  datatype OrderItem = OrderItem(
    pk: int,
    order: int,
    art: Option<int>,
    artwork: Option<int>,
    title: string,
    artist: string,
    medium: string,
    quantity: nat,
    price: Option<nat>,
    variantId: Option<int>,
    variantMedium: string)

  /** A primary key above every key in `pks`. */
  function NextPk(pks: seq<int>): (k: int)
    ensures forall i :: 0 <= i < |pks| ==> pks[i] < k
    decreases |pks|
  {
    if |pks| == 0 then 1
    else
      var init := pks[..|pks| - 1];
      var rest := NextPk(init);
      assert forall i :: 0 <= i < |init| ==> pks[i] == init[i];
      if pks[|pks| - 1] < rest then rest else pks[|pks| - 1] + 1
  }

  function VariantPks(vs: seq<Variant>): (r: seq<int>)
    ensures |r| == |vs| && forall i :: 0 <= i < |vs| ==> r[i] == vs[i].pk
  {
    seq(|vs|, i requires 0 <= i < |vs| => vs[i].pk)
  }

  function ArtPks(arts: seq<Art>): (r: seq<int>)
    ensures |r| == |arts| && forall i :: 0 <= i < |arts| ==> r[i] == arts[i].pk
  {
    seq(|arts|, i requires 0 <= i < |arts| => arts[i].pk)
  }

  function CollectionPks(cs: seq<Collection>): (r: seq<int>)
    ensures |r| == |cs| && forall i :: 0 <= i < |cs| ==> r[i] == cs[i].pk
  {
    seq(|cs|, i requires 0 <= i < |cs| => cs[i].pk)
  }

  /** `Art.objects.get(pk=pk)`, or `None` when no row has that key. */
  function ArtByPk(arts: seq<Art>, pk: int): (r: Option<Art>)
    ensures r.Some? ==> r.value in arts && r.value.pk == pk
    ensures r.None? ==> forall i :: 0 <= i < |arts| ==> arts[i].pk != pk
    decreases |arts|
  {
    if |arts| == 0 then None
    else if arts[0].pk == pk then Some(arts[0])
    else ArtByPk(arts[1..], pk)
  }

  /** The positions of the art's rows in the table, in increasing order. */
  function RowsOf(vs: seq<Variant>, art: int): (ix: seq<nat>)
    ensures IsRowsOf(vs, art, ix)
    decreases |vs|
  {
    if |vs| == 0 then []
    else
      var rest := RowsOf(vs[1..], art);
      ConsRows(vs, art, rest);
      Cons(vs, art, rest)
  }

  /** `ix` lists, in increasing order, exactly the positions of the art's
      rows. */
  predicate IsRowsOf(vs: seq<Variant>, art: int, ix: seq<nat>) {
    RowsAreOf(vs, art, ix) && Increasing(ix) && CoversRows(vs, art, ix)
  }

  predicate RowsAreOf(vs: seq<Variant>, art: int, ix: seq<nat>) {
    forall k :: 0 <= k < |ix| ==> ix[k] < |vs| && vs[ix[k]].art == art
  }

  predicate Increasing(ix: seq<nat>) {
    forall k, l :: 0 <= k < l < |ix| ==> ix[k] < ix[l]
  }

  predicate CoversRows(vs: seq<Variant>, art: int, ix: seq<nat>) {
    forall i :: 0 <= i < |vs| && vs[i].art == art ==> i in ix
  }

  function Shift(ix: seq<nat>): (r: seq<nat>)
    ensures |r| == |ix| && forall k :: 0 <= k < |ix| ==> r[k] == ix[k] + 1
  {
    seq(|ix|, k requires 0 <= k < |ix| => ix[k] + 1)
  }

  /** The position list with the first row in front when it is the art's. */
  function Cons(vs: seq<Variant>, art: int, rest: seq<nat>): (ix: seq<nat>)
    requires |vs| > 0
    ensures |ix| == |rest| + (if vs[0].art == art then 1 else 0)
    ensures vs[0].art == art ==> ix[0] == 0
    ensures forall k :: |ix| - |rest| <= k < |ix| ==> ix[k] == rest[k - (|ix| - |rest|)] + 1
  {
    (if vs[0].art == art then [0] else []) + Shift(rest)
  }

  /** The rows of the tail, one position further on and after the first
      row when it is the art's, are the rows of the table. */
  lemma ConsRows(vs: seq<Variant>, art: int, rest: seq<nat>)
    requires |vs| > 0 && IsRowsOf(vs[1..], art, rest)
    ensures IsRowsOf(vs, art, Cons(vs, art, rest))
  {
    ConsRowsAreOf(vs, art, rest);
    ConsIncreasing(vs, art, rest);
    ConsCoversRows(vs, art, rest);
  }

  lemma ConsRowsAreOf(vs: seq<Variant>, art: int, rest: seq<nat>)
    requires |vs| > 0 && RowsAreOf(vs[1..], art, rest)
    ensures RowsAreOf(vs, art, Cons(vs, art, rest))
  {
    var ix := Cons(vs, art, rest);
    var d := |ix| - |rest|;
    forall k | 0 <= k < |ix| ensures ix[k] < |vs| && vs[ix[k]].art == art {
      if k >= d {
        assert vs[1..][rest[k - d]] == vs[ix[k]];
      }
    }
  }

  lemma ConsIncreasing(vs: seq<Variant>, art: int, rest: seq<nat>)
    requires |vs| > 0 && Increasing(rest)
    ensures Increasing(Cons(vs, art, rest))
  {
    var ix := Cons(vs, art, rest);
    var d := |ix| - |rest|;
    forall k, l | 0 <= k < l < |ix| ensures ix[k] < ix[l] {
      if k >= d {
        assert rest[k - d] < rest[l - d];
      }
    }
  }

  lemma ConsCoversRows(vs: seq<Variant>, art: int, rest: seq<nat>)
    requires |vs| > 0 && CoversRows(vs[1..], art, rest)
    ensures CoversRows(vs, art, Cons(vs, art, rest))
  {
    var ix := Cons(vs, art, rest);
    var d := |ix| - |rest|;
    forall i | 0 <= i < |vs| && vs[i].art == art ensures i in ix {
      if i > 0 {
        assert vs[1..][i - 1] == vs[i];
        var k :| 0 <= k < |rest| && rest[k] == i - 1;
        assert ix[k + d] == i;
      }
    }
  }

  /** `ArtVariant.objects.filter(art=pk)`: the art's rows, in table order. */
  function VariantsOf(vs: seq<Variant>, art: int): (r: seq<Variant>)
    ensures forall v :: v in r <==> v in vs && v.art == art
    ensures |r| <= |vs|
    ensures |r| == |RowsOf(vs, art)| && forall k :: 0 <= k < |r| ==> r[k] == vs[RowsOf(vs, art)[k]]
    decreases |vs|
  {
    if |vs| == 0 then []
    else (if vs[0].art == art then [vs[0]] else []) + VariantsOf(vs[1..], art)
  }

  predicate IsVariantOf(v: Variant, art: int, m: Medium) {
    v.art == art && v.medium == m
  }

  /** Whether some variant of `art` with the given medium exists. */
  predicate HasVariant(vs: seq<Variant>, art: int, m: Medium) {
    exists i :: 0 <= i < |vs| && IsVariantOf(vs[i], art, m)
  }

  /** Two rows share one (art, medium) pair, so `get` on it is ambiguous. */
  predicate Duplicated(vs: seq<Variant>, art: int, m: Medium) {
    exists i, j :: 0 <= i < j < |vs| && IsVariantOf(vs[i], art, m) && IsVariantOf(vs[j], art, m)
  }

  /** At most one variant per (art, medium) pair. */
  predicate UniqueMedia(vs: seq<Variant>) {
    forall i, j :: 0 <= i < j < |vs| ==> vs[i].art != vs[j].art || vs[i].medium != vs[j].medium
  }

  /** What `get_or_create` raises when the lookup matches several rows, and
      what a write raises when it breaks a unique column. */
  datatype DbError = MultipleObjectsReturned | IntegrityError

  /** A collection with that artist and name. */
  predicate IsNamedCollection(c: Collection, artist: Option<int>, name: string) {
    c.artist == artist && c.name == name
  }

  /** The position of a collection with that artist and name, searched from the end. */
  function CollectionIndex(colls: seq<Collection>, artist: Option<int>, name: string): (r: Option<nat>)
    ensures r.None? <==> forall i :: 0 <= i < |colls| ==> !IsNamedCollection(colls[i], artist, name)
    ensures r.Some? ==> r.value < |colls| && IsNamedCollection(colls[r.value], artist, name)
    decreases |colls|
  {
    if |colls| == 0 then None
    else if IsNamedCollection(colls[|colls| - 1], artist, name) then Some(|colls| - 1)
    else CollectionIndex(colls[..|colls| - 1], artist, name)
  }

  datatype CollectionStep = CollectionStep(collections: seq<Collection>, coll: Collection)

  /** `Collection.objects.get_or_create(artist=…, name=…)`: an existing row
      is reused, a missing one is appended with a fresh key, and an
      ambiguous lookup raises. */
  function GetOrCreateCollection(colls: seq<Collection>, artist: Option<int>, name: string): (r: Result<CollectionStep, DbError>)
    ensures r.Failure? <==> exists i, j :: 0 <= i < j < |colls| && IsNamedCollection(colls[i], artist, name) && IsNamedCollection(colls[j], artist, name)
    ensures r.Success? ==> IsNamedCollection(r.value.coll, artist, name) && r.value.coll in r.value.collections
    ensures r.Success? && (exists i :: 0 <= i < |colls| && IsNamedCollection(colls[i], artist, name)) ==>
      r.value.collections == colls
    ensures r.Success? && (forall i :: 0 <= i < |colls| ==> !IsNamedCollection(colls[i], artist, name)) ==>
      r.value.collections == colls + [r.value.coll] &&
      forall i :: 0 <= i < |colls| ==> colls[i].pk < r.value.coll.pk
  {
    if exists i, j :: 0 <= i < j < |colls| && IsNamedCollection(colls[i], artist, name) && IsNamedCollection(colls[j], artist, name) then
      Failure(MultipleObjectsReturned)
    else
      match CollectionIndex(colls, artist, name)
      case Some(i) => Success(CollectionStep(colls, colls[i]))
      case None =>
        var c := Collection(NextPk(CollectionPks(colls)), artist, name);
        Success(CollectionStep(colls + [c], c))
  }

  /** The non-key fields a `get_or_create` writes into a variant it creates. */
  datatype VariantDefaults = VariantDefaults(isAvailable: bool, price: Option<nat>, currency: Option<string>)

  function DefaultsOf(v: Variant): VariantDefaults {
    VariantDefaults(v.isAvailable, v.price, v.currency)
  }

  /** `ArtVariant.objects.get_or_create(art_id=…, medium=…, defaults=…)`: an
      existing row is returned untouched, a missing one is appended with a
      fresh key, and an ambiguous lookup raises. */
  function GetOrCreateVariant(vs: seq<Variant>, art: int, m: Medium, d: VariantDefaults): (r: Result<seq<Variant>, DbError>)
    ensures r.Failure? <==> Duplicated(vs, art, m)
    ensures r.Success? ==> |vs| <= |r.value| && r.value[..|vs|] == vs && HasVariant(r.value, art, m)
    ensures r.Success? && HasVariant(vs, art, m) ==> r.value == vs
    ensures r.Success? && !HasVariant(vs, art, m) ==>
      && |r.value| == |vs| + 1
      && IsVariantOf(r.value[|vs|], art, m)
      && DefaultsOf(r.value[|vs|]) == d
      && forall k :: 0 <= k < |vs| ==> vs[k].pk < r.value[|vs|].pk
  {
    if Duplicated(vs, art, m) then Failure(MultipleObjectsReturned)
    else if HasVariant(vs, art, m) then Success(vs)
    else
      var v := Variant(NextPk(VariantPks(vs)), art, m, d.isAvailable, d.price, d.currency);
      var r := vs + [v];
      assert r[..|vs|] == vs;
      assert IsVariantOf(r[|vs|], art, m);
      Success(r)
  }

  /** On a table with unique (art, medium) pairs `get_or_create` cannot
      raise, and the pairs stay unique. */
  lemma GetOrCreateKeepsUnique(vs: seq<Variant>, art: int, m: Medium, d: VariantDefaults)
    requires UniqueMedia(vs)
    ensures GetOrCreateVariant(vs, art, m, d).Success?
    ensures UniqueMedia(GetOrCreateVariant(vs, art, m, d).value)
  {
  }

  /** No variant refers to `art`. */
  predicate NoVariantsOf(vs: seq<Variant>, art: int) {
    forall k :: 0 <= k < |vs| ==> vs[k].art != art
  }

  /** A `get_or_create` of a missing pair appends one row. */
  lemma AppendFresh(vs: seq<Variant>, art: int, m: Medium, d: VariantDefaults) returns (r: seq<Variant>)
    requires !HasVariant(vs, art, m)
    ensures GetOrCreateVariant(vs, art, m, d) == Success(r)
    ensures |r| == |vs| + 1 && r == vs + [r[|vs|]]
    ensures IsVariantOf(r[|vs|], art, m) && DefaultsOf(r[|vs|]) == d
  {
    assert !Duplicated(vs, art, m);
    r := GetOrCreateVariant(vs, art, m, d).value;
    assert r == r[..|vs|] + [r[|vs|]];
  }

  /** A pair is present in a concatenation iff it is present in a part. */
  lemma HasVariantConcat(a: seq<Variant>, b: seq<Variant>, art: int, m: Medium)
    ensures HasVariant(a + b, art, m) <==> HasVariant(a, art, m) || HasVariant(b, art, m)
  {
    if HasVariant(a + b, art, m) {
      var i :| 0 <= i < |a + b| && IsVariantOf((a + b)[i], art, m);
      if i >= |a| {
        assert IsVariantOf(b[i - |a|], art, m);
      }
    }
    if HasVariant(b, art, m) {
      var i :| 0 <= i < |b| && IsVariantOf(b[i], art, m);
      assert (a + b)[|a| + i] == b[i];
    }
    if HasVariant(a, art, m) {
      var i :| 0 <= i < |a| && IsVariantOf(a[i], art, m);
      assert (a + b)[i] == a[i];
    }
  }

  /** Appending rows never loses a pair. */
  lemma ExtendKeepsVariant(a: seq<Variant>, b: seq<Variant>, art: int, m: Medium)
    requires |a| <= |b| && b[..|a|] == a
    requires HasVariant(a, art, m)
    ensures HasVariant(b, art, m)
  {
    var i :| 0 <= i < |a| && IsVariantOf(a[i], art, m);
    assert b[i] == b[..|a|][i];
  }
}
