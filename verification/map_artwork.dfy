/** The `map_artwork_to_art` management command: each legacy Artwork is
    matched to an Art with the same title whose collection belongs to the
    same artist. A match is counted as linked and, with `--apply`, has its
    blank fields filled from the artwork; an artwork without a match is
    counted as unmatched and, with `--apply`, imported as a new Art in the
    artist's 'Imported' collection together with its variants. With
    `--apply` the basket and order lines that still point at an artwork are
    then pointed at the Art linked to it. Without `--apply` nothing is
    written. The command runs outside a transaction: an error stops it with
    the rows written so far kept. */
module ArtworkMapping {
  import opened Values
  import opened Records

  /** The legacy record being mapped. */
  datatype Artwork = Artwork(
    pk: int,
    title: string,
    artist: Option<int>,
    medium: Option<string>,
    width: Option<nat>,
    height: Option<nat>,
    yearCreated: Option<int>,
    price: Option<nat>,
    currency: Option<string>,
    description: Option<string>,
    isAvailable: bool)

  /** The model defaults of the columns the command does not set. */
  datatype ModelDefaults = ModelDefaults(
    artAvailable: bool,
    artFeatured: bool,
    variantPrice: Option<nat>,
    variantCurrency: Option<string>)

  datatype Db = Db(
    collections: seq<Collection>,
    arts: seq<Art>,
    variants: seq<Variant>,
    basketItems: seq<BasketItem>,
    orderItems: seq<OrderItem>)

  /** `collection__artist=artist` for one art. */
  predicate InCollectionOf(colls: seq<Collection>, a: Art, artist: int) {
    exists i :: 0 <= i < |colls| && colls[i].pk == a.collection && colls[i].artist == Some(artist)
  }

  /** The candidate filter: an artist is present, the title is equal and the
      art's collection belongs to that artist. */
  predicate Matches(colls: seq<Collection>, a: Art, aw: Artwork) {
    aw.artist.Some? && a.title == aw.title && InCollectionOf(colls, a, aw.artist.value)
  }

  /** The first index at or after `from` whose art matches. */
  function FirstMatch(colls: seq<Collection>, arts: seq<Art>, aw: Artwork, from: nat): (r: Option<nat>)
    requires from <= |arts|
    ensures r.None? ==> forall i :: from <= i < |arts| ==> !Matches(colls, arts[i], aw)
    ensures r.Some? ==> (from <= r.value < |arts| && Matches(colls, arts[r.value], aw) &&
      forall j :: from <= j < r.value ==> !Matches(colls, arts[j], aw))
    decreases |arts| - from
  {
    if from == |arts| then None
    else if Matches(colls, arts[from], aw) then Some(from)
    else FirstMatch(colls, arts, aw, from + 1)
  }

  /** The position of `Art.objects.filter(title=…, collection__artist=…)
      .first()`; no lookup is made for an artwork without an artist. */
  function CandidateIndex(db: Db, aw: Artwork): (r: Option<nat>)
    ensures aw.artist.None? ==> r.None?
    ensures r.None? ==> forall i :: 0 <= i < |db.arts| ==> !Matches(db.collections, db.arts[i], aw)
    ensures r.Some? ==> (r.value < |db.arts| && Matches(db.collections, db.arts[r.value], aw) &&
      forall j :: 0 <= j < r.value ==> !Matches(db.collections, db.arts[j], aw))
  {
    if aw.artist.None? then None else FirstMatch(db.collections, db.arts, aw, 0)
  }

  /** The columns the merge never writes are those of `c`. */
  predicate SameIdentity(c: Art, r: Art) {
    r == c.(price := r.price, description := r.description, isAvailable := r.isAvailable,
      currency := r.currency, artworkLink := r.artworkLink)
  }

  /** The fill-if-blank copy onto a matched art, and the link to the
      artwork. */
  function Merge(c: Art, aw: Artwork): (r: Art)
    ensures SameIdentity(c, r)
    ensures r.artworkLink == Some(aw.pk)
  {
    c.(price := if !TruthyAmount(c.price) && TruthyAmount(aw.price) then aw.price else c.price,
       description := if c.description == "" && TruthyText(aw.description) then aw.description.value else c.description,
       isAvailable := if !c.isAvailable then aw.isAvailable else c.isAvailable,
       currency := if !TruthyText(c.currency) && TruthyText(aw.currency) then aw.currency else c.currency,
       artworkLink := Some(aw.pk))
  }

  /** A field with a value is never overwritten, nor is a blank one when the
      artwork has nothing to offer; afterwards a field has a value exactly
      when the art or the artwork had one, and it holds one of the two
      values. */
  lemma MergeFillsOnlyBlanks(c: Art, aw: Artwork)
    ensures Merge(c, aw).price in {c.price, aw.price}
    ensures Merge(c, aw).description == c.description || Some(Merge(c, aw).description) == aw.description
    ensures Merge(c, aw).currency in {c.currency, aw.currency}
    ensures TruthyAmount(c.price) || !TruthyAmount(aw.price) ==> Merge(c, aw).price == c.price
    ensures TruthyAmount(Merge(c, aw).price) <==> TruthyAmount(c.price) || TruthyAmount(aw.price)
    ensures c.description != "" || !TruthyText(aw.description) ==> Merge(c, aw).description == c.description
    ensures Merge(c, aw).description != "" <==> c.description != "" || TruthyText(aw.description)
    ensures TruthyText(c.currency) || !TruthyText(aw.currency) ==> Merge(c, aw).currency == c.currency
    ensures TruthyText(Merge(c, aw).currency) <==> TruthyText(c.currency) || TruthyText(aw.currency)
  {
  }

  /** An available art stays available: availability is the disjunction of
      the two flags and never goes from True to False. */
  lemma MergeKeepsAvailability(c: Art, aw: Artwork)
    ensures Merge(c, aw).isAvailable == (c.isAvailable || aw.isAvailable)
    ensures c.isAvailable ==> Merge(c, aw).isAvailable
  {
  }

  /** Merging the same artwork twice changes nothing more. */
  lemma MergeIdempotent(c: Art, aw: Artwork)
    ensures Merge(Merge(c, aw), aw) == Merge(c, aw)
  {
  }

  /** The new Art for an unmatched artwork: currency defaults to 'USD' and
      description to ''; the legacy physical columns carry the artwork's
      availability and price. */
  function ImportedArt(pk: int, collection: int, aw: Artwork, md: ModelDefaults): (a: Art)
    ensures a.pk == pk && a.collection == collection && a.title == aw.title && a.price == aw.price
    ensures a.medium == aw.medium && a.width == aw.width && a.height == aw.height && a.yearCreated == aw.yearCreated
    ensures a.currency == Some(TextOr(aw.currency, "USD"))
    ensures a.description == TextOr(aw.description, "")
    ensures a.artworkLink == Some(aw.pk)
  {
    Art(pk, collection, aw.title, aw.medium, aw.width, aw.height, None, aw.yearCreated, aw.price,
      Some(TextOr(aw.currency, "USD")), TextOr(aw.description, ""), md.artAvailable, md.artFeatured,
      Some(aw.pk), LegacyFields(Some(aw.isAvailable), aw.price, None, None))
  }

  /** Whether the import creates an original for the artwork. */
  predicate SellsOriginal(aw: Artwork) {
    aw.isAvailable && TruthyAmount(aw.price)
  }

  /** The variant block of an import, inside `try … except: pass`: an error
      in a `get_or_create` keeps the rows written before it and skips the
      rest. */
  function ImportVariants(vs: seq<Variant>, art: Art, aw: Artwork, md: ModelDefaults): seq<Variant> {
    Placeholders(vs + OriginalRow(vs, art.pk, aw), art.pk, md)
  }

  /** The available original an import creates, when it creates one. */
  function OriginalRow(vs: seq<Variant>, art: int, aw: Artwork): (o: seq<Variant>)
    ensures |o| <= 1 && (|o| == 1 <==> SellsOriginal(aw))
    ensures forall k :: 0 <= k < |o| ==> IsVariantOf(o[k], art, Original) && o[k].isAvailable
  {
    if SellsOriginal(aw) then
      [Variant(NextPk(VariantPks(vs)), art, Original, true, aw.price, Some(TextOr(aw.currency, "USD")))]
    else []
  }

  /** The disabled poster and digital rows, each by `get_or_create`. */
  function Placeholders(vs: seq<Variant>, art: int, md: ModelDefaults): seq<Variant> {
    var placeholder := VariantDefaults(false, md.variantPrice, md.variantCurrency);
    match GetOrCreateVariant(vs, art, Poster, placeholder)
    case Failure(_) => vs
    case Success(v2) =>
      match GetOrCreateVariant(v2, art, Digital, placeholder)
      case Failure(_) => v2
      case Success(v3) => v3
  }

  /** With neither placeholder present, both are appended, disabled. */
  lemma PlaceholdersAppended(vs: seq<Variant>, art: int, md: ModelDefaults)
    requires !HasVariant(vs, art, Poster) && !HasVariant(vs, art, Digital)
    ensures var r := Placeholders(vs, art, md);
      && |r| == |vs| + 2 && r[..|vs|] == vs
      && IsVariantOf(r[|vs|], art, Poster) && IsVariantOf(r[|vs| + 1], art, Digital)
      && !r[|vs|].isAvailable && !r[|vs| + 1].isAvailable
  {
    var placeholder := VariantDefaults(false, md.variantPrice, md.variantCurrency);
    var v2 := AppendFresh(vs, art, Poster, placeholder);
    HasVariantConcat(vs, [v2[|vs|]], art, Digital);
    var v3 := AppendFresh(v2, art, Digital, placeholder);
    assert v3[..|vs|] == v2[..|vs|];
  }

  /** For an art that has no variants yet, the import appends an available
      original exactly when the artwork is available with a truthy price,
      and always a disabled poster and digital placeholder. */
  lemma ImportVariantsOnFreshArt(vs: seq<Variant>, art: Art, aw: Artwork, md: ModelDefaults)
    requires NoVariantsOf(vs, art.pk)
    ensures var r := ImportVariants(vs, art, aw, md);
      && |vs| <= |r| && r[..|vs|] == vs
      && (HasVariant(r, art.pk, Original) <==> SellsOriginal(aw))
      && HasVariant(r, art.pk, Poster) && HasVariant(r, art.pk, Digital)
      && NewRowsAreSales(r, |vs|, art.pk)
  {
    var o := OriginalRow(vs, art.pk, aw);
    var v1 := vs + o;
    assert forall k :: 0 <= k < |v1| ==> !IsVariantOf(v1[k], art.pk, Poster) && !IsVariantOf(v1[k], art.pk, Digital) by {
      forall k | 0 <= k < |v1| ensures !IsVariantOf(v1[k], art.pk, Poster) && !IsVariantOf(v1[k], art.pk, Digital) {
        if k < |vs| {
          assert v1[k] == vs[k];
        } else {
          assert v1[k] == o[k - |vs|];
        }
      }
    }
    PlaceholdersAppended(v1, art.pk, md);
    ComposeImport(vs, o, Placeholders(v1, art.pk, md), art.pk);
  }

  /** The sequence reasoning behind `ImportVariantsOnFreshArt`: the table
      `r` is `vs`, then the optional original `o`, then the poster and the
      digital placeholder. */
  lemma ComposeImport(vs: seq<Variant>, o: seq<Variant>, r: seq<Variant>, art: int)
    requires NoVariantsOf(vs, art)
    requires |o| <= 1 && forall k :: 0 <= k < |o| ==> IsVariantOf(o[k], art, Original) && o[k].isAvailable
    requires |r| == |vs| + |o| + 2 && r[..|vs| + |o|] == vs + o
    requires IsVariantOf(r[|vs| + |o|], art, Poster) && IsVariantOf(r[|vs| + |o| + 1], art, Digital)
    requires !r[|vs| + |o|].isAvailable && !r[|vs| + |o| + 1].isAvailable
    ensures r[..|vs|] == vs
    ensures HasVariant(r, art, Original) <==> |o| == 1
    ensures HasVariant(r, art, Poster) && HasVariant(r, art, Digital)
    ensures NewRowsAreSales(r, |vs|, art)
  {
    var n := |vs| + |o|;
    assert forall k :: 0 <= k < n ==> r[k] == (vs + o)[k];
    assert r[..|vs|] == vs;
    forall k | |vs| <= k < |r| ensures r[k].art == art && (r[k].isAvailable <==> r[k].medium == Original) {
      if k < n {
        assert r[k] == o[k - |vs|];
      }
    }
    if |o| == 1 {
      assert IsVariantOf(r[|vs|], art, Original);
    } else {
      forall k | 0 <= k < |r| ensures !IsVariantOf(r[k], art, Original) {
        if k < |vs| {
          assert r[k] == vs[k];
        }
      }
    }
  }

  /** The rows an import appends from position `from` on belong to the new
      art, and exactly the original among them is on sale. */
  predicate NewRowsAreSales(vs: seq<Variant>, from: nat, art: int) {
    forall k :: from <= k < |vs| ==> vs[k].art == art && (vs[k].isAvailable <==> vs[k].medium == Original)
  }

  /** What one artwork does to the database. */
  datatype Step = Step(db: Db, matched: bool, error: Option<DbError>)

  /** Some art other than the one at index `except` links the artwork.
      `artwork_link` is one-to-one (the backfill reads it back as the single
      `linked_art`), so a write that links the artwork a second time is
      refused. */
  predicate LinkedElsewhere(arts: seq<Art>, artwork: int, except: int) {
    exists j :: 0 <= j < |arts| && j != except && arts[j].artworkLink == Some(artwork)
  }

  /** No two arts link the same artwork. */
  predicate LinksUnique(arts: seq<Art>) {
    forall i, j :: 0 <= i < j < |arts| && arts[i].artworkLink.Some? ==> arts[i].artworkLink != arts[j].artworkLink
  }

  /** The loop body for one artwork. The merge's `save()` and the import's
      `create` fail when another art already links the artwork; the import
      fails after its collection has been fetched or created, which stays. */
  function ProcessArtwork(db: Db, aw: Artwork, apply: bool, md: ModelDefaults): (s: Step)
    ensures s.matched <==> CandidateIndex(db, aw).Some?
    ensures !apply ==> s == Step(db, s.matched, None)
    ensures s.error.Some? ==> s.db.arts == db.arts && s.db.variants == db.variants
  {
    match CandidateIndex(db, aw)
    case Some(i) =>
      if !apply then Step(db, true, None)
      else if LinkedElsewhere(db.arts, aw.pk, i) then Step(db, true, Some(IntegrityError))
      else Step(db.(arts := db.arts[i := Merge(db.arts[i], aw)]), true, None)
    case None =>
      if !apply then Step(db, false, None)
      else
        match GetOrCreateCollection(db.collections, aw.artist, "Imported")
        case Failure(e) => Step(db, false, Some(e))
        case Success(cs) =>
          if LinkedElsewhere(db.arts, aw.pk, -1) then
            Step(db.(collections := cs.collections), false, Some(IntegrityError))
          else
            var art := ImportedArt(NextPk(ArtPks(db.arts)), cs.coll.pk, aw, md);
            Step(db.(collections := cs.collections, arts := db.arts + [art],
                     variants := ImportVariants(db.variants, art, aw, md)), false, None)
  }

  /** Every variant belongs to an art of the table. */
  predicate VariantsReferenceArts(db: Db) {
    forall k :: 0 <= k < |db.variants| ==> exists i :: 0 <= i < |db.arts| && db.arts[i].pk == db.variants[k].art
  }

  /** Under `--apply` a matched artwork fails exactly when another art
      already links it; an unmatched one fails on an ambiguous 'Imported'
      collection or, once the collection is there, when some art already
      links it. A dry run never fails. */
  lemma StepFailureCases(db: Db, aw: Artwork, apply: bool, md: ModelDefaults)
    ensures var s := ProcessArtwork(db, aw, apply, md);
      var coll := GetOrCreateCollection(db.collections, aw.artist, "Imported");
      && (s.error == Some(MultipleObjectsReturned) <==> apply && CandidateIndex(db, aw).None? && coll.Failure?)
      && (s.error == Some(IntegrityError) <==>
            apply && match CandidateIndex(db, aw)
              case Some(i) => LinkedElsewhere(db.arts, aw.pk, i)
              case None => coll.Success? && exists j :: 0 <= j < |db.arts| && db.arts[j].artworkLink == Some(aw.pk))
  {
  }

  /** Each step keeps `artwork_link` one-to-one, whether it succeeds or
      fails. */
  lemma StepKeepsLinksUnique(db: Db, aw: Artwork, apply: bool, md: ModelDefaults)
    requires LinksUnique(db.arts)
    ensures LinksUnique(ProcessArtwork(db, aw, apply, md).db.arts)
  {
  }

  /** An artwork with no artist is never matched, so a second `--apply` run
      over it, after a first one imported and linked it, fails on the
      one-to-one link instead of importing it again. */
  lemma ReimportFails(db: Db, aw: Artwork, md: ModelDefaults)
    requires aw.artist.None?
    ensures var first := ProcessArtwork(db, aw, true, md);
      first.error.None? ==> ProcessArtwork(first.db, aw, true, md).error.Some?
  {
  }

  /** An import appends one art, linked to the artwork, and gives it the
      variants `ImportVariantsOnFreshArt` describes. */
  lemma ImportCreatesArtAndVariants(db: Db, aw: Artwork, md: ModelDefaults)
    requires VariantsReferenceArts(db)
    requires CandidateIndex(db, aw).None?
    ensures var s := ProcessArtwork(db, aw, true, md);
      s.error.None? ==>
        && |s.db.arts| == |db.arts| + 1 && s.db.arts[..|db.arts|] == db.arts
        && var art := s.db.arts[|db.arts|];
        && art.artworkLink == Some(aw.pk) && art.title == aw.title
        && (forall i :: 0 <= i < |db.arts| ==> db.arts[i].pk < art.pk)
        && |db.variants| <= |s.db.variants| && s.db.variants[..|db.variants|] == db.variants
        && (HasVariant(s.db.variants, art.pk, Original) <==> SellsOriginal(aw))
        && HasVariant(s.db.variants, art.pk, Poster) && HasVariant(s.db.variants, art.pk, Digital)
        && NewRowsAreSales(s.db.variants, |db.variants|, art.pk)
  {
    var s := ProcessArtwork(db, aw, true, md);
    if s.error.None? {
      var cs := GetOrCreateCollection(db.collections, aw.artist, "Imported");
      var art := ImportedArt(NextPk(ArtPks(db.arts)), cs.value.coll.pk, aw, md);
      assert s.db.arts == db.arts + [art];
      assert s.db.variants == ImportVariants(db.variants, art, aw, md);
      forall k | 0 <= k < |db.variants| ensures db.variants[k].art != art.pk {
        var i :| 0 <= i < |db.arts| && db.arts[i].pk == db.variants[k].art;
        assert ArtPks(db.arts)[i] == db.arts[i].pk;
      }
      ImportVariantsOnFreshArt(db.variants, art, aw, md);
      assert s.db.arts[..|db.arts|] == db.arts;
    }
  }

  /** The counters the command prints. */
  datatype Report = Report(linked: nat, created: nat, unmatched: seq<int>, basketUpdated: nat, orderUpdated: nat)

  datatype Run = Run(db: Db, report: Report, error: Option<DbError>)

  /** The counters after one artwork: `linked` for a match, otherwise its
      pk appended to `unmatched` and `created` raised when the import
      succeeded. */
  function Count(report: Report, aw: Artwork, s: Step, apply: bool): Report {
    if s.matched then report.(linked := report.linked + 1)
    else report.(unmatched := report.unmatched + [aw.pk],
                 created := report.created + if apply && s.error.None? then 1 else 0)
  }

  /** The artwork loop, in table order; an error ends the command. */
  function ProcessAll(db: Db, report: Report, aws: seq<Artwork>, apply: bool, md: ModelDefaults): (r: Run)
    ensures r.error.None? ==> r.report.linked + |r.report.unmatched| == report.linked + |report.unmatched| + |aws|
    ensures r.report.linked + |r.report.unmatched| <= report.linked + |report.unmatched| + |aws|
    ensures r.report.created - report.created <= |r.report.unmatched| - |report.unmatched|
    ensures |report.unmatched| <= |r.report.unmatched| && r.report.unmatched[..|report.unmatched|] == report.unmatched
    ensures apply && r.error.None? ==> r.report.created - report.created == |r.report.unmatched| - |report.unmatched|
    ensures !apply ==> r == Run(db, r.report, None) && r.report.created == report.created
    ensures r.report.basketUpdated == report.basketUpdated && r.report.orderUpdated == report.orderUpdated
    decreases |aws|
  {
    if |aws| == 0 then Run(db, report, None)
    else
      var s := ProcessArtwork(db, aws[0], apply, md);
      var next := Count(report, aws[0], s, apply);
      if s.error.Some? then Run(s.db, next, s.error)
      else
        var r := ProcessAll(s.db, next, aws[1..], apply, md);
        assert r.report.unmatched[..|report.unmatched|] == next.unmatched[..|report.unmatched|];
        r
  }

  /** `bi.artwork.linked_art`: the art whose `artwork_link` is the artwork,
      or `None` when there is none. */
  function LinkedArt(arts: seq<Art>, artwork: int): (r: Option<Art>)
    ensures r.Some? ==> r.value in arts && r.value.artworkLink == Some(artwork)
    ensures r.None? ==> forall i :: 0 <= i < |arts| ==> arts[i].artworkLink != Some(artwork)
    decreases |arts|
  {
    if |arts| == 0 then None
    else if arts[0].artworkLink == Some(artwork) then Some(arts[0])
    else LinkedArt(arts[1..], artwork)
  }

  /** With one-to-one links, `linked_art` is the one art that links the
      artwork. */
  lemma LinkedArtIsTheLinkingArt(arts: seq<Art>, i: int, artwork: int)
    requires LinksUnique(arts)
    requires 0 <= i < |arts| && arts[i].artworkLink == Some(artwork)
    ensures LinkedArt(arts, artwork) == Some(arts[i])
  {
  }

  /** The FK backfill applies to a line with no art, an artwork, and an art
      linked to that artwork. */
  predicate Relinks(arts: seq<Art>, art: Option<int>, artwork: Option<int>) {
    art.None? && artwork.Some? && LinkedArt(arts, artwork.value).Some?
  }

  function RelinkBasketItem(arts: seq<Art>, bi: BasketItem): (r: BasketItem)
    ensures Relinks(arts, bi.art, bi.artwork) ==> r == bi.(art := Some(LinkedArt(arts, bi.artwork.value).value.pk))
    ensures !Relinks(arts, bi.art, bi.artwork) ==> r == bi
  {
    if Relinks(arts, bi.art, bi.artwork) then bi.(art := Some(LinkedArt(arts, bi.artwork.value).value.pk)) else bi
  }

  function RelinkOrderItem(arts: seq<Art>, oi: OrderItem): (r: OrderItem)
    ensures Relinks(arts, oi.art, oi.artwork) ==> r == oi.(art := Some(LinkedArt(arts, oi.artwork.value).value.pk))
    ensures !Relinks(arts, oi.art, oi.artwork) ==> r == oi
  {
    if Relinks(arts, oi.art, oi.artwork) then oi.(art := Some(LinkedArt(arts, oi.artwork.value).value.pk)) else oi
  }

  /** `bi_updated`: how many basket lines the backfill rewrites. */
  function CountBasketRelinks(arts: seq<Art>, items: seq<BasketItem>): (n: nat)
    ensures n <= |items|
    ensures n == 0 <==> forall i :: 0 <= i < |items| ==> !Relinks(arts, items[i].art, items[i].artwork)
    decreases |items|
  {
    if |items| == 0 then 0
    else
      assert forall i :: 1 <= i < |items| ==> items[i] == items[1..][i - 1];
      (if Relinks(arts, items[0].art, items[0].artwork) then 1 else 0) + CountBasketRelinks(arts, items[1..])
  }

  /** `oi_updated`. */
  function CountOrderRelinks(arts: seq<Art>, items: seq<OrderItem>): (n: nat)
    ensures n <= |items|
    ensures n == 0 <==> forall i :: 0 <= i < |items| ==> !Relinks(arts, items[i].art, items[i].artwork)
    decreases |items|
  {
    if |items| == 0 then 0
    else
      assert forall i :: 1 <= i < |items| ==> items[i] == items[1..][i - 1];
      (if Relinks(arts, items[0].art, items[0].artwork) then 1 else 0) + CountOrderRelinks(arts, items[1..])
  }

  /** The FK backfill after the loop, against the arts as they are then. */
  function RelinkLines(run: Run): (r: Run)
  {
    var arts := run.db.arts;
    var bis := seq(|run.db.basketItems|, i requires 0 <= i < |run.db.basketItems| =>
      RelinkBasketItem(arts, run.db.basketItems[i]));
    var ois := seq(|run.db.orderItems|, i requires 0 <= i < |run.db.orderItems| =>
      RelinkOrderItem(arts, run.db.orderItems[i]));
    Run(run.db.(basketItems := bis, orderItems := ois),
      run.report.(basketUpdated := CountBasketRelinks(arts, run.db.basketItems),
                  orderUpdated := CountOrderRelinks(arts, run.db.orderItems)),
      None)
  }

  /** `Command.handle`. */
  function Handle(db: Db, artworks: seq<Artwork>, apply: bool, md: ModelDefaults): Run {
    var run := ProcessAll(db, Report(0, 0, [], 0, 0), artworks, apply, md);
    if apply && run.error.None? then RelinkLines(run) else run
  }

  /** The whole loop keeps `artwork_link` one-to-one, up to an error and
      after it. */
  lemma {:induction false} ProcessAllKeepsLinksUnique(db: Db, report: Report, aws: seq<Artwork>, apply: bool, md: ModelDefaults)
    requires LinksUnique(db.arts)
    ensures LinksUnique(ProcessAll(db, report, aws, apply, md).db.arts)
    decreases |aws|
  {
    if |aws| > 0 {
      var s := ProcessArtwork(db, aws[0], apply, md);
      StepKeepsLinksUnique(db, aws[0], apply, md);
      if s.error.None? {
        var next := Count(report, aws[0], s, apply);
        assert ProcessAll(db, report, aws, apply, md) == ProcessAll(s.db, next, aws[1..], apply, md);
        ProcessAllKeepsLinksUnique(s.db, next, aws[1..], apply, md);
      } else {
        assert ProcessAll(db, report, aws, apply, md).db == s.db;
      }
    }
  }

  /** A run of the command keeps `artwork_link` one-to-one, so the backfill
      points a line at the one art linked to its artwork. */
  lemma HandleKeepsLinksUnique(db: Db, artworks: seq<Artwork>, apply: bool, md: ModelDefaults)
    requires LinksUnique(db.arts)
    ensures LinksUnique(Handle(db, artworks, apply, md).db.arts)
  {
    ProcessAllKeepsLinksUnique(db, Report(0, 0, [], 0, 0), artworks, apply, md);
  }

  /** A dry run writes no row. */
  lemma DryRunWritesNothing(db: Db, artworks: seq<Artwork>, md: ModelDefaults)
    ensures Handle(db, artworks, false, md).db == db
    ensures Handle(db, artworks, false, md).error.None?
    ensures Handle(db, artworks, false, md).report.created == 0
  {
  }

  /** Every artwork is counted exactly once, as linked or as unmatched, and
      `created` never exceeds the unmatched count: it equals it under
      `--apply` and is 0 in a dry run. */
  lemma EveryArtworkCounted(db: Db, artworks: seq<Artwork>, apply: bool, md: ModelDefaults)
    ensures var r := Handle(db, artworks, apply, md);
      && (r.error.None? ==> r.report.linked + |r.report.unmatched| == |artworks|)
      && r.report.created <= |r.report.unmatched|
      && (apply && r.error.None? ==> r.report.created == |r.report.unmatched|)
      && (!apply ==> r.report.created == 0)
  {
  }

  /** After the backfill, a basket line is rewritten only when it had no art
      but an artwork linked to an art, and it then points at that art;
      `bi_updated` counts no line otherwise. */
  lemma BasketBackfill(db: Db, artworks: seq<Artwork>, md: ModelDefaults, i: int)
    requires Handle(db, artworks, true, md).error.None?
    requires 0 <= i < |db.basketItems|
    ensures var run := ProcessAll(db, Report(0, 0, [], 0, 0), artworks, true, md);
      var r := Handle(db, artworks, true, md);
      |r.db.basketItems| == |run.db.basketItems| &&
      (i < |run.db.basketItems| ==>
        var before := run.db.basketItems[i];
        var after := r.db.basketItems[i];
        if Relinks(run.db.arts, before.art, before.artwork) then
          after.art.Some? && after == before.(art := after.art) &&
          exists a :: a in r.db.arts && a.pk == after.art.value && a.artworkLink == before.artwork
        else after == before)
  {
  }

  /** The candidate depends on the artwork's title and artist only. */
  lemma CandidateByTitleAndArtist(db: Db, aw: Artwork, aw2: Artwork)
    requires aw2.title == aw.title && aw2.artist == aw.artist
    ensures CandidateIndex(db, aw2) == CandidateIndex(db, aw)
  {
    assert forall a :: Matches(db.collections, a, aw2) == Matches(db.collections, a, aw);
  }

  /** In a dry run an unmatched artwork leaves a later one with the same
      title and artist unmatched too; under `--apply` its import, or the
      art it was linked to, is that later artwork's candidate. So the two
      modes can report different counts for the same data. */
  lemma ApplyRematchesImports(db: Db, aw: Artwork, aw2: Artwork, md: ModelDefaults)
    requires aw.artist.Some? && aw2.title == aw.title && aw2.artist == aw.artist
    ensures CandidateIndex(ProcessArtwork(db, aw, false, md).db, aw2).Some? <==> CandidateIndex(db, aw).Some?
    ensures var s := ProcessArtwork(db, aw, true, md);
      s.error.None? ==> CandidateIndex(s.db, aw2).Some?
  {
    CandidateByTitleAndArtist(db, aw, aw2);
    var s := ProcessArtwork(db, aw, true, md);
    if s.error.None? {
      var colls := s.db.collections;
      match CandidateIndex(db, aw)
      case Some(i) =>
        assert s.db.arts[i] == Merge(db.arts[i], aw);
        assert Matches(colls, s.db.arts[i], aw2);
      case None =>
        var cs := GetOrCreateCollection(db.collections, aw.artist, "Imported");
        var n := |db.arts|;
        assert s.db.arts[n].collection == cs.value.coll.pk;
        var k :| 0 <= k < |colls| && colls[k] == cs.value.coll;
        assert InCollectionOf(colls, s.db.arts[n], aw.artist.value);
        assert Matches(colls, s.db.arts[n], aw2);
    }
  }
}
