/** The `sync_art_to_store` and `sync_artworks` management commands. Both
    walk every art, select a store price for it (the cheapest available
    priced variant, else the art's own price, else 99.99) and count the art;
    neither writes a row. The selected price is discarded by the commands;
    the model returns it so that the selection rule can be stated. */
module StoreSync {
  import opened Values
  import opened Records
  import opened Text

  /** `Decimal('99.99')`, in hundredths. */
  const DefaultPrice: nat := 9999

  /** `art.variants.filter(is_available=True, price__isnull=False)`. */
  predicate AvailablePriced(v: Variant, art: int) {
    v.art == art && v.isAvailable && v.price.Some?
  }

  predicate HasAvailablePriced(vs: seq<Variant>, art: int) {
    exists k :: 0 <= k < |vs| && AvailablePriced(vs[k], art)
  }

  /** `p` is the price of some available priced variant and no such variant
      is cheaper. */
  predicate IsCheapest(vs: seq<Variant>, art: int, p: nat) {
    && (exists k :: 0 <= k < |vs| && AvailablePriced(vs[k], art) && vs[k].price.value == p)
    && forall k :: 0 <= k < |vs| && AvailablePriced(vs[k], art) ==> p <= vs[k].price.value
  }

  /** The selection rule of both commands. A zero art price is falsy and
      falls through to the default. */
  predicate IsSelectedPrice(vs: seq<Variant>, art: Art, p: nat) {
    if HasAvailablePriced(vs, art.pk) then IsCheapest(vs, art.pk, p)
    else p == AmountOr(art.price, DefaultPrice)
  }

  /** `variant_qs.order_by('price').first().price`, or `None` when the
      queryset is empty. */
  method CheapestPrice(vs: seq<Variant>, art: int) returns (r: Option<nat>)
    ensures r.None? <==> !HasAvailablePriced(vs, art)
    ensures r.Some? ==> IsCheapest(vs, art, r.value)
  {
    r := None;
    var k := 0;
    while k < |vs|
      invariant 0 <= k <= |vs|
      invariant r.None? <==> !HasAvailablePriced(vs[..k], art)
      invariant r.Some? ==> IsCheapest(vs[..k], art, r.value)
    {
      assert vs[..k + 1] == vs[..k] + [vs[k]];
      var v := vs[k];
      if AvailablePriced(v, art) && (r.None? || v.price.value < r.value) {
        r := v.price;
        assert AvailablePriced(vs[..k + 1][k], art);
      } else if r.Some? {
        var j :| 0 <= j < k && AvailablePriced(vs[..k][j], art) && vs[..k][j].price.value == r.value;
        assert vs[..k + 1][j] == vs[..k][j];
      }
      assert forall j :: 0 <= j < k ==> vs[..k + 1][j] == vs[..k][j];
      k := k + 1;
    }
    assert vs[..k] == vs;
  }

  /** The loop body's price selection. */
  method SelectPrice(vs: seq<Variant>, art: Art) returns (p: nat)
    ensures IsSelectedPrice(vs, art, p)
  {
    var cheapest := CheapestPrice(vs, art.pk);
    if cheapest.Some? {
      p := cheapest.value;
    } else {
      p := AmountOr(art.price, DefaultPrice);
    }
  }

  /** The rule picks one price: two prices that both satisfy it are equal. */
  lemma SelectedPriceIsUnique(vs: seq<Variant>, art: Art, p: nat, q: nat)
    requires IsSelectedPrice(vs, art, p) && IsSelectedPrice(vs, art, q)
    ensures p == q
  {
    if HasAvailablePriced(vs, art.pk) {
      var i :| 0 <= i < |vs| && AvailablePriced(vs[i], art.pk) && vs[i].price.value == p;
      var j :| 0 <= j < |vs| && AvailablePriced(vs[j], art.pk) && vs[j].price.value == q;
      assert q <= p && p <= q;
    }
  }

  /** A variant that is unavailable, unpriced or of another art never
      changes the selection. */
  lemma IgnoresOtherVariants(vs: seq<Variant>, v: Variant, art: Art, p: nat)
    requires !AvailablePriced(v, art.pk)
    ensures IsSelectedPrice(vs + [v], art, p) <==> IsSelectedPrice(vs, art, p)
  {
    var ws := vs + [v];
    assert forall k :: 0 <= k < |vs| ==> ws[k] == vs[k];
    assert HasAvailablePriced(ws, art.pk) <==> HasAvailablePriced(vs, art.pk) by {
      if HasAvailablePriced(ws, art.pk) {
        var k :| 0 <= k < |ws| && AvailablePriced(ws[k], art.pk);
        assert k < |vs|;
      }
    }
    if HasAvailablePriced(vs, art.pk) {
      if IsCheapest(ws, art.pk, p) {
        var k :| 0 <= k < |ws| && AvailablePriced(ws[k], art.pk) && ws[k].price.value == p;
        assert k < |vs|;
      }
      if IsCheapest(vs, art.pk, p) {
        var k :| 0 <= k < |vs| && AvailablePriced(vs[k], art.pk) && vs[k].price.value == p;
        assert ws[k] == vs[k];
      }
    }
  }

  /** With no available priced variant, a zero art price falls through to
      99.99 exactly like a missing one. */
  lemma ZeroPriceFallsThrough(vs: seq<Variant>, art: Art, p: nat)
    requires !HasAvailablePriced(vs, art.pk)
    requires art.price == Some(0) || art.price.None?
    requires IsSelectedPrice(vs, art, p)
    ensures p == DefaultPrice
  {
  }

  /** The price loop shared by both commands: one selected price per art,
      in table order. */
  method SelectPrices(arts: seq<Art>, vs: seq<Variant>) returns (prices: seq<nat>)
    ensures |prices| == |arts|
    ensures forall i :: 0 <= i < |arts| ==> IsSelectedPrice(vs, arts[i], prices[i])
  {
    prices := [];
    var i := 0;
    while i < |arts|
      invariant 0 <= i <= |arts| && |prices| == i
      invariant forall j :: 0 <= j < i ==> IsSelectedPrice(vs, arts[j], prices[j])
    {
      var p := SelectPrice(vs, arts[i]);
      prices := prices + [p];
      i := i + 1;
    }
  }

  /** `sync_artworks`: every art is counted as synced. */
  method SyncArtworks(arts: seq<Art>, vs: seq<Variant>) returns (synced: nat, prices: seq<nat>, message: string)
    ensures synced == |arts|
    ensures |prices| == |arts| && forall i :: 0 <= i < |arts| ==> IsSelectedPrice(vs, arts[i], prices[i])
    ensures message == "Successfully synced " + NatToString(synced) + " artworks and made them available"
  {
    prices := SelectPrices(arts, vs);
    synced := |prices|;
    message := "Successfully synced " + NatToString(synced) + " artworks and made them available";
  }

  /** What the summary of `sync_art_to_store` raises: the first f-string
      literal is applied to the parenthesised second one as if it were a
      function. */
  datatype SummaryError = StrNotCallable

  datatype StoreReport = StoreReport(created: nat, updated: nat, prices: seq<nat>)

  /** The counters of `sync_art_to_store`: nothing is created, every art is
      updated. */
  method CountStoreSync(arts: seq<Art>, vs: seq<Variant>) returns (report: StoreReport)
    ensures report.created == 0 && report.updated == |arts|
    ensures |report.prices| == |arts| && forall i :: 0 <= i < |arts| ==> IsSelectedPrice(vs, arts[i], report.prices[i])
  {
    var prices := SelectPrices(arts, vs);
    report := StoreReport(0, |prices|, prices);
  }

  /** `sync_art_to_store` as written: the loop runs to the end and the
      summary expression then raises, so the command never reports. */
  method SyncArtToStoreAsWritten(arts: seq<Art>, vs: seq<Variant>) returns (r: Result<string, SummaryError>, report: StoreReport)
    ensures r == Failure(StrNotCallable)
    ensures report.created == 0 && report.updated == |arts|
  {
    report := CountStoreSync(arts, vs);
    r := Failure(StrNotCallable);
  }

  /** The summary the two f-strings evidently meant to concatenate. */
  function StoreSummary(created: nat, updated: nat): string {
    "Successfully synced " + NatToString(created + updated) + " artworks:\n- Created: "
      + NatToString(created) + "\n- Updated: " + NatToString(updated)
  }

  /** The summary opens with the total, which reads back as the number of
      arts counted. */
  lemma StoreSummaryReadsBack(created: nat, updated: nat)
    ensures StartsWith(StoreSummary(created, updated), "Successfully synced " + NatToString(created + updated))
    ensures DigitsValue(NatToString(created + updated)) == created + updated
  {
    var head := "Successfully synced " + NatToString(created + updated);
    assert StartsWith(head, head);
    StartsWithAppend(head, " artworks:\n- Created: ", head);
    var s1 := head + " artworks:\n- Created: ";
    StartsWithAppend(s1, NatToString(created), head);
    var s2 := s1 + NatToString(created);
    StartsWithAppend(s2, "\n- Updated: ", head);
    StartsWithAppend(s2 + "\n- Updated: ", NatToString(updated), head);
    DigitsValueOfNatToString(created + updated);
  }

  /** `sync_art_to_store` with the summary concatenated: it reports a total
      of one per art, none of them created. */
  method SyncArtToStore(arts: seq<Art>, vs: seq<Variant>) returns (r: Result<string, SummaryError>, report: StoreReport)
    ensures r == Success(StoreSummary(0, |arts|))
    ensures report.created == 0 && report.updated == |arts|
    ensures |report.prices| == |arts| && forall i :: 0 <= i < |arts| ==> IsSelectedPrice(vs, arts[i], report.prices[i])
  {
    report := CountStoreSync(arts, vs);
    r := Success(StoreSummary(report.created, report.updated));
  }
}
