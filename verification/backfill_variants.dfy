/** Data migration 0007: every Art gets ArtVariant rows derived from the
    legacy per-medium columns. An original is ensured when the legacy
    physical flag is set, a digital copy when the digital flag is set, and a
    disabled poster placeholder always; each through `get_or_create` on
    (art, medium). The reverse migration deletes every variant. */
module VariantBackfill {
  import opened Values
  import opened Records

  /** `getattr(art, name)` inside `try`: a column the historical model no
      longer has reads as False. */
  function LegacyFlag(attr: Option<bool>): (b: bool)
    ensures attr.None? ==> !b
    ensures attr.Some? ==> b == attr.value
  {
    match attr
    case None => false
    case Some(v) => v
  }

  /** Whether the migration ensures a variant of medium `m` for `a`. */
  predicate Ensured(a: Art, m: Medium) {
    match m
    case Original => LegacyFlag(a.legacy.physicalAvailable)
    case Digital => LegacyFlag(a.legacy.digitalAvailable)
    case Poster => true
  }

  /** The `defaults` passed for medium `m`: the legacy media are available,
      priced `legacy_price or price`; the poster is disabled and unpriced;
      all copy the art's currency, which may be NULL. */
  function Defaults(a: Art, m: Medium): (d: VariantDefaults)
    ensures d.currency == a.currency
    ensures d.isAvailable <==> m != Poster
    ensures m == Original ==> d.price == PyOr(a.legacy.physicalPrice, a.price)
    ensures m == Digital ==> d.price == PyOr(a.legacy.digitalPrice, a.price)
    ensures m == Poster ==> d.price.None?
  {
    match m
    case Original => VariantDefaults(true, PyOr(a.legacy.physicalPrice, a.price), a.currency)
    case Digital => VariantDefaults(true, PyOr(a.legacy.digitalPrice, a.price), a.currency)
    case Poster => VariantDefaults(false, None, a.currency)
  }

  /** The get-or-create for medium `m`, skipped when the medium is not
      ensured. */
  function EnsureMedium(vs: seq<Variant>, a: Art, m: Medium): Result<seq<Variant>, DbError> {
    if Ensured(a, m) then GetOrCreateVariant(vs, a.pk, m, Defaults(a, m)) else Success(vs)
  }

  /** The loop body for one art: original, then digital, then poster. */
  function BackfillArt(vs: seq<Variant>, a: Art): Result<seq<Variant>, DbError> {
    match EnsureMedium(vs, a, Original)
    case Failure(e) => Failure(e)
    case Success(v1) =>
      match EnsureMedium(v1, a, Digital)
      case Failure(e) => Failure(e)
      case Success(v2) => EnsureMedium(v2, a, Poster)
  }

  /** `forwards`: the arts in table order; an error aborts the migration. */
  function Forwards(arts: seq<Art>, vs: seq<Variant>): Result<seq<Variant>, DbError>
    decreases |arts|
  {
    if |arts| == 0 then Success(vs)
    else
      match Forwards(arts[..|arts| - 1], vs)
      case Failure(e) => Failure(e)
      case Success(w) => BackfillArt(w, arts[|arts| - 1])
  }

  /** `backwards`: `ArtVariant.objects.all().delete()`. */
  function Backwards(vs: seq<Variant>): seq<Variant> {
    []
  }

  /** A variant row the migration wrote for art `a`. */
  predicate CreatedFor(v: Variant, a: Art) {
    v.art == a.pk && Ensured(a, v.medium) && DefaultsOf(v) == Defaults(a, v.medium)
  }

  /** Every row after the first `n` was written for one of `arts`. */
  predicate NewRowsFrom(r: seq<Variant>, n: nat, arts: seq<Art>)
    requires n <= |r|
  {
    forall k :: n <= k < |r| ==> exists a :: a in arts && CreatedFor(r[k], a)
  }

  /** Every medium the migration ensures for an art of `arts` exists in `r`. */
  predicate Covers(r: seq<Variant>, arts: seq<Art>) {
    forall a, m :: a in arts && Ensured(a, m) ==> HasVariant(r, a.pk, m)
  }

  /** `r` is `vs` with rows appended. */
  predicate Extends(vs: seq<Variant>, r: seq<Variant>) {
    |vs| <= |r| && r[..|vs|] == vs
  }

  /** Every row `r` adds to `vs` was written for `a`. */
  predicate WritesFor(vs: seq<Variant>, r: seq<Variant>, a: Art)
    requires |vs| <= |r|
  {
    forall k :: |vs| <= k < |r| ==> CreatedFor(r[k], a)
  }

  lemma EnsureMediumFacts(vs: seq<Variant>, a: Art, m: Medium)
    ensures UniqueMedia(vs) ==> EnsureMedium(vs, a, m).Success?
    ensures EnsureMedium(vs, a, m).Success? ==>
      var r := EnsureMedium(vs, a, m).value;
      && Extends(vs, r)
      && (UniqueMedia(vs) ==> UniqueMedia(r))
      && (Ensured(a, m) ==> HasVariant(r, a.pk, m))
      && WritesFor(vs, r, a)
  {
    if UniqueMedia(vs) && Ensured(a, m) {
      GetOrCreateKeepsUnique(vs, a.pk, m, Defaults(a, m));
    }
  }

  /** Appending keeps what was already there. */
  lemma HasVariantGrows(vs: seq<Variant>, r: seq<Variant>, art: int, m: Medium)
    requires Extends(vs, r)
    requires HasVariant(vs, art, m)
    ensures HasVariant(r, art, m)
  {
    var i :| 0 <= i < |vs| && IsVariantOf(vs[i], art, m);
    assert r[i] == vs[i];
  }

  lemma ExtendsChain(a: seq<Variant>, b: seq<Variant>, c: seq<Variant>, art: Art)
    requires Extends(a, b) && Extends(b, c)
    requires WritesFor(a, b, art) && WritesFor(b, c, art)
    ensures Extends(a, c) && WritesFor(a, c, art)
  {
    assert c[..|b|][..|a|] == a;
    forall k | |a| <= k < |c| ensures CreatedFor(c[k], art) {
      if k < |b| {
        assert c[k] == b[k];
      }
    }
  }

  /** One art's loop body cannot fail on unique (art, medium) pairs, and
      keeps them unique. */
  lemma BackfillArtKeepsUnique(vs: seq<Variant>, a: Art)
    requires UniqueMedia(vs)
    ensures BackfillArt(vs, a).Success? && UniqueMedia(BackfillArt(vs, a).value)
  {
    EnsureMediumFacts(vs, a, Original);
    var v1 := EnsureMedium(vs, a, Original).value;
    EnsureMediumFacts(v1, a, Digital);
    var v2 := EnsureMedium(v1, a, Digital).value;
    EnsureMediumFacts(v2, a, Poster);
  }

  /** One art's loop body extends the table, ensures the media of that art
      and writes only rows for it. */
  lemma BackfillArtFacts(vs: seq<Variant>, a: Art)
    ensures BackfillArt(vs, a).Success? ==>
      var r := BackfillArt(vs, a).value;
      && Extends(vs, r)
      && (forall m :: Ensured(a, m) ==> HasVariant(r, a.pk, m))
      && WritesFor(vs, r, a)
  {
    var s1 := EnsureMedium(vs, a, Original);
    EnsureMediumFacts(vs, a, Original);
    if s1.Success? {
      var v1 := s1.value;
      var s2 := EnsureMedium(v1, a, Digital);
      EnsureMediumFacts(v1, a, Digital);
      if s2.Success? {
        var v2 := s2.value;
        var s3 := EnsureMedium(v2, a, Poster);
        EnsureMediumFacts(v2, a, Poster);
        if s3.Success? {
          var r := s3.value;
          assert BackfillArt(vs, a) == s3;
          ExtendsChain(vs, v1, v2, a);
          ExtendsChain(vs, v2, r, a);
          if Ensured(a, Original) {
            HasVariantGrows(v1, v2, a.pk, Original);
            HasVariantGrows(v2, r, a.pk, Original);
          }
          if Ensured(a, Digital) {
            HasVariantGrows(v2, r, a.pk, Digital);
          }
        }
      }
    }
  }

  /** `forwards` only appends: every row that existed before is still there,
      unchanged and in place, so get-or-create never modifies an existing
      (art, medium) variant. */
  lemma {:induction false} ForwardsExtends(arts: seq<Art>, vs: seq<Variant>)
    ensures Forwards(arts, vs).Success? ==> Extends(vs, Forwards(arts, vs).value)
    decreases |arts|
  {
    if |arts| > 0 {
      var init := arts[..|arts| - 1];
      ForwardsExtends(init, vs);
      if Forwards(init, vs).Success? {
        var w := Forwards(init, vs).value;
        BackfillArtFacts(w, arts[|arts| - 1]);
        if BackfillArt(w, arts[|arts| - 1]).Success? {
          var r := BackfillArt(w, arts[|arts| - 1]).value;
          assert r[..|w|][..|vs|] == vs;
        }
      }
    }
  }

  /** On a table with at most one variant per (art, medium) the migration
      cannot fail, and it keeps the pairs unique. */
  lemma {:induction false} ForwardsKeepsUnique(arts: seq<Art>, vs: seq<Variant>)
    requires UniqueMedia(vs)
    ensures Forwards(arts, vs).Success?
    ensures UniqueMedia(Forwards(arts, vs).value)
    decreases |arts|
  {
    if |arts| > 0 {
      ForwardsKeepsUnique(arts[..|arts| - 1], vs);
      BackfillArtKeepsUnique(Forwards(arts[..|arts| - 1], vs).value, arts[|arts| - 1]);
    }
  }

  /** Afterwards every art has an original iff its physical flag was set (or
      it already had one), a digital copy likewise, and a poster always. */
  lemma {:induction false} ForwardsCovers(arts: seq<Art>, vs: seq<Variant>)
    ensures Forwards(arts, vs).Success? ==> Covers(Forwards(arts, vs).value, arts)
    decreases |arts|
  {
    if |arts| > 0 {
      var init := arts[..|arts| - 1];
      var last := arts[|arts| - 1];
      ForwardsCovers(init, vs);
      if Forwards(init, vs).Success? {
        var w := Forwards(init, vs).value;
        BackfillArtFacts(w, last);
        if BackfillArt(w, last).Success? {
          var r := BackfillArt(w, last).value;
          forall a, m | a in arts && Ensured(a, m) ensures HasVariant(r, a.pk, m) {
            if a != last {
              assert a in init by {
                var i :| 0 <= i < |arts| && arts[i] == a;
                assert init[i] == a;
              }
              HasVariantGrows(w, r, a.pk, m);
            }
          }
        }
      }
    }
  }

  /** A row written for an art of `arts` is a row written for one of them. */
  lemma RowWitness(arts: seq<Art>, i: nat, v: Variant)
    requires i < |arts| && CreatedFor(v, arts[i])
    ensures exists a :: a in arts && CreatedFor(v, a)
  {
    assert arts[i] in arts;
  }

  /** A row that an earlier prefix of `arts` accounts for is accounted for
      by `arts`. */
  lemma PrefixRowWitness(arts: seq<Art>, n: nat, v: Variant)
    requires n <= |arts|
    requires exists a :: a in arts[..n] && CreatedFor(v, a)
    ensures exists a :: a in arts && CreatedFor(v, a)
  {
    var a :| a in arts[..n] && CreatedFor(v, a);
    var i :| 0 <= i < n && arts[..n][i] == a;
    RowWitness(arts, i, v);
  }

  /** Each row past `|w|` in a table that `WritesFor(w, r, a)` was written
      for `a`. */
  lemma WrittenRow(w: seq<Variant>, r: seq<Variant>, a: Art, k: nat)
    requires |w| <= k < |r| && WritesFor(w, r, a)
    ensures CreatedFor(r[k], a)
  {
  }

  /** Every row the migration adds is a variant of one of the arts, of a
      medium ensured for it, carrying exactly that medium's defaults; so no
      original is created for an art whose physical flag is unset or
      missing, and no digital copy without the digital flag. */
  lemma {:induction false} ForwardsCreatesOnlyEnsured(arts: seq<Art>, vs: seq<Variant>)
    ensures Forwards(arts, vs).Success? ==>
      |vs| <= |Forwards(arts, vs).value| && NewRowsFrom(Forwards(arts, vs).value, |vs|, arts)
    decreases |arts|
  {
    ForwardsExtends(arts, vs);
    if |arts| > 0 {
      var n := |arts| - 1;
      var init := arts[..n];
      var last := arts[n];
      ForwardsCreatesOnlyEnsured(init, vs);
      ForwardsExtends(init, vs);
      if Forwards(init, vs).Success? {
        var w := Forwards(init, vs).value;
        BackfillArtFacts(w, last);
        if BackfillArt(w, last).Success? {
          var r := BackfillArt(w, last).value;
          assert Forwards(arts, vs) == Success(r);
          forall k | |vs| <= k < |r| ensures exists a :: a in arts && CreatedFor(r[k], a) {
            if k < |w| {
              assert r[k] == w[k];
              assert exists a :: a in init && CreatedFor(w[k], a);
              PrefixRowWitness(arts, n, r[k]);
            } else {
              WrittenRow(w, r, last, k);
              RowWitness(arts, n, r[k]);
            }
          }
        }
      }
    }
  }

  /** A table that already holds every ensured variant, uniquely, is left
      as it is. */
  lemma {:induction false} ForwardsFixpoint(arts: seq<Art>, w: seq<Variant>)
    requires UniqueMedia(w) && Covers(w, arts)
    ensures Forwards(arts, w) == Success(w)
    decreases |arts|
  {
    if |arts| > 0 {
      var init := arts[..|arts| - 1];
      var last := arts[|arts| - 1];
      assert Covers(w, init) by {
        forall a, m | a in init && Ensured(a, m) ensures HasVariant(w, a.pk, m) {
          var i :| 0 <= i < |init| && init[i] == a;
          assert arts[i] == a;
        }
      }
      ForwardsFixpoint(init, w);
      assert forall m :: Ensured(last, m) ==> HasVariant(w, last.pk, m);
      assert EnsureMedium(w, last, Original) == Success(w);
      assert EnsureMedium(w, last, Digital) == Success(w);
      assert EnsureMedium(w, last, Poster) == Success(w);
    }
  }

  /** Running the migration a second time adds nothing. */
  lemma ForwardsIdempotent(arts: seq<Art>, vs: seq<Variant>)
    requires UniqueMedia(vs)
    ensures Forwards(arts, vs).Success?
    ensures Forwards(arts, Forwards(arts, vs).value) == Forwards(arts, vs)
  {
    ForwardsKeepsUnique(arts, vs);
    ForwardsCovers(arts, vs);
    ForwardsFixpoint(arts, Forwards(arts, vs).value);
  }

  /** Reversing deletes the rows that existed before the migration too, so
      `backwards` undoes `forwards` only on a table that started empty. */
  lemma BackwardsUndoesOnlyFromEmpty(arts: seq<Art>, vs: seq<Variant>)
    requires Forwards(arts, vs).Success?
    ensures Backwards(Forwards(arts, vs).value) == vs <==> vs == []
    ensures forall v :: v !in Backwards(Forwards(arts, vs).value)
  {
  }
}
