# Const Collection gallery and shop: a Dafny model of its core rules

Const Collection is a Django gallery and shop with a little browser script.
This project models the rules in its core, one Dafny module per source unit:

- **Catalogue** (`catalogue.dfy`): the `create_artwork_equivalent` test fixture.
  It builds an Art and its ArtVariant rows. The module also holds the catalogue
  behaviour the collection tests assert: the size and price display texts, and
  the artwork list and featured list filters.
- **VariantBackfill** (`backfill_variants.dfy`): data migration 0007. It derives
  ArtVariant rows from the legacy per-medium columns of Art.
- **VariantRequired** (`variant_required.dfy`): data migration 0010. It gives
  every basket item without a variant one, and fills a missing price snapshot.
- **ArtworkMapping** (`map_artwork.dfy`): the `map_artwork_to_art` management
  command. It links each legacy Artwork to an Art, or imports it. It then
  backfills the art key of basket and order lines.
- **StoreSync** (`sync_commands.dfy`): the `sync_artworks` and
  `sync_art_to_store` commands, which choose a price per art and report a
  count.
- **OrderSnapshot** (`order_snapshot.dfy`): the basket-to-order script. It
  freezes basket lines into order lines and then clears the basket.
- **OwnerViews** (`owner.dfy`): the owner's `assign_art` view. The ticked art
  ids become the exhibition's set of links.
- **EventsViews** (`events.dfy`): the events page, which splits exhibitions
  into upcoming and previous.
- **NavTags** (`nav.dfy`): the `nav_active` template tag.
- **MainScript** (`main_script.dfy`): from the shop's main script, the basket
  badge, the toast message and the quantity buttons.
- **Carousel** (`carousel.dfy`): the featured carousel's card navigation and
  its autoplay timer.
- **Theme** (`theme.dfy`): the colour-scheme toggle and its saved choice.
- Shared layers:
  - **Records** (`records.dfy`): the database rows and Django's
    `get_or_create`.
  - **Values** (`values.dfy`): Python truthiness and `or`.
  - **Text** (`text.dfy`): string helpers, Python `int()`, decimal rendering
    and `strip()`/`trim()`.

Modelling conventions:

- A table is a sequence in primary-key order.
- A created row is appended with a key above every existing key.
- Decimal amounts are `nat` hundredths.
- SQL NULL is `None`.
- A Python exception the code does not catch is a `Failure` value.
- Browser state is passed in as parameters and the new state is returned:
  the link element's `href`, `STATIC_URL`, the storage value, the input's
  text, and the confirm answer.

## Model

| member | source | states |
|---|---|---|
| `NavTags.NavActive` | collections_app/templatetags/nav_tags.py:19-44 | the result is "active" or ""; "" without a request; "active" iff the path equals the target, or the target is not "/" and is a prefix of the path |
| `NavTags.RootIsExactOnly` | collections_app/templatetags/nav_tags.py:36-42 | a root target is active on "/" and on no other path |
| `NavTags.PrefixActivates` | collections_app/templatetags/nav_tags.py:36-38 | a non-root target activates every path that extends it |
| `NavTags.ArtPrefixActivatesArtworks` | collections_app/templatetags/nav_tags.py:37 | the match has no segment boundary: "/art" activates "/artworks/" |
| `NavTags.EmptyRawTargetMatchesEverything` | collections_app/templatetags/nav_tags.py:23-38 | an empty argument that names no route is active on every page |
| `NavTags.MissingPathIsEmpty` | collections_app/templatetags/nav_tags.py:29 | a request without a path behaves exactly like one on the empty path |
| `EventsViews.Insert` | events_app/views.py:19 | inserting into a sorted list keeps it sorted and adds exactly that element to the multiset |
| `EventsViews.SortByKey` | events_app/views.py:19-24 | the result is sorted on the key and is a permutation of the input |
| `EventsViews.FilterUpcoming` | events_app/views.py:16-18 | keeps exactly the exhibitions with no end date or an end date on or after today |
| `EventsViews.FilterPrevious` | events_app/views.py:22-23 | keeps exactly the exhibitions whose end date is before today; a missing end date never qualifies |
| `EventsViews.FiltersPartition` | events_app/views.py:16-25 | the two filters together hold every exhibition exactly once (multiset union) |
| `EventsViews.StartInKeyOrder` | events_app/views.py:19 | sorted by the start key means start dates never decrease |
| `EventsViews.EndedInKeyOrder` | events_app/views.py:22-24 | ended exhibitions sorted on the descending key have end dates latest first |
| `EventsViews.Index` | events_app/views.py:8-32 | the upcoming and previous lists have the members the filters define, are ordered by start date and by latest end date, and partition the table |
| `EventsViews.ExactlyOneList` | events_app/views.py:11-25 | each exhibition appears in exactly one of the two lists |
| `EventsViews.EndingTodayIsUpcoming` | events_app/views.py:18-23 | an exhibition whose last day is today is upcoming, not previous |
| `Carousel.CurrentIndex` | staticfiles/js/featured-carousel.js:18-29 | the scan returns a card nearest the scroll offset, with ties going to the earliest card (independent `IsNearest`), and 0 with no cards |
| `Carousel.NearestUnique` | staticfiles/js/featured-carousel.js:22-29 | at most one index meets the nearest-with-earliest-tie condition |
| `Carousel.RestingCardIsCurrent` | staticfiles/js/featured-carousel.js:18-29 | a track resting on a card's offset picks that card, unless an earlier card shares the offset |
| `Carousel.NextIndex` | staticfiles/js/featured-carousel.js:31-32 | 'next' moves one card on and wraps from the last to the first; any other direction moves back and wraps from the first to the last |
| `Carousel.NextThenPrev` | staticfiles/js/featured-carousel.js:31-32 | 'next' then 'prev', or 'prev' then 'next', returns to the starting card |
| `Carousel.Advance` | staticfiles/js/featured-carousel.js:52-56 | any number of autoplay steps lands on a card index |
| `Carousel.AdvanceInside` | staticfiles/js/featured-carousel.js:31-32 | before the last card is passed, k steps move exactly k cards |
| `Carousel.AdvanceCompose` | staticfiles/js/featured-carousel.js:31-32 | a steps followed by b steps is a + b steps |
| `Carousel.FullTurn` | staticfiles/js/featured-carousel.js:32-33 | as many 'next' steps of the card index as there are cards return the index to where it started |
| `Carousel.ScrollByCards` | staticfiles/js/featured-carousel.js:11-37 | no scroll without cards; otherwise the target is the offset of the card after (or before) a nearest card |
| `Carousel.Start` | staticfiles/js/featured-carousel.js:52-57 | afterwards a timer is set; a set timer is left alone; a leak-free state stays leak-free |
| `Carousel.Stop` | staticfiles/js/featured-carousel.js:59-63 | afterwards no timer is set, and from a leak-free state no interval runs; without a timer nothing changes |
| `Carousel.AutoplayIdempotent` | staticfiles/js/featured-carousel.js:52-63 | starting twice is starting once, stopping twice is stopping once, and stop after start leaves nothing running |
| `Carousel.ReplayNoLeak` | staticfiles/js/featured-carousel.js:39-75 | from a leak-free state, after any sequence of hover, focus, button and key events only the interval the timer holds runs |
| `Theme.FindSchemeName` | staticfiles/js/theme-toggle.js:3-14 | the list holds Scheme-1 to Scheme-13 in order, so `Scheme-n.css` is found at n - 1 for 1 to 13 and nowhere otherwise |
| `Theme.CycleScheme` | staticfiles/js/theme-toggle.js:58-66 | without the link nothing happens; otherwise the applied href is the static base followed by a list entry, and that entry is what is saved |
| `Theme.CycleFromFound` | staticfiles/js/theme-toggle.js:61-64 | a link whose last segment is found at index i moves to entry (i + 1) mod 13 |
| `Theme.CycleFromScheme` | staticfiles/js/theme-toggle.js:58-66 | from scheme n under any path prefix the cycle applies and saves scheme n + 1, and scheme 13 wraps to scheme 1 |
| `Theme.CycleFallbacks` | staticfiles/js/theme-toggle.js:61-63 | an unknown last segment moves to scheme 1; a missing or empty href moves to scheme 2, because every entry ends with '' |
| `Theme.PressFromIndex` | staticfiles/js/theme-toggle.js:62-64 | one press on the link of entry m applies entry (m + 1) mod 13 |
| `Theme.FullCycle` | staticfiles/js/theme-toggle.js:58-66 | thirteen presses bring both the link and the saved value back to the starting scheme |
| `Theme.SetSchemeByName` | staticfiles/js/theme-toggle.js:31-43 | without the link nothing is saved; otherwise the saved target is the name with `css/` added when missing, and the href is the static base followed by it |
| `Theme.SetSchemeIdempotent` | staticfiles/js/theme-toggle.js:31-43 | setting the saved target again changes nothing |
| `Theme.ApplySavedOrDefault` | staticfiles/js/theme-toggle.js:49-56 | a truthy saved value is loaded under the static base; otherwise the href is kept |
| `Theme.SetThenReload` | staticfiles/js/theme-toggle.js:31-56 | reloading the page restores the href the setter applied |
| `Theme.CycleThenReload` | staticfiles/js/theme-toggle.js:49-66 | reloading the page restores the href the cycle button applied |
| `Theme.ApplySchemeByHref` | staticfiles/js/theme-toggle.js:24-29 | an absolute path is used as it is; anything else is wrapped in the literal text of a template tag |
| `Theme.GetSchemeIndexUnknown` | staticfiles/js/theme-toggle.js:21 | as written, an unknown name ("Scheme-99.css") yields -1, which is not an index |
| `Theme.SchemeIndexOrFirst` | staticfiles/js/theme-toggle.js:18-22 | corrected: always an index; the found position for a known name, otherwise 0 |
| `Theme.SchemeIndexAgreesWhenKnown` | staticfiles/js/theme-toggle.js:18-22 | the corrected and the as-written lookup agree on every falsy or known name |
| `Theme.SchemeIndexOfName` | staticfiles/js/theme-toggle.js:18-22 | scheme n's file name, with or without a leading slash, maps to index n - 1 |
| `MainScript.JsParseIntOfIntText` | staticfiles/js/main.ed308f36dd0e.js:294-297 | `parseInt` reads back any integer the script wrote into an input |
| `MainScript.BadgeFor` | staticfiles/js/main.ed308f36dd0e.js:21-28 | the badge is hidden exactly when the count is the number 0, so a string count is always shown |
| `MainScript.BadgeShowsCount` | staticfiles/js/main.ed308f36dd0e.js:21-28 | a numeric count is shown as text that parses back to it, and shown iff it is non-zero |
| `MainScript.PricePartShown` | staticfiles/js/main.ed308f36dd0e.js:94-100 | the price part is non-empty exactly for a number (zero included) or a non-empty string that converts; it is then the em dash and dollar lead followed by the formatted number |
| `MainScript.ToastWithoutLabels` | staticfiles/js/main.ed308f36dd0e.js:102-104 | with neither title nor variant label the toast is the action alone, defaulting to 'Added', whatever the price |
| `MainScript.ToastLayout` | staticfiles/js/main.ed308f36dd0e.js:89-105 | for an action without leading whitespace, the toast is the action, a space, the quoted title and/or bracketed label, then a space and the price part when there is one |
| `MainScript.Increment` | staticfiles/js/main.ed308f36dd0e.js:291-300 | submits one more iff the current quantity is below the maximum, and never exceeds it |
| `MainScript.Decrement` | staticfiles/js/main.ed308f36dd0e.js:302-315 | submits one less iff the quantity is above 1, or is 1 and the user confirms; never negative |
| `MainScript.IncrementThenDecrement` | staticfiles/js/main.ed308f36dd0e.js:291-315 | minus after plus restores the original quantity when the raised value is above 1 |
| `MainScript.IncrementRendered` | staticfiles/js/main.ed308f36dd0e.js:294-299 | a rendered quantity below the maximum goes up by exactly one, and stays put at the maximum |
| `Catalogue.FixtureArt` | collections_app/tests.py:19-35 | each argument passed with a value is stored, `year_created` included; an omitted medium, currency, description or flag takes the fixture's own default ('', 'USD', '', False); an omitted size, year or price, and any argument passed as None, takes the model default |
| `Catalogue.NoneIsOmittedForNullable` | collections_app/tests.py:33-35 | for the nullable columns, passing None is the same as not passing the argument |
| `Catalogue.FixtureVariants` | collections_app/tests.py:36-48 | an available priced call appends one available original at that price; otherwise poster and digital rows exist afterwards; existing rows are kept |
| `Catalogue.FixtureVariantsOnFreshArt` | collections_app/tests.py:36-48 | on a new art it cannot fail; an original exists iff one was asked for; otherwise exactly a poster and a digital row with the model defaults are added |
| `Catalogue.CreateArtworkEquivalent` | collections_app/tests.py:9-49 | the art is appended with a fresh key into the artist's 'Test' collection; two 'Test' collections for the artist make it fail |
| `Catalogue.FixtureCreates` | collections_app/tests.py:15-48 | when every variant belongs to an art, it fails iff the 'Test' collection lookup fails; the new art then has an original iff it was passed available with a price, and otherwise both placeholders; existing variants are kept |
| `Catalogue.SizeDisplayCases` | collections_app/tests.py:126-170 | "W x H cm" or "W x H x D cm" when the width and height are set (the depth just before " cm" iff set), otherwise "Size not specified" |
| `Catalogue.PriceDisplayReadsBack` | collections_app/tests.py:172-195 | "Price not available" iff there is no price; otherwise the currency, a space and a figure that reads back as the price once the separators are removed |
| `Catalogue.WhereCount` | collections_app/tests.py:321-334 | the filtered list's `count()` is the number of rows satisfying the filter |
| `Catalogue.ArtworkListMembers` | collections_app/tests.py:321-419 | the list holds exactly the available rows that match the search and lie within the bounds; with no query, exactly the available rows; a query only narrows |
| `Catalogue.PriceBoundsHold` | collections_app/tests.py:398-419 | a listed row under a bound has a price within it, and one listed under a search matches it |
| `Catalogue.FeaturedListMembers` | collections_app/tests.py:574-585 | the featured page holds exactly the featured rows |
| `VariantBackfill.LegacyFlag` | collections_app/migrations/0007_backfill_artvariants.py:12-15 | a column the historical model lacks reads as False; otherwise its value |
| `VariantBackfill.Defaults` | collections_app/migrations/0007_backfill_artvariants.py:17-45 | original and digital are available and priced `legacy_price or price`; the poster is disabled and unpriced; all carry the art's currency |
| `VariantBackfill.EnsureMediumFacts` | collections_app/migrations/0007_backfill_artvariants.py:17-45 | one get-or-create cannot fail on a unique table, keeps it unique, extends it, ensures the medium when flagged, and writes rows only for that art |
| `VariantBackfill.BackfillArtKeepsUnique` | collections_app/migrations/0007_backfill_artvariants.py:8-45 | one art's loop body succeeds on a unique table and keeps it unique |
| `VariantBackfill.BackfillArtFacts` | collections_app/migrations/0007_backfill_artvariants.py:8-45 | one art's loop body extends the table, ensures every flagged medium and writes only for that art |
| `VariantBackfill.ForwardsExtends` | collections_app/migrations/0007_backfill_artvariants.py:4-45 | the migration only appends rows |
| `VariantBackfill.ForwardsKeepsUnique` | collections_app/migrations/0007_backfill_artvariants.py:4-45 | on a table with one row per art and medium it succeeds and keeps that property |
| `VariantBackfill.ForwardsCovers` | collections_app/migrations/0007_backfill_artvariants.py:4-45 | afterwards every art has a poster, an original when its physical flag is set and a digital copy when its digital flag is set |
| `VariantBackfill.ForwardsCreatesOnlyEnsured` | collections_app/migrations/0007_backfill_artvariants.py:11-45 | every appended row is one of a medium the migration ensures for an art of the table |
| `VariantBackfill.ForwardsFixpoint` | collections_app/migrations/0007_backfill_artvariants.py:4-45 | on a unique table that already covers every art, the migration changes nothing |
| `VariantBackfill.ForwardsIdempotent` | collections_app/migrations/0007_backfill_artvariants.py:4-45 | running the migration twice is running it once |
| `VariantBackfill.BackwardsUndoesOnlyFromEmpty` | collections_app/migrations/0007_backfill_artvariants.py:48-51 | the reverse deletes every variant, so it restores the table iff it started empty |
| `VariantRequired.FirstWhere` | collections_app/migrations/0010_phase_b_make_variant_required_and_remove_legacy_fields.py:205-213 | the first variant meeting a preference, or none iff no variant meets it |
| `VariantRequired.Choose` | collections_app/migrations/0010_phase_b_make_variant_required_and_remove_legacy_fields.py:203-213 | an art with variants always gets one of them; an art without variants gets none |
| `VariantRequired.ChooseIsEarliestBest` | collections_app/migrations/0010_phase_b_make_variant_required_and_remove_legacy_fields.py:203-213 | the choice is the earliest variant of the best rank (available original, then available, then any) |
| `VariantRequired.Fallback` | collections_app/migrations/0010_phase_b_make_variant_required_and_remove_legacy_fields.py:178-193 | the first variant; or, in an empty table, an original created on the first art with its availability, `price or 0` and `currency or 'USD'`; or none without arts |
| `VariantRequired.BackfillItem` | collections_app/migrations/0010_phase_b_make_variant_required_and_remove_legacy_fields.py:200-226 | an item with a variant is untouched; otherwise the key, art, artwork and quantity are kept, and so is a truthy price snapshot |
| `VariantRequired.Forwards` | collections_app/migrations/0010_phase_b_make_variant_required_and_remove_legacy_fields.py:171-226 | the arts are untouched and every basket item is kept, one for one |
| `VariantRequired.Backwards` | collections_app/migrations/0010_phase_b_make_variant_required_and_remove_legacy_fields.py:229-232 | the reverse is a no-op |
| `VariantRequired.OnlyNullVariantsChange` | collections_app/migrations/0010_phase_b_make_variant_required_and_remove_legacy_fields.py:196-199 | items that had a variant are unchanged; all items keep their key, art and quantity |
| `VariantRequired.ChosenBelongsToArt` | collections_app/migrations/0010_phase_b_make_variant_required_and_remove_legacy_fields.py:200-213 | when the item's art has variants, the variant assigned is the earliest best-ranked one of that art |
| `VariantRequired.EveryItemGetsAVariant` | collections_app/migrations/0010_phase_b_make_variant_required_and_remove_legacy_fields.py:215-220 | with at least one art or variant, every item ends with a variant that is a row of the variant table |
| `VariantRequired.EmptyCatalogueLeavesItems` | collections_app/migrations/0010_phase_b_make_variant_required_and_remove_legacy_fields.py:178-218 | with no art and no variant the tables are left exactly as they were |
| `VariantRequired.SnapshotRule` | collections_app/migrations/0010_phase_b_make_variant_required_and_remove_legacy_fields.py:218-225 | a filled item points at its target and always has a snapshot; a truthy snapshot is kept; the result is truthy iff the item's, the variant's or the art's price was |
| `VariantRequired.ForwardsIdempotent` | collections_app/migrations/0010_phase_b_make_variant_required_and_remove_legacy_fields.py:171-226 | running the migration a second time changes nothing |
| `VariantRequired.VariantTableOnlyGrowsWhenEmpty` | collections_app/migrations/0010_phase_b_make_variant_required_and_remove_legacy_fields.py:178-193 | a non-empty variant table is untouched; an empty one gains at most the fallback row |
| `ArtworkMapping.FirstMatch` | collections_app/management/commands/map_artwork_to_art.py:29 | the first art at or after a position with the artwork's title and artist, or none iff there is none |
| `ArtworkMapping.CandidateIndex` | collections_app/management/commands/map_artwork_to_art.py:26-29 | no candidate without an artist; otherwise the first art of the same title in one of the artist's collections |
| `ArtworkMapping.Merge` | collections_app/management/commands/map_artwork_to_art.py:34-46 | the art keeps its identity and gets linked to the artwork |
| `ArtworkMapping.MergeFillsOnlyBlanks` | collections_app/management/commands/map_artwork_to_art.py:36-43 | price, description and currency each come from the art or the artwork; a set field is kept; each ends truthy iff either side was |
| `ArtworkMapping.MergeKeepsAvailability` | collections_app/management/commands/map_artwork_to_art.py:40-41 | availability becomes the disjunction of both, so an available art stays available |
| `ArtworkMapping.MergeIdempotent` | collections_app/management/commands/map_artwork_to_art.py:34-46 | merging the same artwork twice is merging it once |
| `ArtworkMapping.ImportedArt` | collections_app/management/commands/map_artwork_to_art.py:57-74 | the new art carries the title, medium, width, height, year and price, currency `or 'USD'`, description `or ''` and the artwork link |
| `ArtworkMapping.OriginalRow` | collections_app/management/commands/map_artwork_to_art.py:78-85 | an available original is created iff the artwork is available with a truthy price |
| `ArtworkMapping.PlaceholdersAppended` | collections_app/management/commands/map_artwork_to_art.py:86-97 | with neither placeholder present, a disabled poster and a disabled digital row are appended |
| `ArtworkMapping.ImportVariantsOnFreshArt` | collections_app/management/commands/map_artwork_to_art.py:76-101 | on an art without variants the existing rows are kept; it gets an original iff the artwork is available with a truthy price, and always a poster and a digital row; of the new rows only the original is available |
| `ArtworkMapping.ProcessArtwork` | collections_app/management/commands/map_artwork_to_art.py:24-75 | matched iff there is a candidate; a dry run writes nothing; a failed step writes no art and no variant |
| `ArtworkMapping.StepFailureCases` | collections_app/management/commands/map_artwork_to_art.py:31-75 | under `--apply` a match fails iff another art already links the artwork (`IntegrityError` at `save()`); an import fails with `MultipleObjectsReturned` iff the 'Imported' collection is ambiguous, and with `IntegrityError` iff the collection is found or made but some art already links the artwork; a dry run never fails |
| `ArtworkMapping.StepKeepsLinksUnique` | collections_app/management/commands/map_artwork_to_art.py:31-75 | a step, successful or not, keeps `artwork_link` one-to-one |
| `ArtworkMapping.ReimportFails` | collections_app/management/commands/map_artwork_to_art.py:28-74 | an artwork without an artist is never matched, so after one successful import a second `--apply` step over it fails instead of importing it again |
| `ArtworkMapping.ImportCreatesArtAndVariants` | collections_app/management/commands/map_artwork_to_art.py:50-101 | when every variant belongs to an art, an import that succeeds (see `ArtworkMapping.StepFailureCases`) appends one art with a fresh key, the artwork's title and the link to it, plus an original iff the artwork is available with a truthy price and always a poster and a digital row |
| `ArtworkMapping.ProcessAll` | collections_app/management/commands/map_artwork_to_art.py:24-106 | without an error, linked plus unmatched grows by the number of artworks; `created` grows by at most the unmatched count, by exactly it under `--apply`, and a dry run leaves the database and `created` unchanged |
| `ArtworkMapping.LinkedArt` | collections_app/management/commands/map_artwork_to_art.py:119 | an art whose link is the artwork, or none iff there is none |
| `ArtworkMapping.LinkedArtIsTheLinkingArt` | collections_app/management/commands/map_artwork_to_art.py:119-131 | when links are one-to-one, `linked_art` is exactly the art that links the artwork |
| `ArtworkMapping.ProcessAllKeepsLinksUnique` | collections_app/management/commands/map_artwork_to_art.py:24-101 | the artwork loop keeps `artwork_link` one-to-one, including when it stops on an error |
| `ArtworkMapping.HandleKeepsLinksUnique` | collections_app/management/commands/map_artwork_to_art.py:21-137 | a whole run keeps `artwork_link` one-to-one, so the backfill reads one art per artwork |
| `ArtworkMapping.RelinkBasketItem` | collections_app/management/commands/map_artwork_to_art.py:116-123 | a basket line with no art but a linked artwork gets that art; any other line is unchanged |
| `ArtworkMapping.RelinkOrderItem` | collections_app/management/commands/map_artwork_to_art.py:126-133 | the same for an order line |
| `ArtworkMapping.CountBasketRelinks` | collections_app/management/commands/map_artwork_to_art.py:112-123 | `bi_updated` is at most the line count, and 0 iff no line qualifies |
| `ArtworkMapping.CountOrderRelinks` | collections_app/management/commands/map_artwork_to_art.py:126-133 | `oi_updated` is at most the line count, and 0 iff no line qualifies |
| `ArtworkMapping.DryRunWritesNothing` | collections_app/management/commands/map_artwork_to_art.py:21-50 | without `--apply` the database is unchanged and nothing is created |
| `ArtworkMapping.EveryArtworkCounted` | collections_app/management/commands/map_artwork_to_art.py:103-106 | every artwork is counted once as linked or unmatched, and `created` never exceeds the unmatched count |
| `ArtworkMapping.BasketBackfill` | collections_app/management/commands/map_artwork_to_art.py:108-123 | after the backfill, a line is rewritten only when it qualifies, and then points at an art linked to its artwork |
| `ArtworkMapping.CandidateByTitleAndArtist` | collections_app/management/commands/map_artwork_to_art.py:28-29 | the candidate depends on the title and artist only |
| `ArtworkMapping.ApplyRematchesImports` | collections_app/management/commands/map_artwork_to_art.py:24-74 | after an import under `--apply`, a later artwork with the same title and artist finds the imported art; after the same step in a dry run it finds a candidate iff the first did, so the two modes can count differently |
| `StoreSync.CheapestPrice` | collections_app/management/commands/sync_artworks.py:25-29 | none iff the art has no available priced variant; otherwise the lowest such price |
| `StoreSync.SelectPrice` | collections_app/management/commands/sync_artworks.py:24-31 | the price matches the independent definition: the cheapest available variant price, else `art.price or 99.99` |
| `StoreSync.SelectedPriceIsUnique` | collections_app/management/commands/sync_artworks.py:24-31 | the price definition allows one value only |
| `StoreSync.IgnoresOtherVariants` | collections_app/management/commands/sync_artworks.py:25-27 | an unavailable, unpriced or foreign variant does not change the price |
| `StoreSync.ZeroPriceFallsThrough` | collections_app/management/commands/sync_artworks.py:30-31 | with no priced variant, a zero or missing art price gives 99.99 |
| `StoreSync.SelectPrices` | collections_app/management/commands/sync_artworks.py:22-31 | one price per art, each the selected price |
| `StoreSync.SyncArtworks` | collections_app/management/commands/sync_artworks.py:17-41 | every art is counted once and the message reports that count |
| `StoreSync.CountStoreSync` | collections_app/management/commands/sync_art_to_store.py:17-37 | nothing is created and every art counts as updated |
| `StoreSync.SyncArtToStoreAsWritten` | collections_app/management/commands/sync_art_to_store.py:39-47 | as written the summary calls a string and fails with a TypeError after the loop |
| `StoreSync.StoreSummaryReadsBack` | collections_app/management/commands/sync_art_to_store.py:39-47 | the corrected summary opens with the total count, which reads back as created + updated |
| `StoreSync.SyncArtToStore` | collections_app/management/commands/sync_art_to_store.py:17-47 | corrected: succeeds with the summary of 0 created and every art updated |
| `OrderSnapshot.FirstSuperuser` | scripts/test_order_snapshot.py:13-16 | the first superuser in table order, with no superuser before it, or none iff there is none |
| `OrderSnapshot.FirstArtOnSale` | scripts/test_order_snapshot.py:18-21 | the first art in table order with an available variant, or none iff there is none |
| `OrderSnapshot.FirstAvailableVariant` | scripts/test_order_snapshot.py:23-26 | the first available variant of the art in table order, or none iff there is none |
| `OrderSnapshot.GetOrCreateBasket` | scripts/test_order_snapshot.py:28 | `MultipleObjectsReturned` iff the user has several baskets; otherwise the user's one basket, created (appended with a fresh key) iff the user had none |
| `OrderSnapshot.ItemsOfMembers` | scripts/test_order_snapshot.py:32-39 | the basket's items are exactly the lines of that basket |
| `OrderSnapshot.ClearMembers` | scripts/test_order_snapshot.py:92 | clearing keeps exactly the lines of other baskets |
| `OrderSnapshot.EnsureLine` | scripts/test_order_snapshot.py:31-39 | a non-empty basket is left alone; an empty one gets exactly one new line |
| `OrderSnapshot.FreezeLine` | scripts/test_order_snapshot.py:58-79 | the order line freezes the basket line's display, quantity, price and variant |
| `OrderSnapshot.FreezeLines` | scripts/test_order_snapshot.py:58-79 | one order line per basket line, in order, with consecutive keys |
| `OrderSnapshot.FrozenTotal` | scripts/test_order_snapshot.py:41-79 | the frozen lines add up to the basket subtotal |
| `OrderSnapshot.RunProceeds` | scripts/test_order_snapshot.py:13-26 | a run that completes used the first superuser, its basket from `get_or_create`, the first art on sale and an available variant of it |
| `OrderSnapshot.AbortCases` | scripts/test_order_snapshot.py:13-26 | it aborts for want of a superuser iff there is none, and for want of an art on sale iff there is none; the third abort cannot happen; past the lookups it fails with `MultipleObjectsReturned` iff the superuser has several baskets |
| `OrderSnapshot.BasketHasALine` | scripts/test_order_snapshot.py:28-39 | the superuser's basket has lines: its own, or one new line of quantity 1 on an available variant |
| `OrderSnapshot.OrderMatchesBasket` | scripts/test_order_snapshot.py:41-79 | the order is appended for the superuser, totals the subtotal, and its lines add up to the same total |
| `OrderSnapshot.OrderLinesFreezeBasket` | scripts/test_order_snapshot.py:58-79 | order line i freezes basket line i |
| `OrderSnapshot.FreezeFallbacks` | scripts/test_order_snapshot.py:59-78 | without a display the title is the price text ("None" without a price) and the artist and medium are empty; without a variant there is no variant key or label; quantity and price are copied |
| `OrderSnapshot.ClearEmpties` | scripts/test_order_snapshot.py:92 | after clearing, the basket has no lines |
| `OrderSnapshot.BasketEmptiedAfterward` | scripts/test_order_snapshot.py:91-92 | at the end the basket is empty, other baskets keep their lines, and the catalogue is untouched |
| `OrderSnapshot.ProceedEmptiesBasket` | scripts/test_order_snapshot.py:28-92 | the same for the steps after the lookups, whatever basket step they are given |
| `OwnerViews.LinkedIds` | owner_app/views.py:141-143 | an id is in the set iff a link row joins it to the exhibition |
| `OwnerViews.CollectIds` | owner_app/views.py:147 | succeeds iff every text converted; the set holds exactly the converted ids; a failure names a text that did not convert |
| `OwnerViews.ParseIds` | owner_app/views.py:146-147 | the same in terms of Python `int()` on each posted text |
| `OwnerViews.ParseIdsCovered` | owner_app/views.py:146-147 | a submission whose texts all occur in a parsable one parses to a subset |
| `OwnerViews.SubmissionIsASet` | owner_app/views.py:146-147 | order and repetition of the posted texts do not matter |
| `OwnerViews.GetOrCreate` | owner_app/views.py:151-153 | afterwards the pair has one row if it had none, and otherwise its rows are untouched; nothing else changes |
| `OwnerViews.DeleteLinks` | owner_app/views.py:157-159 | afterwards no row joins the pair; nothing else changes |
| `OwnerViews.CreateLinks` | owner_app/views.py:150-153 | succeeds iff every id names an art; then each new id has exactly one row; otherwise it stops at an unknown id, and only new ids of existing arts may have gained one row |
| `OwnerViews.DeleteUnticked` | owner_app/views.py:156-159 | every unticked id loses all its rows; other counts and other exhibitions are unchanged |
| `OwnerViews.SubmitSelection` | owner_app/views.py:145-161 | fails iff a newly ticked id names no art; otherwise the linked set becomes exactly the selection, kept links keep their rows and each new one has one row; other exhibitions are untouched |
| `OwnerViews.AssignArt` | owner_app/views.py:126-171 | non-superusers are redirected; an unknown exhibition fails; GET renders the current ids; a bad id fails before any write; a POST is the submission above |
| `Records.RowsOf` | collections_app/migrations/0010_phase_b_make_variant_required_and_remove_legacy_fields.py:205 | the positions of the art's rows: increasing, and exactly those rows |
| `Records.VariantsOf` | collections_app/migrations/0010_phase_b_make_variant_required_and_remove_legacy_fields.py:205 | exactly the variants of the art, in table order: the k-th result is the row at the k-th position of `RowsOf` |
| `Records.GetOrCreateCollection` | collections_app/management/commands/map_artwork_to_art.py:54-56 | fails iff two collections match; otherwise returns a matching collection, creating one only when none exists |
| `Records.GetOrCreateVariant` | collections_app/migrations/0007_backfill_artvariants.py:19-23 | fails iff the pair is duplicated; otherwise the table is extended only by a new row carrying the defaults, and only when the pair was missing |
| `Records.GetOrCreateKeepsUnique` | collections_app/migrations/0007_backfill_artvariants.py:19-23 | on a table with unique pairs it cannot fail and keeps the pairs unique |
| `Text.LastSegment` | staticfiles/js/theme-toggle.js:61 | the result has no slash, ends the input, and follows a slash unless it is the whole input |
| `Text.Decimal2ReadsBack` | collections_app/tests.py:126-152 | a two-place rendering reads back as the amount in hundredths |
| `Text.GroupedDecimal2ReadsBack` | collections_app/tests.py:172-178 | the grouped rendering without its commas is the plain two-place rendering |
| `Text.PyIntOfNatToString` | owner_app/views.py:147 | `int(str(n)) == n` |
| `Text.PyIntOfNegative` | owner_app/views.py:147 | `int('-' + str(n)) == -n` |
| `Text.PyIntRejectsDigitless` | owner_app/views.py:147 | a text without digits does not convert |
| `Text.TrimDropsTrailing` | staticfiles/js/main.ed308f36dd0e.js:103 | a string with solid ends followed by one whitespace character trims back to itself, which removes the trailing space an empty price part leaves |

## Left out

- Tables are sequences in primary-key order. `.first()` on a queryset
  without an ordering orders it by primary key, so every such lookup
  (0010:178, 180, 208-213; test_order_snapshot.py:13-23; the command's
  candidate lookup) returns the lowest key. A `Meta.ordering` on these
  models (models.py is not part of this model) would change which row is
  picked.
- I/O is not modelled: stdout messages, `print`, `SystemExit`, template
  rendering, `fetch`, DOM lookups and `console.error`. Only the values they
  carry are.
- Carousel.OnEvent: a button or arrow-key press restarts autoplay at once.
  The source restarts it through `setTimeout(startAutoplay, 1000)`
  (featured-carousel.js:65-69), so a hover during that second is ordered
  differently. Timers and pixel geometry (`offsetLeft`, smooth scrolling)
  are not modelled; card offsets are parameters.
- Carousel.FullTurn is about the card index only. Each tick re-reads the
  index from `scrollLeft` (featured-carousel.js:19-29), and the model
  assumes every `scrollTo` comes to rest on its target card's offset. A
  browser clamps the scroll to `scrollWidth - clientWidth`, so when the
  last cards fit in the viewport the 'next' target of a card near the end
  is clamped back, the index stays put, and autoplay never wraps. That
  clamping is not modelled.
- Theme: `localStorage` failures are swallowed by the source
  (theme-toggle.js:42, 46, 65). The model always stores the value and reads
  the saved value as a parameter. A storage error that leaves the old value
  in place is not modelled.
- Catalogue.SizeDisplay, Catalogue.PriceDisplay and
  Catalogue.ArtworkList are reconstructed from the expectations in
  collections_app/tests.py:126-195 and 321-419. `get_size_display`,
  `get_price_display` and the `artwork_list` view are not part of this
  model.
- Catalogue.SizeDisplay: a zero dimension counts as unset. No test decides
  this.
- Catalogue.CurrencyText: a NULL currency prints "None", as an f-string
  would. No test decides this.
- Catalogue.MatchesSearch: the search is a case-sensitive substring match
  on title or medium. The test (tests.py:375-396) also mentions the artist,
  which the model does not search.
- Catalogue.Listed: the `min_price`/`max_price` bounds apply to
  `Art.price`, and an art without a price is outside any bound.
- OrderSnapshot.NewLine: the script creates the line without a price
  (test_order_snapshot.py:33-35). The stored `price_at_addition` depends on
  the model's `save()`, which is not part of this model. It is a parameter
  (`snapshot`) of the run.
- OrderSnapshot.Subtotal: `get_total_price()` is not part of this model.
  It is taken as the sum of `price_at_addition or 0` times the quantity.
- OrderSnapshot.Clear: `b.clear()` is not part of this model. It is taken
  to delete exactly the basket's lines.
- Records.MediumLabel: the labels come from the medium choices, which are
  not part of this model. They are "Original piece", "Printed poster" and
  "Digital copy"; the first is confirmed by main.ed308f36dd0e.js:87.
- OrderSnapshot display: `display_artwork` is a property that is not part
  of this model. It is a field of the line.
- ArtworkMapping.LinksUnique takes `artwork_link` to be one-to-one. The
  field is declared in models.py, which is not part of this model; the
  backfill's single `linked_art` accessor (map_artwork_to_art.py:119, 129)
  implies it. A second `--apply` run over an artwork that was imported
  without an artist therefore fails with `IntegrityError`, and the model
  shows that.
- ArtworkMapping.ImportedArt and ArtworkMapping.Handle assume the schema
  before 0010. The import writes `physical_available` and `physical_price`
  (map_artwork_to_art.py:65-67, "keep legacy fields for now"), which
  0010:260-275 removes. Against the final schema that `create` raises a
  TypeError on the first import under `--apply`, which the model does not
  show. The import also copies `image`, `created_at` and `updated_at`
  (map_artwork_to_art.py:62, 71-72); those columns are not modelled.
- The 0010 migration file holds three successive definitions of
  `forwards`/`Migration`. Python keeps the last one (lines 167-276), and
  that is the one modelled.
- The schema operations of 0010 (AlterField, RemoveField) are not
  modelled; only the data step is.
- OwnerViews.AssignArt does not assume `ATOMIC_REQUESTS` (no settings are
  part of this model). So links created before an IntegrityError are
  kept. The order in which the set of new ids is visited is left open. The
  failure contract therefore bounds the rows created rather than naming
  them.
- Text.PyInt accepts only ASCII digits. Python `int()` also accepts other
  Unicode decimal digits.
- MainScript.JsParseInt returns an unbounded integer. JavaScript
  `parseInt` returns a double, so values past 2^53 lose precision.
- Floating point, locale formatting (`toLocaleString`) and `Number()` on a
  string are parameters (`format`, `numberOf`) of the toast model.
- Other parts of the repository are not modelled: authentication,
  payments, images, the media app and the admin.

## Findings

| source | as written | input that shows it | evidently intended | confidence | as-written member | corrected member |
|---|---|---|---|---|---|---|
| collections_app/management/commands/sync_art_to_store.py:39-47 | an f-string followed directly by a parenthesised f-string is a call on a `str` | any run, even with no Art rows | print "Successfully synced N artworks" with the created and updated counts | high, not executed | `StoreSync.SyncArtToStoreAsWritten` | `StoreSync.SyncArtToStore`, `StoreSync.StoreSummaryReadsBack` |
| staticfiles/js/theme-toggle.js:21 | `findIndex(...) \|\| 0` keeps -1, because -1 is truthy | `getSchemeIndex('Scheme-99.css')` | fall back to index 0 for an unknown name | high, not executed | `Theme.GetSchemeIndexUnknown` | `Theme.SchemeIndexOrFirst`, `Theme.SchemeIndexAgreesWhenKnown` |
