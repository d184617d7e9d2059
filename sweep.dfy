/** One sweep of the catalog, `check_steam_discounts`: search pages are
    fetched at offsets 0, 100, 200, ... and every offer of a page goes
    through `process_game`, until a page comes back empty or with a number
    of offers other than 100; the ledger is then saved. */
module Sweep {
  import opened Results
  import opened Numerals
  import opened Prices
  import opened Rows
  import opened Ledger

  /** Offers requested per search page (`count=100`). */
  const PageSize := 100

  /** What reading each page of the catalog gives: its offers, or the
      exception a row raised. */
  type PageReads = seq<Result<seq<Offer>, RowError>>

  /** The fetches of the catalog's `pages`, page by page. */
  function ReadPages(pages: seq<Page>): (r: PageReads)
    ensures |r| == |pages| && forall i :: 0 <= i < |r| ==> r[i] == PageGames(pages[i])
  {
    seq(|pages|, i requires 0 <= i < |pages| => PageGames(pages[i]))
  }

  /** The read of the request at offset `PageSize * index`; past the end of
      the catalog the search returns no rows. */
  function ReadAt(fetches: PageReads, index: nat): Result<seq<Offer>, RowError> {
    if index < |fetches| then fetches[index] else Ok([])
  }

  /** How a sweep ends: normally, with the ledger to save, or with an
      exception out of a page, in which case nothing is saved. Either way
      the announcements made so far have gone out, and `fetched` pages were
      requested. */
  datatype Outcome =
    | Finished(published: map<string, int>, announced: seq<Announcement>, fetched: nat)
    | Crashed(error: RowError, announced: seq<Announcement>, fetched: nat)

  /** The sweep from page `index` on, given the ledger and the announcements
      so far. */
  function SweepFrom(fetches: PageReads, index: nat, published: map<string, int>,
                     announced: seq<Announcement>): Outcome
    decreases |fetches| - index
  {
    match ReadAt(fetches, index)
    case Err(e) => Crashed(e, announced, index + 1)
    case Ok(games) =>
      if games == [] then Finished(published, announced, index + 1)
      else
        var batch := ProcessAll(published, games);
        if |games| == PageSize then
          SweepFrom(fetches, index + 1, batch.published, announced + batch.announced)
        else Finished(batch.published, announced + batch.announced, index + 1)
  }

  /** A whole sweep, starting from the ledger loaded from disk (empty when
      there is no file yet). */
  function Sweep(fetches: PageReads, loaded: map<string, int>): Outcome {
    SweepFrom(fetches, 0, loaded, [])
  }

  /** `check_steam_discounts`: the pagination loop, with `process_game`
      applied in place to the sweep's ledger. */
  method CheckSteamDiscounts(pages: seq<Page>, loaded: map<string, int>) returns (outcome: Outcome)
    ensures outcome == Sweep(ReadPages(pages), loaded)
  {
    ghost var fetches := ReadPages(pages);
    var ledger := new OfferLedger(loaded);
    var start := 0;
    var fetched := 0;
    var announced: seq<Announcement> := [];
    var hasMoreResults := true;
    while hasMoreResults
      invariant hasMoreResults ==> start == PageSize * fetched && fetched <= |pages|
      invariant hasMoreResults ==> SweepFrom(fetches, fetched, ledger.published, announced) == Sweep(fetches, loaded)
      invariant !hasMoreResults ==> Finished(ledger.published, announced, fetched) == Sweep(fetches, loaded)
      decreases hasMoreResults, |pages| - fetched
    {
      PageAtOffset(pages, fetched, start);
      var page := if start / PageSize < |pages| then pages[start / PageSize] else Envelope([]);
      var searchResults := FetchGames(page);
      if searchResults.Err? {
        return Crashed(searchResults.error, announced, fetched + 1);
      }
      var games := searchResults.value;
      if games != [] {
        SweepFromPage(fetches, fetched, ledger.published, announced, games);
        var messages := ProcessPage(ledger, games);
        announced := announced + messages;
        start := start + PageSize;
        hasMoreResults := |games| == PageSize;
        if hasMoreResults {
          PastTheEndIsEmpty(fetches, fetched);
        }
      } else {
        hasMoreResults := false;
      }
      fetched := fetched + 1;
    }
    return Finished(ledger.published, announced, fetched);
  }

  /** `process_game` on each offer of a page, in order; the messages sent
      are the announcements made. */
  method ProcessPage(ledger: OfferLedger, games: seq<Offer>) returns (messages: seq<Announcement>)
    modifies ledger
    ensures Batch(ledger.published, messages) == ProcessAll(old(ledger.published), games)
  {
    messages := [];
    for i := 0 to |games|
      invariant Batch(ledger.published, messages) == ProcessAll(old(ledger.published), games[..i])
    {
      assert games[..i + 1][..i] == games[..i];
      var message := ledger.ProcessGame(games[i]);
      messages := messages + OptionToSeq(message);
    }
    assert games[..|games|] == games;
  }

  /** The request at offset `start` reads page `start / PageSize`. */
  lemma PageAtOffset(pages: seq<Page>, index: nat, start: int)
    requires start == PageSize * index
    ensures start / PageSize == index
    ensures PageGames(if index < |pages| then pages[index] else Envelope([])) == ReadAt(ReadPages(pages), index)
  {
  }

  /** A page with offers moves the ledger and the announcements on by the
      page's batch, and the sweep goes on exactly when the page is full. */
  lemma SweepFromPage(fetches: PageReads, index: nat, published: map<string, int>,
                      announced: seq<Announcement>, games: seq<Offer>)
    requires ReadAt(fetches, index) == Ok(games) && games != []
    ensures var batch := ProcessAll(published, games);
      SweepFrom(fetches, index, published, announced)
        == if |games| == PageSize then SweepFrom(fetches, index + 1, batch.published, announced + batch.announced)
           else Finished(batch.published, announced + batch.announced, index + 1)
  {
  }

  /** Past the end of the catalog the search finds no offers. */
  lemma PastTheEndIsEmpty(fetches: PageReads, index: nat)
    requires ReadAt(fetches, index) != Ok([])
    ensures index < |fetches|
  {
  }

  /** A page that keeps the sweep going: it fetches without error and holds
      exactly `PageSize` offers (counted after rows without an id are
      dropped). */
  predicate FullPage(fetches: PageReads, index: nat) {
    var r := ReadAt(fetches, index);
    r.Ok? && |r.value| == PageSize
  }

  /** The stopping rule: a sweep fetches pages in order up to and including
      the first page that is not full, and no further; that page either
      raises, which crashes the sweep, or holds other than 100 offers (none
      at all included), which ends it. At most one page past the end of the
      catalog is fetched. */
  lemma {:induction false} SweepFromStops(fetches: PageReads, index: nat, published: map<string, int>,
                                          announced: seq<Announcement>)
    ensures var o := SweepFrom(fetches, index, published, announced);
      index < o.fetched <= (if index < |fetches| then |fetches| + 1 else index + 1)
    ensures var o := SweepFrom(fetches, index, published, announced);
      var last := ReadAt(fetches, o.fetched - 1);
      && (forall j :: index <= j < o.fetched - 1 ==> FullPage(fetches, j))
      && !FullPage(fetches, o.fetched - 1)
      && (o.Crashed? <==> last.Err?)
      && (o.Crashed? ==> o.error == last.error)
    decreases |fetches| - index
  {
    var r := ReadAt(fetches, index);
    if r.Ok? && r.value != [] && |r.value| == PageSize {
      PastTheEndIsEmpty(fetches, index);
      var batch := ProcessAll(published, r.value);
      SweepFromStops(fetches, index + 1, batch.published, announced + batch.announced);
    }
  }

  /** The offers of the page at `index`, none if it raised. */
  function PageOffers(fetches: PageReads, index: nat): seq<Offer> {
    match ReadAt(fetches, index)
    case Ok(games) => games
    case Err(_) => []
  }

  /** The offers of pages `lo` to `hi - 1`, in order. */
  function OffersBetween(fetches: PageReads, lo: nat, hi: nat): seq<Offer>
    decreases hi - lo
  {
    if hi <= lo then [] else OffersBetween(fetches, lo, hi - 1) + PageOffers(fetches, hi - 1)
  }

  lemma {:induction false} OffersBetweenFirst(fetches: PageReads, lo: nat, hi: nat)
    requires lo < hi
    ensures OffersBetween(fetches, lo, hi) == PageOffers(fetches, lo) + OffersBetween(fetches, lo + 1, hi)
    decreases hi - lo
  {
    if lo + 1 < hi {
      OffersBetweenFirst(fetches, lo, hi - 1);
      var first, middle, last := PageOffers(fetches, lo), OffersBetween(fetches, lo + 1, hi - 1),
                                 PageOffers(fetches, hi - 1);
      assert (first + middle) + last == first + (middle + last);
    } else {
      assert OffersBetween(fetches, lo + 1, hi) == [];
      assert OffersBetween(fetches, lo, hi) == [] + PageOffers(fetches, lo);
    }
  }

  /** After a full page the sweep goes on with the next one, with that
      page's offers processed. */
  lemma FullPageContinues(fetches: PageReads, index: nat, published: map<string, int>,
                          announced: seq<Announcement>)
    requires FullPage(fetches, index)
    ensures index < |fetches|
    ensures var batch := ProcessAll(published, PageOffers(fetches, index));
      SweepFrom(fetches, index, published, announced)
        == SweepFrom(fetches, index + 1, batch.published, announced + batch.announced)
  {
  }

  /** A sweep fetches at least the page it starts from. */
  lemma {:induction false} SweepFromFetches(fetches: PageReads, index: nat, published: map<string, int>,
                                            announced: seq<Announcement>)
    ensures SweepFrom(fetches, index, published, announced).fetched > index
    decreases |fetches| - index
  {
    var r := ReadAt(fetches, index);
    if r.Ok? && r.value != [] && |r.value| == PageSize {
      var batch := ProcessAll(published, r.value);
      SweepFromFetches(fetches, index + 1, batch.published, announced + batch.announced);
    }
  }

  /** A finished sweep is the left fold of `process_game` over the offers
      of the pages it fetched, in order: it saves the ledger that fold
      leaves, and has made that fold's announcements. */
  lemma {:induction false} FinishedSweepIsFold(fetches: PageReads, index: nat, published: map<string, int>,
                                               announced: seq<Announcement>)
    requires SweepFrom(fetches, index, published, announced).Finished?
    ensures var o := SweepFrom(fetches, index, published, announced);
      var b := ProcessAll(published, OffersBetween(fetches, index, o.fetched));
      o.published == b.published && o.announced == announced + b.announced
    decreases |fetches| - index
  {
    var o := SweepFrom(fetches, index, published, announced);
    var games := PageOffers(fetches, index);
    if FullPage(fetches, index) {
      PastTheEndIsEmpty(fetches, index);
      var batch := ProcessAll(published, games);
      var announced' := announced + batch.announced;
      FullPageContinues(fetches, index, published, announced);
      FinishedSweepIsFold(fetches, index + 1, batch.published, announced');
      SweepFromFetches(fetches, index + 1, batch.published, announced');
      var rest := OffersBetween(fetches, index + 1, o.fetched);
      assert OffersBetween(fetches, index, o.fetched) == games + rest by {
        OffersBetweenFirst(fetches, index, o.fetched);
      }
      FoldInTwo(published, announced, games, rest);
    } else {
      LastPageIsFold(fetches, index, published, announced);
    }
  }

  /** Folding a page and then the rest of the run, carrying the
      announcements made before, is folding the whole run. */
  lemma FoldInTwo(published: map<string, int>, announced: seq<Announcement>, games: seq<Offer>,
                  rest: seq<Offer>)
    ensures var batch := ProcessAll(published, games);
      var c := ProcessAll(batch.published, rest);
      var whole := ProcessAll(published, games + rest);
      c.published == whole.published && (announced + batch.announced) + c.announced == announced + whole.announced
  {
    ProcessAllAppend(published, games, rest);
    var batch := ProcessAll(published, games);
    var c := ProcessAll(batch.published, rest);
    assert (announced + batch.announced) + c.announced == announced + (batch.announced + c.announced);
  }

  /** The page that ends a sweep normally is folded in like any other. */
  lemma LastPageIsFold(fetches: PageReads, index: nat, published: map<string, int>,
                       announced: seq<Announcement>)
    requires !FullPage(fetches, index) && SweepFrom(fetches, index, published, announced).Finished?
    ensures var o := SweepFrom(fetches, index, published, announced);
      var b := ProcessAll(published, OffersBetween(fetches, index, o.fetched));
      o.published == b.published && o.announced == announced + b.announced
  {
    var o := SweepFrom(fetches, index, published, announced);
    var games := PageOffers(fetches, index);
    assert o.fetched == index + 1;
    assert OffersBetween(fetches, index, index + 1) == games by {
      assert OffersBetween(fetches, index, index) == [];
      assert [] + games == games;
    }
    if games == [] {
      assert ProcessAll(published, []) == Batch(published, []);
      assert announced + [] == announced;
    } else {
      var batch := ProcessAll(published, games);
      assert o == Finished(batch.published, announced + batch.announced, index + 1);
    }
  }

  /** A sweep that crashed has made the announcements of the fold of
      `process_game` over the pages it fetched, the last of which, the one
      that raised, adds no offers. */
  lemma {:induction false} CrashedSweepIsFold(fetches: PageReads, index: nat, published: map<string, int>,
                                              announced: seq<Announcement>)
    requires SweepFrom(fetches, index, published, announced).Crashed?
    ensures var o := SweepFrom(fetches, index, published, announced);
      o.announced == announced + ProcessAll(published, OffersBetween(fetches, index, o.fetched)).announced
    decreases |fetches| - index
  {
    var o := SweepFrom(fetches, index, published, announced);
    var games := PageOffers(fetches, index);
    if FullPage(fetches, index) {
      PastTheEndIsEmpty(fetches, index);
      var batch := ProcessAll(published, games);
      var announced' := announced + batch.announced;
      FullPageContinues(fetches, index, published, announced);
      CrashedSweepIsFold(fetches, index + 1, batch.published, announced');
      SweepFromFetches(fetches, index + 1, batch.published, announced');
      var rest := OffersBetween(fetches, index + 1, o.fetched);
      assert OffersBetween(fetches, index, o.fetched) == games + rest by {
        OffersBetweenFirst(fetches, index, o.fetched);
      }
      FoldInTwo(published, announced, games, rest);
    } else {
      CrashPageIsFold(fetches, index, published, announced);
    }
  }

  /** The page that raises adds no announcement. */
  lemma CrashPageIsFold(fetches: PageReads, index: nat, published: map<string, int>,
                        announced: seq<Announcement>)
    requires !FullPage(fetches, index) && SweepFrom(fetches, index, published, announced).Crashed?
    ensures var o := SweepFrom(fetches, index, published, announced);
      o.fetched == index + 1 &&
      o.announced == announced + ProcessAll(published, OffersBetween(fetches, index, index + 1)).announced
  {
    assert OffersBetween(fetches, index, index + 1) == [] + [] by {
      assert OffersBetween(fetches, index, index) == [];
    }
    assert ProcessAll(published, []).announced == [];
    assert announced + [] == announced;
  }

  /** The whole sweep: which pages it fetches, and what it saves and
      announces. */
  lemma SweepSummary(fetches: PageReads, loaded: map<string, int>)
    ensures var o := Sweep(fetches, loaded);
      && 1 <= o.fetched <= |fetches| + 1
      && (forall j :: 0 <= j < o.fetched - 1 ==> FullPage(fetches, j))
      && !FullPage(fetches, o.fetched - 1)
      && (o.Crashed? <==> ReadAt(fetches, o.fetched - 1).Err?)
    ensures var o := Sweep(fetches, loaded);
      o.Finished? ==> Batch(o.published, o.announced) == ProcessAll(loaded, OffersBetween(fetches, 0, o.fetched))
    ensures var o := Sweep(fetches, loaded);
      o.Finished? ==> loaded.Keys <= o.published.Keys
    ensures var o := Sweep(fetches, loaded);
      o.Crashed? ==> (PageOffers(fetches, o.fetched - 1) == [] &&
                      o.announced == ProcessAll(loaded, OffersBetween(fetches, 0, o.fetched)).announced)
  {
    var o := Sweep(fetches, loaded);
    SweepFromStops(fetches, 0, loaded, []);
    if o.Finished? {
      FinishedSweepIsFold(fetches, 0, loaded, []);
      assert [] + ProcessAll(loaded, OffersBetween(fetches, 0, o.fetched)).announced
          == ProcessAll(loaded, OffersBetween(fetches, 0, o.fetched)).announced;
      ProcessAllGrows(loaded, OffersBetween(fetches, 0, o.fetched));
    } else {
      CrashedSweepIsFold(fetches, 0, loaded, []);
      assert [] + ProcessAll(loaded, OffersBetween(fetches, 0, o.fetched)).announced
          == ProcessAll(loaded, OffersBetween(fetches, 0, o.fetched)).announced;
    }
  }

  /** Which pages a sweep fetches, and whether it crashes, depend on the
      pages alone, not on the ledger it starts from. */
  lemma {:induction false} SweepFromShape(fetches: PageReads, index: nat,
                                          published: map<string, int>, announced: seq<Announcement>,
                                          published': map<string, int>, announced': seq<Announcement>)
    ensures var o, o' := SweepFrom(fetches, index, published, announced),
                         SweepFrom(fetches, index, published', announced');
      o.fetched == o'.fetched && o.Finished? == o'.Finished?
    decreases |fetches| - index
  {
    if FullPage(fetches, index) {
      var games := PageOffers(fetches, index);
      var batch, batch' := ProcessAll(published, games), ProcessAll(published', games);
      FullPageContinues(fetches, index, published, announced);
      FullPageContinues(fetches, index, published', announced');
      SweepFromShape(fetches, index + 1, batch.published, announced + batch.announced,
                     batch'.published, announced' + batch'.announced);
    }
  }

  lemma SweepShapeIgnoresLedger(fetches: PageReads, loaded: map<string, int>, loaded': map<string, int>)
    ensures Sweep(fetches, loaded).fetched == Sweep(fetches, loaded').fetched
    ensures Sweep(fetches, loaded).Finished? == Sweep(fetches, loaded').Finished?
  {
    SweepFromShape(fetches, 0, loaded, [], loaded', []);
  }

  /** Two full pages and a third with 37 offers: three pages are fetched
      and the sweep ends normally. */
  lemma ShortThirdPage(fetches: PageReads, loaded: map<string, int>)
    requires |fetches| == 3 && FullPage(fetches, 0) && FullPage(fetches, 1)
    requires fetches[2].Ok? && |fetches[2].value| == 37
    ensures Sweep(fetches, loaded).Finished? && Sweep(fetches, loaded).fetched == 3
  {
    SweepSummary(fetches, loaded);
    assert !FullPage(fetches, 2);
  }

  /** A full page followed by an empty one: two pages are fetched and the
      sweep ends normally. */
  lemma EmptySecondPage(fetches: PageReads, loaded: map<string, int>)
    requires |fetches| == 2 && FullPage(fetches, 0) && fetches[1] == Ok([])
    ensures Sweep(fetches, loaded).Finished? && Sweep(fetches, loaded).fetched == 2
  {
    SweepSummary(fetches, loaded);
    assert !FullPage(fetches, 1);
  }

  /** The stopping rule counts offers after rows without an id are
      skipped: a first page of 100 rows one of which has no id ends the
      sweep, however many pages follow. */
  lemma RowWithoutIdEndsSweep(pages: seq<Page>, loaded: map<string, int>, i: nat)
    requires |pages| >= 1 && pages[0].Envelope? && |pages[0].rows| == PageSize
    requires i < PageSize && !HasId(pages[0].rows[i])
    ensures Sweep(ReadPages(pages), loaded).fetched == 1
  {
    var fetches := ReadPages(pages);
    var rows := pages[0].rows;
    CountWithIdAll(rows);
    if NormalizeRows(rows).Ok? {
      NormalizeRowsKept(rows, NormalizeRows(rows).value);
    }
    assert !FullPage(fetches, 0);
    SweepSummary(fetches, loaded);
  }

  /** Sweeping again over the same catalog, from the ledger the first sweep
      saved, announces nothing and saves the same ledger, provided no offer
      was listed twice with different eligible prices. */
  lemma SecondSweepIsSilent(fetches: PageReads, loaded: map<string, int>)
    requires Sweep(fetches, loaded).Finished?
    requires ConsistentPrices(OffersBetween(fetches, 0, Sweep(fetches, loaded).fetched))
    ensures var first := Sweep(fetches, loaded);
      Sweep(fetches, first.published) == Finished(first.published, [], first.fetched)
  {
    var first := Sweep(fetches, loaded);
    var offers := OffersBetween(fetches, 0, first.fetched);
    SweepSummary(fetches, loaded);
    SweepShapeIgnoresLedger(fetches, loaded, first.published);
    var second := Sweep(fetches, first.published);
    SweepSummary(fetches, first.published);
    SecondRunIsSilent(loaded, offers);
  }

  /** A catalog of one row, as the store prints it: "-d%", then the
      original and final prices as "R$ 1.234,56". */
  function ListedRow(id: string, name: string, discount: nat, initial: nat, final: nat): RawRow {
    RawRow(Some(id), Some(name), Some("-" + DecimalString(discount) + "%"),
           Some(BrlText(initial, ' ')), Some(BrlText(final, ' ')))
  }

  /** A listed row reads back as the offer it lists. */
  lemma ListedRowReads(id: string, name: string, discount: nat, initial: nat, final: nat)
    requires id != ""
    ensures BuildOffer(ListedRow(id, name, discount, initial, final)) == Ok(Offer(id, name, discount, initial, final))
  {
    DiscountLabel(discount);
    BrlPriceRoundTrip(initial, ' ');
    BrlPriceRoundTrip(final, ' ');
  }

  /** A catalog of a single eligible offer: a first sweep on an empty
      ledger announces it once and saves its final price; a second sweep is
      silent. */
  lemma SingleOfferSweeps(fetches: PageReads, offer: Offer)
    requires fetches == [Ok([offer])] && offer.id != "" && Eligible(offer)
    ensures Sweep(fetches, map[]) == Finished(map[offer.id := offer.finalCents], [AnnouncementOf(offer)], 1)
    ensures Sweep(fetches, map[offer.id := offer.finalCents]) == Finished(map[offer.id := offer.finalCents], [], 1)
  {
    var entry := map[offer.id := offer.finalCents];
    assert [offer][..0] == [];
    assert ProcessAll(map[], [offer]) == Batch(entry, [AnnouncementOf(offer)]);
    assert ProcessAll(entry, [offer]) == Batch(entry, []);
    assert [] + [AnnouncementOf(offer)] == [AnnouncementOf(offer)];
  }

  /** End to end: on an empty ledger, a discounted game that cost at least
      R$ 100,00 is announced once, with the prices the store printed, and
      its final price is saved; the next sweep is silent. */
  lemma ListedOfferAnnouncedOnce(id: string, name: string, discount: nat, initial: nat, final: nat)
    requires id != "" && discount > 0 && initial >= MinInitialCents
    ensures var fetches := ReadPages([Envelope([ListedRow(id, name, discount, initial, final)])]);
      && Sweep(fetches, map[]) == Finished(map[id := final], [Announcement(id, name, discount, final, initial)], 1)
      && Sweep(fetches, map[id := final]) == Finished(map[id := final], [], 1)
  {
    ListedRowReads(id, name, discount, initial, final);
    OneRowPage(ListedRow(id, name, discount, initial, final), Offer(id, name, discount, initial, final));
    SingleOfferSweeps(ReadPages([Envelope([ListedRow(id, name, discount, initial, final)])]),
                      Offer(id, name, discount, initial, final));
  }

  /** A page of one row that reads as an offer reads as that offer. */
  lemma OneRowPage(row: RawRow, offer: Offer)
    requires HasId(row) && BuildOffer(row) == Ok(offer)
    ensures ReadPages([Envelope([row])]) == [Ok([offer])]
  {
    assert [row][..0] == [];
    assert NormalizeRows([row]) == Ok([] + [offer]);
    assert [] + [offer] == [offer];
    var r := ReadPages([Envelope([row])]);
    assert |r| == 1 && r[0] == Ok([offer]);
  }
}
