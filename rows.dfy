/** From the rows of one page of search results to the offers the watcher
    evaluates: the body of `fetch_games_from_search` after the page has
    been fetched. */
module Rows {
  import opened Results
  import opened Prices

  /** The raw text the markup extractor finds in one `.search_result_row`:
      the `data-ds-appid` attribute and the `.title`, `.discount_pct`,
      `.discount_original_price` and `.discount_final_price` texts, each
      None when the row has no such attribute or element. */
  datatype RawRow = RawRow(
    appId: Option<string>,
    title: Option<string>,
    discountTag: Option<string>,
    originalTag: Option<string>,
    finalTag: Option<string>)

  /** What one search request yields: the rows of the `results_html` field
      of the JSON envelope, or an envelope `json.loads` refuses. */
  datatype Page = Envelope(rows: seq<RawRow>) | MalformedJson

  /** One catalog item as the watcher evaluates it, prices in cents. */
  datatype Offer = Offer(id: string, name: string, discount: int, initialCents: int, finalCents: int)

  /** An exception that escapes the page normalisation: a row without a
      `.title` (AttributeError) or a number `int`/`float` refuses
      (ValueError). Neither is caught anywhere. */
  datatype RowError = MissingTitle | BadNumber(cause: ValueError)

  /** Rows without a (non-empty) app id are skipped. */
  predicate HasId(row: RawRow) {
    row.appId.Some? && row.appId.value != ""
  }

  /** The offer a row with an id describes: its name, then its discount,
      original price and final price are read in that order, and the first
      that fails raises. */
  function BuildOffer(row: RawRow): (r: Result<Offer, RowError>)
    requires HasId(row)
    ensures r.Ok? <==> (row.title.Some? && ParseDiscount(row.discountTag).Ok?
                        && ParseOriginalPrice(row.originalTag).Ok? && ParseFinalPrice(row.finalTag).Ok?)
    ensures r.Ok? ==> r.value == Offer(row.appId.value, row.title.value,
      ParseDiscount(row.discountTag).value, ParseOriginalPrice(row.originalTag).value,
      ParseFinalPrice(row.finalTag).value)
    ensures r.Ok? ==> r.value.id != ""
    ensures row.title.None? ==> r == Err(MissingTitle)
  {
    if row.title.None? then Err(MissingTitle)
    else match ParseDiscount(row.discountTag)
      case Err(e) => Err(BadNumber(e))
      case Ok(discount) =>
        match ParseOriginalPrice(row.originalTag)
        case Err(e) => Err(BadNumber(e))
        case Ok(initial) =>
          match ParseFinalPrice(row.finalTag)
          case Err(e) => Err(BadNumber(e))
          case Ok(current) => Ok(Offer(row.appId.value, row.title.value, discount, initial, current))
  }

  /** A row that raises while it is read. */
  predicate Fails(row: RawRow) {
    HasId(row) && BuildOffer(row).Err?
  }

  /** The offers of a page's rows in order, skipping rows without an id;
      the first row that raises aborts the whole page. */
  function NormalizeRows(rows: seq<RawRow>): Result<seq<Offer>, RowError> {
    if rows == [] then Ok([])
    else
      match NormalizeRows(rows[..|rows| - 1])
      case Err(e) => Err(e)
      case Ok(games) =>
        var row := rows[|rows| - 1];
        if !HasId(row) then Ok(games)
        else match BuildOffer(row)
          case Err(e) => Err(e)
          case Ok(game) => Ok(games + [game])
  }

  /** What `fetch_games_from_search` returns for a fetched page; a malformed
      envelope is logged and reads as an empty page. */
  function PageGames(page: Page): Result<seq<Offer>, RowError> {
    match page
    case MalformedJson => Ok([])
    case Envelope(rows) => NormalizeRows(rows)
  }

  /** The number of rows with an id. */
  function CountWithId(rows: seq<RawRow>): (n: nat)
    ensures n <= |rows|
  {
    if rows == [] then 0
    else CountWithId(rows[..|rows| - 1]) + (if HasId(rows[|rows| - 1]) then 1 else 0)
  }

  /** Every row of a page has an id exactly when none is skipped. */
  lemma {:induction false} CountWithIdAll(rows: seq<RawRow>)
    ensures CountWithId(rows) == |rows| <==> forall i :: 0 <= i < |rows| ==> HasId(rows[i])
  {
    if rows != [] {
      var init := rows[..|rows| - 1];
      CountWithIdAll(init);
      if CountWithId(rows) == |rows| {
        forall i | 0 <= i < |rows| ensures HasId(rows[i]) {
          if i < |init| {
            assert init[i] == rows[i];
          }
        }
      }
    }
  }

  /** The page normalisation loop: each row with an id is read and appended
      to the page's list of games; a row that raises ends the page. */
  method FetchGames(page: Page) returns (r: Result<seq<Offer>, RowError>)
    ensures r == PageGames(page)
  {
    if page.MalformedJson? {
      return Ok([]);
    }
    var rows := page.rows;
    var games: seq<Offer> := [];
    for i := 0 to |rows|
      invariant NormalizeRows(rows[..i]) == Ok(games)
    {
      assert rows[..i + 1][..i] == rows[..i];
      var row := rows[i];
      if !HasId(row) {
        continue;
      }
      var built := BuildOffer(row);
      if built.Err? {
        NormalizeRowsErrStays(rows, i + 1);
        return Err(built.error);
      }
      games := games + [built.value];
    }
    assert rows[..|rows|] == rows;
    return Ok(games);
  }

  /** Once a prefix of the rows raises, the whole page raises the same. */
  lemma {:induction false} NormalizeRowsErrStays(rows: seq<RawRow>, k: nat)
    requires k <= |rows| && NormalizeRows(rows[..k]).Err?
    ensures NormalizeRows(rows) == NormalizeRows(rows[..k])
    decreases |rows| - k
  {
    if k < |rows| {
      assert rows[..k + 1][..k] == rows[..k];
      NormalizeRowsErrStays(rows, k + 1);
    } else {
      assert rows[..k] == rows;
    }
  }

  /** A normalised page holds one offer per row with an id, in row order:
      the row at index i lands at the position counting the rows with an id
      before it, and every offer carries a non-empty id. */
  lemma {:induction false} NormalizeRowsKept(rows: seq<RawRow>, games: seq<Offer>)
    requires NormalizeRows(rows) == Ok(games)
    ensures |games| == CountWithId(rows)
    ensures forall i :: 0 <= i < |rows| && HasId(rows[i]) ==>
      CountWithId(rows[..i]) < |games| && Ok(games[CountWithId(rows[..i])]) == BuildOffer(rows[i])
    ensures forall k :: 0 <= k < |games| ==> games[k].id != ""
  {
    if rows != [] {
      var init := rows[..|rows| - 1];
      var last := rows[|rows| - 1];
      var prev := NormalizeRows(init).value;
      NormalizeRowsKept(init, prev);
      forall i | 0 <= i < |rows| && HasId(rows[i])
        ensures CountWithId(rows[..i]) < |games| && Ok(games[CountWithId(rows[..i])]) == BuildOffer(rows[i])
      {
        if i < |rows| - 1 {
          assert rows[..i] == init[..i] && rows[i] == init[i];
        } else {
          assert rows[..i] == init;
        }
      }
    }
  }

  /** A page raises exactly when one of its rows with an id raises, and the
      error is that of the first such row. */
  lemma {:induction false} NormalizeRowsFails(rows: seq<RawRow>)
    ensures NormalizeRows(rows).Err? <==> exists i :: 0 <= i < |rows| && Fails(rows[i])
    ensures NormalizeRows(rows).Err? ==>
      exists i :: (0 <= i < |rows| && Fails(rows[i])
                   && BuildOffer(rows[i]) == Err(NormalizeRows(rows).error)
                   && forall j :: 0 <= j < i ==> !Fails(rows[j]))
  {
    if rows != [] {
      var init := rows[..|rows| - 1];
      NormalizeRowsFails(init);
      if NormalizeRows(init).Err? {
        var i :| 0 <= i < |init| && Fails(init[i])
          && BuildOffer(init[i]) == Err(NormalizeRows(init).error)
          && forall j :: 0 <= j < i ==> !Fails(init[j]);
        assert rows[i] == init[i];
        assert forall j :: 0 <= j < i ==> rows[j] == init[j];
      } else {
        assert forall j :: 0 <= j < |init| ==> !Fails(rows[j]) by {
          forall j | 0 <= j < |init| ensures !Fails(rows[j]) {
            assert rows[j] == init[j];
          }
        }
      }
    }
  }
}
