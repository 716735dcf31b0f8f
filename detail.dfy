/**
 * The callback of the detail crawler (crawl_food_data.js): for one fetched
 * CSV export it isolates the nutrient table, parses it into rows, prunes the
 * rows, extracts the ingredients and, when all of that succeeded, stores the
 * listing stub completed with the ingredients and the nutrients.
 *
 * The HTTP response, the CSV parser and the database are outside the
 * program: the response is an input, the parser a function parameter that
 * either yields rows or fails (a rejected promise, caught by the callback),
 * and the database a store that records what is inserted.
 */
module DetailFetch {
  import opened Wrappers
  import opened Text
  import opened Listing
  import opened Extraction
  import opened NutrientRows

  /** The outcome of the request for the CSV export. */
  datatype Response = Fetched(body: string) | RequestError

  /** The outcome of parsing the nutrient table into rows. */
  datatype CsvResult = Parsed(rows: seq<Row>) | ParseError

  /** The stub after the callback has set its `ingredients` and `nutrients`; `None` is the source's `null`. */
  datatype FoodRecord = FoodRecord(stub: ItemStub, ingredients: Option<seq<string>>, nutrients: seq<Row>)

  /**
   * What the callback hands to the database for this response, if anything.
   * The test on the nutrient table is JavaScript truthiness, so the empty
   * string would count as absent; the test on the parsed rows is always true,
   * since any array is truthy.
   */
  function Forwarded(stub: ItemStub, response: Response, parse: string -> CsvResult): (r: Option<FoodRecord>)
    ensures r.Some? ==> r.value.stub == stub && response.Fetched?
    ensures r.Some? ==> r.value.ingredients == IngredientsArray(response.body)
    ensures r.Some? ==> forall i :: 0 <= i < |r.value.nutrients| ==> Clean(r.value.nutrients[i])
  {
    match response
    case RequestError => None
    case Fetched(body) =>
      match NutrientCsv(body)
      case None => None
      case Some(table) =>
        if table == [] then None
        else match parse(table)
          case ParseError => None
          case Parsed(rows) => Some(FoodRecord(stub, IngredientsArray(body), PrunedRows(rows)))
  }

  /**
   * A record is stored exactly when the export was fetched, holds a nutrient
   * table, and the table parses; it is the stub with the export's ingredients
   * and the table's rows, pruned, in order.
   */
  lemma ForwardedExactly(stub: ItemStub, response: Response, parse: string -> CsvResult)
    ensures Forwarded(stub, response, parse).Some? <==>
      response.Fetched? && NutrientCsv(response.body).Some? && parse(NutrientCsv(response.body).value).Parsed?
    ensures Forwarded(stub, response, parse).Some? ==>
      Forwarded(stub, response, parse).value
        == FoodRecord(stub, IngredientsArray(response.body), PrunedRows(parse(NutrientCsv(response.body).value).rows))
  {
    if response.Fetched? && NutrientCsv(response.body).Some? {
      NutrientCsvEnds(response.body);
    }
  }

  /** An export without a nutrient table stores nothing, whatever its ingredients. */
  lemma NoTableNoRecord(stub: ItemStub, body: string, parse: string -> CsvResult)
    requires !SpanExists(body, NutrientOpen, NutrientClose, 0)
    ensures Forwarded(stub, Fetched(body), parse).None?
  {
  }

  /** A table that parses to no rows at all is still stored, with an empty nutrient list. */
  lemma EmptyNutrientsForwarded(stub: ItemStub, body: string, parse: string -> CsvResult)
    requires NutrientCsv(body).Some? && parse(NutrientCsv(body).value) == Parsed([])
    ensures Forwarded(stub, Fetched(body), parse) == Some(FoodRecord(stub, IngredientsArray(body), []))
  {
    NutrientCsvEnds(body);
  }

  /** The database: the records inserted so far, in order. */
  class FoodStore {
    var records: seq<FoodRecord>

    constructor ()
      ensures records == []
    {
      records := [];
    }

    /** db.insert: the record is added after the earlier ones. */
    method Insert(record: FoodRecord)
      modifies this
      ensures records == old(records) + [record]
    {
      records := records + [record];
    }
  }

  /**
   * The detail callback itself: the nutrient table is looked up, parsed into
   * a fresh array of rows, pruned in place, and the completed record is
   * inserted; every failure leaves the store as it was.
   */
  method OnDetail(store: FoodStore, stub: ItemStub, response: Response, parse: string -> CsvResult)
    modifies store
    ensures store.records == old(store.records) + match Forwarded(stub, response, parse)
                                                  case Some(record) => [record]
                                                  case None => []
  {
    if response.RequestError? {
      return;
    }
    var body := response.body;
    var table := NutrientCsv(body);
    if table.None? || table.value == [] {
      return;
    }
    var parsed := parse(table.value);
    if parsed.ParseError? {
      return;
    }
    var rows := parsed.rows;
    var json := new Row[|rows|](i requires 0 <= i < |rows| => rows[i]);
    assert json[..] == rows;
    json := RemoveUnnecessaryFields(json);
    var ingredients := IngredientsArray(body);
    store.Insert(FoodRecord(stub, ingredients, json[..]));
  }
}
