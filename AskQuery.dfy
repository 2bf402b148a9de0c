/** The shape of a Semantic MediaWiki "ask" API reply once it has been bound
    to the plugin's record classes. Every reference-typed field of those
    classes may come out of the binding as null, so it is an `Option` here;
    `int` fields default to 0 and are never null. */
module AskQuery {
  import opened Wrappers

  /** A Java `int` / `Integer` value: the binding rejects numbers outside
      this range, so a bound item ID always lies in it. */
  type Int32 = x: int | -0x8000_0000 <= x < 0x8000_0000

  datatype Response = Response(
    queryContinueOffset: Int32,
    query: Option<Query>)

  /** `results` is a `Map<String, Results>`. The binding builds an
      insertion-ordered map, so iteration follows the order of the keys in
      the JSON document; the map is given here as that ordered sequence of
      entries. */
  datatype Query = Query(
    requests: Option<seq<Option<Request>>>,
    results: Option<seq<ResultEntry>>,
    serializer: Option<string>,
    version: Int32,
    metadata: Option<Metadata>)

  datatype ResultEntry = ResultEntry(key: string, value: Option<Results>)

  datatype Request = Request(
    printLabel: Option<string>,  // `label` in the JSON (a Dafny keyword)
    key: Option<string>,
    redi: Option<string>,
    typeid: Option<string>,
    mode: Int32)

  datatype Metadata = Metadata(
    hash: Option<string>,
    count: Int32,
    offset: Int32,
    source: Option<string>,
    time: Option<string>)

  /** The "All Item ID" printout: a `List<Integer>`, which may itself be
      null and whose elements may be JSON nulls. */
  datatype Printouts = Printouts(allItemID: Option<seq<Option<Int32>>>)

  datatype Results = Results(
    printouts: Option<Printouts>,
    fulltext: Option<string>,
    fullurl: Option<string>,
    namespace: Int32,
    pageExists: Option<string>,  // `exists` in the JSON (a Dafny keyword)
    displaytitle: Option<string>)
}
