/** The RuneLite plugin that turns a monster's drop table on the Old School
    RuneScape wiki into a bank tag: it builds the wiki "ask" query for the
    monster, extracts the distinct item IDs from the reply, tags each item and
    creates a bank tab for the tag.

    The pure parts (query construction, ID extraction, chat texts) are
    functions; the parts that call into RuneLite are methods of `Plugin`,
    whose fields stand for the collaborators' state. */
module WikiTaggerPlugin {
  import opened Wrappers
  import opened AskQuery
  import Streams
  import FormUrlEncoding

  // ---------------------------------------------------------------------------
  // Query construction

  /** `WIKI_API` is a format string with one `%s`; these are the text before
      and after it. */
  const WikiApiPrefix := "https://oldschool.runescape.wiki/api.php?action=ask&query="
  const WikiApiSuffix := "|+limit=2000&format=json"

  const DropQueryPrefix := "[[Dropped from::"
  const DropQuerySuffix := "]]|?Dropped item.All+Item+ID"

  /** `String.format(WIKI_API, query)`: the query spliced into the
      template. */
  function CreateQueryURL(query: string): string
  {
    WikiApiPrefix + query + WikiApiSuffix
  }

  /** The semantic query of `getDropIDs`: the pages that record a drop from
      the (form-encoded) monster, printing each dropped item's IDs. */
  function DropQuery(monster: string): string
  {
    DropQueryPrefix + FormUrlEncoding.Encode(monster) + DropQuerySuffix
  }

  /** The URL that `getDropIDs(monster)` requests. */
  function QueryURL(monster: string): string
  {
    CreateQueryURL(DropQuery(monster))
  }

  /** The URL has one fixed shape: the template around the query expression,
      with the encoded monster name as the only variable part. That part
      holds no space; the spaces of the URL are those of the template's
      property names. */
  lemma QueryURLShape(monster: string)
    ensures var url := QueryURL(monster);
      var start := |WikiApiPrefix| + |DropQueryPrefix|;
      var end := |url| - |DropQuerySuffix| - |WikiApiSuffix|;
      && start <= end
      && url[..start] == WikiApiPrefix + DropQueryPrefix
      && url[start..end] == FormUrlEncoding.Encode(monster)
      && url[end..] == DropQuerySuffix + WikiApiSuffix
      && forall k :: start <= k < end ==> url[k] != ' '
  {
    var e := FormUrlEncoding.Encode(monster);
    FormUrlEncoding.EncodeHasNoSpace(monster);
    Splice(WikiApiPrefix + DropQueryPrefix, e, DropQuerySuffix + WikiApiSuffix);
    assert QueryURL(monster) == (WikiApiPrefix + DropQueryPrefix) + e + (DropQuerySuffix + WikiApiSuffix);
  }

  /** The three parts of `p + e + q` can be cut back out of it. */
  lemma Splice(p: string, e: string, q: string)
    ensures var u := p + e + q;
      && u[..|p|] == p
      && u[|p|..|p| + |e|] == e
      && u[|p| + |e|..] == q
      && forall k :: |p| <= k < |p| + |e| ==> u[k] == e[k - |p|]
  {
  }

  /** Different monsters are looked up under different URLs. */
  lemma QueryURLInjective(m1: string, m2: string)
    requires QueryURL(m1) == QueryURL(m2)
    ensures m1 == m2
  {
    QueryURLShape(m1);
    QueryURLShape(m2);
    FormUrlEncoding.EncodeInjective(m1, m2);
  }

  /** The names of the plugin's test: a space becomes `+`, an underscore is
      kept, a plain word is unchanged. */
  lemma EncodeTestNames()
    ensures FormUrlEncoding.Encode("rune dragon") == "rune+dragon"
    ensures FormUrlEncoding.Encode("rune_dragon") == "rune_dragon"
    ensures FormUrlEncoding.Encode("imp") == "imp"
  {
    PlainExample("rune dragon", "rune+dragon");
    PlainExample("rune_dragon", "rune_dragon");
    PlainExample("imp", "imp");
  }

  lemma PlainExample(s: string, t: string)
    requires || (s == "rune dragon" && t == "rune+dragon")
             || (s == "rune_dragon" && t == "rune_dragon")
             || (s == "imp" && t == "imp")
    ensures FormUrlEncoding.Encode(s) == t
  {
    assert |s| == |t|;
    assert forall k :: 0 <= k < |s| ==> FormUrlEncoding.PlainEncoding(s[k], t[k]);
    FormUrlEncoding.EncodePlainName(s, t);
  }

  // ---------------------------------------------------------------------------
  // Drop-ID extraction

  /** Exceptions that escape `getDropIDs`: Gson's `JsonSyntaxException` for a
      body that is not JSON of the expected shape, and a
      `NullPointerException` for a null on the path to the IDs. */
  datatype Failure = JsonSyntax | NullPointer

  /** What `gson.fromJson` makes of the body: a syntax error, or a document,
      which is null for an empty body or the literal `null`. */
  datatype Json = Malformed | Parsed(document: Option<Response>)

  /** `mapToInt(x -> x)` over one ID list: unboxing each `Integer`, which
      raises a `NullPointerException` (here `None`) at a null element. */
  function Unbox(ids: seq<Option<Int32>>): (r: Option<seq<Int32>>)
    ensures r.Some? <==> forall k :: 0 <= k < |ids| ==> ids[k].Some?
    ensures r.Some? ==> |r.value| == |ids| && forall k :: 0 <= k < |ids| ==> ids[k] == Some(r.value[k])
  {
    if ids == [] then Some([])
    else if ids[0].None? then None
    else
      var rest := Unbox(ids[1..]);
      if rest.None? then
        assert !(forall k :: 0 <= k < |ids| ==> ids[k].Some?) by {
          var k :| 0 <= k < |ids[1..]| && ids[1..][k].None?;
          assert ids[k + 1] == ids[1..][k];
        }
        None
      else
        assert forall k :: 0 <= k < |ids| ==> ids[k].Some? by {
          forall k | 0 <= k < |ids| ensures ids[k].Some? {
            if k > 0 { assert ids[k] == ids[1..][k - 1]; }
          }
        }
        Some([ids[0].value] + rest.value)
  }

  /** A list of `Integer`s with no null element. */
  function Boxed(ids: seq<Int32>): (r: seq<Option<Int32>>)
  {
    seq(|ids|, k requires 0 <= k < |ids| => Some(ids[k]))
  }

  /** Unboxing a list without nulls gives its values back. */
  lemma UnboxBoxed(ids: seq<Int32>)
    ensures Unbox(Boxed(ids)) == Some(ids)
  {
    var b := Boxed(ids);
    assert forall k :: 0 <= k < |b| ==> b[k] == Some(ids[k]);
    var r := Unbox(b);
    assert r.Some? && |r.value| == |ids|;
    assert forall k :: 0 <= k < |ids| ==> r.value[k] == ids[k] by {
      forall k | 0 <= k < |ids| ensures r.value[k] == ids[k] {
        assert b[k] == Some(r.value[k]);
      }
    }
    assert r.value == ids;
  }

  /** The `Integer`s of one entry, in list order, when none of the references
      on the way to them is null. */
  function EntryIds(entry: ResultEntry): Option<seq<Int32>>
  {
    match entry.value
    case None => None
    case Some(v) =>
      match v.printouts
      case None => None
      case Some(p) =>
        match p.allItemID
        case None => None
        case Some(ids) => Unbox(ids)
  }

  /** Every entry has its printouts and its ID list, with no null element. */
  ghost predicate AllPresent(results: seq<ResultEntry>) {
    forall e :: 0 <= e < |results| ==> EntryIds(results[e]).Some?
  }

  /** `id` is listed under "All Item ID" in some entry. */
  ghost predicate Listed(results: seq<ResultEntry>, id: int) {
    exists e, k :: 0 <= e < |results| && ListedAt(results[e], k, id)
  }

  ghost predicate ListedAt(entry: ResultEntry, k: int, id: int) {
    && entry.value.Some?
    && entry.value.value.printouts.Some?
    && entry.value.value.printouts.value.allItemID.Some?
    && 0 <= k < |entry.value.value.printouts.value.allItemID.value|
    && entry.value.value.printouts.value.allItemID.value[k] == Some(id)
  }

  lemma EntryIdsListed(entry: ResultEntry, id: int)
    requires EntryIds(entry).Some?
    ensures id in EntryIds(entry).value <==> exists k :: ListedAt(entry, k, id)
  {
    var ids := entry.value.value.printouts.value.allItemID.value;
    if id in EntryIds(entry).value {
      var k :| 0 <= k < |ids| && EntryIds(entry).value[k] == id;
      assert ListedAt(entry, k, id);
    }
    if exists k :: ListedAt(entry, k, id) {
      var k :| ListedAt(entry, k, id);
      assert EntryIds(entry).value[k] == id;
    }
  }

  /** `flatMap(v -> v.getPrintouts().getAllItemID().stream()).mapToInt(x -> x)`:
      every entry's IDs, entry after entry. A null anywhere on the way raises
      a `NullPointerException`. */
  function ItemIds(results: seq<ResultEntry>): (r: Result<seq<Int32>, Failure>)
    ensures r.Success? <==> AllPresent(results)
    ensures r.Failure? ==> r.error == NullPointer
    ensures r.Success? ==> forall id :: id in r.value <==> Listed(results, id)
  {
    if results == [] then Success([])
    else if EntryIds(results[0]).None? then Failure(NullPointer)
    else
      var ids := EntryIds(results[0]).value;
      var rest := ItemIds(results[1..]);
      if rest.Failure? then
        assert !AllPresent(results) by {
          var e :| 0 <= e < |results[1..]| && EntryIds(results[1..][e]).None?;
          assert results[e + 1] == results[1..][e];
        }
        rest
      else
        assert AllPresent(results) by {
          forall e | 0 <= e < |results| ensures EntryIds(results[e]).Some? {
            if e > 0 { assert results[e] == results[1..][e - 1]; }
          }
        }
        assert forall id :: id in ids + rest.value <==> Listed(results, id) by {
          forall id ensures id in ids + rest.value <==> Listed(results, id) {
            EntryIdsListed(results[0], id);
            ListedCons(results, id);
          }
        }
        Success(ids + rest.value)
  }

  lemma ListedCons(results: seq<ResultEntry>, id: int)
    requires results != []
    ensures Listed(results, id) <==>
      (exists k :: ListedAt(results[0], k, id)) || Listed(results[1..], id)
  {
    if Listed(results, id) {
      var e, k :| 0 <= e < |results| && ListedAt(results[e], k, id);
      if e > 0 { assert ListedAt(results[1..][e - 1], k, id); }
    }
    if Listed(results[1..], id) {
      var e, k :| 0 <= e < |results[1..]| && ListedAt(results[1..][e], k, id);
      assert ListedAt(results[e + 1], k, id);
    }
  }

  /** The flattened stream of two runs of entries is the first run's stream
      followed by the second's: the entries' order is kept. */
  lemma {:induction false} ItemIdsAppend(a: seq<ResultEntry>, b: seq<ResultEntry>)
    requires AllPresent(a) && AllPresent(b)
    ensures ItemIds(a + b) == Success(ItemIds(a).value + ItemIds(b).value)
  {
    if a == [] {
      assert a + b == b;
      assert ItemIds(a) == Success([]);
      assert ItemIds(b).Success?;
      assert [] + ItemIds(b).value == ItemIds(b).value;
    } else {
      assert AllPresent(a[1..]) by {
        forall e | 0 <= e < |a[1..]| ensures EntryIds(a[1..][e]).Some? {
          assert a[1..][e] == a[e + 1];
        }
      }
      ItemIdsAppend(a[1..], b);
      var head := EntryIds(a[0]).value;
      assert (a + b)[1..] == a[1..] + b;
      assert (a + b)[0] == a[0];
      assert ItemIds(a[1..]).Success?;
      assert ItemIds(a) == Success(head + ItemIds(a[1..]).value);
      assert ItemIds(a + b) == Success(head + ItemIds(a[1..] + b).value);
      assert head + (ItemIds(a[1..]).value + ItemIds(b).value)
          == (head + ItemIds(a[1..]).value) + ItemIds(b).value;
    }
  }

  /** The results map of a document, when neither the document, its `query`
      nor its `results` is null. */
  function ResultsOf(document: Option<Response>): Option<seq<ResultEntry>>
  {
    match document
    case None => None
    case Some(response) =>
      match response.query
      case None => None
      case Some(query) => query.results
  }

  /** `getIDsFromJSON`: the item IDs of every result, each kept once, in the
      order of first occurrence over the results and then over each list. */
  function GetIDsFromJSON(json: Json): (r: Result<seq<Int32>, Failure>)
    ensures json.Malformed? ==> r == Failure(JsonSyntax)
    ensures json.Parsed? ==>
      (r.Success? <==> ResultsOf(json.document).Some? && AllPresent(ResultsOf(json.document).value))
    ensures json.Parsed? && r.Failure? ==> r.error == NullPointer
    ensures r.Success? ==> Streams.NoDuplicates(r.value)
    ensures r.Success? ==> forall id :: id in r.value <==> Listed(ResultsOf(json.document).value, id)
    ensures r.Success? ==>
      Streams.InFirstOccurrenceOrder(ItemIds(ResultsOf(json.document).value).value, r.value)
  {
    match json
    case Malformed => Failure(JsonSyntax)
    case Parsed(document) =>
      match ResultsOf(document)
      case None => Failure(NullPointer)
      case Some(results) =>
        match ItemIds(results)
        case Failure(f) => Failure(f)
        case Success(ids) =>
          Streams.DistinctElements(ids);
          Streams.DistinctNoDuplicates(ids);
          Streams.DistinctOrder(ids);
          var distinct := Streams.Distinct(ids);
          assert forall k :: 0 <= k < |distinct| ==> -0x8000_0000 <= distinct[k] < 0x8000_0000 by {
            forall k | 0 <= k < |distinct| ensures -0x8000_0000 <= distinct[k] < 0x8000_0000 {
              assert distinct[k] in distinct;
              var i :| 0 <= i < |ids| && ids[i] == distinct[k];
            }
          }
          Success(distinct)
  }

  /** The contract of `GetIDsFromJSON` pins its answer down: any repeat-free
      listing of exactly the listed IDs in first-occurrence order over the
      flattened stream is that answer. */
  lemma GetIDsFromJSONUnique(json: Json, ids: seq<Int32>)
    requires GetIDsFromJSON(json).Success?
    requires Streams.NoDuplicates(ids)
    requires forall id :: id in ids <==> Listed(ResultsOf(json.document).value, id)
    requires Streams.InFirstOccurrenceOrder(ItemIds(ResultsOf(json.document).value).value, ids)
    ensures GetIDsFromJSON(json).value == ids
  {
    var stream := ItemIds(ResultsOf(json.document).value).value;
    Streams.DistinctCharacterized(stream, ids);
    Streams.DistinctCharacterized(stream, GetIDsFromJSON(json).value);
  }

  /** A result entry whose "All Item ID" printout is `ids`. */
  function ItemEntry(title: string, ids: seq<Option<Int32>>): ResultEntry
  {
    ResultEntry(title, Some(Results(Some(Printouts(Some(ids))), Some(title), None, 0, None, None)))
  }

  function AskReply(results: Option<seq<ResultEntry>>): Json
  {
    Parsed(Some(Response(0, Some(Query(None, results, None, 0, None)))))
  }

  /** Two pages that share an item: the shared ID is kept once, first. */
  lemma SharedDropExample()
    ensures GetIDsFromJSON(AskReply(Some([ItemEntry("Abyssal whip", Boxed([4151])),
                                          ItemEntry("Abyssal whip (or)", Boxed([4151, 20099]))])))
            == Success([4151, 20099])
  {
    var a := ItemEntry("Abyssal whip", Boxed([4151]));
    var b := ItemEntry("Abyssal whip (or)", Boxed([4151, 20099]));
    UnboxBoxed([4151]);
    UnboxBoxed([4151, 20099]);
    assert [a, b][1..] == [b];
    assert EntryIds(a) == Some([4151]) && EntryIds(b) == Some([4151, 20099]);
    assert [b][1..] == [] && ItemIds([]) == Success([]);
    assert [4151, 20099] + [] == [4151, 20099];
    assert ItemIds([b]) == Success([4151, 20099]);
    assert [4151] + [4151, 20099] == [4151, 4151, 20099];
    assert ItemIds([a, b]) == Success([4151, 4151, 20099]);
    var s := [4151, 4151, 20099];
    assert s[..2] == [4151, 4151] && s[..2][..1] == [4151] && s[..2][..1][..0] == [];
    assert Streams.Distinct([4151]) == [4151];
    assert Streams.Distinct([4151, 4151]) == [4151];
    assert Streams.Distinct(s) == [4151, 20099];
    assert ResultsOf(AskReply(Some([a, b])).document) == Some([a, b]);
  }

  /** A null element of an ID list fails the whole lookup. */
  lemma NullElementExample(title: string)
    ensures GetIDsFromJSON(AskReply(Some([ItemEntry(title, [Some(4151), None])]))) == Failure(NullPointer)
  {
    var e := ItemEntry(title, [Some(4151), None]);
    assert !AllPresent([e]) by { assert EntryIds([e][0]).None?; }
  }

  /** No results is an empty answer, not an error; a null on the way to the
      IDs is an error, not an empty answer. */
  lemma EdgeCaseExamples(title: string)
    ensures GetIDsFromJSON(AskReply(Some([]))) == Success([])
    ensures GetIDsFromJSON(Parsed(Some(Response(0, None)))) == Failure(NullPointer)
    ensures GetIDsFromJSON(AskReply(None)) == Failure(NullPointer)
    ensures GetIDsFromJSON(Parsed(None)) == Failure(NullPointer)
    ensures GetIDsFromJSON(AskReply(Some([ResultEntry(title, Some(Results(None, None, None, 0, None, None)))])))
            == Failure(NullPointer)
  {
    var e := ResultEntry(title, Some(Results(None, None, None, 0, None, None)));
    assert !AllPresent([e]) by { assert EntryIds([e][0]).None?; }
  }

  // ---------------------------------------------------------------------------
  // The request and its fallback

  /** What the HTTP call yields: an `IOException` (from `execute` or from
      reading the body), a null body, or a body that Gson has read. */
  datatype HttpOutcome = IoFailure | NullBody | Body(json: Json)

  /** The value `getDropIDs` returns, or the exception it lets escape: the
      `IOException` is caught and becomes an empty array; everything else
      propagates. */
  function DropLookup(response: HttpOutcome): (r: Result<seq<Int32>, Failure>)
  {
    match response
    case IoFailure => Success([])
    case NullBody => Failure(NullPointer)
    case Body(json) => GetIDsFromJSON(json)
  }

  // ---------------------------------------------------------------------------
  // Chat messages

  const RetrievalErrorMessage := "There was an error retrieving data"

  function NoDropsMessage(monster: string): string {
    "No drops found for " + monster
  }

  function AddedMessage(monster: string, count: nat): string {
    "Added " + monster + " drops tag to " + DecimalString(count) + " items."
  }

  /** The three outcomes stay distinguishable to the player. */
  lemma MessagesDistinguishable(m1: string, m2: string, n: nat)
    ensures NoDropsMessage(m1) != AddedMessage(m2, n)
    ensures NoDropsMessage(m1) != RetrievalErrorMessage
    ensures AddedMessage(m2, n) != RetrievalErrorMessage
  {
    assert NoDropsMessage(m1)[0] == 'N';
    assert AddedMessage(m2, n)[0] == 'A';
    assert RetrievalErrorMessage[0] == 'T';
  }

  function DigitChar(d: nat): (c: char)
    requires d < 10
    ensures '0' <= c <= '9'
  {
    ('0' as int + d) as char
  }

  /** `Integer.toString` of a non-negative count. */
  function DecimalString(n: nat): (s: string)
    ensures |s| >= 1
    ensures forall k :: 0 <= k < |s| ==> '0' <= s[k] <= '9'
    ensures s[0] == '0' ==> n == 0 && s == "0"
  {
    if n < 10 then [DigitChar(n)] else DecimalString(n / 10) + [DigitChar(n % 10)]
  }

  /** The number a string of decimal digits denotes. */
  function DecimalValue(s: string): int
    requires forall k :: 0 <= k < |s| ==> '0' <= s[k] <= '9'
  {
    if s == [] then 0
    else DecimalValue(s[..|s| - 1]) * 10 + (s[|s| - 1] as int - '0' as int)
  }

  /** The count in the success message is the number of IDs tagged. */
  lemma {:induction false} DecimalRoundTrip(n: nat)
    ensures DecimalValue(DecimalString(n)) == n
  {
    if n >= 10 {
      DecimalRoundTrip(n / 10);
      var s := DecimalString(n);
      assert s[..|s| - 1] == DecimalString(n / 10);
    }
  }

  // ---------------------------------------------------------------------------
  // Tagging

  /** One call `tagManager.addTag(itemId, tag, variation)`. */
  datatype AddTagCall = AddTagCall(itemId: Int32, tag: string, variation: bool)

  /** The calls `tagItems(items, tag)` makes: one per item, in order, never
      as a variation tag. */
  function TagCallsFor(items: seq<Int32>, tag: string): (calls: seq<AddTagCall>)
    ensures |calls| == |items|
    ensures forall k :: 0 <= k < |items| ==> calls[k] == AddTagCall(items[k], tag, false)
  {
    if items == [] then [] else [AddTagCall(items[0], tag, false)] + TagCallsFor(items[1..], tag)
  }

  function DropsLabel(monster: string): string {
    monster + " drops"
  }

  /** The plugin and the state of the RuneLite collaborators it drives. The
      tag manager is seen through the calls it receives; the bank tags
      configuration through the stored tab list and the icon entries; the
      client through the chat messages it is given. `Text.standardize`,
      `Text.fromCSV`, `Text.toCSV` and the `ICON_SEARCH` key prefix belong to
      RuneLite and are parameters of the model. */
  class Plugin {
    const hasClient: bool
    const standardize: string -> string
    const fromCsv: string -> seq<string>
    const toCsv: seq<string> -> string
    const iconSearch: string

    var tagCalls: seq<AddTagCall>
    var tagTabsConfig: Option<string>
    var iconConfig: map<string, int>
    var messages: seq<string>

    constructor (hasClient: bool, standardize: string -> string,
                 fromCsv: string -> seq<string>, toCsv: seq<string> -> string,
                 iconSearch: string, tagTabsConfig: Option<string>, iconConfig: map<string, int>)
      ensures this.hasClient == hasClient && this.standardize == standardize
      ensures this.fromCsv == fromCsv && this.toCsv == toCsv && this.iconSearch == iconSearch
      ensures this.tagTabsConfig == tagTabsConfig && this.iconConfig == iconConfig
      ensures tagCalls == [] && messages == []
    {
      this.hasClient := hasClient;
      this.standardize := standardize;
      this.fromCsv := fromCsv;
      this.toCsv := toCsv;
      this.iconSearch := iconSearch;
      this.tagTabsConfig := tagTabsConfig;
      this.iconConfig := iconConfig;
      tagCalls := [];
      messages := [];
    }

    /** `getAllTabs`: the stored tab list, an absent entry read as "". */
    function AllTabs(): seq<string>
      reads this
    {
      fromCsv(tagTabsConfig.GetOr(""))
    }

    /** `tagItems`: one `addTag(id, tag, false)` per item, in order. */
    method TagItems(items: seq<Int32>, tag: string)
      modifies this`tagCalls
      ensures tagCalls == old(tagCalls) + TagCallsFor(items, tag)
    {
      var i := 0;
      while i < |items|
        invariant 0 <= i <= |items|
        invariant tagCalls == old(tagCalls) + TagCallsFor(items[..i], tag)
      {
        TagCallsPrefix(items, i, tag);
        AddTag(items[i], tag, false);
        i := i + 1;
      }
      assert items[..i] == items;
    }

    /** Stand-in for `tagManager.addTag`: the call is recorded. */
    method AddTag(itemId: Int32, tag: string, variation: bool)
      modifies this`tagCalls
      ensures tagCalls == old(tagCalls) + [AddTagCall(itemId, tag, variation)]
    {
      tagCalls := tagCalls + [AddTagCall(itemId, tag, variation)];
    }

    /** `createTab`: the standardized tag is appended to the tab list, with
        no check for a tab of that name, and the item becomes its icon. */
    method CreateTab(tag: string, iconItemId: int)
      modifies this`tagTabsConfig, this`iconConfig
      ensures tagTabsConfig == Some(toCsv(old(AllTabs()) + [standardize(tag)]))
      ensures iconConfig == old(iconConfig)[iconSearch + standardize(tag) := iconItemId]
    {
      var tabs := AllTabs();
      tabs := tabs + [standardize(tag)];
      var tags := toCsv(tabs);
      tagTabsConfig := Some(tags);
      iconConfig := iconConfig[iconSearch + standardize(tag) := iconItemId];
    }

    /** `getDropIDs`: request the monster's query URL and extract the IDs; an
        `IOException` yields no IDs and, when there is a client, one error
        message. */
    method GetDropIDs(monster: string, http: string -> HttpOutcome)
      returns (ids: Result<seq<Int32>, Failure>)
      modifies this`messages
      ensures ids == DropLookup(http(QueryURL(monster)))
      ensures messages == old(messages) + ErrorNotice(http(QueryURL(monster)))
    {
      var response := http(QueryURL(monster));
      match response
      case IoFailure =>
        if hasClient {
          messages := messages + [RetrievalErrorMessage];
        }
        ids := Success([]);
      case NullBody =>
        ids := Failure(NullPointer);
      case Body(json) =>
        ids := GetIDsFromJSON(json);
    }

    /** The chat messages `getDropIDs` sends for a given outcome. */
    function ErrorNotice(response: HttpOutcome): seq<string>
    {
      if response.IoFailure? && hasClient then [RetrievalErrorMessage] else []
    }

    /** `addTagsFromDrops`: tag every dropped item with "<monster> drops",
        then report. No IDs: only a "No drops found" message. Some IDs: a
        message with their count, and a tab with the first ID as its icon.
        An exception from `getDropIDs` leaves everything as it was; without
        a client, reporting raises a `NullPointerException` after tagging. */
    method AddTagsFromDrops(monster: string, http: string -> HttpOutcome)
      returns (outcome: Outcome<Failure>)
      modifies this`tagCalls, this`tagTabsConfig, this`iconConfig, this`messages
      ensures var lookup := DropLookup(http(QueryURL(monster)));
        lookup.Failure? ==>
          && outcome == Fail(lookup.error)
          && tagCalls == old(tagCalls) && messages == old(messages)
          && tagTabsConfig == old(tagTabsConfig) && iconConfig == old(iconConfig)
      ensures var lookup := DropLookup(http(QueryURL(monster)));
        lookup.Success? ==>
          tagCalls == old(tagCalls) + TagCallsFor(lookup.value, DropsLabel(monster))
      ensures var response := http(QueryURL(monster)); var lookup := DropLookup(response);
        lookup.Success? && !hasClient ==>
          && outcome == Fail(NullPointer)
          && messages == old(messages)
          && tagTabsConfig == old(tagTabsConfig) && iconConfig == old(iconConfig)
      ensures var response := http(QueryURL(monster)); var lookup := DropLookup(response);
        lookup.Success? && hasClient && lookup.value == [] ==>
          && outcome == Pass
          && messages == old(messages) + ErrorNotice(response) + [NoDropsMessage(monster)]
          && tagTabsConfig == old(tagTabsConfig) && iconConfig == old(iconConfig)
      ensures var response := http(QueryURL(monster)); var lookup := DropLookup(response);
        lookup.Success? && hasClient && lookup.value != [] ==>
          && outcome == Pass
          && messages == old(messages) + [AddedMessage(monster, |lookup.value|)]
          && tagTabsConfig == Some(toCsv(old(AllTabs()) + [standardize(DropsLabel(monster))]))
          && iconConfig == old(iconConfig)[iconSearch + standardize(DropsLabel(monster)) := lookup.value[0]]
    {
      var items := GetDropIDs(monster, http);
      if items.Failure? {
        return Fail(items.error);
      }
      var ids := items.value;
      TagItems(ids, DropsLabel(monster));
      if !hasClient {
        return Fail(NullPointer);
      }
      if |ids| == 0 {
        messages := messages + [NoDropsMessage(monster)];
      } else {
        messages := messages + [AddedMessage(monster, |ids|)];
        CreateTab(DropsLabel(monster), ids[0]);
      }
      outcome := Pass;
    }
  }

  lemma TagCallsPrefix(items: seq<Int32>, i: nat, tag: string)
    requires i < |items|
    ensures TagCallsFor(items[..i + 1], tag) == TagCallsFor(items[..i], tag) + [AddTagCall(items[i], tag, false)]
  {
  }
}
