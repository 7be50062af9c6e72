/** The shapes of the Trello records the core reads and writes, and the workflow
    configuration that drives the classification. */
module TrelloTypes {
  import opened Wrappers

  /** A list (board column) id: Trello's own ids are strings, the closing sentinel uses `-1`. */
  datatype ListId = TrelloId(text: string) | NumericId(number: int)

  /** A reference to a list (board column), as it appears in an action's payload. */
  datatype ListRef = ListRef(id: ListId, name: string)

  /** The parts of an action's `data` payload the normaliser consults: `list` (present on
      creation and closing) and `listAfter` (present on moves). Absent means `null` or
      `undefined`. */
  datatype ActionData = ActionData(list: Option<ListRef>, listAfter: Option<ListRef>)

  /** One entry of a card's action log. `list` is absent as fetched and is filled in by the
      normaliser with the list the card entered by that action. */
  datatype Action = Action(
    id: string,
    idMemberCreator: string,
    data: ActionData,
    actionType: string,
    date: string,
    list: Option<ListRef>)

  /** A card with its action log; `stagingDates` is absent until the classifier adds it. */
  datatype Card = Card(
    id: string,
    due: Option<string>,
    closed: bool,
    name: string,
    labels: seq<string>,
    url: string,
    actions: seq<Action>,
    stagingDates: Option<seq<string>>)

  /** The workflow configuration: stage categories in configuration order, each with the
      list names (or `/`-prefixed regular expressions) that belong to it. A JavaScript
      object cannot hold a key twice, so configured workflows satisfy `DistinctKeys`. */
  type Workflow = seq<(string, seq<string>)>

  /** `Object.keys(o)`, for an object given as its key/value pairs in key order; the
      categories of a workflow are `Keys(wf)`. */
  function Keys<V>(o: seq<(string, V)>): (ks: seq<string>)
    ensures |ks| == |o| && forall i :: 0 <= i < |o| ==> ks[i] == o[i].0
  {
    seq(|o|, i requires 0 <= i < |o| => o[i].0)
  }

  /** An object holds each key once. */
  predicate DistinctKeys<V>(o: seq<(string, V)>) {
    forall i, j :: 0 <= i < j < |o| ==> o[i].0 != o[j].0
  }

  /** The group that collects the actions no category accepts; it is discarded. */
  const Uncategorized: string := "uncategorized"

  /** The JavaScript regular-expression engine, left uninterpreted: whether `new RegExp(source)`
      compiles, and whether `subject.match(source)` finds a match. */
  datatype RegexEngine = RegexEngine(compiles: string -> bool, matches: (string, string) -> bool)
}
