/** src/extractor.ts: the live pipeline from fetched cards to the CSV text. The fetch
    itself is outside the model: the cards it returns are an input. */
module Extractor {
  import opened Wrappers
  import opened JsString
  import opened JsArray
  import opened TrelloTypes
  import opened Helper
  import opened WorkItems

  /** `TrelloExtractor.baseUrl`, which also serves as every work item's `domainUrl`. */
  const BaseUrl: string := "https://api.trello.com"

  /** The number of cards one fetch returns at most. */
  const CardFetchCap: nat := 1000

  /** `getBoardCards` after the fetch: the cards unchanged, and whether the cap warning is
      printed. */
  function GetBoardCards(fetched: seq<Card>): (r: (seq<Card>, bool))
    ensures r.0 == fetched
    ensures r.1 <==> |fetched| >= CardFetchCap
  {
    (fetched, |fetched| >= CardFetchCap)
  }

  /** `convertCardToWorkItem(c, domainUrl)`. */
  function ConvertCardToWorkItem(c: Card, domainUrl: string): (w: WorkItem)
    ensures w.id == c.id && w.name == c.name && w.stageDates == c.stagingDates
    ensures w.domainUrl == domainUrl && w.workType == ""
  {
    CreateWorkItem(c.id, c.stagingDates, c.name, "", domainUrl)
  }

  /** The CSV header: the fixed columns around the workflow's category names. */
  function CsvHeader(wf: Workflow): string {
    "ID,Link,Name," + Join(Keys(wf), ",") + ",Type"
  }

  /** The fields of the header: with no category the two commas around the empty join
      leave one empty column. */
  function HeaderFields(wf: Workflow): seq<string> {
    ["ID", "Link", "Name"] + (if |wf| == 0 then [""] else Keys(wf)) + ["Type"]
  }

  lemma JoinCons(a: string, parts: seq<string>, sep: string)
    requires |parts| >= 1
    ensures Join([a] + parts, sep) == a + sep + Join(parts, sep)
  {
    assert ([a] + parts)[1..] == parts;
  }

  /** The header is its fields joined by commas. */
  lemma HeaderIsJoin(wf: Workflow)
    ensures CsvHeader(wf) == Join(HeaderFields(wf), ",")
  {
    var mid := if |wf| == 0 then [""] else Keys(wf);
    assert Join(mid, ",") == Join(Keys(wf), ",");
    JoinSnoc(mid, "Type", ",");
    FixedColumns(mid + ["Type"]);
    assert HeaderFields(wf) == ["ID", "Link", "Name"] + (mid + ["Type"]);
  }

  lemma FixedColumns(rest: seq<string>)
    requires |rest| >= 1
    ensures Join(["ID", "Link", "Name"] + rest, ",") == "ID,Link,Name," + Join(rest, ",")
  {
    FixedColumnsOf("ID", "Link", "Name", rest, ",");
    FixedColumnsText("ID", "Link", "Name");
  }

  lemma FixedColumnsText(id: string, link: string, name: string)
    requires id == "ID" && link == "Link" && name == "Name"
    ensures id + "," + link + "," + name + "," == "ID,Link,Name,"
  {
    assert id + "," == "ID,";
    assert "ID," + link == "ID,Link";
    assert "ID,Link" + "," == "ID,Link,";
    assert "ID,Link," + name == "ID,Link,Name";
    assert "ID,Link,Name" + "," == "ID,Link,Name,";
  }

  lemma FixedColumnsOf(id: string, link: string, name: string, rest: seq<string>, sep: string)
    requires |rest| >= 1
    ensures Join([id, link, name] + rest, sep) == (id + sep + link + sep + name + sep) + Join(rest, sep)
  {
    var a, b, c, j := id + sep, link + sep, name + sep, Join(rest, sep);
    JoinCons(name, rest, sep);
    JoinCons(link, [name] + rest, sep);
    JoinCons(id, [link] + ([name] + rest), sep);
    assert [id, link, name] + rest == [id] + ([link] + ([name] + rest));
    assert Join([id, link, name] + rest, sep) == a + (b + (c + j));
    Associative(b, c, j);
    Associative(a, b + c, j);
    Associative(a, b, c);
    Associative(a, link, sep);
    Associative(a + link + sep, name, sep);
  }

  /** With comma-free category names the header splits into `4 + |categories|` fields,
      the categories in workflow order between `Name` and `Type`; an empty workflow gives
      the five fields `ID`, `Link`, `Name`, an empty one and `Type`. */
  lemma HeaderSplits(wf: Workflow)
    requires forall i :: 0 <= i < |wf| ==> ',' !in wf[i].0
    ensures Split(CsvHeader(wf), ',') == HeaderFields(wf)
    ensures |wf| > 0 ==> |Split(CsvHeader(wf), ',')| == 4 + |wf|
    ensures |wf| == 0 ==> Split(CsvHeader(wf), ',') == ["ID", "Link", "Name", "", "Type"]
  {
    HeaderIsJoin(wf);
    var fields := HeaderFields(wf);
    forall i | 0 <= i < |fields|
      ensures ',' !in fields[i]
    {
      if 3 <= i < |fields| - 1 && |wf| > 0 {
        assert fields[i] == wf[i - 3].0;
      }
    }
    SplitJoin(fields, ',');
  }

  // ---------------------------------------------------------------------------
  // `extractToCSV`, after the fetch
  // ---------------------------------------------------------------------------

  /** `boardCards.map(addMoreDetailToCardEventLog)`. */
  function Normalised(cards: seq<Card>): (r: seq<Card>)
    ensures |r| == |cards| && forall k :: 0 <= k < |cards| ==> r[k] == AddMoreDetailToCardEventLog(cards[k])
  {
    seq(|cards|, k requires 0 <= k < |cards| => AddMoreDetailToCardEventLog(cards[k]))
  }

  /** `card => addStagingDates(card, workflow)`, as a value. */
  function Stager(wf: Workflow, m: Matching): Card -> Result<Card> {
    c => StagedCard(c, wf, m)
  }

  /** `workItemToCSV`, as a value. */
  function RowWriter(): WorkItem -> Result<string> {
    w => WorkItemRow(w)
  }

  /** The work items of the cards: normalised, staged, then converted, in card order. */
  function WorkItemsOf(cards: seq<Card>, wf: Workflow, m: Matching): Result<seq<WorkItem>> {
    var staged :- MapResult(Normalised(cards), Stager(wf, m));
    Ok(seq(|staged|, k requires 0 <= k < |staged| => ConvertCardToWorkItem(staged[k], BaseUrl)))
  }

  /** `extractToCSV` once the cards are fetched: the header, a newline, and the rows joined
      by newlines. */
  function ExtractToCSV(wf: Workflow, boardCards: seq<Card>, m: Matching): (r: Result<string>)
    ensures WorkItemsOf(boardCards, wf, m).Err? ==> r == Err(WorkItemsOf(boardCards, wf, m).error)
    ensures r.Ok? ==> |CsvHeader(wf)| < |r.value| && r.value[..|CsvHeader(wf)| + 1] == CsvHeader(wf) + "\n"
  {
    var items :- WorkItemsOf(boardCards, wf, m);
    var rows :- MapResult(items, RowWriter());
    var line := CsvHeader(wf) + "\n";
    PrefixOfAppend(line, Join(rows, "\n"));
    Ok(line + Join(rows, "\n"))
  }

  lemma PrefixOfAppend<T>(a: seq<T>, b: seq<T>)
    ensures (a + b)[..|a|] == a
  {
  }

  /** The work item a card becomes when its staging succeeds. */
  function ItemOf(c: Card, wf: Workflow, m: Matching): WorkItem
    requires StagedCard(AddMoreDetailToCardEventLog(c), wf, m).Ok?
  {
    ConvertCardToWorkItem(StagedCard(AddMoreDetailToCardEventLog(c), wf, m).value, BaseUrl)
  }

  /** The staging dates a card's normalised action log resolves to. */
  function CardStaging(c: Card, wf: Workflow, m: Matching): Result<seq<string>> {
    StagingDatesFor(wf, AddMoreDetailToCardEventLog(c).actions, m)
  }

  /** The export succeeds exactly when every card stages; otherwise it throws what the
      first card that fails to stage throws. */
  lemma ExtractFailure(wf: Workflow, boardCards: seq<Card>, m: Matching)
    ensures ExtractToCSV(wf, boardCards, m).Ok? <==> forall k :: 0 <= k < |boardCards| ==> CardStaging(boardCards[k], wf, m).Ok?
    ensures ExtractToCSV(wf, boardCards, m).Err? ==> exists k ::
              && 0 <= k < |boardCards|
              && CardStaging(boardCards[k], wf, m) == Err(ExtractToCSV(wf, boardCards, m).error)
              && forall j :: 0 <= j < k ==> CardStaging(boardCards[j], wf, m).Ok?
  {
    var cards := Normalised(boardCards);
    var f := Stager(wf, m);
    StagerAgrees(wf, boardCards, m);
    var staged := MapResult(cards, f);
    if staged.Ok? {
      RowsNeverFail(wf, boardCards, m);
    } else {
      assert ExtractToCSV(wf, boardCards, m) == Err(staged.error);
    }
  }

  lemma StagerAgrees(wf: Workflow, boardCards: seq<Card>, m: Matching)
    ensures forall k :: 0 <= k < |boardCards| ==>
      && (Stager(wf, m)(Normalised(boardCards)[k]).Ok? <==> CardStaging(boardCards[k], wf, m).Ok?)
      && (Stager(wf, m)(Normalised(boardCards)[k]).Err? ==> Stager(wf, m)(Normalised(boardCards)[k]).error == CardStaging(boardCards[k], wf, m).error)
  {
  }

  /** Every staged card carries stage dates, so writing the rows never throws. */
  lemma RowsNeverFail(wf: Workflow, boardCards: seq<Card>, m: Matching)
    requires WorkItemsOf(boardCards, wf, m).Ok?
    ensures MapResult(WorkItemsOf(boardCards, wf, m).value, RowWriter()).Ok?
  {
    var items := WorkItemsOf(boardCards, wf, m).value;
    var staged := MapResult(Normalised(boardCards), Stager(wf, m)).value;
    forall k | 0 <= k < |items|
      ensures RowWriter()(items[k]).Ok?
    {
      assert Stager(wf, m)(Normalised(boardCards)[k]) == Ok(staged[k]);
      assert items[k].stageDates.Some?;
    }
  }

  /** A successful export is the header, a newline and one row per card, in card order:
      the row of the card normalised, staged and converted, with the card's staging dates
      as its stage dates. */
  lemma ExtractRows(wf: Workflow, boardCards: seq<Card>, m: Matching)
    requires ExtractToCSV(wf, boardCards, m).Ok?
    ensures exists rows: seq<string> ::
              && |rows| == |boardCards|
              && ExtractToCSV(wf, boardCards, m).value == CsvHeader(wf) + "\n" + Join(rows, "\n")
              && forall k :: 0 <= k < |boardCards| ==>
                   && StagedCard(AddMoreDetailToCardEventLog(boardCards[k]), wf, m).Ok?
                   && CardStaging(boardCards[k], wf, m).Ok?
                   && ItemOf(boardCards[k], wf, m).stageDates == Some(CardStaging(boardCards[k], wf, m).value)
                   && rows[k] == Join(RowFields(ItemOf(boardCards[k], wf, m), CardStaging(boardCards[k], wf, m).value), ",")
  {
    var items := WorkItemsOf(boardCards, wf, m).value;
    var rows := MapResult(items, RowWriter()).value;
    var staged := MapResult(Normalised(boardCards), Stager(wf, m)).value;
    forall k | 0 <= k < |boardCards|
      ensures StagedCard(AddMoreDetailToCardEventLog(boardCards[k]), wf, m).Ok?
      ensures CardStaging(boardCards[k], wf, m).Ok?
      ensures ItemOf(boardCards[k], wf, m).stageDates == Some(CardStaging(boardCards[k], wf, m).value)
      ensures rows[k] == Join(RowFields(ItemOf(boardCards[k], wf, m), CardStaging(boardCards[k], wf, m).value), ",")
    {
      assert Stager(wf, m)(Normalised(boardCards)[k]) == Ok(staged[k]);
      assert items[k] == ItemOf(boardCards[k], wf, m);
      assert RowWriter()(items[k]) == Ok(rows[k]);
    }
  }

  /** With no cards the export is the header followed by one newline. */
  lemma ExtractNoCards(wf: Workflow, m: Matching)
    ensures ExtractToCSV(wf, [], m) == Ok(CsvHeader(wf) + "\n")
  {
    assert Normalised([]) == [];
    assert MapResult([], Stager(wf, m)) == Ok([]);
    assert WorkItemsOf([], wf, m).Ok? && |WorkItemsOf([], wf, m).value| == 0;
    assert MapResult([], RowWriter()) == Ok([]);
    assert Join([], "\n") == "";
    assert CsvHeader(wf) + "\n" + "" == CsvHeader(wf) + "\n";
  }

  /** Splitting a newline-free header and rows at newlines gives the header and then the
      rows, or the header and one empty line when there are no rows. */
  lemma CsvLines(header: string, rows: seq<string>)
    requires '\n' !in header
    requires forall k :: 0 <= k < |rows| ==> '\n' !in rows[k]
    ensures |rows| > 0 ==> Split(header + "\n" + Join(rows, "\n"), '\n') == [header] + rows
    ensures |rows| == 0 ==> Split(header + "\n" + Join(rows, "\n"), '\n') == [header, ""]
  {
    var lines := [header] + (if |rows| == 0 then [""] else rows);
    forall i | 0 <= i < |lines|
      ensures '\n' !in lines[i]
    {
      if i > 0 && |rows| > 0 {
        assert lines[i] == rows[i - 1];
      }
    }
    JoinCons(header, if |rows| == 0 then [""] else rows, "\n");
    SplitJoin(lines, '\n');
  }

  /** A staged card whose id and action dates are comma-free gives a row of `4 + |wf|`
      comma-separated fields, as many as the header has for a non-empty workflow. */
  lemma RowMatchesHeader(c: Card, wf: Workflow, m: Matching)
    requires StagedCard(AddMoreDetailToCardEventLog(c), wf, m).Ok?
    requires ',' !in c.id
    requires forall k :: 0 <= k < |c.actions| ==> ',' !in c.actions[k].date
    ensures var w := ItemOf(c, wf, m);
      && w.stageDates.Some?
      && |Split(WorkItemRow(w).value, ',')| == 4 + |wf|
  {
    var n := AddMoreDetailToCardEventLog(c);
    ItemOfFields(c, wf, m);
    NormalisedDates(c);
    StagedDatesCommaFree(wf, n.actions, m);
    BaseUrlCommaFree();
    RowSplitsIntoFields(ItemOf(c, wf, m));
  }

  lemma BaseUrlCommaFree()
    ensures ',' !in BaseUrl
  {
  }

  /** The work item of a staged card: its id, the base URL, no type, and the staging
      dates of the card's normalised log. */
  lemma ItemOfFields(c: Card, wf: Workflow, m: Matching)
    requires StagedCard(AddMoreDetailToCardEventLog(c), wf, m).Ok?
    ensures var w := ItemOf(c, wf, m);
      && w.id == c.id && w.domainUrl == BaseUrl && w.workType == ""
      && w.stageDates == Some(StagingDatesFor(wf, AddMoreDetailToCardEventLog(c).actions, m).value)
  {
  }

  /** Normalising keeps every action's date. */
  lemma NormalisedDates(c: Card)
    ensures var n := AddMoreDetailToCardEventLog(c);
      |n.actions| == |c.actions| && forall k :: 0 <= k < |c.actions| ==> n.actions[k].date == c.actions[k].date
  {
    var n := AddMoreDetailToCardEventLog(c);
    forall k | 0 <= k < |c.actions|
      ensures n.actions[k].date == c.actions[k].date
    {
      assert n.actions[k] == AppendListToAction(c.actions[k]);
    }
  }

  /** The staging dates of comma-free action dates are comma-free. */
  lemma StagedDatesCommaFree(wf: Workflow, actions: seq<Action>, m: Matching)
    requires StagingDatesFor(wf, actions, m).Ok?
    requires forall k :: 0 <= k < |actions| ==> ',' !in actions[k].date
    ensures var dates := StagingDatesFor(wf, actions, m).value;
      |dates| == |wf| && forall i :: 0 <= i < |dates| ==> ',' !in dates[i]
  {
    StagingDatesShape(wf, actions, m);
    var dates := StagingDatesFor(wf, actions, m).value;
    forall i | 0 <= i < |dates|
      ensures ',' !in dates[i]
    {
      if dates[i] != "" {
        var k :| 0 <= k < |actions| && actions[k].date == dates[i] && StageCategory(wf, actions[k], m) == Ok(wf[i].0);
      }
    }
  }
}
