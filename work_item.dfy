/** src/work-item.ts: the work item record and its CSV row. */
module WorkItems {
  import opened Wrappers
  import opened JsString

  /** A work item: `stageDates` is absent when the card it came from was never staged. */
  datatype WorkItem = WorkItem(
    id: string,
    stageDates: Option<seq<string>>,
    name: string,
    workType: string,
    domainUrl: string)

  /** `createWorkItem({id, stageDates, name, type, domainUrl})`. */
  function CreateWorkItem(id: string, stageDates: Option<seq<string>>, name: string, workType: string, domainUrl: string): (w: WorkItem)
    ensures w.id == id && w.stageDates == stageDates && w.name == name
    ensures w.workType == workType && w.domainUrl == domainUrl
  {
    WorkItem(id, stageDates, name, workType, domainUrl)
  }

  /** The characters `cleanString` deletes. */
  predicate IsRemoved(ch: char) {
    ch == '"' || ch == '\'' || ch == ',' || ch == '\\'
  }

  /** The four global `replace` calls of `cleanString`, in their order. */
  function Strip(s: string): string {
    Remove(Remove(Remove(Remove(s, '"'), '\''), ','), '\\')
  }

  /** Stripping keeps exactly the characters that are not deleted. */
  lemma StripMembers(s: string)
    ensures forall ch :: ch in Strip(s) <==> ch in s && !IsRemoved(ch)
  {
    var s1 := Remove(s, '"');
    var s2 := Remove(s1, '\'');
    var s3 := Remove(s2, ',');
    RemoveMembers(s, '"');
    RemoveMembers(s1, '\'');
    RemoveMembers(s2, ',');
    RemoveMembers(s3, '\\');
  }

  lemma StripAppend(a: string, b: string)
    ensures Strip(a + b) == Strip(a) + Strip(b)
  {
    RemoveAppend(a, b, '"');
    RemoveAppend(Remove(a, '"'), Remove(b, '"'), '\'');
    var a2, b2 := Remove(Remove(a, '"'), '\''), Remove(Remove(b, '"'), '\'');
    RemoveAppend(a2, b2, ',');
    RemoveAppend(Remove(a2, ','), Remove(b2, ','), '\\');
  }

  lemma StripAbsent(s: string)
    requires NoRemoved(s)
    ensures Strip(s) == s
  {
    RemoveAbsent(s, '"');
    RemoveAbsent(s, '\'');
    RemoveAbsent(s, ',');
    RemoveAbsent(s, '\\');
  }

  /** `cleanString(s = '')`: double quotes, single quotes, commas and backslashes deleted,
      then white space trimmed from both ends; an undefined argument gives `''`. */
  function CleanString(s: Option<string>): (r: string)
    ensures s.None? ==> r == ""
    ensures NoRemoved(r)
    ensures Trimmed(r)
    ensures s.Some? ==> forall ch :: ch in r ==> ch in s.value
  {
    var text := if s.Some? then s.value else "";
    StripMembers(text);
    Trim(Strip(text))
  }

  /** Cleaning a cleaned string changes nothing. */
  lemma CleanStringIdempotent(s: Option<string>)
    ensures CleanString(Some(CleanString(s))) == CleanString(s)
  {
    var c := CleanString(s);
    StripAbsent(c);
    TrimOfTrimmed(c);
  }

  /** A string with none of the deleted characters and no white space at its ends is
      left as it is. */
  lemma CleanStringKeepsClean(s: string)
    requires NoRemoved(s)
    requires Trimmed(s)
    ensures CleanString(Some(s)) == s
  {
    StripAbsent(s);
    TrimOfTrimmed(s);
  }

  /** `s` holds none of the characters `cleanString` deletes. */
  predicate NoRemoved(s: string) {
    forall ch :: ch in s ==> !IsRemoved(ch)
  }

  /** A name of four words spelt as `w1'w2, "w3" \w4` is cleaned to `w1w2 w3 w4`. */
  lemma CleanStringOfPunctuatedName(w1: string, w2: string, w3: string, w4: string)
    requires NoRemoved(w1) && NoRemoved(w2) && NoRemoved(w3) && NoRemoved(w4)
    requires |w1| > 0 && !IsWhiteSpace(w1[0]) && |w4| > 0 && !IsWhiteSpace(w4[|w4| - 1])
    ensures CleanString(Some(w1 + "'" + w2 + ", \"" + w3 + "\" \\" + w4)) == w1 + w2 + " " + w3 + " " + w4
  {
    var clean := w1 + w2 + " " + w3 + " " + w4;
    StripPunctuated(w1, w2, w3, w4);
    assert clean[0] == w1[0] && clean[|clean| - 1] == w4[|w4| - 1];
    TrimOfTrimmed(clean);
  }

  lemma StripPunctuated(w1: string, w2: string, w3: string, w4: string)
    requires NoRemoved(w1) && NoRemoved(w2) && NoRemoved(w3) && NoRemoved(w4)
    ensures Strip(w1 + "'" + w2 + ", \"" + w3 + "\" \\" + w4) == w1 + w2 + " " + w3 + " " + w4
  {
    var front, back := w1 + "'" + w2 + ", \"", w3 + "\" \\" + w4;
    StripFront(w1, w2);
    StripBack(w3, w4);
    StripAppend(front, back);
    assert w1 + "'" + w2 + ", \"" + w3 + "\" \\" + w4 == front + back;
    assert w1 + w2 + " " + w3 + " " + w4 == (w1 + w2 + " ") + (w3 + " " + w4);
  }

  lemma StripFront(w1: string, w2: string)
    requires NoRemoved(w1) && NoRemoved(w2)
    ensures Strip(w1 + "'" + w2 + ", \"") == w1 + w2 + " "
  {
    StripAbsent(w1);
    StripAbsent(w2);
    StripApostrophe();
    StripCommaQuote();
    StripDropSecond(w1, "'", w2, ", \"", w1, w2, " ");
  }

  lemma StripBack(w3: string, w4: string)
    requires NoRemoved(w3) && NoRemoved(w4)
    ensures Strip(w3 + "\" \\" + w4) == w3 + " " + w4
  {
    StripAbsent(w3);
    StripAbsent(w4);
    StripQuoteBackslash();
    StripThree(w3, "\" \\", w4, w3, " ", w4);
  }

  lemma StripThree(a: string, b: string, c: string, a': string, b': string, c': string)
    requires Strip(a) == a' && Strip(b) == b' && Strip(c) == c'
    ensures Strip(a + b + c) == a' + b' + c'
  {
    StripAppend(a, b);
    StripAppend(a + b, c);
  }

  /** Four parts, the second of which strips to nothing. */
  lemma StripDropSecond(a: string, b: string, c: string, d: string, a': string, c': string, d': string)
    requires Strip(a) == a' && Strip(b) == [] && Strip(c) == c' && Strip(d) == d'
    ensures Strip(a + b + c + d) == a' + c' + d'
  {
    StripThree(a, b, c, a', [], c');
    assert a' + [] + c' == a' + c';
    StripAppend(a + b + c, d);
  }

  lemma StripApostrophe()
    ensures Strip("'") == ""
  {
  }

  lemma StripCommaQuote()
    ensures Strip(", \"") == " "
  {
  }

  lemma StripQuoteBackslash()
    ensures Strip("\" \\") == " "
  {
  }

  /** The Trello card name `O'Brien, "Bug" \fix` becomes `OBrien Bug fix`. */
  lemma CleanStringExample(raw: string, clean: string)
    requires raw == "O'Brien, \"Bug\" \\fix" && clean == "OBrien Bug fix"
    ensures CleanString(Some(raw)) == clean
  {
    var w1, w2, w3, w4 := "O", "Brien", "Bug", "fix";
    assert raw == w1 + "'" + w2 + ", \"" + w3 + "\" \\" + w4;
    assert clean == w1 + w2 + " " + w3 + " " + w4;
    CleanStringOfPunctuatedName(w1, w2, w3, w4);
  }

  /** The fields of a row: id, link, cleaned name, the stage dates in order, type. */
  function RowFields(w: WorkItem, dates: seq<string>): (fields: seq<string>)
    ensures |fields| == 4 + |dates|
    ensures fields[0] == w.id && fields[1] == w.domainUrl + "/" + w.id
    ensures fields[2] == CleanString(Some(w.name)) && fields[|fields| - 1] == w.workType
    ensures forall k :: 0 <= k < |dates| ==> fields[3 + k] == dates[k]
  {
    [w.id, w.domainUrl + "/" + w.id, CleanString(Some(w.name))] + dates + [w.workType]
  }

  /** The row `workItemToCSV` builds: its fields joined by commas. A work item without
      stage dates makes `forEach` throw. */
  function WorkItemRow(w: WorkItem): (r: Result<string>)
    ensures r.Err? <==> w.stageDates.None?
    ensures r.Err? ==> r.error == UndefinedStageDates
  {
    match w.stageDates
    case None => Err(UndefinedStageDates)
    case Some(dates) => Ok(Join(RowFields(w, dates), ","))
  }

  /** The row begins with the id, the link and the cleaned name, in that order. */
  lemma WorkItemRowPrefix(w: WorkItem)
    requires w.stageDates.Some?
    ensures var fields := RowFields(w, w.stageDates.value);
      WorkItemRow(w).value == w.id + "," + (w.domainUrl + "/" + w.id) + "," + Join(fields[2..], ",")
  {
    var fields := RowFields(w, w.stageDates.value);
    assert fields[1..][1..] == fields[2..];
    var link, rest := w.domainUrl + "/" + w.id, Join(fields[2..], ",");
    assert Join(fields, ",") == w.id + "," + (link + "," + rest);
    assert w.id + "," + (link + "," + rest) == w.id + "," + link + "," + rest;
  }

  /** A comma-free id, link, stage dates and type make the row split back into exactly
      its fields, `4 + |stageDates|` of them. */
  lemma RowSplitsIntoFields(w: WorkItem)
    requires w.stageDates.Some?
    requires ',' !in w.id && ',' !in w.domainUrl && ',' !in w.workType
    requires forall k :: 0 <= k < |w.stageDates.value| ==> ',' !in w.stageDates.value[k]
    ensures Split(WorkItemRow(w).value, ',') == RowFields(w, w.stageDates.value)
    ensures |Split(WorkItemRow(w).value, ',')| == 4 + |w.stageDates.value|
  {
    var fields := RowFields(w, w.stageDates.value);
    RowFieldsCommaFree(w, w.stageDates.value);
    SplitJoin(fields, ',');
    assert WorkItemRow(w).value == Join(fields, ",");
  }

  lemma RowFieldsCommaFree(w: WorkItem, dates: seq<string>)
    requires ',' !in w.id && ',' !in w.domainUrl && ',' !in w.workType
    requires forall k :: 0 <= k < |dates| ==> ',' !in dates[k]
    ensures forall i :: 0 <= i < |RowFields(w, dates)| ==> ',' !in RowFields(w, dates)[i]
  {
    var fields := RowFields(w, dates);
    LinkCommaFree(w.domainUrl, w.id);
    assert NoRemoved(CleanString(Some(w.name)));
    forall i | 0 <= i < |fields|
      ensures ',' !in fields[i]
    {
      if 3 <= i < |fields| - 1 {
        assert fields[i] == dates[i - 3];
      }
    }
  }

  lemma LinkCommaFree(domainUrl: string, id: string)
    requires ',' !in domainUrl && ',' !in id
    ensures ',' !in domainUrl + "/" + id
  {
    var link := domainUrl + "/" + id;
    assert forall ch :: ch in link ==> ch in domainUrl || ch == '/' || ch in id;
  }

  lemma JoinThree(a: string, b: string, c: string, sep: string)
    ensures Join([a, b, c], sep) == a + sep + b + sep + c
  {
    assert [a, b, c][1..] == [b, c] && [b, c][1..] == [c];
    assert Join([b, c], sep) == b + sep + c;
  }

  lemma WidenPrefix<T>(head: seq<T>, xs: seq<T>, k: nat)
    requires k < |xs|
    ensures head + xs[..k + 1] == head + xs[..k] + [xs[k]]
  {
    assert xs[..k + 1] == xs[..k] + [xs[k]];
  }

  lemma WholePrefix<T>(xs: seq<T>)
    ensures xs[..|xs|] == xs
  {
  }

  lemma EmptyPrefix<T>(head: seq<T>, xs: seq<T>)
    ensures head + xs[..0] == head
  {
    assert xs[..0] == [];
  }

  /** `workItemToCSV`: `s` grown by `+=`, one stage date per `forEach` step. */
  method WorkItemToCSV(workItem: WorkItem) returns (r: Result<string>)
    ensures r == WorkItemRow(workItem)
  {
    var s := "";
    s := s + workItem.id + ",";
    assert s == workItem.id + ",";
    s := s + (workItem.domainUrl + "/" + workItem.id) + ",";
    s := s + CleanString(Some(workItem.name));
    if workItem.stageDates.None? {
      return Err(UndefinedStageDates);
    }
    var dates := workItem.stageDates.value;
    ghost var head := [workItem.id, workItem.domainUrl + "/" + workItem.id, CleanString(Some(workItem.name))];
    JoinThree(head[0], head[1], head[2], ",");
    assert head == [head[0], head[1], head[2]];
    EmptyPrefix(head, dates);
    for k := 0 to |dates|
      invariant s == Join(head + dates[..k], ",")
    {
      JoinSnoc(head + dates[..k], dates[k], ",");
      WidenPrefix(head, dates, k);
      s := s + "," + dates[k];
    }
    JoinSnoc(head + dates, workItem.workType, ",");
    WholePrefix(dates);
    s := s + "," + workItem.workType;
    return Ok(s);
  }
}
