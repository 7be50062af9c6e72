/** trello/extractor.ts: the older copy of the extractor. Its normaliser, resolver and
    fill-out routine behave as those of src/helper.ts do (the normaliser's warning text
    and the fill-out routine's `?:` in place of `||` differ) and are used from `Helper`;
    what is its own is the workflow-order comparator, `sortObject` and an
    `addStagingDates` that matches list names literally. */
module LegacyExtractor {
  import opened Wrappers
  import opened JsString
  import opened JsArray
  import opened TrelloTypes
  import opened Helper

  /** `Number.MAX_SAFE_INTEGER`, the rank of a name that is no category. */
  const MaxSafeInteger: int := 9007199254740991

  // ===========================================================================
  // `sortByWorklowCategory`
  // ===========================================================================

  /** `names.indexOf(x)`: the first position holding `x`, or `-1`. */
  function IndexOf(names: seq<string>, x: string): (r: int)
    ensures r == -1 <==> x !in names
    ensures r != -1 ==> 0 <= r < |names| && names[r] == x && forall j :: 0 <= j < r ==> names[j] != x
    decreases |names|
  {
    if |names| == 0 then -1
    else if names[0] == x then 0
    else
      var rest := IndexOf(names[1..], x);
      if rest == -1 then -1 else rest + 1
  }

  /** The position of `c` among the categories, or `MAX_SAFE_INTEGER` when it is none. */
  function WorkflowRank(wf: Workflow, c: string): int {
    var i := IndexOf(Keys(wf), c);
    if i != -1 then i else MaxSafeInteger
  }

  /** `sortByWorklowCategory(workflow)`: compares two keys by their positions in the
      workflow's key order. */
  function SortByWorkflowCategory(wf: Workflow): (string, string) -> int {
    (a, b) => WorkflowRank(wf, a) - WorkflowRank(wf, b)
  }

  /** The position of the category called `c`. */
  lemma RankOfCategory(wf: Workflow, i: nat)
    requires DistinctKeys(wf) && i < |wf|
    ensures WorkflowRank(wf, wf[i].0) == i
  {
    var names := Keys(wf);
    assert names[i] == wf[i].0;
    var r := IndexOf(names, wf[i].0);
    assert r != -1 && names[r] == wf[i].0;
  }

  /** A key sorts before another exactly when it is a category and the other is either a
      later category or no category at all. */
  lemma SortByWorkflowCategoryNegative(wf: Workflow, a: string, b: string)
    requires DistinctKeys(wf) && |wf| <= MaxSafeInteger
    ensures SortByWorkflowCategory(wf)(a, b) < 0 <==>
      exists i :: 0 <= i < |wf| && wf[i].0 == a &&
        ((forall j :: 0 <= j < |wf| ==> wf[j].0 != b) || exists j :: i < j < |wf| && wf[j].0 == b)
  {
    var names := Keys(wf);
    var ia, ib := IndexOf(names, a), IndexOf(names, b);
    if ia != -1 {
      RankOfCategory(wf, ia);
    }
    if ib != -1 {
      RankOfCategory(wf, ib);
    }
    if forall j :: 0 <= j < |wf| ==> wf[j].0 != b {
      assert b !in names;
    }
    if i :| 0 <= i < |wf| && wf[i].0 == a {
      RankOfCategory(wf, i);
      if j :| i < j < |wf| && wf[j].0 == b {
        RankOfCategory(wf, j);
      }
    }
  }

  /** Two keys that are not categories compare as equal; a key compares as equal only
      to itself or, when it is no category, to another non-category. */
  lemma SortByWorkflowCategoryZero(wf: Workflow, a: string, b: string)
    requires |wf| <= MaxSafeInteger
    ensures SortByWorkflowCategory(wf)(a, b) == 0 <==> a == b || (a !in Keys(wf) && b !in Keys(wf))
  {
    var names := Keys(wf);
    if IndexOf(names, a) != -1 && IndexOf(names, b) != -1 && IndexOf(names, a) == IndexOf(names, b) {
      assert names[IndexOf(names, a)] == a && names[IndexOf(names, b)] == b;
    }
  }

  /** Swapping the arguments negates the comparison. */
  lemma SortByWorkflowCategorySwap(wf: Workflow, a: string, b: string)
    ensures SortByWorkflowCategory(wf)(b, a) == -SortByWorkflowCategory(wf)(a, b)
  {
  }

  /** Keys sorted with the comparator come in workflow order, the non-categories last. */
  lemma {:induction false} SortedInWorkflowOrder(wf: Workflow, keys: seq<string>)
    ensures var s := Sort(keys, SortByWorkflowCategory(wf));
      forall i :: 0 <= i < |s| - 1 ==> WorkflowRank(wf, s[i]) <= WorkflowRank(wf, s[i + 1])
  {
    var cmp := SortByWorkflowCategory(wf);
    forall a, b | cmp(a, b) >= 0
      ensures cmp(b, a) <= 0
    {
      SortByWorkflowCategorySwap(wf, a, b);
    }
    assert SignFlips(cmp);
    SortSorted(keys, cmp);
    var s := Sort(keys, cmp);
    forall i | 0 <= i < |s| - 1
      ensures WorkflowRank(wf, s[i]) <= WorkflowRank(wf, s[i + 1])
    {
      assert cmp(s[i], s[i + 1]) <= 0;
    }
  }

  // ===========================================================================
  // `sortObject`
  // ===========================================================================

  /** `o[k]` for a key `k` the object holds. */
  function ValueAt<V>(o: seq<(string, V)>, k: string): V
    requires k in Keys(o)
  {
    o[IndexOf(Keys(o), k)].1
  }

  /** The pair of a sorted key is a pair of the object. */
  lemma SortedPairIsPair<V>(o: seq<(string, V)>, k: string)
    requires DistinctKeys(o) && k in Keys(o)
    ensures (k, ValueAt(o, k)) in o
  {
    var t := IndexOf(Keys(o), k);
    assert o[t] == (k, ValueAt(o, k));
  }

  /** Every pair of the object is the pair its key looks up. */
  lemma PairIsSortedPair<V>(o: seq<(string, V)>, t: nat)
    requires DistinctKeys(o) && t < |o|
    ensures o[t].0 in Keys(o) && ValueAt(o, o[t].0) == o[t].1
  {
    var ks := Keys(o);
    assert ks[t] == o[t].0;
    var u := IndexOf(ks, o[t].0);
    assert o[u].0 == o[t].0;
  }

  /** `sortObject(sortFn)(o)`: the object's keys sorted with `sortFn`, then a `reduce` that
      assigns `r[k] = o[k]` for each key in that order onto a fresh object. The keys are
      distinct, so every assignment adds a new key at the end. */
  method SortObject<V>(sortFn: (string, string) -> int, o: seq<(string, V)>) returns (r: seq<(string, V)>)
    requires DistinctKeys(o)
    ensures Keys(r) == Sort(Keys(o), sortFn)
    ensures forall p :: p in r <==> p in o
    ensures forall i :: 0 <= i < |r| ==> r[i].0 in Keys(o) && r[i].1 == ValueAt(o, r[i].0)
  {
    var keys := Sort(Keys(o), sortFn);
    assert forall k :: k in keys <==> k in Keys(o) by {
      assert forall k :: k in keys <==> k in multiset(keys);
      assert multiset(keys) == multiset(Keys(o));
    }
    r := [];
    for i := 0 to |keys|
      invariant |r| == i
      invariant forall j :: 0 <= j < i ==> r[j] == (keys[j], ValueAt(o, keys[j]))
    {
      var k := keys[i];
      r := r + [(k, ValueAt(o, k))];
    }
    assert Keys(r) == keys;
    forall p | p in r
      ensures p in o
    {
      var j :| 0 <= j < |r| && r[j] == p;
      SortedPairIsPair(o, keys[j]);
    }
    forall p | p in o
      ensures p in r
    {
      var t :| 0 <= t < |o| && o[t] == p;
      PairIsSortedPair(o, t);
      var j :| 0 <= j < |keys| && keys[j] == o[t].0;
      assert r[j] == p;
    }
  }

  // ===========================================================================
  // The literal-only `addStagingDates`
  // ===========================================================================

  /** What this `addStagingDates` does: the `groupBy` with literal matching may throw
      first; otherwise the first call of the `initialized` callback reads `initialized`
      before it is initialized, unless there is no category to call it for. With no
      category, nothing is collected and the staging dates resolve to nothing. */
  function LegacyStagedCard(card: Card, wf: Workflow): Result<Card> {
    var keys :- StageKeys(wf, card.actions, LiteralOnly);
    if |wf| > 0 then Err(SelfReferencingInitializer)
    else Ok(card.(stagingDates := Some(Resolve([], ""))))
  }

  /** `addStagingDates(card, workflow)` as written: `groupBy` with a literal-only callback,
      `delete` of the `uncategorized` group, then `Object.keys(workflow).map(key =>
      initialized[key] = [])`, whose callback throws on its first call, then
      `Object.assign`, the `for…in` collection and the resolver. */
  method AddStagingDates(card: Card, wf: Workflow) returns (r: Result<Card>)
    ensures r == LegacyStagedCard(card, wf)
  {
    var actions := card.actions;
    var grouped := GroupByStageCategory(wf, actions, LiteralOnly);
    if grouped.Err? {
      return Err(grouped.error);
    }
    var eventsByStageCategory := grouped.value - {Uncategorized};
    for i := 0 to |wf|
      invariant i == 0
    {
      // `initialized[key]` is evaluated while `initialized` is still uninitialized
      return Err(SelfReferencingInitializer);
    }
    // `Object.keys({}).map(...)` is the empty array
    var initialized: map<string, seq<Action>> := map[];
    ghost var keys := StageKeys(wf, actions, LiteralOnly).value;
    assert forall k :: 0 <= k < |actions| ==> Classifier(wf, LiteralOnly)(actions[k]) == Ok(Uncategorized);
    assert forall c :: c in grouped.value ==> c == Uncategorized;
    var allStageCategoriesWithAllEvents := initialized + eventsByStageCategory;
    assert allStageCategoriesWithAllEvents == map[];
    // the `for…in` loop has no key to visit
    var accum: seq<seq<string>> := [];
    var stagingDates := FilterAndFlattenStagingDates(accum);
    return Ok(card.(stagingDates := Some(stagingDates)));
  }

  /** This `addStagingDates` never returns a card for a workflow with a category: it
      throws the classifier's exception when an action has no list, and otherwise the
      self-reference. */
  lemma LegacyNeverStages(card: Card, wf: Workflow)
    requires |wf| > 0
    ensures LegacyStagedCard(card, wf).Err?
    ensures (forall k :: 0 <= k < |card.actions| ==> card.actions[k].list.Some?) <==>
      LegacyStagedCard(card, wf) == Err(SelfReferencingInitializer)
    ensures LegacyStagedCard(card, wf).error != SelfReferencingInitializer ==>
      LegacyStagedCard(card, wf).error == NullListName
  {
    var f := Classifier(wf, LiteralOnly);
    forall k | 0 <= k < |card.actions|
      ensures f(card.actions[k]).Ok? <==> card.actions[k].list.Some?
      ensures f(card.actions[k]).Err? ==> f(card.actions[k]).error == NullListName
    {
      LiteralOnlyNeverInvalid(wf, card.actions[k]);
    }
  }

  /** With no category at all, this `addStagingDates` and the one of src/helper.ts agree:
      both give the card an empty list of staging dates. */
  lemma LegacyAgreesOnEmptyWorkflow(card: Card, wf: Workflow)
    requires |wf| == 0
    ensures LegacyStagedCard(card, wf) == Ok(card.(stagingDates := Some([])))
    ensures LegacyStagedCard(card, wf) == StagedCard(card, wf, LiteralOnly)
  {
    var keys := StageKeys(wf, card.actions, LiteralOnly);
    assert keys.Ok? by {
      assert forall k :: 0 <= k < |card.actions| ==> Classifier(wf, LiteralOnly)(card.actions[k]).Ok?;
    }
    assert Bins(wf, card.actions, keys.value) == [];
  }

  /** The evidently intended `addStagingDates`: the classification of src/helper.ts run
      with literal matching. It returns a card unless an action has no list, and then
      the card carries one staging date per category. */
  function CorrectedStagedCard(card: Card, wf: Workflow): (r: Result<Card>)
    ensures r.Ok? <==> |wf| == 0 || forall k :: 0 <= k < |card.actions| ==> card.actions[k].list.Some?
    ensures r.Err? ==> r.error == NullListName
    ensures r.Ok? ==> r.value.(stagingDates := card.stagingDates) == card
    ensures r.Ok? ==> r.value.stagingDates.Some? && |r.value.stagingDates.value| == |wf|
  {
    LiteralStagingFailure(wf, card.actions);
    StagedCard(card, wf, LiteralOnly)
  }

  /** With literal matching, classifying a log throws exactly when the workflow has a
      category and some action has no list, and then the exception is `NullListName`. */
  lemma LiteralStagingFailure(wf: Workflow, actions: seq<Action>)
    ensures StagingDatesFor(wf, actions, LiteralOnly).Ok? <==>
      |wf| == 0 || forall k :: 0 <= k < |actions| ==> actions[k].list.Some?
    ensures StagingDatesFor(wf, actions, LiteralOnly).Err? ==>
      StagingDatesFor(wf, actions, LiteralOnly).error == NullListName
  {
    StagingDatesFailure(wf, actions, LiteralOnly);
    forall k | 0 <= k < |actions|
      ensures StageCategory(wf, actions[k], LiteralOnly).Ok? <==> |wf| == 0 || actions[k].list.Some?
    {
      LiteralOnlyNeverInvalid(wf, actions[k]);
    }
    if StagingDatesFor(wf, actions, LiteralOnly).Err? {
      var k :| 0 <= k < |actions| && StageCategory(wf, actions[k], LiteralOnly) == Err(StagingDatesFor(wf, actions, LiteralOnly).error);
      LiteralOnlyNeverInvalid(wf, actions[k]);
    }
  }

  /** Where the two part ways: for a workflow with a category and a log whose actions all
      name a list, the corrected routine stages the card and the written one throws. */
  lemma LegacyLosesStagedCard(card: Card, wf: Workflow)
    requires |wf| > 0
    requires forall k :: 0 <= k < |card.actions| ==> card.actions[k].list.Some?
    ensures LegacyStagedCard(card, wf) == Err(SelfReferencingInitializer)
    ensures CorrectedStagedCard(card, wf).Ok?
    ensures |CorrectedStagedCard(card, wf).value.stagingDates.value| == |wf|
  {
    LegacyNeverStages(card, wf);
  }
}
