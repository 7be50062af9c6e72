/** src/helper.ts: the action normaliser, the stage classifier and the monotonic
    date resolver that together give a card one staging date per workflow category. */
module Helper {
  import opened Wrappers
  import opened JsString
  import opened JsArray
  import opened TrelloTypes

  // ===========================================================================
  // Action normaliser: `appendListToAction`, `addMoreDetailToCardEventLog`
  // ===========================================================================

  const ClosedListName: string := "CLOSED_IN_TRELLO_INTERNAL_SYSTEM"

  /** The list a closing action is recorded as entering; its numeric id `-1` is unlike
      the string id of every real Trello list. */
  const ClosedList: ListRef := ListRef(NumericId(-1), ClosedListName)

  /** The action with `list` set to the list the card entered by it: the closing sentinel
      for an `updateCard` whose payload carries `list`, the move's `listAfter` for any other
      `updateCard`, the payload's `list` for a `createCard`, and nothing for every other
      type. Every other field is copied. */
  function AppendListToAction(a: Action): (r: Action)
    ensures r.(list := a.list) == a
    ensures a.actionType == "updateCard" && a.data.list.Some? ==> r.list == Some(ClosedList)
    ensures a.actionType == "updateCard" && a.data.list.None? ==> r.list == a.data.listAfter
    ensures a.actionType == "createCard" ==> r.list == a.data.list
    ensures a.actionType != "updateCard" && a.actionType != "createCard" ==> r.list == None
  {
    var list :=
      if a.actionType == "updateCard" then
        if a.data.list.Some? then Some(ClosedList) else a.data.listAfter
      else if a.actionType == "createCard" then a.data.list
      else None;
    a.(list := list)
  }

  /** The card with every action normalised, in the same order; nothing else changes. */
  function AddMoreDetailToCardEventLog(c: Card): (r: Card)
    ensures r.(actions := c.actions) == c
    ensures |r.actions| == |c.actions|
    ensures forall i :: 0 <= i < |c.actions| ==> r.actions[i] == AppendListToAction(c.actions[i])
  {
    c.(actions := seq(|c.actions|, i requires 0 <= i < |c.actions| => AppendListToAction(c.actions[i])))
  }

  // ===========================================================================
  // Regular-expression patterns: `hasRegexMatch`
  // ===========================================================================

  /** `candidate.indexOf('/') === 0`: the pattern is a regular expression. */
  predicate IsRegexPattern(p: string) {
    |p| > 0 && p[0] == '/'
  }

  /** What `hasRegexMatch(candidates, name)` returns or throws: the `/`-prefixed candidates
      are tried in order, each with everything after the leading `/` (a trailing `/`
      included) as the regular-expression source; the first source that matches gives
      true, and a source that does not compile throws once it is reached. */
  function RegexHit(candidates: seq<string>, name: string, re: RegexEngine): Result<bool>
    decreases |candidates|
  {
    if |candidates| == 0 then Ok(false)
    else if !IsRegexPattern(candidates[0]) then RegexHit(candidates[1..], name, re)
    else
      var source := candidates[0][1..];
      if !re.compiles(source) then Err(InvalidRegex(source))
      else if re.matches(source, name) then Ok(true)
      else RegexHit(candidates[1..], name, re)
  }

  /** Every `/`-prefixed candidate compiles. */
  ghost predicate AllCompile(candidates: seq<string>, re: RegexEngine) {
    forall k :: 0 <= k < |candidates| && IsRegexPattern(candidates[k]) ==> re.compiles(candidates[k][1..])
  }

  /** A list without `/`-prefixed entries gives false, whatever the name and the engine. */
  lemma {:induction false} RegexHitWithoutPatterns(candidates: seq<string>, name: string, re: RegexEngine)
    requires forall k :: 0 <= k < |candidates| ==> !IsRegexPattern(candidates[k])
    ensures RegexHit(candidates, name, re) == Ok(false)
    decreases |candidates|
  {
    if |candidates| > 0 {
      RegexHitWithoutPatterns(candidates[1..], name, re);
    }
  }

  /** When every pattern compiles, the result is true exactly when some `/`-prefixed
      candidate's source, the candidate without its first character, matches. */
  lemma {:induction false} RegexHitDecides(candidates: seq<string>, name: string, re: RegexEngine)
    requires AllCompile(candidates, re)
    ensures RegexHit(candidates, name, re) ==
      Ok(exists k :: 0 <= k < |candidates| && IsRegexPattern(candidates[k]) && re.matches(candidates[k][1..], name))
    decreases |candidates|
  {
    if |candidates| > 0 {
      var tail := candidates[1..];
      assert AllCompile(tail, re) by {
        forall k | 0 <= k < |tail| && IsRegexPattern(tail[k])
          ensures re.compiles(tail[k][1..])
        {
          assert tail[k] == candidates[k + 1];
        }
      }
      RegexHitDecides(tail, name, re);
      var here := IsRegexPattern(candidates[0]) && re.matches(candidates[0][1..], name);
      var later := exists k :: 0 <= k < |tail| && IsRegexPattern(tail[k]) && re.matches(tail[k][1..], name);
      var any := exists k :: 0 <= k < |candidates| && IsRegexPattern(candidates[k]) && re.matches(candidates[k][1..], name);
      assert any == (here || later) by {
        if later {
          var k :| 0 <= k < |tail| && IsRegexPattern(tail[k]) && re.matches(tail[k][1..], name);
          assert candidates[k + 1] == tail[k];
        }
        if any {
          var k :| 0 <= k < |candidates| && IsRegexPattern(candidates[k]) && re.matches(candidates[k][1..], name);
          if k > 0 {
            assert tail[k - 1] == candidates[k];
          }
        }
      }
    }
  }

  /** An exception names the source of a `/`-prefixed candidate that does not compile,
      and no earlier candidate matched. */
  lemma {:induction false} RegexHitFailure(candidates: seq<string>, name: string, re: RegexEngine)
    requires RegexHit(candidates, name, re).Err?
    ensures exists k ::
              && 0 <= k < |candidates| && IsRegexPattern(candidates[k]) && !re.compiles(candidates[k][1..])
              && RegexHit(candidates, name, re).error == InvalidRegex(candidates[k][1..])
              && forall j :: 0 <= j < k && IsRegexPattern(candidates[j]) ==> !re.matches(candidates[j][1..], name)
    decreases |candidates|
  {
    if IsRegexPattern(candidates[0]) && !re.compiles(candidates[0][1..]) {
      assert RegexHit(candidates, name, re).error == InvalidRegex(candidates[0][1..]);
    } else {
      var tail := candidates[1..];
      RegexHitFailure(tail, name, re);
      var k :| 0 <= k < |tail| && IsRegexPattern(tail[k]) && !re.compiles(tail[k][1..])
        && RegexHit(tail, name, re).error == InvalidRegex(tail[k][1..])
        && forall j :: 0 <= j < k && IsRegexPattern(tail[j]) ==> !re.matches(tail[j][1..], name);
      assert candidates[k + 1] == tail[k];
      forall j | 0 <= j < k + 1 && IsRegexPattern(candidates[j])
        ensures !re.matches(candidates[j][1..], name)
      {
        if j > 0 {
          assert candidates[j] == tail[j - 1];
        }
      }
    }
  }

  /** Conversely, a `/`-prefixed candidate that does not compile throws, naming its source,
      once every `/`-prefixed candidate before it compiled and did not match. */
  lemma {:induction false} RegexHitThrows(candidates: seq<string>, name: string, re: RegexEngine, k: nat)
    requires k < |candidates| && IsRegexPattern(candidates[k]) && !re.compiles(candidates[k][1..])
    requires forall j :: 0 <= j < k && IsRegexPattern(candidates[j]) ==>
               re.compiles(candidates[j][1..]) && !re.matches(candidates[j][1..], name)
    ensures RegexHit(candidates, name, re) == Err(InvalidRegex(candidates[k][1..]))
    decreases k
  {
    if k > 0 {
      var tail := candidates[1..];
      forall j | 0 <= j < k - 1 && IsRegexPattern(tail[j])
        ensures re.compiles(tail[j][1..]) && !re.matches(tail[j][1..], name)
      {
        assert tail[j] == candidates[j + 1];
      }
      assert tail[k - 1] == candidates[k];
      RegexHitThrows(tail, name, re, k - 1);
    }
  }

  /** A true result comes from a `/`-prefixed candidate that compiles and matches, every
      `/`-prefixed candidate before it compiling and not matching. */
  lemma {:induction false} RegexHitTrue(candidates: seq<string>, name: string, re: RegexEngine)
    requires RegexHit(candidates, name, re) == Ok(true)
    ensures exists k ::
              && 0 <= k < |candidates| && IsRegexPattern(candidates[k])
              && re.compiles(candidates[k][1..]) && re.matches(candidates[k][1..], name)
              && forall j :: 0 <= j < k && IsRegexPattern(candidates[j]) ==>
                   re.compiles(candidates[j][1..]) && !re.matches(candidates[j][1..], name)
    decreases |candidates|
  {
    if !(IsRegexPattern(candidates[0]) && re.matches(candidates[0][1..], name)) {
      var tail := candidates[1..];
      RegexHitTrue(tail, name, re);
      var k :| && 0 <= k < |tail| && IsRegexPattern(tail[k])
               && re.compiles(tail[k][1..]) && re.matches(tail[k][1..], name)
               && forall j :: 0 <= j < k && IsRegexPattern(tail[j]) ==>
                    re.compiles(tail[j][1..]) && !re.matches(tail[j][1..], name);
      assert candidates[k + 1] == tail[k];
      forall j | 0 <= j < k + 1 && IsRegexPattern(candidates[j])
        ensures re.compiles(candidates[j][1..]) && !re.matches(candidates[j][1..], name)
      {
        if j > 0 {
          assert candidates[j] == tail[j - 1];
        }
      }
    }
  }

  /** A false result means every `/`-prefixed candidate compiled and none matched. */
  lemma {:induction false} RegexHitFalse(candidates: seq<string>, name: string, re: RegexEngine)
    requires RegexHit(candidates, name, re) == Ok(false)
    ensures forall k :: 0 <= k < |candidates| && IsRegexPattern(candidates[k]) ==>
              re.compiles(candidates[k][1..]) && !re.matches(candidates[k][1..], name)
    decreases |candidates|
  {
    if |candidates| > 0 {
      var tail := candidates[1..];
      RegexHitFalse(tail, name, re);
      forall k | 0 < k < |candidates| && IsRegexPattern(candidates[k])
        ensures re.compiles(candidates[k][1..]) && !re.matches(candidates[k][1..], name)
      {
        assert candidates[k] == tail[k - 1];
      }
    }
  }

  /** `hasRegexMatch`: a `for…of` loop over the candidates that skips literal ones
      and returns early on the first match. */
  method HasRegexMatch(candidates: seq<string>, actionName: string, re: RegexEngine) returns (r: Result<bool>)
    ensures r == RegexHit(candidates, actionName, re)
  {
    for i := 0 to |candidates|
      invariant RegexHit(candidates[i..], actionName, re) == RegexHit(candidates, actionName, re)
    {
      assert candidates[i..][1..] == candidates[i + 1..];
      var candidate := candidates[i];
      if !IsRegexPattern(candidate) {
        continue;
      }
      var trimmedRegex := candidate[1..];
      if !re.compiles(trimmedRegex) {
        return Err(InvalidRegex(trimmedRegex));
      }
      if re.matches(trimmedRegex, actionName) {
        return Ok(true);
      }
    }
    return Ok(false);
  }

  // ===========================================================================
  // Stage classifier: the `groupBy` callback of `addStagingDates`
  // ===========================================================================

  /** How a category's list names are compared with an action's list: src/helper.ts tries
      each name literally and then as a regular expression, trello/extractor.ts only
      literally. */
  datatype Matching = LiteralOrRegex(re: RegexEngine) | LiteralOnly

  /** `listsForThisStage.includes(name) || hasRegexMatch(listsForThisStage, name)`; the
      regular expressions are only consulted when no entry equals the name. */
  function CategoryAccepts(patterns: seq<string>, name: string, m: Matching): (r: Result<bool>)
    ensures name in patterns ==> r == Ok(true)
    ensures m.LiteralOnly? ==> r == Ok(name in patterns)
    ensures m.LiteralOrRegex? && name !in patterns ==> r == RegexHit(patterns, name, m.re)
  {
    if name in patterns then Ok(true)
    else if m.LiteralOnly? then Ok(false)
    else RegexHit(patterns, name, m.re)
  }

  /** The index of the first category, from `from` on, that accepts `name`: every category
      before it rejects the name, and none is tried after it. */
  function FirstAccepting(wf: Workflow, name: string, m: Matching, from: nat): (r: Result<Option<nat>>)
    ensures r.Ok? && r.value.Some? ==>
      from <= r.value.value < |wf| && CategoryAccepts(wf[r.value.value].1, name, m) == Ok(true)
    ensures r.Ok? ==> forall j :: from <= j < (if r.value.Some? then r.value.value else |wf|) ==>
      CategoryAccepts(wf[j].1, name, m) == Ok(false)
    ensures r.Err? ==> exists j ::
              && from <= j < |wf| && CategoryAccepts(wf[j].1, name, m) == Err(r.error)
              && forall i :: from <= i < j ==> CategoryAccepts(wf[i].1, name, m) == Ok(false)
    decreases |wf| - from
  {
    if from >= |wf| then Ok(None)
    else
      match CategoryAccepts(wf[from].1, name, m)
      case Err(e) => Err(e)
      case Ok(true) => Ok(Some(from))
      case Ok(false) => FirstAccepting(wf, name, m, from + 1)
  }

  /** The group `addStagingDates` files an action under: the first category in workflow
      order that accepts the action's list name, else `uncategorized`. Reading the name
      of a missing list throws, but only when there is a category to test it against. */
  function StageCategory(wf: Workflow, a: Action, m: Matching): (r: Result<string>)
    ensures |wf| == 0 ==> r == Ok(Uncategorized)
    ensures |wf| > 0 && a.list.None? ==> r == Err(NullListName)
    ensures r.Ok? ==> r.value == Uncategorized || exists i :: 0 <= i < |wf| && wf[i].0 == r.value
  {
    if |wf| == 0 then Ok(Uncategorized)
    else if a.list.None? then Err(NullListName)
    else
      match FirstAccepting(wf, a.list.value.name, m, 0)
      case Err(e) => Err(e)
      case Ok(None) => Ok(Uncategorized)
      case Ok(Some(i)) => Ok(wf[i].0)
  }

  /** The classification of an action is first-match: it names the first category that
      accepts the list name, or `uncategorized` when every category rejects it. */
  lemma StageCategoryFirstMatch(wf: Workflow, a: Action, m: Matching)
    requires |wf| > 0 && a.list.Some?
    ensures var name := a.list.value.name;
      && (forall i :: 0 <= i < |wf| && CategoryAccepts(wf[i].1, name, m) == Ok(true)
            && (forall j :: 0 <= j < i ==> CategoryAccepts(wf[j].1, name, m) == Ok(false))
            ==> StageCategory(wf, a, m) == Ok(wf[i].0))
      && ((forall j :: 0 <= j < |wf| ==> CategoryAccepts(wf[j].1, name, m) == Ok(false))
            ==> StageCategory(wf, a, m) == Ok(Uncategorized))
  {
  }

  /** An action whose list was left missing by the normaliser makes classification throw
      for every non-empty workflow: an unrecognised action type, an `updateCard` with
      neither `list` nor `listAfter`, or a `createCard` without `list`. */
  lemma NormalisedListFault(wf: Workflow, a: Action, m: Matching)
    ensures StageCategory(wf, AppendListToAction(a), m) == Err(NullListName) <==>
      |wf| > 0 &&
      ((a.actionType == "updateCard" && a.data.list.None? && a.data.listAfter.None?) ||
       (a.actionType == "createCard" && a.data.list.None?) ||
       (a.actionType != "updateCard" && a.actionType != "createCard"))
  {
    var b := AppendListToAction(a);
    if |wf| > 0 && b.list.Some? {
      var r := FirstAccepting(wf, b.list.value.name, m, 0);
      if r.Err? {
        var j :| 0 <= j < |wf| && CategoryAccepts(wf[j].1, b.list.value.name, m) == Err(r.error);
        if r.error == NullListName {
          RegexHitFailure(wf[j].1, b.list.value.name, m.re);
        }
      }
    }
  }

  /** Literal-only matching never meets an invalid pattern. */
  lemma LiteralOnlyNeverInvalid(wf: Workflow, a: Action)
    ensures StageCategory(wf, a, LiteralOnly).Err? ==> StageCategory(wf, a, LiteralOnly) == Err(NullListName)
  {
    if |wf| > 0 && a.list.Some? {
      var r := FirstAccepting(wf, a.list.value.name, LiteralOnly, 0);
      assert r.Ok?;
    }
  }

  /** Without `/`-prefixed entries, both matching rules file every action alike. */
  lemma {:induction false} LiteralAgreesWithoutPatterns(wf: Workflow, a: Action, re: RegexEngine)
    requires forall i, k :: 0 <= i < |wf| && 0 <= k < |wf[i].1| ==> !IsRegexPattern(wf[i].1[k])
    ensures StageCategory(wf, a, LiteralOnly) == StageCategory(wf, a, LiteralOrRegex(re))
  {
    if |wf| > 0 && a.list.Some? {
      var name := a.list.value.name;
      forall i | 0 <= i < |wf|
        ensures CategoryAccepts(wf[i].1, name, LiteralOnly) == CategoryAccepts(wf[i].1, name, LiteralOrRegex(re))
      {
        RegexHitWithoutPatterns(wf[i].1, name, re);
      }
      FirstAcceptingAgrees(wf, name, LiteralOnly, LiteralOrRegex(re), 0);
    }
  }

  lemma {:induction false} FirstAcceptingAgrees(wf: Workflow, name: string, m1: Matching, m2: Matching, from: nat)
    requires forall i :: 0 <= i < |wf| ==> CategoryAccepts(wf[i].1, name, m1) == CategoryAccepts(wf[i].1, name, m2)
    ensures FirstAccepting(wf, name, m1, from) == FirstAccepting(wf, name, m2, from)
    decreases |wf| - from
  {
    if from < |wf| {
      FirstAcceptingAgrees(wf, name, m1, m2, from + 1);
    }
  }

  /** The `groupBy` callback: a `for…in` loop over the categories that returns the first
      accepting one, reading `action.list.name` on every iteration. */
  method CategoryOf(wf: Workflow, action: Action, m: Matching) returns (r: Result<string>)
    ensures r == StageCategory(wf, action, m)
  {
    for i := 0 to |wf|
      invariant i > 0 ==> action.list.Some?
      invariant i > 0 ==> FirstAccepting(wf, action.list.value.name, m, i) == FirstAccepting(wf, action.list.value.name, m, 0)
    {
      if action.list.None? {
        return Err(NullListName);
      }
      var name := action.list.value.name;
      var listsForThisStage := wf[i].1;
      if name in listsForThisStage {
        return Ok(wf[i].0);
      }
      if m.LiteralOrRegex? {
        var hit := HasRegexMatch(listsForThisStage, name, m.re);
        if hit.Err? {
          return Err(hit.error);
        }
        if hit.value {
          return Ok(wf[i].0);
        }
      }
    }
    return Ok(Uncategorized);
  }

  // ===========================================================================
  // Grouping: the bins `addStagingDates` hands to the resolver
  // ===========================================================================

  /** The classification callback as a value, for `groupBy` over the action log. */
  function Classifier(wf: Workflow, m: Matching): Action -> Result<string> {
    a => StageCategory(wf, a, m)
  }

  /** The group of every action, in action order; the first action that throws aborts. */
  function StageKeys(wf: Workflow, actions: seq<Action>, m: Matching): Result<seq<string>> {
    MapResult(actions, Classifier(wf, m))
  }

  /** The actions filed under `c`, in action order. */
  function ActionsWhere(actions: seq<Action>, keys: seq<string>, c: string): (r: seq<Action>)
    requires |keys| == |actions|
    ensures forall a :: a in r ==> a in actions
    decreases |actions|
  {
    if |actions| == 0 then []
    else
      var n := |actions| - 1;
      ActionsWhere(actions[..n], keys[..n], c) + (if keys[n] == c then [actions[n]] else [])
  }

  function Dates(actions: seq<Action>): (r: seq<string>)
    ensures |r| == |actions| && forall i :: 0 <= i < |actions| ==> r[i] == actions[i].date
  {
    seq(|actions|, i requires 0 <= i < |actions| => actions[i].date)
  }

  /** The dates collected for category `c`: those of the actions filed under `c`, in action
      order. The group named `uncategorized` is deleted before the collection, so a category
      of that name always collects nothing. */
  function Bin(c: string, actions: seq<Action>, keys: seq<string>): seq<string>
    requires |keys| == |actions|
  {
    if c == Uncategorized then [] else Dates(ActionsWhere(actions, keys, c))
  }

  /** One bin per category, in workflow order. */
  function Bins(wf: Workflow, actions: seq<Action>, keys: seq<string>): (r: seq<seq<string>>)
    requires |keys| == |actions|
    ensures |r| == |wf| && forall i :: 0 <= i < |wf| ==> r[i] == Bin(wf[i].0, actions, keys)
  {
    seq(|wf|, i requires 0 <= i < |wf| => Bin(wf[i].0, actions, keys))
  }

  lemma {:induction false} ActionsWhereAbsent(actions: seq<Action>, keys: seq<string>, c: string)
    requires |keys| == |actions| && c !in keys
    ensures ActionsWhere(actions, keys, c) == []
    decreases |actions|
  {
    if |actions| > 0 {
      var n := |actions| - 1;
      assert c !in keys[..n];
      ActionsWhereAbsent(actions[..n], keys[..n], c);
    }
  }

  lemma {:induction false} ActionsWhereAppend(p: seq<Action>, kp: seq<string>, q: seq<Action>, kq: seq<string>, c: string)
    requires |kp| == |p| && |kq| == |q|
    ensures ActionsWhere(p + q, kp + kq, c) == ActionsWhere(p, kp, c) + ActionsWhere(q, kq, c)
    decreases |q|
  {
    if |q| == 0 {
      assert p + q == p && kp + kq == kp;
    } else {
      var n := |q| - 1;
      assert (p + q)[..|p + q| - 1] == p + q[..n];
      assert (kp + kq)[..|kp + kq| - 1] == kp + kq[..n];
      ActionsWhereAppend(p, kp, q[..n], kq[..n], c);
    }
  }

  /** The positions in the log of the actions filed under `c`, in increasing order. */
  function Positions(keys: seq<string>, c: string): (idx: seq<nat>)
    ensures forall t :: 0 <= t < |idx| ==> idx[t] < |keys| && keys[idx[t]] == c
    ensures forall t, u :: 0 <= t < u < |idx| ==> idx[t] < idx[u]
    ensures forall k :: 0 <= k < |keys| && keys[k] == c ==> k in idx
    decreases |keys|
  {
    if |keys| == 0 then []
    else
      var n := |keys| - 1;
      Positions(keys[..n], c) + (if keys[n] == c then [n] else [])
  }

  /** A group keeps the log's order: its `t`-th action is the action at the `t`-th
      position filed under its category. */
  lemma {:induction false} ActionsWhereInLogOrder(actions: seq<Action>, keys: seq<string>, c: string)
    requires |keys| == |actions|
    ensures var r, idx := ActionsWhere(actions, keys, c), Positions(keys, c);
      |r| == |idx| && forall t :: 0 <= t < |r| ==> r[t] == actions[idx[t]]
    decreases |actions|
  {
    if |actions| > 0 {
      var n := |actions| - 1;
      ActionsWhereInLogOrder(actions[..n], keys[..n], c);
    }
  }

  // ===========================================================================
  // Monotonic date resolver: `filterAndFlattenStagingDates`
  // ===========================================================================

  /** `stageBin.filter(date => date >= floor)`: the dates at or above the floor. */
  function AtLeast(bin: seq<string>, floor: string): (r: seq<string>)
    ensures forall d :: d in r <==> d in bin && LessEq(floor, d)
    decreases |bin|
  {
    if |bin| == 0 then []
    else (if LessEq(floor, bin[0]) then [bin[0]] else []) + AtLeast(bin[1..], floor)
  }

  /** The earliest of a non-empty set of dates. */
  function Earliest(dates: seq<string>): (e: string)
    requires |dates| > 0
    ensures e in dates && forall d :: d in dates ==> LessEq(e, d)
    decreases |dates|
  {
    if |dates| == 1 then
      LessEqReflexive(dates[0]);
      dates[0]
    else
      var rest := Earliest(dates[1..]);
      LessEqTotal(dates[0], rest);
      LessEqReflexive(dates[0]);
      if LessEq(dates[0], rest) then
        assert forall d :: d in dates[1..] ==> LessEq(dates[0], d) by {
          forall d | d in dates[1..] ensures LessEq(dates[0], d) { LessEqTransitive(dates[0], rest, d); }
        }
        dates[0]
      else
        rest
  }

  /** The latest of a non-empty set of dates. */
  function Latest(dates: seq<string>): (l: string)
    requires |dates| > 0
    ensures l in dates && forall d :: d in dates ==> LessEq(d, l)
    decreases |dates|
  {
    if |dates| == 1 then
      LessEqReflexive(dates[0]);
      dates[0]
    else
      var rest := Latest(dates[1..]);
      LessEqTotal(dates[0], rest);
      LessEqReflexive(dates[0]);
      if LessEq(rest, dates[0]) then
        assert forall d :: d in dates[1..] ==> LessEq(d, dates[0]) by {
          forall d | d in dates[1..] ensures LessEq(d, dates[0]) { LessEqTransitive(d, rest, dates[0]); }
        }
        dates[0]
      else
        rest
  }

  /** The date one bin contributes under `floor`: the earliest surviving date, or `''`
      when no date survives. */
  function Emitted(bin: seq<string>, floor: string): string {
    var valid := AtLeast(bin, floor);
    if |valid| > 0 then Earliest(valid) else ""
  }

  /** The floor after one bin: the latest surviving date, or the unchanged floor. */
  function NextFloor(bin: seq<string>, floor: string): string {
    var valid := AtLeast(bin, floor);
    if |valid| > 0 then Latest(valid) else floor
  }

  /** The staging dates of `bins` resolved left to right from a running floor. */
  function Resolve(bins: seq<seq<string>>, floor: string): (r: seq<string>)
    ensures |r| == |bins|
    decreases |bins|
  {
    if |bins| == 0 then []
    else [Emitted(bins[0], floor)] + Resolve(bins[1..], NextFloor(bins[0], floor))
  }

  /** The floor in force when bin `i` is resolved. */
  function FloorBefore(bins: seq<seq<string>>, floor: string, i: nat): string
    requires i <= |bins|
    decreases i
  {
    if i == 0 then floor else FloorBefore(bins[1..], NextFloor(bins[0], floor), i - 1)
  }

  lemma FloorStep(bins: seq<seq<string>>, floor: string, i: nat)
    requires i < |bins|
    ensures FloorBefore(bins, floor, i + 1) == NextFloor(bins[i], FloorBefore(bins, floor, i))
    ensures Resolve(bins, floor)[i] == Emitted(bins[i], FloorBefore(bins, floor, i))
  {
    FloorAfterStep(bins, floor, i);
    EntryAtStep(bins, floor, i);
  }

  lemma {:induction false} FloorAfterStep(bins: seq<seq<string>>, floor: string, i: nat)
    requires i < |bins|
    ensures FloorBefore(bins, floor, i + 1) == NextFloor(bins[i], FloorBefore(bins, floor, i))
    decreases i
  {
    if i > 0 {
      var tail, next := bins[1..], NextFloor(bins[0], floor);
      FloorAfterStep(tail, next, i - 1);
      assert tail[i - 1] == bins[i];
    }
  }

  lemma {:induction false} EntryAtStep(bins: seq<seq<string>>, floor: string, i: nat)
    requires i < |bins|
    ensures Resolve(bins, floor)[i] == Emitted(bins[i], FloorBefore(bins, floor, i))
    decreases i
  {
    if i > 0 {
      var tail, next := bins[1..], NextFloor(bins[0], floor);
      EntryAtStep(tail, next, i - 1);
      ResolveShift(bins, floor, i);
      assert tail[i - 1] == bins[i];
    }
  }

  lemma ResolveShift(bins: seq<seq<string>>, floor: string, i: nat)
    requires 0 < i < |bins|
    ensures Resolve(bins, floor)[i] == Resolve(bins[1..], NextFloor(bins[0], floor))[i - 1]
  {
  }

  /** What one step of the resolver does with its bin and its floor. */
  lemma StepFacts(bin: seq<string>, floor: string)
    ensures LessEq(floor, NextFloor(bin, floor))
    ensures |AtLeast(bin, floor)| == 0 ==> Emitted(bin, floor) == "" && NextFloor(bin, floor) == floor
    ensures |AtLeast(bin, floor)| > 0 ==>
      && Emitted(bin, floor) in bin && LessEq(floor, Emitted(bin, floor))
      && LessEq(Emitted(bin, floor), NextFloor(bin, floor))
  {
    var valid := AtLeast(bin, floor);
    if |valid| > 0 {
      assert valid[0] in valid;
      LessEqTransitive(Emitted(bin, floor), valid[0], NextFloor(bin, floor));
    } else {
      LessEqReflexive(floor);
    }
  }

  /** Of the dates at or above the floor, the step emits the earliest and moves the
      floor to the latest. */
  lemma StepChoosesExtremes(bin: seq<string>, floor: string, d: string)
    requires d in bin && LessEq(floor, d)
    ensures LessEq(Emitted(bin, floor), d) && LessEq(d, NextFloor(bin, floor))
  {
    assert d in AtLeast(bin, floor);
  }

  lemma {:induction false} FloorRises(bins: seq<seq<string>>, floor: string, i: nat, j: nat)
    requires i <= j <= |bins|
    ensures LessEq(FloorBefore(bins, floor, i), FloorBefore(bins, floor, j))
    decreases j - i
  {
    if i == j {
      LessEqReflexive(FloorBefore(bins, floor, i));
    } else {
      FloorRises(bins, floor, i + 1, j);
      FloorStep(bins, floor, i);
      StepFacts(bins[i], FloorBefore(bins, floor, i));
      LessEqTransitive(FloorBefore(bins, floor, i), FloorBefore(bins, floor, i + 1), FloorBefore(bins, floor, j));
    }
  }

  /** Each resolved entry either is `''` with the floor left unchanged (no date survived
      the filter), or is the earliest surviving date of its bin, the next floor being the
      latest surviving date. */
  lemma ResolveSteps(bins: seq<seq<string>>, floor: string, i: nat)
    requires i < |bins|
    ensures var f := FloorBefore(bins, floor, i);
      var valid := AtLeast(bins[i], f);
      var r := Resolve(bins, floor);
      && (|valid| == 0 ==> r[i] == "" && FloorBefore(bins, floor, i + 1) == f)
      && (|valid| > 0 ==> r[i] == Earliest(valid) && FloorBefore(bins, floor, i + 1) == Latest(valid))
  {
    FloorStep(bins, floor, i);
  }

  /** One entry per bin; each entry is `''` or a date of its own bin at or above the floor
      in force at that step, and so at or above the initial floor. */
  lemma ResolveEntries(bins: seq<seq<string>>, floor: string)
    ensures |Resolve(bins, floor)| == |bins|
    ensures forall i :: 0 <= i < |bins| ==>
      var r := Resolve(bins, floor)[i];
      r == "" || (r in bins[i] && LessEq(FloorBefore(bins, floor, i), r) && LessEq(floor, r))
  {
    forall i | 0 <= i < |bins|
      ensures var r := Resolve(bins, floor)[i];
        r == "" || (r in bins[i] && LessEq(FloorBefore(bins, floor, i), r) && LessEq(floor, r))
    {
      FloorStep(bins, floor, i);
      var f := FloorBefore(bins, floor, i);
      StepFacts(bins[i], f);
      FloorRises(bins, floor, 0, i);
      if |AtLeast(bins[i], f)| > 0 {
        LessEqTransitive(floor, f, Emitted(bins[i], f));
      }
    }
  }

  /** The resolver's guarantee: the non-empty entries, read left to right, never decrease. */
  lemma ResolveMonotone(bins: seq<seq<string>>, floor: string)
    ensures var r := Resolve(bins, floor);
      forall i, j :: 0 <= i < j < |r| && r[i] != "" && r[j] != "" ==> LessEq(r[i], r[j])
  {
    var r := Resolve(bins, floor);
    forall i, j | 0 <= i < j < |r| && r[i] != "" && r[j] != ""
      ensures LessEq(r[i], r[j])
    {
      ResolvePairOrdered(bins, floor, i, j);
    }
  }

  lemma ResolvePairOrdered(bins: seq<seq<string>>, floor: string, i: nat, j: nat)
    requires i < j < |bins|
    requires Resolve(bins, floor)[i] != "" && Resolve(bins, floor)[j] != ""
    ensures LessEq(Resolve(bins, floor)[i], Resolve(bins, floor)[j])
  {
    var ei, ej := Resolve(bins, floor)[i], Resolve(bins, floor)[j];
    NonEmptyEntryBetweenFloors(bins, floor, i);
    NonEmptyEntryBetweenFloors(bins, floor, j);
    FloorRises(bins, floor, i + 1, j);
    LessEqTransitive(ei, FloorBefore(bins, floor, i + 1), FloorBefore(bins, floor, j));
    LessEqTransitive(ei, FloorBefore(bins, floor, j), ej);
  }

  /** A non-empty entry lies between the floor in force at its step and the next floor. */
  lemma NonEmptyEntryBetweenFloors(bins: seq<seq<string>>, floor: string, i: nat)
    requires i < |bins| && Resolve(bins, floor)[i] != ""
    ensures LessEq(FloorBefore(bins, floor, i), Resolve(bins, floor)[i])
    ensures LessEq(Resolve(bins, floor)[i], FloorBefore(bins, floor, i + 1))
  {
    FloorStep(bins, floor, i);
    StepFacts(bins[i], FloorBefore(bins, floor, i));
  }

  /** A bin with no surviving date carries the floor forward: the next bin is filtered
      against the same floor as if the empty one were absent. */
  lemma ResolveSkipsDeadBin(bins: seq<seq<string>>, floor: string, i: nat)
    requires i < |bins| && |AtLeast(bins[i], FloorBefore(bins, floor, i))| == 0
    ensures Resolve(bins, floor)[i] == ""
    ensures FloorBefore(bins, floor, i + 1) == FloorBefore(bins, floor, i)
  {
    FloorStep(bins, floor, i);
  }

  /** Earliest wins, the floor advances to the latest: dates 2020-03-01 and 2020-01-05 in
      the first bin give 2020-01-05, and the 2020-02-01 of the next bin then falls below the
      floor 2020-03-01. */
  lemma ResolveExampleEarliestWins(jan: string, feb: string, mar: string)
    requires jan == "2020-01-05" && feb == "2020-02-01" && mar == "2020-03-01"
    ensures Resolve([[mar, jan], [feb]], "") == [jan, ""]
  {
    var bins := [[mar, jan], [feb]];
    LessAtFirstDifference(jan, mar, 6);
    ExampleFirstBin(jan, mar);
    LessAtFirstDifference(feb, mar, 6);
    ExampleDeadBin(feb, mar);
    assert bins[1..] == [[feb]] && [[feb]][1..] == [];
  }

  lemma ExampleFirstBin(early: string, late: string)
    requires Less(early, late) && !Less(late, early)
    ensures Emitted([late, early], "") == early && NextFloor([late, early], "") == late
  {
    var b0 := [late, early];
    assert b0[1..] == [early] && [early][1..] == [];
    assert AtLeast([early], "") == [early] + AtLeast([], "");
    assert AtLeast(b0, "") == b0;
  }

  lemma ExampleDeadBin(d: string, floor: string)
    requires Less(d, floor)
    ensures AtLeast([d], floor) == [] && Emitted([d], floor) == "" && NextFloor([d], floor) == floor
  {
    assert [d][1..] == [];
  }

  lemma ExampleLiveBin(d: string, floor: string)
    requires !Less(d, floor)
    ensures AtLeast([d], floor) == [d] && Emitted([d], floor) == d && NextFloor([d], floor) == d
  {
    assert [d][1..] == [];
    assert AtLeast([d], floor) == [d] + AtLeast([], floor);
  }

  /** Carry-forward: a middle bin entirely below the floor emits `''`, and the third bin
      is tested against the unchanged floor. */
  lemma ResolveExampleCarryForward(apr1: string, apr15: string, may: string, jun: string)
    requires apr1 == "2020-04-01" && apr15 == "2020-04-15" && may == "2020-05-01" && jun == "2020-06-01"
    ensures Resolve([[may], [apr1], [apr15, jun]], "") == [may, "", jun]
  {
    ExampleLiveBin(may, "");
    LessAtFirstDifference(apr1, may, 6);
    ExampleDeadBin(apr1, may);
    ExampleThirdBin(apr15, jun, may);
    var bins := [[may], [apr1], [apr15, jun]];
    var tail := [[apr1], [apr15, jun]];
    var last := [[apr15, jun]];
    assert bins[1..] == tail && tail[1..] == last && last[1..] == [];
    assert Resolve(last, may) == [jun];
    assert Resolve(tail, may) == [""] + Resolve(last, may);
    assert Resolve(bins, "") == [may] + Resolve(tail, may);
  }

  lemma ExampleThirdBin(apr15: string, jun: string, may: string)
    requires apr15 == "2020-04-15" && jun == "2020-06-01" && may == "2020-05-01"
    ensures AtLeast([apr15, jun], may) == [jun] && Emitted([apr15, jun], may) == jun
  {
    LessAtFirstDifference(apr15, may, 6);
    LessAtFirstDifference(may, jun, 6);
    ExampleLiveBin(jun, may);
    assert [apr15, jun][1..] == [jun];
    assert AtLeast([apr15, jun], may) == AtLeast([jun], may);
  }

  /** After `sort()`, the first and last dates are the earliest and the latest. */
  lemma SortedEnds(valid: seq<string>)
    requires |valid| > 0
    ensures var s := Sort(valid, DefaultCompare);
      |s| == |valid| && s[0] == Earliest(valid) && s[|s| - 1] == Latest(valid)
  {
    var s := Sort(valid, DefaultCompare);
    DefaultCompareSignFlips();
    SortSorted(valid, DefaultCompare);
    DefaultSortedEnds(s);
    FirstIsEarliest(valid, s);
    LastIsLatest(valid, s);
  }

  /** A rearrangement of the dates whose first element is at or below all of them starts
      with the earliest date. */
  lemma FirstIsEarliest(valid: seq<string>, s: seq<string>)
    requires |valid| > 0 && multiset(s) == multiset(valid)
    requires forall k :: 0 <= k < |s| ==> LessEq(s[0], s[k])
    ensures |s| > 0 && s[0] == Earliest(valid)
  {
    assert |s| == |multiset(valid)| == |valid|;
    assert s[0] in multiset(valid);
    var e := Earliest(valid);
    assert e in multiset(s);
    var ie :| 0 <= ie < |s| && s[ie] == e;
    LessEqAntisymmetric(s[0], e);
  }

  /** Likewise, one whose last element is at or above all of them ends with the latest. */
  lemma LastIsLatest(valid: seq<string>, s: seq<string>)
    requires |valid| > 0 && multiset(s) == multiset(valid)
    requires forall k :: 0 <= k < |s| ==> LessEq(s[k], s[|s| - 1])
    ensures |s| > 0 && s[|s| - 1] == Latest(valid)
  {
    assert |s| == |multiset(valid)| == |valid|;
    assert s[|s| - 1] in multiset(valid);
    var l := Latest(valid);
    assert l in multiset(s);
    var il :| 0 <= il < |s| && s[il] == l;
    LessEqAntisymmetric(s[|s| - 1], l);
  }

  /** `filterAndFlattenStagingDates`: a `map` over the bins that reassigns the running
      floor `latestValidIssueDateSoFar` and sorts each bin's surviving dates in place. */
  method FilterAndFlattenStagingDates(stageBins: seq<seq<string>>) returns (stagingDates: seq<string>)
    ensures stagingDates == Resolve(stageBins, "")
  {
    var latestValidIssueDateSoFar := "";
    stagingDates := [];
    for idx := 0 to |stageBins|
      invariant stagingDates + Resolve(stageBins[idx..], latestValidIssueDateSoFar) == Resolve(stageBins, "")
    {
      ghost var done, floor := stagingDates, latestValidIssueDateSoFar;
      ResolveUnfold(stageBins, idx, floor);
      var validStageDates := AtLeast(stageBins[idx], latestValidIssueDateSoFar);
      if |validStageDates| > 0 {
        SortedEnds(validStageDates);
        validStageDates := Sort(validStageDates, DefaultCompare);
        latestValidIssueDateSoFar := validStageDates[|validStageDates| - 1];
        var earliestStageDate := validStageDates[0];
        stagingDates := stagingDates + [earliestStageDate];
      } else {
        stagingDates := stagingDates + [""];
      }
      assert stagingDates == done + [Emitted(stageBins[idx], floor)];
      assert latestValidIssueDateSoFar == NextFloor(stageBins[idx], floor);
      Associative(done, [Emitted(stageBins[idx], floor)], Resolve(stageBins[idx + 1..], latestValidIssueDateSoFar));
    }
  }

  lemma ResolveUnfold(bins: seq<seq<string>>, idx: nat, floor: string)
    requires idx < |bins|
    ensures Resolve(bins[idx..], floor) == [Emitted(bins[idx], floor)] + Resolve(bins[idx + 1..], NextFloor(bins[idx], floor))
  {
    assert bins[idx..][1..] == bins[idx + 1..];
  }

  // ===========================================================================
  // `addStagingDates`
  // ===========================================================================

  /** The staging dates of an action log, or the exception classification throws. */
  function StagingDatesFor(wf: Workflow, actions: seq<Action>, m: Matching): Result<seq<string>> {
    var keys :- StageKeys(wf, actions, m);
    Ok(Resolve(Bins(wf, actions, keys), ""))
  }

  /** `addStagingDates(card, workflow)`: a copy of the card with `stagingDates` added. */
  function StagedCard(card: Card, wf: Workflow, m: Matching): (r: Result<Card>)
    ensures r.Ok? <==> StagingDatesFor(wf, card.actions, m).Ok?
    ensures r.Ok? ==> r.value == card.(stagingDates := Some(StagingDatesFor(wf, card.actions, m).value))
    ensures r.Err? ==> r.error == StagingDatesFor(wf, card.actions, m).error
  {
    var dates :- StagingDatesFor(wf, card.actions, m);
    Ok(card.(stagingDates := Some(dates)))
  }

  /** The staging dates hold one entry per category, in workflow order; each is `''` or
      the date of an action filed under that category; the non-empty ones never decrease. */
  lemma StagingDatesShape(wf: Workflow, actions: seq<Action>, m: Matching)
    requires StagingDatesFor(wf, actions, m).Ok?
    ensures var dates := StagingDatesFor(wf, actions, m).value;
      && |dates| == |wf|
      && (forall i :: 0 <= i < |wf| ==>
            (dates[i] == "" || exists k :: 0 <= k < |actions| && actions[k].date == dates[i] && StageCategory(wf, actions[k], m) == Ok(wf[i].0)))
      && (forall i, j :: 0 <= i < j < |wf| && dates[i] != "" && dates[j] != "" ==> LessEq(dates[i], dates[j]))
  {
    var keys := StageKeys(wf, actions, m).value;
    var bins := Bins(wf, actions, keys);
    ResolveEntries(bins, "");
    ResolveMonotone(bins, "");
    var dates := Resolve(bins, "");
    forall i | 0 <= i < |wf| && dates[i] != ""
      ensures exists k :: 0 <= k < |actions| && actions[k].date == dates[i] && StageCategory(wf, actions[k], m) == Ok(wf[i].0)
    {
      assert dates[i] in bins[i];
      var filed := ActionsWhere(actions, keys, wf[i].0);
      var t :| 0 <= t < |filed| && Dates(filed)[t] == dates[i];
      ActionsWhereFiled(actions, keys, wf[i].0, filed[t]);
      var k :| 0 <= k < |actions| && actions[k] == filed[t] && keys[k] == wf[i].0;
      assert Classifier(wf, m)(actions[k]) == Ok(keys[k]);
    }
  }

  lemma {:induction false} ActionsWhereFiled(actions: seq<Action>, keys: seq<string>, c: string, a: Action)
    requires |keys| == |actions| && a in ActionsWhere(actions, keys, c)
    ensures exists k :: 0 <= k < |actions| && actions[k] == a && keys[k] == c
    decreases |actions|
  {
    var n := |actions| - 1;
    if a in ActionsWhere(actions[..n], keys[..n], c) {
      ActionsWhereFiled(actions[..n], keys[..n], c, a);
      var k :| 0 <= k < n && actions[..n][k] == a && keys[..n][k] == c;
    }
  }

  /** Classification throws exactly when some action's classification throws, and the
      exception is that of the first such action. */
  lemma StagingDatesFailure(wf: Workflow, actions: seq<Action>, m: Matching)
    ensures StagingDatesFor(wf, actions, m).Ok? <==> forall k :: 0 <= k < |actions| ==> StageCategory(wf, actions[k], m).Ok?
    ensures StagingDatesFor(wf, actions, m).Err? ==> exists k ::
              && 0 <= k < |actions|
              && StageCategory(wf, actions[k], m) == Err(StagingDatesFor(wf, actions, m).error)
              && forall j :: 0 <= j < k ==> StageCategory(wf, actions[j], m).Ok?
  {
    var r := StageKeys(wf, actions, m);
    assert forall k :: 0 <= k < |actions| ==> Classifier(wf, m)(actions[k]) == StageCategory(wf, actions[k], m);
  }

  /** An action that no category accepts has no influence: inserting it anywhere in the
      log leaves the staging dates, and any exception, as they were. */
  lemma UncategorizedActionIsIgnored(wf: Workflow, actions: seq<Action>, m: Matching, k: nat, x: Action)
    requires k <= |actions|
    requires StageCategory(wf, x, m) == Ok(Uncategorized)
    ensures StagingDatesFor(wf, actions[..k] + [x] + actions[k..], m) == StagingDatesFor(wf, actions, m)
  {
    var f := Classifier(wf, m);
    var p, q := actions[..k], actions[k..];
    assert actions == p + q;
    assert f(x) == Ok(Uncategorized);
    MapResultInsert(p, x, q, f, Uncategorized);
    if MapResult(p + q, f).Ok? {
      BinsSkipUncategorized(wf, p, MapResult(p, f).value, x, q, MapResult(q, f).value);
    }
  }

  /** An action filed under `uncategorized` lands in no bin. */
  lemma BinsSkipUncategorized(wf: Workflow, p: seq<Action>, kp: seq<string>, x: Action, q: seq<Action>, kq: seq<string>)
    requires |kp| == |p| && |kq| == |q|
    ensures Bins(wf, p + [x] + q, kp + [Uncategorized] + kq) == Bins(wf, p + q, kp + kq)
  {
    forall i | 0 <= i < |wf|
      ensures Bin(wf[i].0, p + [x] + q, kp + [Uncategorized] + kq) == Bin(wf[i].0, p + q, kp + kq)
    {
      var c := wf[i].0;
      if c != Uncategorized {
        ActionsWhereSkip(p, kp, x, Uncategorized, q, kq, c);
      }
    }
  }

  /** An action filed under some other key is not in `c`'s group. */
  lemma ActionsWhereSkip(p: seq<Action>, kp: seq<string>, x: Action, u: string, q: seq<Action>, kq: seq<string>, c: string)
    requires |kp| == |p| && |kq| == |q| && c != u
    ensures ActionsWhere(p + [x] + q, kp + [u] + kq, c) == ActionsWhere(p + q, kp + kq, c)
  {
    ActionsWhereAppend(p, kp, [x], [u], c);
    ActionsWhereAppend(p + [x], kp + [u], q, kq, c);
    ActionsWhereAppend(p, kp, q, kq, c);
    assert ActionsWhere([x], [u], c) == [] by {
      assert [x][..0] == [] && [u][..0] == [];
    }
  }

  /** The sum of the bin lengths over the given category names. */
  function BinSizes(names: seq<string>, actions: seq<Action>, keys: seq<string>): nat
    requires |keys| == |actions|
    decreases |names|
  {
    if |names| == 0 then 0 else |Bin(names[0], actions, keys)| + BinSizes(names[1..], actions, keys)
  }

  function Occurrences(names: seq<string>, c: string): nat
    decreases |names|
  {
    if |names| == 0 then 0 else (if names[0] == c then 1 else 0) + Occurrences(names[1..], c)
  }

  lemma {:induction false} OccurrencesOfDistinct(names: seq<string>, c: string)
    requires forall i, j :: 0 <= i < j < |names| ==> names[i] != names[j]
    requires c in names
    ensures Occurrences(names, c) == 1
    decreases |names|
  {
    if names[0] == c {
      OccurrencesOfAbsent(names[1..], c);
    } else {
      OccurrencesOfDistinct(names[1..], c);
    }
  }

  lemma {:induction false} OccurrencesOfAbsent(names: seq<string>, c: string)
    requires c !in names
    ensures Occurrences(names, c) == 0
    decreases |names|
  {
    if |names| > 0 {
      OccurrencesOfAbsent(names[1..], c);
    }
  }

  lemma {:induction false} BinSizesSnoc(names: seq<string>, actions: seq<Action>, keys: seq<string>, a: Action, c: string)
    requires |keys| == |actions|
    ensures BinSizes(names, actions + [a], keys + [c]) ==
      BinSizes(names, actions, keys) + (if c == Uncategorized then 0 else Occurrences(names, c))
    decreases |names|
  {
    if |names| > 0 {
      BinSizesSnoc(names[1..], actions, keys, a, c);
      assert (actions + [a])[..|actions|] == actions && (keys + [c])[..|keys|] == keys;
    }
  }

  /** Every action lands in exactly one place: the bins' lengths, summed over the distinct
      categories, plus the size of the discarded `uncategorized` group, equal the number of
      actions. */
  lemma EveryActionLandsOnce(wf: Workflow, actions: seq<Action>, keys: seq<string>)
    requires DistinctKeys(wf) && |keys| == |actions|
    requires forall k :: 0 <= k < |keys| ==> keys[k] == Uncategorized || keys[k] in Keys(wf)
    ensures BinSizes(Keys(wf), actions, keys) + |ActionsWhere(actions, keys, Uncategorized)| == |actions|
  {
    var names := Keys(wf);
    assert forall i, j :: 0 <= i < j < |names| ==> names[i] != names[j];
    LandsOnce(names, actions, keys);
  }

  lemma {:induction false} LandsOnce(names: seq<string>, actions: seq<Action>, keys: seq<string>)
    requires |keys| == |actions|
    requires forall i, j :: 0 <= i < j < |names| ==> names[i] != names[j]
    requires forall k :: 0 <= k < |keys| ==> keys[k] == Uncategorized || keys[k] in names
    ensures BinSizes(names, actions, keys) + |ActionsWhere(actions, keys, Uncategorized)| == |actions|
    decreases |actions|
  {
    if |actions| == 0 {
      BinSizesNoActions(names);
    } else {
      var n := |actions| - 1;
      var p, kp, c := actions[..n], keys[..n], keys[n];
      forall k | 0 <= k < |kp|
        ensures kp[k] == Uncategorized || kp[k] in names
      {
        assert kp[k] == keys[k];
      }
      LandsOnce(names, p, kp);
      PrefixSnoc(actions);
      PrefixSnoc(keys);
      BinSizesSnoc(names, p, kp, actions[n], c);
      ActionsWhereSnocCount(p, kp, actions[n], c, Uncategorized);
      if c != Uncategorized {
        OccurrencesOfDistinct(names, c);
      }
    }
  }

  lemma PrefixSnoc<T>(s: seq<T>)
    requires |s| > 0
    ensures s[..|s| - 1] + [s[|s| - 1]] == s
  {
  }

  lemma ActionsWhereSnocCount(p: seq<Action>, kp: seq<string>, a: Action, c: string, u: string)
    requires |kp| == |p|
    ensures |ActionsWhere(p + [a], kp + [c], u)| == |ActionsWhere(p, kp, u)| + (if c == u then 1 else 0)
  {
    assert (p + [a])[..|p|] == p && (kp + [c])[..|kp|] == kp;
  }

  lemma {:induction false} BinSizesNoActions(names: seq<string>)
    ensures BinSizes(names, [], []) == 0
    decreases |names|
  {
    if |names| > 0 {
      BinSizesNoActions(names[1..]);
    }
  }

  /** The classification of a card's log files every action once. */
  lemma ClassifiedLogLandsOnce(wf: Workflow, actions: seq<Action>, m: Matching)
    requires DistinctKeys(wf) && StageKeys(wf, actions, m).Ok?
    ensures var keys := StageKeys(wf, actions, m).value;
      BinSizes(Keys(wf), actions, keys) + |ActionsWhere(actions, keys, Uncategorized)| == |actions|
  {
    var keys := StageKeys(wf, actions, m).value;
    StageKeysAreCategories(wf, actions, m);
    EveryActionLandsOnce(wf, actions, keys);
  }

  /** Every action is filed under `uncategorized` or under a configured category. */
  lemma StageKeysAreCategories(wf: Workflow, actions: seq<Action>, m: Matching)
    requires StageKeys(wf, actions, m).Ok?
    ensures var keys := StageKeys(wf, actions, m).value;
      |keys| == |actions| && forall k :: 0 <= k < |keys| ==> keys[k] == Uncategorized || keys[k] in Keys(wf)
  {
    var keys := StageKeys(wf, actions, m).value;
    forall k | 0 <= k < |keys|
      ensures keys[k] == Uncategorized || keys[k] in Keys(wf)
    {
      assert Classifier(wf, m)(actions[k]) == Ok(keys[k]);
      if keys[k] != Uncategorized {
        var i :| 0 <= i < |wf| && wf[i].0 == keys[k];
        assert Keys(wf)[i] == keys[k];
      }
    }
  }

  /** `Object.assign` of the groups, without `uncategorized`, onto the defaults adds no
      key: the merged object has exactly the workflow's categories. */
  lemma MergedKeys(wf: Workflow, merged: map<string, seq<Action>>, initialized: map<string, seq<Action>>,
                   events: map<string, seq<Action>>, keys: seq<string>)
    requires merged == initialized + events
    requires forall c :: c in initialized <==> c in Keys(wf)
    requires forall c :: c in events <==> c in keys && c != Uncategorized
    requires forall k :: 0 <= k < |keys| ==> keys[k] == Uncategorized || keys[k] in Keys(wf)
    ensures forall c :: c in merged <==> c in Keys(wf)
  {
    forall c | c in events
      ensures c in Keys(wf)
    {
      var k :| 0 <= k < |keys| && keys[k] == c;
    }
  }

  /** After the `uncategorized` group is deleted and the groups are assigned over a map
      of empty defaults, a category's entry holds exactly its bin's actions. */
  lemma MergedGroup(merged: map<string, seq<Action>>, initialized: map<string, seq<Action>>,
                    events: map<string, seq<Action>>, actions: seq<Action>, keys: seq<string>, c: string)
    requires |keys| == |actions| && merged == initialized + events
    requires c in initialized && initialized[c] == []
    requires forall c' :: c' in events <==> c' in keys && c' != Uncategorized
    requires forall c' :: c' in events ==> events[c'] == ActionsWhere(actions, keys, c')
    ensures c in merged && Dates(merged[c]) == Bin(c, actions, keys)
  {
    if c !in events && c != Uncategorized {
      ActionsWhereAbsent(actions, keys, c);
    }
  }

  lemma GroupStep(actions: seq<Action>, k: nat, keys: seq<string>, c: string,
                  before: map<string, seq<Action>>, after: map<string, seq<Action>>)
    requires k < |actions| && |keys| == k
    requires forall c' :: c' in before <==> c' in keys
    requires forall c' :: c' in before ==> before[c'] == ActionsWhere(actions[..k], keys, c')
    requires after == before[c := ActionsWhere(actions[..k], keys, c) + [actions[k]]]
    ensures forall c' :: c' in after <==> c' in keys + [c]
    ensures forall c' :: c' in after ==> after[c'] == ActionsWhere(actions[..k + 1], keys + [c], c')
  {
    assert actions[..k + 1][..k] == actions[..k] && actions[..k + 1][k] == actions[k];
    assert (keys + [c])[..k] == keys;
  }

  /** Classifying one more action: its exception aborts the whole log, its category
      extends the keys. */
  lemma ClassifyStep(wf: Workflow, m: Matching, actions: seq<Action>, k: nat, keys: seq<string>)
    requires k < |actions| && MapResult(actions[..k], Classifier(wf, m)) == Ok(keys)
    ensures StageCategory(wf, actions[k], m).Err? ==>
      StageKeys(wf, actions, m) == Err(StageCategory(wf, actions[k], m).error)
    ensures StageCategory(wf, actions[k], m).Ok? ==>
      MapResult(actions[..k + 1], Classifier(wf, m)) == Ok(keys + [StageCategory(wf, actions[k], m).value])
  {
    var f := Classifier(wf, m);
    assert f(actions[k]) == StageCategory(wf, actions[k], m);
    if f(actions[k]).Err? {
      MapResultStops(actions, k, f);
    } else {
      MapResultExtends(actions, k, f, keys);
    }
  }

  /** `groupBy(classify, card.actions)`: the actions grouped by their category, each group
      in action order, with a group for every category some action is filed under; the
      first action whose classification throws aborts the grouping. */
  method GroupByStageCategory(wf: Workflow, actions: seq<Action>, m: Matching) returns (r: Result<map<string, seq<Action>>>)
    ensures r.Ok? <==> StageKeys(wf, actions, m).Ok?
    ensures r.Err? ==> r.error == StageKeys(wf, actions, m).error
    ensures r.Ok? ==> var keys := StageKeys(wf, actions, m).value;
      && (forall c :: c in r.value <==> c in keys)
      && (forall c :: c in r.value ==> r.value[c] == ActionsWhere(actions, keys, c))
  {
    var f := Classifier(wf, m);
    var eventsByStageCategory: map<string, seq<Action>> := map[];
    ghost var keys: seq<string> := [];
    for k := 0 to |actions|
      invariant MapResult(actions[..k], f) == Ok(keys) && |keys| == k
      invariant forall c :: c in eventsByStageCategory <==> c in keys
      invariant forall c :: c in eventsByStageCategory ==> eventsByStageCategory[c] == ActionsWhere(actions[..k], keys, c)
    {
      var action := actions[k];
      var category := CategoryOf(wf, action, m);
      ClassifyStep(wf, m, actions, k, keys);
      if category.Err? {
        return Err(category.error);
      }
      var c := category.value;
      var group := if c in eventsByStageCategory then eventsByStageCategory[c] else [];
      if c !in keys {
        ActionsWhereAbsent(actions[..k], keys, c);
      }
      ghost var before := eventsByStageCategory;
      eventsByStageCategory := eventsByStageCategory[c := group + [action]];
      GroupStep(actions, k, keys, c, before, eventsByStageCategory);
      keys := keys + [c];
    }
    assert actions[..|actions|] == actions;
    return Ok(eventsByStageCategory);
  }

  /** `Object.keys(workflow).map(key => initialized[key] = [])` on a fresh `initialized`:
      an empty group for every category. */
  method InitializeCategories(wf: Workflow) returns (initialized: map<string, seq<Action>>)
    ensures forall c :: c in initialized <==> c in Keys(wf)
    ensures forall c :: c in initialized ==> initialized[c] == []
  {
    initialized := map[];
    for i := 0 to |wf|
      invariant forall c :: c in initialized <==> c in Keys(wf)[..i]
      invariant forall c :: c in initialized ==> initialized[c] == []
    {
      assert Keys(wf)[..i + 1] == Keys(wf)[..i] + [wf[i].0];
      initialized := initialized[wf[i].0 := []];
    }
    assert Keys(wf)[..|wf|] == Keys(wf);
  }

  /** The `for…in` loop over the merged groups, which visits the categories in workflow
      order, pushing each group's dates. */
  method CollectBins(wf: Workflow, allStageCategoriesWithAllEvents: map<string, seq<Action>>,
                     ghost actions: seq<Action>, ghost keys: seq<string>) returns (accum: seq<seq<string>>)
    requires |keys| == |actions|
    requires forall c :: c in allStageCategoriesWithAllEvents <==> c in Keys(wf)
    requires forall i :: 0 <= i < |wf| ==> Dates(allStageCategoriesWithAllEvents[Keys(wf)[i]]) == Bin(wf[i].0, actions, keys)
    ensures accum == Bins(wf, actions, keys)
  {
    var stageCategories := Keys(wf);
    accum := [];
    for i := 0 to |stageCategories|
      invariant |accum| == i
      invariant forall j :: 0 <= j < i ==> accum[j] == Bin(wf[j].0, actions, keys)
    {
      var stageCategory := stageCategories[i];
      var dates := Dates(allStageCategoriesWithAllEvents[stageCategory]);
      accum := accum + [dates];
    }
  }

  /** `addStagingDates`: `groupBy` over the log, `delete` of the `uncategorized` group, an
      `initialized` object with `[]` for every category, `Object.assign` of the groups onto
      it, a `for…in` loop pushing each category's dates, and the resolver. */
  method AddStagingDates(card: Card, wf: Workflow, m: Matching) returns (r: Result<Card>)
    ensures r == StagedCard(card, wf, m)
  {
    var actions := card.actions;
    var grouped := GroupByStageCategory(wf, actions, m);
    if grouped.Err? {
      return Err(grouped.error);
    }
    ghost var keys := StageKeys(wf, actions, m).value;
    var eventsByStageCategory := grouped.value - {Uncategorized};
    var initialized := InitializeCategories(wf);
    var allStageCategoriesWithAllEvents := initialized + eventsByStageCategory;
    StageKeysAreCategories(wf, actions, m);
    MergedKeys(wf, allStageCategoriesWithAllEvents, initialized, eventsByStageCategory, keys);
    forall i | 0 <= i < |wf|
      ensures Dates(allStageCategoriesWithAllEvents[Keys(wf)[i]]) == Bin(wf[i].0, actions, keys)
    {
      assert Keys(wf)[i] == wf[i].0;
      MergedGroup(allStageCategoriesWithAllEvents, initialized, eventsByStageCategory, actions, keys, wf[i].0);
    }
    var accum := CollectBins(wf, allStageCategoriesWithAllEvents, actions, keys);
    var stagingDates := FilterAndFlattenStagingDates(accum);
    return Ok(card.(stagingDates := Some(stagingDates)));
  }

  // ===========================================================================
  // `fillOutMissingCategoriesWithEmptyArraysAndSort`
  // ===========================================================================

  /** `fillOutMissingCategoriesWithEmptyArraysAndSort(events, workflow)`: an object with
      exactly the workflow's categories, written in workflow order inside a `forEach`; a
      category present in `events` keeps its actions and a missing one gets `[]`. */
  method FillOutMissingCategoriesWithEmptyArraysAndSort(eventsByStageCategory: map<string, seq<Action>>, completeWorkflow: Workflow)
    returns (sorted: seq<(string, seq<Action>)>)
    ensures |sorted| == |completeWorkflow|
    ensures forall i :: 0 <= i < |completeWorkflow| ==> sorted[i].0 == completeWorkflow[i].0
    ensures forall i :: 0 <= i < |completeWorkflow| ==>
              sorted[i].1 == (if completeWorkflow[i].0 in eventsByStageCategory then eventsByStageCategory[completeWorkflow[i].0] else [])
  {
    sorted := [];
    for i := 0 to |completeWorkflow|
      invariant |sorted| == i
      invariant forall j :: 0 <= j < i ==> sorted[j].0 == completeWorkflow[j].0
      invariant forall j :: 0 <= j < i ==>
                  sorted[j].1 == (if completeWorkflow[j].0 in eventsByStageCategory then eventsByStageCategory[completeWorkflow[j].0] else [])
    {
      var stageCategory := completeWorkflow[i].0;
      var events := if stageCategory in eventsByStageCategory then eventsByStageCategory[stageCategory] else [];
      sorted := sorted + [(stageCategory, events)];
    }
  }
}
