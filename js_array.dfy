/** The JavaScript array operations the core relies on: `map` with a callback that
    may throw, and `sort` with a comparator. */
module JsArray {
  import opened Wrappers
  import opened JsString

  // ---------------------------------------------------------------------------
  // `xs.map(f)` where `f` may throw
  // ---------------------------------------------------------------------------

  /** `xs.map(f)`: the callback runs on the elements left to right, and the first
      exception it throws is the exception of the whole call. */
  function MapResult<A, B>(xs: seq<A>, f: A -> Result<B>): (r: Result<seq<B>>)
    ensures r.Ok? <==> forall i :: 0 <= i < |xs| ==> f(xs[i]).Ok?
    ensures r.Ok? ==> |r.value| == |xs| && forall i :: 0 <= i < |xs| ==> f(xs[i]) == Ok(r.value[i])
    ensures r.Err? ==> exists i :: 0 <= i < |xs| && f(xs[i]) == Err(r.error) && forall j :: 0 <= j < i ==> f(xs[j]).Ok?
    decreases |xs|
  {
    if |xs| == 0 then Ok([])
    else
      var front :- MapResult(xs[..|xs| - 1], f);
      var last :- f(xs[|xs| - 1]);
      Ok(front + [last])
  }

  /** Mapping a concatenation: the front's exception wins, then the back's. */
  lemma {:induction false} MapResultAppend<A, B>(p: seq<A>, q: seq<A>, f: A -> Result<B>)
    ensures MapResult(p + q, f) ==
      match MapResult(p, f)
      case Err(e) => Err(e)
      case Ok(a) =>
        match MapResult(q, f)
        case Err(e) => Err(e)
        case Ok(b) => Ok(a + b)
    decreases |q|
  {
    if |q| == 0 {
      assert p + q == p;
      if MapResult(p, f).Ok? {
        assert MapResult(p, f).value + [] == MapResult(p, f).value;
      }
    } else {
      var q' := q[..|q| - 1];
      var x := q[|q| - 1];
      assert (p + q)[..|p + q| - 1] == p + q';
      assert (p + q)[|p + q| - 1] == x;
      MapResultAppend(p, q', f);
      assert MapResult(p + q, f) == (var front :- MapResult(p + q', f); var last :- f(x); Ok(front + [last]));
      assert MapResult(q, f) == (var front :- MapResult(q', f); var last :- f(x); Ok(front + [last]));
      if MapResult(p, f).Ok? && MapResult(q', f).Ok? && f(x).Ok? {
        var a, b, c := MapResult(p, f).value, MapResult(q', f).value, f(x).value;
        assert a + b + [c] == a + (b + [c]);
      }
    }
  }

  /** Inserting an element whose call succeeds with `y` changes neither the outcome
      nor the exception; on success it inserts `y` at the same place. */
  lemma MapResultInsert<A, B>(p: seq<A>, x: A, q: seq<A>, f: A -> Result<B>, y: B)
    requires f(x) == Ok(y)
    ensures MapResult(p + q, f).Err? ==> MapResult(p + [x] + q, f) == MapResult(p + q, f)
    ensures MapResult(p + q, f).Ok? ==>
              && MapResult(p, f).Ok? && MapResult(q, f).Ok?
              && MapResult(p + q, f).value == MapResult(p, f).value + MapResult(q, f).value
              && MapResult(p + [x] + q, f) == Ok(MapResult(p, f).value + [y] + MapResult(q, f).value)
  {
    MapResultAppend(p, [x], f);
    MapResultAppend(p + [x], q, f);
    MapResultAppend(p, q, f);
    MapResultSingleton(x, f);
  }

  lemma MapResultSingleton<A, B>(x: A, f: A -> Result<B>)
    ensures MapResult([x], f) == match f(x) case Ok(v) => Ok([v]) case Err(e) => Err(e)
  {
    assert [x][..0] == [];
    assert MapResult([x][..0], f) == Ok([]);
    if f(x).Ok? {
      assert [] + [f(x).value] == [f(x).value];
    }
  }

  /** Once the callback throws on element `k`, after succeeding on every earlier one, the
      whole `map` throws that exception. */
  lemma MapResultStops<A, B>(xs: seq<A>, k: nat, f: A -> Result<B>)
    requires k < |xs| && f(xs[k]).Err? && MapResult(xs[..k], f).Ok?
    ensures MapResult(xs, f) == Err(f(xs[k]).error)
  {
    var front, back := xs[..k + 1], xs[k + 1..];
    assert front[..k] == xs[..k] && front[k] == xs[k];
    assert MapResult(front, f) == Err(f(xs[k]).error);
    MapResultAppend(front, back, f);
    assert front + back == xs;
  }

  /** A successful call on element `k` extends the results of the elements before it. */
  lemma MapResultExtends<A, B>(xs: seq<A>, k: nat, f: A -> Result<B>, ys: seq<B>)
    requires k < |xs| && f(xs[k]).Ok? && MapResult(xs[..k], f) == Ok(ys)
    ensures MapResult(xs[..k + 1], f) == Ok(ys + [f(xs[k]).value])
  {
    var front := xs[..k + 1];
    assert front[..|front| - 1] == xs[..k] && front[|front| - 1] == xs[k];
  }

  // ---------------------------------------------------------------------------
  // `keys.sort(cmp)`
  // ---------------------------------------------------------------------------

  /** Places `x` after every element it does not precede, before the first one it does. */
  function Insert(x: string, s: seq<string>, cmp: (string, string) -> int): (r: seq<string>)
    ensures multiset(r) == multiset(s) + multiset{x}
    decreases |s|
  {
    if |s| == 0 then [x]
    else if cmp(x, s[0]) < 0 then [x] + s
    else
      assert s == [s[0]] + s[1..];
      [s[0]] + Insert(x, s[1..], cmp)
  }

  /** `s.sort(cmp)`, as a stable insertion sort: elements the comparator reports
      equal keep their original order. */
  function Sort(s: seq<string>, cmp: (string, string) -> int): (r: seq<string>)
    ensures multiset(r) == multiset(s)
    ensures |r| == |s|
    decreases |s|
  {
    if |s| == 0 then []
    else
      assert s == s[..|s| - 1] + [s[|s| - 1]];
      var r := Insert(s[|s| - 1], Sort(s[..|s| - 1], cmp), cmp);
      assert |r| == |multiset(r)|;
      r
  }

  /** A comparator whose sign flips with its arguments: if `a` does not sort before `b`,
      then `b` does not sort after `a`. */
  ghost predicate SignFlips(cmp: (string, string) -> int) {
    forall a, b :: cmp(a, b) >= 0 ==> cmp(b, a) <= 0
  }

  /** Every element is "not after" its successor. */
  ghost predicate SortedBy(s: seq<string>, cmp: (string, string) -> int) {
    forall i :: 0 <= i < |s| - 1 ==> cmp(s[i], s[i + 1]) <= 0
  }

  lemma {:induction false} InsertSorted(x: string, s: seq<string>, cmp: (string, string) -> int)
    requires SignFlips(cmp) && SortedBy(s, cmp)
    ensures SortedBy(Insert(x, s, cmp), cmp)
    decreases |s|
  {
    if |s| > 0 && cmp(x, s[0]) >= 0 {
      var tail := s[1..];
      InsertSorted(x, tail, cmp);
      var ins := Insert(x, tail, cmp);
      assert cmp(s[0], ins[0]) <= 0 by {
        if |tail| == 0 || cmp(x, tail[0]) < 0 {
          assert ins[0] == x;
        } else {
          assert ins[0] == tail[0] == s[1];
        }
      }
      var r := [s[0]] + ins;
      forall i | 0 <= i < |r| - 1
        ensures cmp(r[i], r[i + 1]) <= 0
      {
        if i > 0 {
          assert r[i] == ins[i - 1] && r[i + 1] == ins[i];
        }
      }
    }
  }

  lemma {:induction false} SortSorted(s: seq<string>, cmp: (string, string) -> int)
    requires SignFlips(cmp)
    ensures SortedBy(Sort(s, cmp), cmp)
    decreases |s|
  {
    if |s| > 0 {
      SortSorted(s[..|s| - 1], cmp);
      InsertSorted(s[|s| - 1], Sort(s[..|s| - 1], cmp), cmp);
    }
  }

  /** The comparator `sort()` uses when given none: string comparison. */
  function DefaultCompare(a: string, b: string): int {
    if Less(a, b) then -1 else if Less(b, a) then 1 else 0
  }

  lemma DefaultCompareSignFlips()
    ensures SignFlips(DefaultCompare)
  {
  }

  /** After `sort()`, the first element is at or below every element and the last at or above. */
  lemma {:induction false} DefaultSortedEnds(s: seq<string>)
    requires |s| > 0 && SortedBy(s, DefaultCompare)
    ensures forall k :: 0 <= k < |s| ==> LessEq(s[0], s[k]) && LessEq(s[k], s[|s| - 1])
  {
    forall k | 0 <= k < |s| - 1
      ensures LessEq(s[k], s[k + 1])
    {
      assert DefaultCompare(s[k], s[k + 1]) <= 0;
      if Less(s[k], s[k + 1]) {
        LessAsymmetric(s[k], s[k + 1]);
      }
    }
    var k := 0;
    LessEqReflexive(s[0]);
    while k < |s| - 1
      invariant 0 <= k < |s|
      invariant forall j :: 0 <= j <= k ==> LessEq(s[0], s[j])
    {
      LessEqTransitive(s[0], s[k], s[k + 1]);
      k := k + 1;
    }
    k := |s| - 1;
    LessEqReflexive(s[|s| - 1]);
    while k > 0
      invariant 0 <= k < |s|
      invariant forall j :: k <= j < |s| ==> LessEq(s[j], s[|s| - 1])
    {
      LessEqTransitive(s[k - 1], s[k], s[|s| - 1]);
      k := k - 1;
    }
  }
}
