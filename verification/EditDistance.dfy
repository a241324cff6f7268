/** The edit distance behind catalog suggestions: the two-row loop of `levenshtein`
    against edit scripts, and the metric laws of the number it returns. */
module EditDistance {

  /** One step of turning a string into another, read left to right. */
  datatype Edit =
    | Keep(c: char)
    | Insert(c: char)
    | Delete(c: char)
    | Substitute(removed: char, added: char)

  function Consumed(e: Edit): string {
    match e
    case Keep(c) => [c]
    case Insert(_) => []
    case Delete(c) => [c]
    case Substitute(removed, _) => [removed]
  }

  function Produced(e: Edit): string {
    match e
    case Keep(c) => [c]
    case Insert(c) => [c]
    case Delete(_) => []
    case Substitute(_, added) => [added]
  }

  function Source(script: seq<Edit>): string {
    if script == [] then [] else
    Source(script[..|script| - 1]) + Consumed(script[|script| - 1])
  }

  function Target(script: seq<Edit>): string {
    if script == [] then [] else
    Target(script[..|script| - 1]) + Produced(script[|script| - 1])
  }

  /** Insertions, deletions and substitutions cost one each; keeping is free. */
  function Cost(script: seq<Edit>): nat {
    if script == [] then 0 else
    Cost(script[..|script| - 1]) + (if script[|script| - 1].Keep? then 0 else 1)
  }

  ghost predicate Rewrites(script: seq<Edit>, a: string, b: string) {
    Source(script) == a && Target(script) == b
  }

  /** `r` is the least cost over all edit scripts from `a` to `b`. */
  ghost predicate IsLeastCost(a: string, b: string, r: nat) {
    && (exists script :: Rewrites(script, a, b) && Cost(script) == r)
    && (forall script :: Rewrites(script, a, b) ==> r <= Cost(script))
  }

  function Min(x: nat, y: nat): nat {
    if x <= y then x else y
  }

  function Init(s: string): string
    requires s != []
  {
    s[..|s| - 1]
  }

  function Last(s: string): char
    requires s != []
  {
    s[|s| - 1]
  }

  function Mismatch(x: char, y: char): nat {
    if x == y then 0 else 1
  }

  /** The recurrence whose rows the loop tabulates. */
  function Distance(a: string, b: string): nat
    decreases |a| + |b|
  {
    if a == [] then |b|
    else if b == [] then |a|
    else Min(Min(Distance(Init(a), Init(b)) + Mismatch(Last(a), Last(b)),
                 Distance(a, Init(b)) + 1),
             Distance(Init(a), b) + 1)
  }

  lemma SplitLast(s: string)
    requires s != []
    ensures s == Init(s) + [Last(s)]
  {
  }

  /** A script that attains the recurrence. */
  lemma {:induction false} BestScript(a: string, b: string) returns (script: seq<Edit>)
    ensures Rewrites(script, a, b)
    ensures Cost(script) == Distance(a, b)
    decreases |a| + |b|
  {
    if a == [] && b == [] {
      script := [];
    } else if a == [] || (b != [] && Distance(a, b) == Distance(a, Init(b)) + 1) {
      SplitLast(b);
      script := BestScript(a, Init(b));
      script := Extend(script, Insert(Last(b)));
    } else if b == [] || Distance(a, b) == Distance(Init(a), b) + 1 {
      SplitLast(a);
      script := BestScript(Init(a), b);
      script := Extend(script, Delete(Last(a)));
    } else {
      SplitLast(a);
      SplitLast(b);
      script := BestScript(Init(a), Init(b));
      script := Extend(script, if Last(a) == Last(b) then Keep(Last(a)) else Substitute(Last(a), Last(b)));
    }
  }

  ghost function Extend(script: seq<Edit>, e: Edit): (longer: seq<Edit>)
    ensures Source(longer) == Source(script) + Consumed(e)
    ensures Target(longer) == Target(script) + Produced(e)
    ensures Cost(longer) == Cost(script) + (if e.Keep? then 0 else 1)
  {
    assert (script + [e])[..|script|] == script;
    script + [e]
  }

  /** The recurrence, one step unfolded. */
  lemma {:induction false} Recurrence(a: string, b: string)
    requires a != [] && b != []
    ensures Distance(a, b) == Min(Min(Distance(Init(a), Init(b)) + Mismatch(Last(a), Last(b)),
                                      Distance(a, Init(b)) + 1),
                                  Distance(Init(a), b) + 1)
  {
    hide Init, Last, Min, Mismatch;
  }

  lemma {:induction false} StepBounds(a: string, b: string)
    ensures a != [] ==> Distance(a, b) <= Distance(Init(a), b) + 1
    ensures b != [] ==> Distance(a, b) <= Distance(a, Init(b)) + 1
    ensures a != [] && b != [] ==> Distance(a, b) <= Distance(Init(a), Init(b)) + Mismatch(Last(a), Last(b))
  {
  }

  /** No script is cheaper than the recurrence. */
  lemma {:induction false} NoCheaperScript(script: seq<Edit>)
    ensures Distance(Source(script), Target(script)) <= Cost(script)
  {
    hide Distance;
    if script == [] {
      EmptyDistance();
    } else {
      var rest, e := script[..|script| - 1], script[|script| - 1];
      NoCheaperScript(rest);
      var a, b := Source(script), Target(script);
      StepBounds(a, b);
      match e {
        case Insert(_) =>
          assert a == Source(rest) && Init(b) == Target(rest);
        case Delete(_) =>
          assert Init(a) == Source(rest) && b == Target(rest);
        case Keep(_) =>
          assert Init(a) == Source(rest) && Init(b) == Target(rest);
        case Substitute(_, _) =>
          assert Init(a) == Source(rest) && Init(b) == Target(rest);
      }
    }
  }

  lemma EmptyDistance()
    ensures Distance([], []) == 0
  {
  }

  /** The recurrence is the least cost over all scripts. */
  lemma DistanceIsLeastCost(a: string, b: string)
    ensures IsLeastCost(a, b, Distance(a, b))
  {
    var best := BestScript(a, b);
    forall script | Rewrites(script, a, b)
      ensures Distance(a, b) <= Cost(script)
    {
      NoCheaperScript(script);
    }
  }

  /** `row` holds the distances from `a` to every prefix of `right`. */
  ghost predicate IsRow(row: seq<nat>, a: string, right: string) {
    |row| == |right| + 1 && forall j :: 0 <= j <= |right| ==> row[j] == Distance(a, right[..j])
  }

  /** The inner loop of `levenshtein`: the row after reading one more character of `left`. */
  method NextRow(previous: seq<nat>, left: string, i: nat, right: string) returns (current: seq<nat>)
    requires i < |left|
    requires IsRow(previous, left[..i], right)
    ensures IsRow(current, left[..i + 1], right)
  {
    hide Distance;
    ghost var a := left[..i + 1];
    assert Init(a) == left[..i];
    FirstColumn(a);
    current := [i + 1];
    for k := 0 to |right|
      invariant |current| == k + 1
      invariant forall j :: 0 <= j <= k ==> current[j] == Distance(a, right[..j])
    {
      ghost var b := right[..k + 1];
      assert Init(b) == right[..k];
      Recurrence(a, b);
      var substitution := previous[k] + (if left[i] != right[k] then 1 else 0);
      var insertion := current[k] + 1;
      var deletion := previous[k + 1] + 1;
      current := current + [Min(Min(substitution, insertion), deletion)];
    }
  }

  lemma FirstColumn(a: string)
    ensures Distance(a, []) == |a|
  {
  }

  /** `levenshtein`: only the latest row is kept. */
  method Levenshtein(left: string, right: string) returns (r: nat)
    ensures r == Distance(left, right)
    ensures IsLeastCost(left, right, r)
  {
    var previous: seq<nat> := seq(|right| + 1, j requires 0 <= j => j);
    for i := 0 to |left|
      invariant IsRow(previous, left[..i], right)
    {
      previous := NextRow(previous, left, i, right);
    }
    assert left[..|left|] == left && right[..|right|] == right;
    r := previous[|right|];
    DistanceIsLeastCost(left, right);
  }

  lemma {:induction false} ZeroOnlyForEqual(a: string, b: string)
    ensures Distance(a, b) == 0 <==> a == b
    decreases |a| + |b|
  {
    if a != [] && b != [] {
      ZeroOnlyForEqual(Init(a), Init(b));
      assert a == Init(a) + [Last(a)] && b == Init(b) + [Last(b)];
    }
  }

  lemma {:induction false} Symmetric(a: string, b: string)
    ensures Distance(a, b) == Distance(b, a)
    decreases |a| + |b|
  {
    if a != [] && b != [] {
      Symmetric(Init(a), Init(b));
      Symmetric(a, Init(b));
      Symmetric(Init(a), b);
    }
  }

  lemma {:induction false} LengthGap(a: string, b: string)
    ensures |a| <= Distance(a, b) + |b|
    ensures |b| <= Distance(a, b) + |a|
    ensures Distance(a, b) <= |a| + |b|
    decreases |a| + |b|
  {
    if a != [] && b != [] {
      LengthGap(Init(a), Init(b));
      LengthGap(a, Init(b));
      LengthGap(Init(a), b);
    }
  }

  lemma {:induction false} Triangle(a: string, b: string, c: string)
    ensures Distance(a, c) <= Distance(a, b) + Distance(b, c)
    decreases |a| + |b| + |c|
  {
    LengthGap(a, b);
    LengthGap(b, c);
    LengthGap(a, c);
    if a != [] && b != [] && c != [] {
      TriangleStep(a, b, c);
    }
  }

  /** The inductive step: follow the branch that attains each of the two distances. */
  lemma {:induction false} TriangleStep(a: string, b: string, c: string)
    requires a != [] && b != [] && c != []
    ensures Distance(a, c) <= Distance(a, b) + Distance(b, c)
    decreases |a| + |b| + |c|, 0
  {
    if Distance(a, b) == Distance(Init(a), b) + 1 {
      Triangle(Init(a), b, c);
    } else if Distance(b, c) == Distance(b, Init(c)) + 1 {
      Triangle(a, b, Init(c));
    } else if Distance(a, b) == Distance(a, Init(b)) + 1 {
      if Distance(b, c) == Distance(Init(b), c) + 1 {
        Triangle(a, Init(b), c);
      } else {
        Triangle(a, Init(b), Init(c));
      }
    } else if Distance(b, c) == Distance(Init(b), c) + 1 {
      Triangle(Init(a), Init(b), c);
    } else {
      Triangle(Init(a), Init(b), Init(c));
    }
  }
}
