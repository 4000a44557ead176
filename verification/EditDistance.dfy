/** The edit distance behind the command line's typo suggestions.

    `Dist` is the recurrence that the source's table fills. Its meaning is given by edit
    scripts: `Dist(a, b)` is the least cost of any script that turns `a` into `b`. */
module EditDistance {
  import opened Prelude

  datatype Step =
    | Keep(c: char)
    | Substitute(removed: char, added: char)
    | Delete(c: char)
    | Insert(c: char)
  {
    function Reads(): string {
      match this
      case Keep(c) => [c]
      case Substitute(x, _) => [x]
      case Delete(c) => [c]
      case Insert(_) => []
    }

    function Writes(): string {
      match this
      case Keep(c) => [c]
      case Substitute(_, y) => [y]
      case Delete(_) => []
      case Insert(c) => [c]
    }

    function Price(): nat {
      if Keep? then 0 else 1
    }
  }

  /** A script is a list of steps, grown at the end. */
  datatype Script = Start | Then(front: Script, step: Step)

  /** The text a script consumes. */
  function Before(s: Script): string {
    if s.Start? then [] else Before(s.front) + s.step.Reads()
  }

  /** The text a script produces. */
  function After(s: Script): string {
    if s.Start? then [] else After(s.front) + s.step.Writes()
  }

  function Cost(s: Script): nat {
    if s.Start? then 0 else Cost(s.front) + s.step.Price()
  }

  ghost predicate Turns(s: Script, a: string, b: string) {
    Before(s) == a && After(s) == b
  }

  function Init(s: string): string
    requires s != []
  {
    s[..|s| - 1]
  }

  function Last(s: string): char
    requires s != []
  {
    s[|s| - 1]
  }

  /** The recurrence of the table: when the last characters agree the diagonal is taken without
      looking at the other two neighbours. */
  function Dist(a: string, b: string): nat
    decreases |a| + |b|
  {
    if a == [] then |b|
    else if b == [] then |a|
    else if Last(a) == Last(b) then Dist(Init(a), Init(b))
    else 1 + Min(Min(Dist(Init(a), Init(b)), Dist(Init(a), b)), Dist(a, Init(b)))
  }

  /** The table's cell (i, j): the distance between two prefixes. */
  function Cell(a: string, b: string, i: nat, j: nat): nat
    requires i <= |a| && j <= |b|
  {
    Dist(a[..i], b[..j])
  }

  lemma CellStep(a: string, b: string, i: nat, j: nat)
    requires 1 <= i <= |a| && 1 <= j <= |b|
    ensures Cell(a, b, i, j) ==
            if a[i - 1] == b[j - 1] then Cell(a, b, i - 1, j - 1)
            else 1 + Min(Min(Cell(a, b, i - 1, j - 1), Cell(a, b, i - 1, j)), Cell(a, b, i, j - 1))
  {
    assert Init(a[..i]) == a[..i - 1] && Init(b[..j]) == b[..j - 1];
  }

  method Distance(a: string, b: string) returns (d: nat)
    ensures d == Dist(a, b)
  {
    var m, n := |a|, |b|;
    var dp := new nat[m + 1, n + 1]((_, _) => 0);
    for i := 0 to m + 1
      invariant forall k :: 0 <= k < i ==> dp[k, 0] == Cell(a, b, k, 0)
    {
      dp[i, 0] := i;
    }
    for j := 0 to n + 1
      invariant forall k :: 0 <= k <= m && (j == 0 || k > 0) ==> dp[k, 0] == Cell(a, b, k, 0)
      invariant forall l :: 0 <= l < j ==> dp[0, l] == Cell(a, b, 0, l)
    {
      dp[0, j] := j;
    }
    for i := 1 to m + 1
      invariant forall k :: 0 <= k <= m ==> dp[k, 0] == Cell(a, b, k, 0)
      invariant forall k, l :: 0 <= k < i && 0 <= l <= n ==> dp[k, l] == Cell(a, b, k, l)
    {
      for j := 1 to n + 1
        invariant forall k :: 0 <= k <= m ==> dp[k, 0] == Cell(a, b, k, 0)
        invariant forall k, l :: 0 <= k < i && 0 <= l <= n ==> dp[k, l] == Cell(a, b, k, l)
        invariant forall l :: 0 <= l < j ==> dp[i, l] == Cell(a, b, i, l)
      {
        CellStep(a, b, i, j);
        dp[i, j] := if a[i - 1] == b[j - 1] then dp[i - 1, j - 1]
                    else 1 + Min(Min(dp[i - 1, j - 1], dp[i - 1, j]), dp[i, j - 1]);
      }
    }
    d := dp[m, n];
    assert a[..m] == a && b[..n] == b;
  }

  /** Dropping or adding one last character moves the distance by at most one. */
  lemma {:induction false} Neighbours(a: string, b: string)
    ensures a != [] ==> Dist(a, b) <= Dist(Init(a), b) + 1 && Dist(Init(a), b) <= Dist(a, b) + 1
    ensures b != [] ==> Dist(a, b) <= Dist(a, Init(b)) + 1 && Dist(a, Init(b)) <= Dist(a, b) + 1
    decreases |a| + |b|
  {
    if a != [] && b != [] {
      Neighbours(Init(a), b);
      Neighbours(a, Init(b));
    }
  }

  /** Adding a step to a script costs at least what it moves the distance by. */
  lemma StepBound(a: string, b: string, step: Step)
    ensures Dist(a + step.Reads(), b + step.Writes()) <= Dist(a, b) + step.Price()
  {
    var x, y := a + step.Reads(), b + step.Writes();
    Neighbours(x, y);
    assert step.Reads() != [] ==> Init(x) == a;
    assert step.Writes() != [] ==> Init(y) == b;
    assert step.Reads() == [] ==> x == a;
    assert step.Writes() == [] ==> y == b;
  }

  /** No script is cheaper than the table says. */
  lemma {:induction false} NoScriptIsCheaper(s: Script)
    ensures Dist(Before(s), After(s)) <= Cost(s)
  {
    if s.Then? {
      NoScriptIsCheaper(s.front);
      StepBound(Before(s.front), After(s.front), s.step);
    }
  }

  /** The last step of a best script, read off the recurrence. */
  lemma {:induction false} BestLastStep(a: string, b: string) returns (step: Step, x: string, y: string)
    requires a != [] || b != []
    ensures a == x + step.Reads() && b == y + step.Writes()
    ensures |x| + |y| < |a| + |b|
    ensures Dist(a, b) == Dist(x, y) + step.Price()
  {
    if b == [] || (a != [] && Last(a) != Last(b) && Dist(a, b) == 1 + Dist(Init(a), b)) {
      step, x, y := Delete(Last(a)), Init(a), b;
    } else if a == [] || (Last(a) != Last(b) && Dist(a, b) == 1 + Dist(a, Init(b))) {
      step, x, y := Insert(Last(b)), a, Init(b);
    } else if Last(a) == Last(b) {
      step, x, y := Keep(Last(a)), Init(a), Init(b);
    } else {
      step, x, y := Substitute(Last(a), Last(b)), Init(a), Init(b);
    }
  }

  /** Some script costs exactly what the table says. */
  lemma {:induction false} SomeScriptAttains(a: string, b: string) returns (s: Script)
    ensures Turns(s, a, b) && Cost(s) == Dist(a, b)
    decreases |a| + |b|
  {
    if a == [] && b == [] {
      s := Start;
    } else {
      var step, x, y := BestLastStep(a, b);
      var t := SomeScriptAttains(x, y);
      s := Then(t, step);
    }
  }

  /** The distance is the least cost of a script from `a` to `b`. */
  lemma DistIsLeastCost(a: string, b: string)
    ensures exists s :: Turns(s, a, b) && Cost(s) == Dist(a, b)
    ensures forall s :: Turns(s, a, b) ==> Dist(a, b) <= Cost(s)
  {
    var s := SomeScriptAttains(a, b);
    forall s | Turns(s, a, b)
      ensures Dist(a, b) <= Cost(s)
    {
      NoScriptIsCheaper(s);
    }
  }

  // ---- the distance is a metric ----

  lemma {:induction false} ZeroMeansEqual(a: string, b: string)
    ensures Dist(a, b) == 0 <==> a == b
    decreases |a|
  {
    if a != [] && b != [] {
      ZeroMeansEqual(Init(a), Init(b));
      assert a == Init(a) + [Last(a)] && b == Init(b) + [Last(b)];
    }
  }

  lemma {:induction false} Symmetric(a: string, b: string)
    ensures Dist(a, b) == Dist(b, a)
    decreases |a| + |b|
  {
    if a != [] && b != [] {
      Symmetric(Init(a), Init(b));
      Symmetric(Init(a), b);
      Symmetric(a, Init(b));
    }
  }

  /** Two steps meet in one character: what the first writes the second reads. */
  lemma SameLast(a: string, x: Step, b: string, y: Step)
    requires a + x.Writes() == b + y.Reads() && x.Writes() != [] && y.Reads() != []
    ensures a == b && x.Writes() == y.Reads()
  {
    assert Last(a + x.Writes()) == x.Writes()[0] && Last(b + y.Reads()) == y.Reads()[0];
    assert Init(a + x.Writes()) == a && Init(b + y.Reads()) == b;
  }

  /** One step doing the work of two that meet in one character, if anything is left to do. */
  function Fuse(x: Step, y: Step): Option<Step>
    requires x.Writes() == y.Reads() != []
  {
    if x.Insert? && y.Delete? then None
    else if x.Insert? then Some(Insert(y.Writes()[0]))
    else if y.Delete? then Some(Delete(x.Reads()[0]))
    else if x.Keep? && y.Keep? then Some(x)
    else Some(Substitute(x.Reads()[0], y.Writes()[0]))
  }

  /** Two scripts that meet in the middle compose into one that costs no more than both. */
  lemma {:induction false} Compose(s: Script, t: Script) returns (r: Script)
    requires After(s) == Before(t)
    ensures Turns(r, Before(s), After(t))
    ensures Cost(r) <= Cost(s) + Cost(t)
  {
    if t.Then? && t.step.Insert? {
      var u := Compose(s, t.front);
      r := Then(u, t.step);
    } else if s.Then? && s.step.Delete? {
      var u := Compose(s.front, t);
      r := Then(u, s.step);
    } else if s.Start? || t.Start? {
      r := Start;
    } else {
      SameLast(After(s.front), s.step, Before(t.front), t.step);
      r := Compose(s.front, t.front);
      match Fuse(s.step, t.step) {
        case None =>
        case Some(step) => r := Then(r, step);
      }
    }
  }

  lemma Triangle(a: string, b: string, c: string)
    ensures Dist(a, c) <= Dist(a, b) + Dist(b, c)
  {
    var s := SomeScriptAttains(a, b);
    var t := SomeScriptAttains(b, c);
    var r := Compose(s, t);
    NoScriptIsCheaper(r);
  }

  // ---- did you mean ----

  /** The source's iterator chain: pair every option with its distance, keep those within two. */
  function Near(input: string, options: seq<string>, lower: string -> string): seq<(string, nat)> {
    if options == [] then []
    else
      var d := Dist(lower(input), lower(options[0]));
      (if d <= 2 then [(options[0], d)] else []) + Near(input, options[1..], lower)
  }

  /** `min_by_key`: the first pair with the least distance. */
  function MinByKey(pairs: seq<(string, nat)>): Option<(string, nat)> {
    if pairs == [] then None
    else
      match MinByKey(pairs[1..])
      case None => Some(pairs[0])
      case Some(best) => if pairs[0].1 <= best.1 then Some(pairs[0]) else Some(best)
  }

  /** `find`: the first option equal to the input up to case. */
  function FindExact(input: string, options: seq<string>, lower: string -> string): Option<string> {
    if options == [] then None
    else if lower(options[0]) == lower(input) then Some(options[0])
    else FindExact(input, options[1..], lower)
  }

  function DidYouMean(input: string, options: seq<string>, lower: string -> string): Option<string> {
    match FindExact(input, options, lower)
    case Some(opt) => Some(opt)
    case None =>
      match MinByKey(Near(input, options, lower))
      case None => None
      case Some(best) => Some(best.0)
  }

  /** Option `i` is the first of least distance to the input, and within two edits of it. */
  ghost predicate FirstNearest(input: string, options: seq<string>, lower: string -> string, i: nat)
    requires i < |options|
  {
    && Dist(lower(input), lower(options[i])) <= 2
    && (forall j :: 0 <= j < |options| ==>
          Dist(lower(input), lower(options[i])) <= Dist(lower(input), lower(options[j])))
    && (forall j :: 0 <= j < i ==>
          Dist(lower(input), lower(options[i])) < Dist(lower(input), lower(options[j])))
  }

  lemma {:induction false} FindExactIsFirst(input: string, options: seq<string>, lower: string -> string)
    ensures FindExact(input, options, lower).None? <==>
            forall j :: 0 <= j < |options| ==> lower(options[j]) != lower(input)
    ensures FindExact(input, options, lower).Some? ==>
            exists i :: 0 <= i < |options| && FindExact(input, options, lower).value == options[i]
                        && lower(options[i]) == lower(input)
                        && forall j :: 0 <= j < i ==> lower(options[j]) != lower(input)
  {
    if options != [] && lower(options[0]) != lower(input) {
      var rest := options[1..];
      FindExactIsFirst(input, rest, lower);
      assert forall j :: 0 < j < |options| ==> options[j] == rest[j - 1];
      if FindExact(input, rest, lower).Some? {
        var i :| 0 <= i < |rest| && FindExact(input, rest, lower).value == rest[i]
                 && lower(rest[i]) == lower(input)
                 && forall j :: 0 <= j < i ==> lower(rest[j]) != lower(input);
        assert options[i + 1] == rest[i];
      }
    }
  }

  /** The first option against the nearest of the others. */
  lemma NearestStep(input: string, options: seq<string>, lower: string -> string)
    ensures options == [] ==> MinByKey(Near(input, options, lower)) == None
    ensures options != [] ==>
            var d, best := Dist(lower(input), lower(options[0])), MinByKey(Near(input, options[1..], lower));
            MinByKey(Near(input, options, lower)) ==
            if d <= 2 && (best.None? || d <= best.value.1) then Some((options[0], d)) else best
  {
    if options != [] {
      var d, near := Dist(lower(input), lower(options[0])), Near(input, options, lower);
      assert d <= 2 ==> near == [(options[0], d)] + Near(input, options[1..], lower);
      assert d <= 2 ==> near[1..] == Near(input, options[1..], lower);
      assert [] + Near(input, options[1..], lower) == Near(input, options[1..], lower);
    }
  }

  lemma {:induction false} NearestIsFirst(input: string, options: seq<string>, lower: string -> string)
    returns (i: nat)
    ensures MinByKey(Near(input, options, lower)).None? <==>
            forall j :: 0 <= j < |options| ==> Dist(lower(input), lower(options[j])) > 2
    ensures MinByKey(Near(input, options, lower)).Some? ==>
            && i < |options|
            && MinByKey(Near(input, options, lower)).value
               == (options[i], Dist(lower(input), lower(options[i])))
            && FirstNearest(input, options, lower, i)
  {
    hide Dist, Near, MinByKey;
    i := 0;
    NearestStep(input, options, lower);
    if options != [] {
      var rest := options[1..];
      var k := NearestIsFirst(input, rest, lower);
      assert forall j :: 0 < j < |options| ==> options[j] == rest[j - 1];
      var d, best := Dist(lower(input), lower(options[0])), MinByKey(Near(input, rest, lower));
      if best.Some? && !(d <= 2 && d <= best.value.1) {
        i := k + 1;
        assert options[i] == rest[k];
      }
    }
  }

  /** The whole answer: a case-insensitive exact match wins, otherwise the first of the options
      nearest by edit scripts if it is within two edits, otherwise nothing. */
  lemma DidYouMeanMeaning(input: string, options: seq<string>, lower: string -> string)
    ensures var r := DidYouMean(input, options, lower);
      if exists j :: 0 <= j < |options| && lower(options[j]) == lower(input) then
        exists i :: 0 <= i < |options| && r == Some(options[i]) && lower(options[i]) == lower(input)
                    && forall j :: 0 <= j < i ==> lower(options[j]) != lower(input)
      else if exists j :: 0 <= j < |options| && Dist(lower(input), lower(options[j])) <= 2 then
        exists i :: 0 <= i < |options| && r == Some(options[i])
                    && FirstNearest(input, options, lower, i)
      else
        r == None
  {
    FindExactIsFirst(input, options, lower);
    var i := NearestIsFirst(input, options, lower);
  }
}
