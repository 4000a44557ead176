/** Where source code is cut into units, and what the chunks are made of, in terms of lines and characters. */
module CodeCuts {
  import opened Prelude
  import opened Whitespace
  import opened ChunkCode

  // ---- lines ----

  lemma {:induction false} LineEndIs(text: string, i: nat, e: nat)
    requires i <= e <= |text| && (forall k :: i <= k < e ==> text[k] != '\n')
    requires e == |text| || text[e] == '\n'
    ensures LineEnd(text, i) == e
    decreases e - i
  {
    if i < e {
      LineEndIs(text, i + 1, e);
    }
  }

  lemma {:induction false} LineEndBeyond(front: string, text: string, i: nat)
    requires i <= |text|
    ensures LineEnd(front + text, |front| + i) == |front| + LineEnd(text, i)
    decreases |text| - i
  {
    if i < |text| {
      assert (front + text)[|front| + i] == text[i];
      if text[i] != '\n' {
        LineEndBeyond(front, text, i + 1);
      }
    }
  }

  lemma SliceBeyond(front: string, text: string, i: nat, e: nat)
    requires i <= e <= |text|
    ensures (front + text)[|front| + i..|front| + e] == text[i..e]
    ensures (front + text)[|front| + i..] == text[i..]
  {
  }

  /** The first line of a later part of a text. */
  lemma FirstLineBeyond(front: string, text: string, all: string, i: nat, at: nat)
    requires all == front + text && at == |front| + i && i < |text|
    ensures var e := LineEnd(text, i);
      Lines(all, at) == if e == |text| then [text[i..]] else [DropCr(text[i..e])] + Lines(all, |front| + (e + 1))
  {
    var e := LineEnd(text, i);
    SliceBeyond(front, text, i, e);
    LineEndBeyond(front, text, i);
    FirstLine(all, at);
  }

  lemma NoLinesAtEnd(text: string)
    ensures Lines(text, |text|) == []
  {
  }

  lemma {:induction false} LinesBeyond(front: string, text: string, i: nat)
    requires i <= |text|
    ensures Lines(front + text, |front| + i) == Lines(text, i)
    decreases |text| - i
  {
    hide Lines;
    if i < |text| {
      FirstLineBeyond(front, text, front + text, i, |front| + i);
      FirstLine(text, i);
      if LineEnd(text, i) < |text| {
        LinesBeyond(front, text, LineEnd(text, i) + 1);
      }
    } else {
      NoLinesAtEnd(text);
      NoLinesAtEnd(front + text);
    }
  }

  /** The lines of a text: a line ends with a line feed, and a carriage return before it goes too; what is
      left at the end is a line unless it is empty. */
  lemma LinesMeaning(line: string, rest: string)
    requires '\n' !in line
    ensures Lines("", 0) == []
    ensures line != "" ==> Lines(line, 0) == [line]
    ensures Lines(line + "\r\n" + rest, 0) == [line] + Lines(rest, 0)
    ensures (line == "" || line[|line| - 1] != '\r') ==> Lines(line + "\n" + rest, 0) == [line] + Lines(rest, 0)
  {
    if line != "" {
      LineEndIs(line, 0, |line|);
      assert line[0..] == line;
    }
    LineThenRest(line, rest);
    LineThenRest(line + "\r", rest);
    assert (line + "\r") + "\n" + rest == line + "\r\n" + rest;
    assert DropCr(line + "\r") == line;
  }

  lemma LineThenRest(line: string, rest: string)
    requires '\n' !in line
    ensures Lines(line + "\n" + rest, 0) == [DropCr(line)] + Lines(rest, 0)
  {
    var front := line + "\n";
    var text := front + rest;
    forall k | 0 <= k < |line|
      ensures text[k] != '\n'
    {
      assert text[k] == line[k] && line[k] in line;
    }
    LineEndIs(text, 0, |line|);
    FirstLine(text, 0);
    assert text[0..|line|] == line;
    LinesBeyond(front, rest, 0);
  }

  // ---- braces on a line ----

  /** How a character is taken: as code, inside a string, behind a backslash in a string, in a comment. */
  datatype Mode = Code | Quoted | Escaped | Comment

  /** The mode in front of character `i`. */
  function ModeAt(line: string, i: nat): Mode
    requires i <= |line|
  {
    if i == 0 then Code
    else
      var c := line[i - 1];
      match ModeAt(line, i - 1)
      case Code => if c == '"' then Quoted else if c == '/' && i < |line| && line[i] == '/' then Comment else Code
      case Quoted => if c == '"' then Code else if c == '\\' then Escaped else Quoted
      case Escaped => Quoted
      case Comment => Comment
  }

  /** How often a character stands as code among the first `n`. */
  function Counted(line: string, c: char, n: nat): nat
    requires n <= |line|
  {
    if n == 0 then 0
    else Counted(line, c, n - 1) + if line[n - 1] == c && ModeAt(line, n - 1) == Code then 1 else 0
  }

  /** Opening minus closing braces that stand as code. */
  function Net(line: string): int {
    Counted(line, '{', |line|) - Counted(line, '}', |line|)
  }

  lemma {:induction false} CommentStays(line: string, i: nat, n: nat)
    requires i <= n <= |line| && ModeAt(line, i) == Comment
    ensures ModeAt(line, n) == Comment
    ensures forall c :: Counted(line, c, n) == Counted(line, c, i)
  {
    if i < n {
      CommentStays(line, i, n - 1);
    }
  }

  /** The rest of a line from character `i` on. */
  lemma {:induction false} NetFrom(line: string, i: nat)
    requires i <= |line| && (ModeAt(line, i) == Code || ModeAt(line, i) == Quoted)
    ensures BraceDelta(line[i..], ModeAt(line, i) == Quoted) ==
            Net(line) - (Counted(line, '{', i) - Counted(line, '}', i))
    decreases |line| - i
  {
    if i < |line| {
      var s := line[i..];
      assert s[0] == line[i] && s[1..] == line[i + 1..];
      if ModeAt(line, i + 1) == Comment {
        CommentStays(line, i + 1, |line|);
        assert s[1] == line[i + 1];
      } else if ModeAt(line, i + 1) == Escaped {
        if i + 1 < |line| {
          assert s[2..] == line[i + 2..];
          NetFrom(line, i + 2);
        }
      } else {
        assert |s| > 1 ==> s[1] == line[i + 1];
        NetFrom(line, i + 1);
      }
    }
  }

  /** The change of depth on a line is the number of its opening minus that of its closing braces, outside
      strings and comments. */
  lemma BraceDeltaMeaning(line: string)
    ensures BraceDelta(line, false) == Net(line)
  {
    NetFrom(line, 0);
    assert line[0..] == line;
  }

  /** The braces left open by the lines from `k` up to `n`. */
  function NetOf(lines: seq<string>, k: nat, n: nat): int
    requires k <= n <= |lines|
  {
    if k == n then 0 else NetOf(lines, k, n - 1) + Net(lines[n - 1])
  }

  /** The depth is the most that any last lines leave open; none may leave less than nothing. */
  lemma {:induction false} DepthMeaning(lines: seq<string>, n: nat) returns (k: nat)
    requires n <= |lines|
    ensures k <= n && Depth(lines, n) == NetOf(lines, k, n)
    ensures forall j :: 0 <= j <= n ==> NetOf(lines, j, n) <= Depth(lines, n)
  {
    k := n;
    if n > 0 {
      k := DepthMeaning(lines, n - 1);
      BraceDeltaMeaning(lines[n - 1]);
      forall j | 0 <= j <= n
        ensures NetOf(lines, j, n) <= Depth(lines, n)
      {
        assert j < n ==> NetOf(lines, j, n) == NetOf(lines, j, n - 1) + Net(lines[n - 1]);
      }
      if Depth(lines, n - 1) + Net(lines[n - 1]) < 0 {
        k := n;
      }
    }
  }

  // ---- where code is cut ----

  /** The last character of the line that is not whitespace is one of the two. */
  ghost predicate EndsInEither(line: string, a: char, b: char) {
    exists i :: 0 <= i < |line| && (line[i] == a || line[i] == b) && !IsSpace(line[i]) && AllSpace(line, i + 1, |line|)
  }

  lemma TrimEndMeaning(line: string, a: char, b: char)
    requires !IsSpace(a) && !IsSpace(b)
    ensures var t := TrimEnd(line);
      t != [] && (t[|t| - 1] == a || t[|t| - 1] == b) <==> EndsInEither(line, a, b)
  {
    var t := TrimEnd(line);
    TrimHiSkipsSpace(line, 0, |line|);
    assert t != [] ==> !IsSpace(line[|t| - 1]);
    if EndsInEither(line, a, b) {
      var i :| 0 <= i < |line| && (line[i] == a || line[i] == b) && !IsSpace(line[i]) && AllSpace(line, i + 1, |line|);
      assert t != [] ==> i >= |t| - 1;
    }
  }

  predicate Blank(line: string) {
    AllSpace(line, 0, |line|)
  }

  /** Code is cut in front of line `n`. With braces: no lines up to there leave a brace open, and the line
      before ends in a closing brace or semicolon. In Python: the line begins a definition, the one before
      is no decorator, and not all lines before are blank. */
  ghost predicate IsCut(lines: seq<string>, lang: CodeLang, n: nat)
    requires 0 < n < |lines|
  {
    match lang
    case Braces => (forall k :: 0 <= k <= n ==> NetOf(lines, k, n) <= 0) && EndsInEither(lines[n - 1], '}', ';')
    case Python =>
      && ("def " <= lines[n] || "class " <= lines[n] || "async def " <= lines[n] || "@" <= lines[n])
      && !("@" <= lines[n - 1])
      && exists k :: 0 <= k < n && !Blank(lines[k])
  }

  /** The lines from `a` up to `b`, each with a line feed. */
  function Joined(lines: seq<string>, a: nat, b: nat): string
    requires a <= b <= |lines|
  {
    if a == b then "" else Joined(lines, a, b - 1) + (lines[b - 1] + "\n")
  }

  /** What lies between the first bounds, without blank parts. */
  function Parts(lines: seq<string>, bounds: seq<nat>, m: nat): seq<string>
    requires m < |bounds| && Upward(bounds, |lines|)
  {
    if m == 0 then []
    else
      var part := Joined(lines, bounds[m - 1], bounds[m]);
      Parts(lines, bounds, m - 1) + if Blank(part) then [] else [part]
  }

  predicate Upward(bounds: seq<nat>, n: nat) {
    && (forall i, j :: 0 <= i < j < |bounds| ==> bounds[i] < bounds[j])
    && (forall i :: 0 <= i < |bounds| ==> bounds[i] <= n)
  }

  lemma {:induction false} PartsPrefix(lines: seq<string>, bounds: seq<nat>, last: nat, m: nat)
    requires m < |bounds| && Upward(bounds, |lines|) && Upward(bounds + [last], |lines|)
    ensures Parts(lines, bounds + [last], m) == Parts(lines, bounds, m)
  {
    if m > 0 {
      PartsPrefix(lines, bounds, last, m - 1);
    }
  }

  lemma TrimBlank(s: string)
    ensures Trim(s) == [] <==> Blank(s)
  {
    TrimKeepsInk(s);
    InkOfSpace(s);
  }

  /** The cut so far is what the bounds so far say. */
  ghost predicate Follows(lines: seq<string>, c: Cut, bounds: seq<nat>, n: nat)
    requires n <= |lines|
  {
    && bounds != [] && bounds[0] == 0 && Upward(bounds, n)
    && c == Cut(Parts(lines, bounds, |bounds| - 1), Joined(lines, bounds[|bounds| - 1], n))
  }

  lemma PushFollows(lines: seq<string>, c: Cut, bounds: seq<nat>, n: nat)
    requires n <= |lines| && Follows(lines, c, bounds, n) && bounds[|bounds| - 1] < n
    ensures Follows(lines, PushUnit(c), bounds + [n], n)
  {
    var m := |bounds|;
    TrimBlank(c.cur);
    assert Upward(bounds + [n], n);
    PartsPrefix(lines, bounds, n, m - 1);
    assert Parts(lines, bounds + [n], m) ==
           Parts(lines, bounds, m - 1) + if Blank(c.cur) then [] else [c.cur];
    assert Parts(lines, bounds, m - 1) + [] == Parts(lines, bounds, m - 1);
    assert (bounds + [n])[m] == n;
  }

  lemma AddFollows(lines: seq<string>, c: Cut, bounds: seq<nat>, n: nat)
    requires n < |lines| && Follows(lines, c, bounds, n)
    ensures Follows(lines, AddLine(c, lines[n]), bounds, n + 1)
  {
  }

  lemma CutsBehindMeaning(lines: seq<string>, n: nat)
    requires 0 < n < |lines|
    ensures CutsBehind(lines, n) <==> IsCut(lines, Braces, n)
  {
    IsSpaceIff('}');
    IsSpaceIff(';');
    TrimEndMeaning(lines[n - 1], '}', ';');
    var k := DepthMeaning(lines, n);
  }

  lemma {:induction false} BraceBounds(lines: seq<string>, n: nat) returns (bounds: seq<nat>)
    requires n <= |lines|
    ensures Follows(lines, BraceCut(lines, n), bounds, n)
    ensures forall k :: 0 < k <= n ==> (k in bounds <==> CutsBehind(lines, k))
  {
    bounds := [0];
    if n > 0 {
      bounds := BraceBounds(lines, n - 1);
      var c := BraceCut(lines, n - 1);
      AddFollows(lines, c, bounds, n - 1);
      assert forall i :: 0 <= i < |bounds| ==> bounds[i] < n;
      if CutsBehind(lines, n) {
        PushFollows(lines, AddLine(c, lines[n - 1]), bounds, n);
        bounds := bounds + [n];
      }
    }
  }

  lemma BlankConcat(x: string, y: string)
    ensures Blank(x + y) <==> Blank(x) && Blank(y)
  {
    assert forall i :: 0 <= i < |x| ==> (x + y)[i] == x[i];
    assert forall i :: 0 <= i < |y| ==> (x + y)[|x| + i] == y[i];
  }

  lemma {:induction false} JoinedBlank(lines: seq<string>, a: nat, b: nat)
    requires a <= b <= |lines|
    ensures Blank(Joined(lines, a, b)) <==> forall k :: a <= k < b ==> Blank(lines[k])
  {
    if a < b {
      JoinedBlank(lines, a, b - 1);
      BlankConcat(Joined(lines, a, b - 1), lines[b - 1] + "\n");
      BlankConcat(lines[b - 1], "\n");
      assert Blank("\n");
    }
  }

  lemma PyTopDefMeaning(line: string)
    ensures PyTopDef(line) <==> "def " <= line || "class " <= line || "async def " <= line || "@" <= line
    ensures PyTopDef(line) ==> !Blank(line)
    ensures Decorator(line) <==> "@" <= line
  {
    IsSpaceIff('d');
    IsSpaceIff('c');
    IsSpaceIff('a');
    IsSpaceIff('@');
  }

  /** The cut in front of line `m`, when the collected lines begin at `last`. */
  lemma PythonCutMeaning(lines: seq<string>, c: Cut, last: nat, m: nat)
    requires last < m < |lines| && c.cur == Joined(lines, last, m) && (last == 0 || IsCut(lines, Python, last))
    ensures IsCut(lines, Python, m) <==> PyTopDef(lines[m]) && !Decorator(lines[m - 1]) && Trim(c.cur) != []
  {
    SomethingBefore(lines, last, m);
    PyTopDefMeaning(lines[m]);
    PyTopDefMeaning(lines[m - 1]);
    TrimBlank(c.cur);
  }

  /** The part of Python's bounds below a line. */
  ghost predicate CutsBelow(lines: seq<string>, bounds: seq<nat>, n: nat)
    requires n <= |lines|
  {
    forall k :: 0 < k < n ==> (k in bounds <==> IsCut(lines, Python, k))
  }

  lemma PythonStep(lines: seq<string>, c: Cut, bounds: seq<nat>, m: nat) returns (more: seq<nat>)
    requires m < |lines| && Follows(lines, c, bounds, m) && CutsBelow(lines, bounds, m)
    requires m > 0 ==> m !in bounds
    ensures var cut := m > 0 && PyTopDef(lines[m]) && !Decorator(lines[m - 1]) && Trim(c.cur) != [];
      Follows(lines, if cut then PushUnit(c) else c, more, m)
    ensures CutsBelow(lines, more, m + 1) && m + 1 !in more
  {
    more := bounds;
    if m > 0 {
      var last := bounds[|bounds| - 1];
      assert last in bounds && last < m;
      PythonCutMeaning(lines, c, last, m);
      if IsCut(lines, Python, m) {
        PushFollows(lines, c, bounds, m);
        more := bounds + [m];
      }
    }
  }

  /** Line `m` in Python: first the cut in front of it, if there is one. */
  lemma PythonLine(lines: seq<string>, m: nat)
    requires m < |lines|
    ensures var c := PythonCut(lines, m);
      var cut := m > 0 && PyTopDef(lines[m]) && !Decorator(lines[m - 1]) && Trim(c.cur) != [];
      PythonCut(lines, m + 1) == AddLine(if cut then PushUnit(c) else c, lines[m])
  {
    assert m == 0 ==> PythonCut(lines, m) == Cut([], []) && Trim("") == [];
  }

  lemma {:induction false} PythonBounds(lines: seq<string>, n: nat) returns (bounds: seq<nat>)
    requires n <= |lines|
    ensures Follows(lines, PythonCut(lines, n), bounds, n)
    ensures (n > 0 ==> n !in bounds) && CutsBelow(lines, bounds, n)
  {
    bounds := [0];
    if n > 0 {
      hide PythonCut, PushUnit, AddLine, PyTopDef, Decorator, Trim;
      var m := n - 1;
      bounds := PythonBounds(lines, m);
      var c := PythonCut(lines, m);
      PythonLine(lines, m);
      bounds := PythonStep(lines, c, bounds, m);
      var cut := m > 0 && PyTopDef(lines[m]) && !Decorator(lines[m - 1]) && Trim(c.cur) != [];
      AddFollows(lines, if cut then PushUnit(c) else c, bounds, m);
    }
  }

  /** After a cut something is collected, and before the first cut whatever there is. */
  lemma SomethingBefore(lines: seq<string>, last: nat, m: nat)
    requires last < m < |lines| && (last == 0 || IsCut(lines, Python, last))
    ensures Blank(Joined(lines, last, m)) <==> forall k :: 0 <= k < m ==> Blank(lines[k])
  {
    JoinedBlank(lines, last, m);
    PyTopDefMeaning(lines[last]);
  }

  /** The bounds are the two ends of the lines and every place where code is cut, in order. */
  ghost predicate AreBounds(lines: seq<string>, lang: CodeLang, bounds: seq<nat>) {
    && bounds != [] && bounds[0] == 0 && bounds[|bounds| - 1] == |lines| && Upward(bounds, |lines|)
    && forall n :: 0 < n < |lines| ==> (n in bounds <==> IsCut(lines, lang, n))
  }

  /** The units are what lies between the cuts, line by line, without blank parts. */
  lemma UnitsPlaced(text: string, lang: CodeLang)
    ensures var lines := Lines(text, 0);
      exists bounds :: AreBounds(lines, lang, bounds) && Units(text, lang) == Parts(lines, bounds, |bounds| - 1)
  {
    var lines := Lines(text, 0);
    var n := |lines|;
    var c := if lang.Braces? then BraceCut(lines, n) else PythonCut(lines, n);
    var bounds;
    if lang.Braces? {
      bounds := BraceBounds(lines, n);
      forall k | 0 < k < n
        ensures CutsBehind(lines, k) <==> IsCut(lines, Braces, k)
      {
        CutsBehindMeaning(lines, k);
      }
    } else {
      bounds := PythonBounds(lines, n);
    }
    bounds := LastBound(lines, lang, c, bounds);
  }

  lemma LastBound(lines: seq<string>, lang: CodeLang, c: Cut, bounds: seq<nat>) returns (all: seq<nat>)
    requires Follows(lines, c, bounds, |lines|)
    requires forall k :: 0 < k < |lines| ==> (k in bounds <==> IsCut(lines, lang, k))
    ensures AreBounds(lines, lang, all) && PushUnit(c).units == Parts(lines, all, |all| - 1)
  {
    var n := |lines|;
    all := bounds;
    if bounds[|bounds| - 1] < n {
      PushFollows(lines, c, bounds, n);
      all := bounds + [n];
    } else {
      TrimBlank(c.cur);
    }
  }

  // ---- what the chunks are made of ----

  /** The units from `lo` up to `hi`. */
  datatype Group = Group(lo: nat, hi: nat)

  function TextOf(units: seq<string>, lo: nat, hi: nat): string
    requires lo <= hi <= |units|
  {
    if lo == hi then "" else TextOf(units, lo, hi - 1) + units[hi - 1]
  }

  /** The label of the first unit that has one. */
  function FirstLabel(units: seq<string>, lo: nat, hi: nat, labelOf: string -> Option<string>): Option<string>
    requires lo <= hi <= |units|
    decreases hi - lo
  {
    if lo == hi then None
    else if labelOf(units[lo]).Some? then labelOf(units[lo])
    else FirstLabel(units, lo + 1, hi, labelOf)
  }

  /** One unit that is too long, or several that fit together. */
  ghost predicate IsGroup(units: seq<string>, g: Group, size: nat) {
    && g.lo < g.hi <= |units|
    && if |units[g.lo]| > size then g.hi == g.lo + 1 else |TextOf(units, g.lo, g.hi)| <= size
  }

  /** Groups in order, the last one outermost. */
  datatype Groups = Nothing | Then(before: Groups, last: Group)

  /** The second group's first unit would not have fitted into the first. */
  ghost predicate Full(units: seq<string>, g: Group, h: Group, size: nat)
    requires IsGroup(units, g, size) && IsGroup(units, h, size)
  {
    |units[g.lo]| > size || |units[h.lo]| > size || |TextOf(units, g.lo, g.hi)| + |units[h.lo]| > size
  }

  /** The groups are the first `n` units, in order and as full as they can be. */
  ghost predicate Grouped(units: seq<string>, groups: Groups, n: nat, size: nat) {
    match groups
    case Nothing => n == 0
    case Then(before, last) =>
      && IsGroup(units, last, size) && last.hi == n
      && Grouped(units, before, last.lo, size)
      && (before.Then? ==> Full(units, before.last, last, size))
  }

  /** A unit that is too long is windowed under its label; other groups are one chunk each. */
  ghost function ChunksOf(units: seq<string>, g: Group, size: nat, overlap: nat, labelOf: string -> Option<string>)
    : seq<RichChunk>
    requires IsGroup(units, g, size)
  {
    if |units[g.lo]| > size then Pieces(ChunkText.TextChunks(units[g.lo], size, overlap), labelOf(units[g.lo]))
    else [RichChunk(Trim(TextOf(units, g.lo, g.hi)), 1, FirstLabel(units, g.lo, g.hi, labelOf))]
  }

  ghost function AllChunks(units: seq<string>, groups: Groups, n: nat, size: nat, overlap: nat,
                           labelOf: string -> Option<string>): seq<RichChunk>
    requires Grouped(units, groups, n, size)
  {
    match groups
    case Nothing => []
    case Then(before, last) =>
      AllChunks(units, before, last.lo, size, overlap, labelOf) + ChunksOf(units, last, size, overlap, labelOf)
  }

  lemma {:induction false} FirstLabelSnoc(units: seq<string>, lo: nat, hi: nat, labelOf: string -> Option<string>)
    requires lo <= hi < |units|
    ensures var before := FirstLabel(units, lo, hi, labelOf);
      FirstLabel(units, lo, hi + 1, labelOf) == if before.None? then labelOf(units[hi]) else before
    decreases hi - lo
  {
    if lo < hi {
      FirstLabelSnoc(units, lo + 1, hi, labelOf);
    }
  }

  lemma {:induction false} TextHoldsUnits(units: seq<string>, lo: nat, hi: nat)
    requires lo < hi <= |units| && Trim(units[hi - 1]) != []
    ensures Trim(TextOf(units, lo, hi)) != []
  {
    BufferedFits(TextOf(units, lo, hi - 1), units[hi - 1]);
  }

  lemma OneUnitText(units: seq<string>, n: nat, labelOf: string -> Option<string>)
    requires n < |units|
    ensures TextOf(units, n, n + 1) == units[n] && FirstLabel(units, n, n + 1, labelOf) == labelOf(units[n])
    ensures TextOf(units, n + 1, n + 1) == "" && FirstLabel(units, n + 1, n + 1, labelOf) == None
  {
    assert TextOf(units, n, n) == "" && "" + units[n] == units[n];
  }

  /** Packing has made these groups of the first `m` units. The units from there up to `n`, if any, are
      collected and would make a group; the last group is one of a unit too long, or they did not fit there. */
  ghost predicate Packs(units: seq<string>, p: Packing, groups: Groups, m: nat, n: nat, size: nat,
                        overlap: nat, labelOf: string -> Option<string>)
  {
    && m <= n <= |units|
    && Grouped(units, if m < n then Then(groups, Group(m, n)) else groups, n, size)
    && (m < n ==> |units[m]| <= size)
    && (m == n ==> groups.Then? ==> |units[groups.last.lo]| > size)
    && p.out == AllChunks(units, groups, m, size, overlap, labelOf)
    && p.buf == TextOf(units, m, n) && p.section == FirstLabel(units, m, n, labelOf)
  }

  ghost predicate HasPacked(units: seq<string>, p: Packing, n: nat, size: nat, overlap: nat,
                            labelOf: string -> Option<string>)
  {
    exists groups, m: nat :: Packs(units, p, groups, m, n, size, overlap, labelOf)
  }

  /** What is collected makes a group, if there is anything. */
  lemma FlushPacks(units: seq<string>, p: Packing, groups: Groups, m: nat, n: nat, size: nat, overlap: nat,
                   labelOf: string -> Option<string>) returns (all: Groups)
    requires Packs(units, p, groups, m, n, size, overlap, labelOf)
    requires n > 0 ==> Trim(units[n - 1]) != []
    ensures all == if m < n then Then(groups, Group(m, n)) else groups
    ensures Grouped(units, all, n, size)
    ensures Flush(p) == Packing(AllChunks(units, all, n, size, overlap, labelOf), "", None)
  {
    all := groups;
    if m < n {
      TextHoldsUnits(units, m, n);
      all := Then(groups, Group(m, n));
    } else {
      assert Trim("") == [];
    }
  }

  /** One more unit that is too long. */
  lemma LongUnitPacks(units: seq<string>, p: Packing, groups: Groups, m: nat, n: nat, size: nat,
                      overlap: nat, labelOf: string -> Option<string>)
    requires n < |units| && Packs(units, p, groups, m, n, size, overlap, labelOf) && |units[n]| > size
    requires n > 0 ==> Trim(units[n - 1]) != []
    ensures HasPacked(units, PackUnit(p, units[n], size, overlap, labelOf), n + 1, size, overlap, labelOf)
  {
    hide Trim, Flush;
    var all := FlushPacks(units, p, groups, m, n, size, overlap, labelOf);
    OneUnitText(units, n, labelOf);
    var more, next := Then(all, Group(n, n + 1)), PackUnit(p, units[n], size, overlap, labelOf);
    assert Packs(units, next, more, n + 1, n + 1, size, overlap, labelOf);
  }

  /** What packing does with a unit that is not too long. */
  lemma PackShort(p: Packing, unit: string, size: nat, overlap: nat, labelOf: string -> Option<string>)
    requires |unit| <= size
    ensures PackUnit(p, unit, size, overlap, labelOf) ==
            if p.buf != [] && |p.buf| + |unit| > size
            then Packing(p.out + [Chunk(p.buf, p.section)], "" + unit, labelOf(unit))
            else Packing(p.out, p.buf + unit, if p.section.None? then labelOf(unit) else p.section)
  {
  }

  /** One more unit that does not fit with those collected. */
  lemma NextGroupPacks(units: seq<string>, p: Packing, groups: Groups, m: nat, n: nat, size: nat,
                       overlap: nat, labelOf: string -> Option<string>)
    requires n < |units| && Packs(units, p, groups, m, n, size, overlap, labelOf) && |units[n]| <= size
    requires p.buf != [] && |p.buf| + |units[n]| > size
    requires n > 0 ==> Trim(units[n - 1]) != []
    ensures HasPacked(units, PackUnit(p, units[n], size, overlap, labelOf), n + 1, size, overlap, labelOf)
  {
    hide PackUnit;
    var all := FlushPacks(units, p, groups, m, n, size, overlap, labelOf);
    TextHoldsUnits(units, m, n);
    OneUnitText(units, n, labelOf);
    PackShort(p, units[n], size, overlap, labelOf);
    var next := PackUnit(p, units[n], size, overlap, labelOf);
    assert next == Packing(Flush(p).out, units[n], labelOf(units[n]));
    assert Packs(units, next, all, n, n + 1, size, overlap, labelOf);
  }

  /** One more unit that fits. */
  lemma FittingUnitPacks(units: seq<string>, p: Packing, groups: Groups, m: nat, n: nat, size: nat,
                         overlap: nat, labelOf: string -> Option<string>)
    requires n < |units| && Packs(units, p, groups, m, n, size, overlap, labelOf) && |units[n]| <= size
    requires p.buf == [] || |p.buf| + |units[n]| <= size
    requires n > 0 ==> Trim(units[n - 1]) != []
    ensures HasPacked(units, PackUnit(p, units[n], size, overlap, labelOf), n + 1, size, overlap, labelOf)
  {
    hide PackUnit, Trim, AllChunks;
    FirstLabelSnoc(units, m, n, labelOf);
    OneUnitText(units, n, labelOf);
    if m < n {
      TextHoldsUnits(units, m, n);
    }
    PackShort(p, units[n], size, overlap, labelOf);
    var next := PackUnit(p, units[n], size, overlap, labelOf);
    assert next == Packing(p.out, TextOf(units, m, n + 1), FirstLabel(units, m, n + 1, labelOf));
    assert Packs(units, next, groups, m, n + 1, size, overlap, labelOf);
  }

  lemma PackUnitPacks(units: seq<string>, p: Packing, n: nat, size: nat, overlap: nat,
                      labelOf: string -> Option<string>)
    requires n < |units| && HasPacked(units, p, n, size, overlap, labelOf)
    requires n > 0 ==> Trim(units[n - 1]) != []
    ensures HasPacked(units, PackUnit(p, units[n], size, overlap, labelOf), n + 1, size, overlap, labelOf)
  {
    var groups, m: nat :| Packs(units, p, groups, m, n, size, overlap, labelOf);
    if |units[n]| > size {
      LongUnitPacks(units, p, groups, m, n, size, overlap, labelOf);
    } else if p.buf != "" && |p.buf| + |units[n]| > size {
      NextGroupPacks(units, p, groups, m, n, size, overlap, labelOf);
    } else {
      FittingUnitPacks(units, p, groups, m, n, size, overlap, labelOf);
    }
  }

  lemma NothingPacks(units: seq<string>, size: nat, overlap: nat, labelOf: string -> Option<string>)
    ensures HasPacked(units, Packing([], "", None), 0, size, overlap, labelOf)
  {
    assert Packs(units, Packing([], "", None), Nothing, 0, 0, size, overlap, labelOf);
  }

  lemma {:induction false} PackPacks(units: seq<string>, n: nat, size: nat, overlap: nat,
                                     labelOf: string -> Option<string>, p: Packing)
    requires n <= |units| && forall i :: 0 <= i < |units| ==> Trim(units[i]) != []
    requires p == Pack(units, n, size, overlap, labelOf)
    ensures HasPacked(units, p, n, size, overlap, labelOf)
  {
    hide PackUnit;
    hide Packs;
    if n == 0 {
      NothingPacks(units, size, overlap, labelOf);
    } else {
      var before := Pack(units, n - 1, size, overlap, labelOf);
      PackPacks(units, n - 1, size, overlap, labelOf, before);
      PackStep(units, n - 1, size, overlap, labelOf);
      PackUnitPacks(units, before, n - 1, size, overlap, labelOf);
    }
  }

  /** The chunks of code: the units in order, as many together as fit, each group under the label of the first
      unit that has one; a unit that does not fit is windowed on its own. */
  lemma ChunksAreGroups(text: string, lang: CodeLang, size: nat, overlap: nat, labelOf: string -> Option<string>)
    returns (groups: Groups)
    ensures var units := Units(text, lang);
      && Grouped(units, groups, |units|, size)
      && CodeChunks(text, lang, size, overlap, labelOf) ==
         AllChunks(units, groups, |units|, size, overlap, labelOf)
  {
    var units := Units(text, lang);
    UnitsConserve(text, lang);
    var p := Pack(units, |units|, size, overlap, labelOf);
    PackPacks(units, |units|, size, overlap, labelOf, p);
    var before, m: nat :| Packs(units, p, before, m, |units|, size, overlap, labelOf);
    groups := FlushPacks(units, p, before, m, |units|, size, overlap, labelOf);
  }
}
