/** Splitting source code into units and packing the units into chunks. */
module ChunkCode {
  import opened Prelude
  import opened Whitespace
  import ChunkText

  datatype CodeLang = Braces | Python

  datatype RichChunk = RichChunk(text: string, pageNumber: nat, section: Option<string>)

  // ---- lines ----

  /** The position of the first line feed from `i` on, or the end. */
  function LineEnd(text: string, i: nat): (r: nat)
    requires i <= |text|
    ensures i <= r <= |text|
    ensures r < |text| ==> text[r] == '\n'
    decreases |text| - i
  {
    if i == |text| || text[i] == '\n' then i else LineEnd(text, i + 1)
  }

  /** A carriage return is dropped only in front of a line feed. */
  function DropCr(line: string): string {
    if line != [] && line[|line| - 1] == '\r' then line[..|line| - 1] else line
  }

  /** `str::lines` from position `i` on. */
  function Lines(text: string, i: nat): seq<string>
    requires i <= |text|
    decreases |text| - i
  {
    if i == |text| then []
    else
      var e := LineEnd(text, i);
      if e == |text| then [text[i..]] else [DropCr(text[i..e])] + Lines(text, e + 1)
  }

  /** Dropping a line's ending keeps its ink. */
  lemma LineInk(line: string, rest: string)
    ensures Ink(line + ("\n" + rest)) == Ink(DropCr(line)) + Ink(rest)
  {
    var cr := line[|DropCr(line)|..];
    InkPlusBlank(DropCr(line), cr);
    assert DropCr(line) + cr == line;
    InkConcat(line, "\n" + rest);
    InkConcat("\n", rest);
    InkOfSpace("\n");
    assert [] + Ink(rest) == Ink(rest);
  }

  lemma SplitAtLineEnd(text: string, i: nat)
    requires i < |text| && LineEnd(text, i) < |text|
    ensures var e := LineEnd(text, i);
      text[i..] == text[i..e] + ("\n" + text[e + 1..])
  {
    var e := LineEnd(text, i);
    assert text[e..] == [text[e]] + text[e + 1..];
    assert text[i..] == text[i..e] + text[e..];
  }

  /** The first line, and the others. */
  lemma FirstLine(text: string, i: nat)
    requires i < |text|
    ensures var e := LineEnd(text, i);
      Lines(text, i) ==
      if e == |text| then [text[i..]] else [DropCr(text[i..e])] + Lines(text, e + 1)
  {
  }

  lemma FirstLineInk(line: string, rest: string, others: seq<string>)
    requires InkAll(others) == Ink(rest)
    ensures InkAll([DropCr(line)] + others) == Ink(line + ("\n" + rest))
  {
    InkAllConcat([DropCr(line)], others);
    InkAllOne(DropCr(line));
    LineInk(line, rest);
  }

  /** Cutting a text into lines keeps its ink. */
  lemma {:induction false} LinesInk(text: string, i: nat)
    requires i <= |text|
    ensures InkAll(Lines(text, i)) == Ink(text[i..])
    decreases |text| - i
  {
    if i == |text| {
      assert Lines(text, i) == [] && text[i..] == [];
    } else {
      var e := LineEnd(text, i);
      FirstLine(text, i);
      if e == |text| {
        InkAllOne(text[i..]);
      } else {
        LinesInk(text, e + 1);
        FirstLineInk(text[i..e], text[e + 1..], Lines(text, e + 1));
        SplitAtLineEnd(text, i);
      }
    }
  }

  // ---- cutting lines into units ----

  /** The units found so far and the lines collected for the next one. */
  datatype Cut = Cut(units: seq<string>, cur: string)

  /** A blank unit is thrown away, any other is taken. */
  function PushUnit(c: Cut): Cut {
    if Trim(c.cur) == [] then c.(cur := []) else Cut(c.units + [c.cur], [])
  }

  function AddLine(c: Cut, line: string): Cut {
    c.(cur := c.cur + (line + "\n"))
  }

  /** Braces opened minus closed on the rest of a line, outside strings and line comments. */
  function BraceDelta(s: string, inStr: bool): int
    decreases |s|
  {
    if s == [] then 0
    else if inStr then
      if s[0] == '\\' then (if |s| == 1 then 0 else BraceDelta(s[2..], true))
      else BraceDelta(s[1..], s[0] != '"')
    else if s[0] == '/' && |s| > 1 && s[1] == '/' then 0
    else if s[0] == '"' then BraceDelta(s[1..], true)
    else (if s[0] == '{' then 1 else if s[0] == '}' then -1 else 0) + BraceDelta(s[1..], false)
  }

  function TrimEnd(s: string): string {
    s[..TrimHi(s, 0, |s|)]
  }

  function Depth(lines: seq<string>, n: nat): nat
    requires n <= |lines|
  {
    if n == 0 then 0 else Max(0, Depth(lines, n - 1) + BraceDelta(lines[n - 1], false))
  }

  /** The code outside all braces may be cut behind line `n - 1`. */
  predicate CutsBehind(lines: seq<string>, n: nat)
    requires 0 < n <= |lines|
  {
    var t := TrimEnd(lines[n - 1]);
    Depth(lines, n) == 0 && t != [] && (t[|t| - 1] == '}' || t[|t| - 1] == ';')
  }

  function BraceCut(lines: seq<string>, n: nat): Cut
    requires n <= |lines|
  {
    if n == 0 then Cut([], [])
    else
      var c := AddLine(BraceCut(lines, n - 1), lines[n - 1]);
      if CutsBehind(lines, n) then PushUnit(c) else c
  }

  predicate StartsWith(s: string, prefix: string) {
    prefix <= s
  }

  predicate PyTopDef(line: string) {
    && (line != [] ==> !IsSpace(line[0]))
    && (StartsWith(line, "def ") || StartsWith(line, "class ") || StartsWith(line, "async def ")
        || StartsWith(line, "@"))
  }

  predicate Decorator(line: string) {
    line != [] && !IsSpace(line[0]) && line[0] == '@'
  }

  function PythonCut(lines: seq<string>, n: nat): Cut
    requires n <= |lines|
  {
    if n == 0 then Cut([], [])
    else
      var c := PythonCut(lines, n - 1);
      var afterDecorator := n > 1 && Decorator(lines[n - 2]);
      var cutHere := PyTopDef(lines[n - 1]) && !afterDecorator && Trim(c.cur) != [];
      AddLine(if cutHere then PushUnit(c) else c, lines[n - 1])
  }

  function Units(text: string, lang: CodeLang): seq<string> {
    var lines := Lines(text, 0);
    PushUnit(if lang.Braces? then BraceCut(lines, |lines|) else PythonCut(lines, |lines|)).units
  }

  /** Nothing but whitespace was lost, and no unit is blank. */
  ghost predicate CutKeeps(c: Cut, ink: string) {
    && InkAll(c.units) + Ink(c.cur) == ink
    && forall i :: 0 <= i < |c.units| ==> Trim(c.units[i]) != []
  }

  lemma PushUnitKeeps(c: Cut, ink: string)
    requires CutKeeps(c, ink)
    ensures CutKeeps(PushUnit(c), ink) && PushUnit(c).cur == []
  {
    TrimKeepsInk(c.cur);
    InkAllSnoc(c.units, c.cur);
    assert InkAll(c.units) + [] == InkAll(c.units);
    assert InkAll(c.units + [c.cur]) + [] == InkAll(c.units + [c.cur]);
  }

  lemma AddLineKeeps(c: Cut, line: string, ink: string)
    requires CutKeeps(c, ink)
    ensures CutKeeps(AddLine(c, line), ink + Ink(line))
  {
    InkConcat(c.cur, line + "\n");
    InkPlusBlank(line, "\n");
    var done := InkAll(c.units);
    assert done + (Ink(c.cur) + Ink(line)) == (done + Ink(c.cur)) + Ink(line);
  }

  lemma {:induction false} BraceCutKeeps(lines: seq<string>, n: nat)
    requires n <= |lines|
    ensures CutKeeps(BraceCut(lines, n), InkUpto(lines, n))
  {
    if n > 0 {
      var ink := InkUpto(lines, n - 1);
      var c := AddLine(BraceCut(lines, n - 1), lines[n - 1]);
      BraceCutKeeps(lines, n - 1);
      AddLineKeeps(BraceCut(lines, n - 1), lines[n - 1], ink);
      assert InkUpto(lines, n) == ink + Ink(lines[n - 1]);
      if CutsBehind(lines, n) {
        PushUnitKeeps(c, ink + Ink(lines[n - 1]));
        assert BraceCut(lines, n) == PushUnit(c);
      } else {
        assert BraceCut(lines, n) == c;
      }
    }
  }

  lemma {:induction false} PythonCutKeeps(lines: seq<string>, n: nat)
    requires n <= |lines|
    ensures CutKeeps(PythonCut(lines, n), InkUpto(lines, n))
  {
    if n > 0 {
      var c, ink := PythonCut(lines, n - 1), InkUpto(lines, n - 1);
      PythonCutKeeps(lines, n - 1);
      PushUnitKeeps(c, ink);
      AddLineKeeps(c, lines[n - 1], ink);
      AddLineKeeps(PushUnit(c), lines[n - 1], ink);
    }
  }

  /** The units of a text, in order, hold exactly its ink, and none of them is blank. */
  lemma UnitsConserve(text: string, lang: CodeLang)
    ensures InkAll(Units(text, lang)) == Ink(text)
    ensures forall i :: 0 <= i < |Units(text, lang)| ==> Trim(Units(text, lang)[i]) != []
  {
    var lines := Lines(text, 0);
    LinesInk(text, 0);
    assert text[0..] == text;
    var c := if lang.Braces? then BraceCut(lines, |lines|) else PythonCut(lines, |lines|);
    BraceCutKeeps(lines, |lines|);
    PythonCutKeeps(lines, |lines|);
    PushUnitKeeps(c, Ink(text));
    assert InkAll(PushUnit(c).units) + [] == InkAll(PushUnit(c).units);
  }

  // ---- the cutting loops ----

  method BraceDeltaOf(line: string) returns (depth: int)
    ensures depth == BraceDelta(line, false)
  {
    depth := 0;
    var inStr, i := false, 0;
    while i < |line|
      invariant 0 <= i <= |line|
      invariant depth + BraceDelta(line[i..], inStr) == BraceDelta(line, false)
    {
      var c := line[i];
      assert line[i..][0] == c && line[i..][1..] == line[i + 1..];
      i := i + 1;
      if inStr {
        if c == '\\' {
          if i < |line| {
            assert line[i - 1..][2..] == line[i + 1..];
            i := i + 1;
          }
        } else if c == '"' {
          inStr := false;
        }
      } else if c == '/' && i < |line| && line[i] == '/' {
        return;
      } else if c == '"' {
        inStr := true;
      } else if c == '{' {
        depth := depth + 1;
      } else if c == '}' {
        depth := depth - 1;
      }
    }
  }

  method BraceUnits(text: string) returns (units: seq<string>)
    ensures units == Units(text, Braces)
  {
    var lines, cur, depth := Lines(text, 0), "", 0;
    units := [];
    for i := 0 to |lines|
      invariant Cut(units, cur) == BraceCut(lines, i)
      invariant depth == Depth(lines, i)
    {
      var line := lines[i];
      cur := cur + (line + "\n");
      var delta := BraceDeltaOf(line);
      depth := depth + delta;
      if depth < 0 {
        depth := 0;
      }
      var trimmed := TrimEnd(line);
      if depth == 0 && trimmed != [] && (trimmed[|trimmed| - 1] == '}' || trimmed[|trimmed| - 1] == ';') {
        var pushed := PushUnit(Cut(units, cur));
        units, cur := pushed.units, pushed.cur;
      }
    }
    units := PushUnit(Cut(units, cur)).units;
  }

  method PythonUnits(text: string) returns (units: seq<string>)
    ensures units == Units(text, Python)
  {
    var lines, cur, prevDecorator := Lines(text, 0), "", false;
    units := [];
    for i := 0 to |lines|
      invariant Cut(units, cur) == PythonCut(lines, i)
      invariant prevDecorator == (i > 0 && Decorator(lines[i - 1]))
    {
      var line := lines[i];
      if PyTopDef(line) && !prevDecorator && Trim(cur) != [] {
        var pushed := PushUnit(Cut(units, cur));
        units, cur := pushed.units, pushed.cur;
      }
      cur := cur + (line + "\n");
      prevDecorator := Decorator(line);
    }
    units := PushUnit(Cut(units, cur)).units;
  }

  // ---- packing units into chunks ----

  datatype Packing = Packing(out: seq<RichChunk>, buf: string, section: Option<string>)

  function Chunk(text: string, section: Option<string>): RichChunk {
    RichChunk(Trim(text), 1, section)
  }

  /** Emit what is buffered, unless it is blank. */
  function Flush(p: Packing): Packing {
    if Trim(p.buf) == [] then p.(buf := [])
    else Packing(p.out + [Chunk(p.buf, p.section)], [], None)
  }

  ghost function Pieces(texts: seq<string>, section: Option<string>): seq<RichChunk> {
    seq(|texts|, i requires 0 <= i < |texts| => RichChunk(texts[i], 1, section))
  }

  /** One unit: too long, it is windowed on its own; else it joins the buffer, after a flush when
      the two do not fit together. */
  ghost function PackUnit(p: Packing, unit: string, size: nat, overlap: nat,
                          labelOf: string -> Option<string>): Packing
  {
    if |unit| > size then
      var q := Flush(p);
      q.(out := q.out + Pieces(ChunkText.TextChunks(unit, size, overlap), labelOf(unit)))
    else
      var q := if p.buf != [] && |p.buf| + |unit| > size
               then Packing(p.out + [Chunk(p.buf, p.section)], [], None) else p;
      Packing(q.out, q.buf + unit, if q.section.None? then labelOf(unit) else q.section)
  }

  ghost function Pack(units: seq<string>, n: nat, size: nat, overlap: nat,
                      labelOf: string -> Option<string>): Packing
    requires n <= |units|
  {
    if n == 0 then Packing([], [], None)
    else PackUnit(Pack(units, n - 1, size, overlap, labelOf), units[n - 1], size, overlap, labelOf)
  }

  ghost function CodeChunks(text: string, lang: CodeLang, size: nat, overlap: nat,
                            labelOf: string -> Option<string>): seq<RichChunk>
  {
    var units := Units(text, lang);
    Flush(Pack(units, |units|, size, overlap, labelOf)).out
  }

  method EmitPieces(out: seq<RichChunk>, unit: string, size: nat, overlap: nat, section: Option<string>)
    returns (r: seq<RichChunk>)
    ensures r == out + Pieces(ChunkText.TextChunks(unit, size, overlap), section)
  {
    var texts := ChunkText.Split(unit, size, overlap);
    r := out;
    for j := 0 to |texts|
      invariant |r| == |out| + j && r[..|out|] == out
      invariant forall k :: 0 <= k < j ==> r[|out| + k] == RichChunk(texts[k], 1, section)
    {
      r := r + [RichChunk(texts[j], 1, section)];
    }
  }

  /** The packing loop. */
  method Split(text: string, lang: CodeLang, size: nat, overlap: nat, labelOf: string -> Option<string>)
    returns (out: seq<RichChunk>)
    ensures out == CodeChunks(text, lang, size, overlap, labelOf)
  {
    var units;
    match lang {
      case Braces => units := BraceUnits(text);
      case Python => units := PythonUnits(text);
    }
    out := [];
    var buf: string, section: Option<string> := "", None;
    for i := 0 to |units|
      invariant Packing(out, buf, section) == Pack(units, i, size, overlap, labelOf)
    {
      var unit := units[i];
      if |unit| > size {
        if Trim(buf) != [] {
          out, section := out + [Chunk(buf, section)], None;
        }
        buf := "";
        out := EmitPieces(out, unit, size, overlap, labelOf(unit));
      } else {
        if buf != "" && |buf| + |unit| > size {
          out, section, buf := out + [Chunk(buf, section)], None, "";
        }
        if section.None? {
          section := labelOf(unit);
        }
        buf := buf + unit;
      }
    }
    if Trim(buf) != [] {
      out := out + [Chunk(buf, section)];
    }
  }

  // ---- what packing keeps ----

  function TextsOf(out: seq<RichChunk>): seq<string> {
    seq(|out|, i requires 0 <= i < |out| => out[i].text)
  }

  ghost predicate Fits(c: RichChunk, size: nat) {
    0 < |c.text| <= Max(size, 1)
  }

  /** Emitted chunks fit, and the buffer is empty or holds ink and fits as well. */
  ghost predicate PackInv(p: Packing, size: nat) {
    && (forall i :: 0 <= i < |p.out| ==> Fits(p.out[i], size))
    && (p.buf == [] || (Trim(p.buf) != [] && |p.buf| <= size))
  }

  lemma EmitFits(out: seq<RichChunk>, buf: string, section: Option<string>, size: nat)
    requires forall i :: 0 <= i < |out| ==> Fits(out[i], size)
    requires Trim(buf) != [] && |buf| <= size
    ensures forall i :: 0 <= i < |out| + 1 ==> Fits((out + [Chunk(buf, section)])[i], size)
  {
    TrimKeepsInk(buf);
  }

  lemma FlushFits(p: Packing, size: nat)
    requires PackInv(p, size)
    ensures PackInv(Flush(p), size) && Flush(p).buf == []
  {
    if p.buf != [] {
      EmitFits(p.out, p.buf, p.section, size);
    }
  }

  lemma BufferedFits(buf: string, unit: string)
    requires Trim(unit) != []
    ensures Trim(buf + unit) != []
  {
    InkConcat(buf, unit);
    TrimKeepsInk(buf + unit);
    TrimKeepsInk(unit);
  }

  lemma PackUnitFits(p: Packing, unit: string, size: nat, overlap: nat, labelOf: string -> Option<string>)
    requires PackInv(p, size) && Trim(unit) != []
    ensures PackInv(PackUnit(p, unit, size, overlap, labelOf), size)
  {
    FlushFits(p, size);
    if |unit| > size {
      ChunkText.TextChunksFit(unit, size, overlap);
    } else {
      BufferedFits(p.buf, unit);
      BufferedFits([], unit);
    }
  }

  lemma {:induction false} PackFits(units: seq<string>, n: nat, size: nat, overlap: nat,
                                    labelOf: string -> Option<string>)
    requires n <= |units| && forall i :: 0 <= i < |units| ==> Trim(units[i]) != []
    ensures PackInv(Pack(units, n, size, overlap, labelOf), size)
  {
    if n > 0 {
      var before := Pack(units, n - 1, size, overlap, labelOf);
      PackFits(units, n - 1, size, overlap, labelOf);
      PackUnitFits(before, units[n - 1], size, overlap, labelOf);
      var after := PackUnit(before, units[n - 1], size, overlap, labelOf);
      assert Pack(units, n, size, overlap, labelOf) == after;
      assert PackInv(after, size);
    }
  }

  /** No chunk of code is empty or longer than the size. */
  lemma CodeChunksFit(text: string, lang: CodeLang, size: nat, overlap: nat, labelOf: string -> Option<string>)
    ensures forall i :: 0 <= i < |CodeChunks(text, lang, size, overlap, labelOf)| ==>
              Fits(CodeChunks(text, lang, size, overlap, labelOf)[i], size)
  {
    var units := Units(text, lang);
    UnitsConserve(text, lang);
    PackFits(units, |units|, size, overlap, labelOf);
    var p := Pack(units, |units|, size, overlap, labelOf);
    if p.buf != [] {
      EmitFits(p.out, p.buf, p.section, size);
    }
  }

  function InkOf(p: Packing): string {
    InkAll(TextsOf(p.out)) + Ink(p.buf)
  }

  lemma FlushInk(p: Packing)
    ensures InkOf(Flush(p)) == InkOf(p)
    ensures Flush(p).buf == []
  {
    TrimKeepsInk(p.buf);
    var c := Chunk(p.buf, p.section);
    assert TextsOf(p.out + [c]) == TextsOf(p.out) + [c.text];
    InkAllSnoc(TextsOf(p.out), c.text);
    assert InkAll(TextsOf(p.out + [c])) + [] == InkAll(TextsOf(p.out + [c]));
  }

  lemma OversizedInk(q: Packing, texts: seq<string>, section: Option<string>)
    requires q.buf == []
    ensures InkOf(q.(out := q.out + Pieces(texts, section))) == InkOf(q) + InkAll(texts)
  {
    var out := q.out + Pieces(texts, section);
    assert TextsOf(out) == TextsOf(q.out) + texts;
    InkAllConcat(TextsOf(q.out), texts);
    assert InkAll(TextsOf(out)) + [] == InkAll(TextsOf(out));
    assert InkAll(TextsOf(q.out)) + [] == InkAll(TextsOf(q.out));
  }

  lemma BufferedInk(q: Packing, unit: string, section: Option<string>)
    ensures InkOf(Packing(q.out, q.buf + unit, section)) == InkOf(q) + Ink(unit)
  {
    InkConcat(q.buf, unit);
    var done := InkAll(TextsOf(q.out));
    assert done + (Ink(q.buf) + Ink(unit)) == (done + Ink(q.buf)) + Ink(unit);
  }

  lemma PackUnitInk(p: Packing, unit: string, size: nat, overlap: nat, labelOf: string -> Option<string>)
    requires PackInv(p, size)
    requires |unit| <= size || ChunkText.ClampedOverlap(size, overlap) == 0
    ensures InkOf(PackUnit(p, unit, size, overlap, labelOf)) == InkOf(p) + Ink(unit)
  {
    FlushInk(p);
    if |unit| > size {
      ChunkText.TextChunksConserve(unit, size, overlap);
      OversizedInk(Flush(p), ChunkText.TextChunks(unit, size, overlap), labelOf(unit));
    } else {
      var q := if p.buf != [] && |p.buf| + |unit| > size then Flush(p) else p;
      BufferedInk(q, unit, if q.section.None? then labelOf(unit) else q.section);
    }
  }

  /** No unit is too long, or windows do not overlap. */
  ghost predicate Lossless(units: seq<string>, size: nat, overlap: nat) {
    || ChunkText.ClampedOverlap(size, overlap) == 0
    || forall i :: 0 <= i < |units| ==> |units[i]| <= size
  }

  lemma {:induction false} PackInk(units: seq<string>, n: nat, size: nat, overlap: nat,
                                   labelOf: string -> Option<string>)
    requires n <= |units| && forall i :: 0 <= i < |units| ==> Trim(units[i]) != []
    requires Lossless(units, size, overlap)
    ensures InkOf(Pack(units, n, size, overlap, labelOf)) == InkUpto(units, n)
  {
    if n > 0 {
      hide PackUnit, Fits, Trim;
      PackInk(units, n - 1, size, overlap, labelOf);
      PackFits(units, n - 1, size, overlap, labelOf);
      var before := Pack(units, n - 1, size, overlap, labelOf);
      PackUnitInk(before, units[n - 1], size, overlap, labelOf);
      var after := PackUnit(before, units[n - 1], size, overlap, labelOf);
      assert Pack(units, n, size, overlap, labelOf) == after;
      assert InkOf(after) == InkUpto(units, n - 1) + Ink(units[n - 1]);
    } else {
      assert Ink([]) + Ink([]) == [];
    }
  }

  /** When no unit is too long, or windows do not overlap, the chunks in order hold exactly the
      ink of the source. */
  lemma CodeChunksConserve(text: string, lang: CodeLang, size: nat, overlap: nat, labelOf: string -> Option<string>)
    requires Lossless(Units(text, lang), size, overlap)
    ensures InkAll(TextsOf(CodeChunks(text, lang, size, overlap, labelOf))) == Ink(text)
  {
    var units := Units(text, lang);
    UnitsConserve(text, lang);
    PackInk(units, |units|, size, overlap, labelOf);
    var p := Pack(units, |units|, size, overlap, labelOf);
    FlushInk(p);
    assert InkAll(TextsOf(Flush(p).out)) + [] == InkAll(TextsOf(Flush(p).out));
  }

  lemma PackUnitKeepsInk(p: Packing, unit: string, size: nat, overlap: nat, labelOf: string -> Option<string>,
                         ink: string)
    requires PackInv(p, size) && Within(ink, InkOf(p))
    ensures Within(ink + Ink(unit), InkOf(PackUnit(p, unit, size, overlap, labelOf)))
  {
    if |unit| > size {
      var texts := ChunkText.TextChunks(unit, size, overlap);
      FlushInk(p);
      ChunkText.TextChunksLoseNothing(unit, size, overlap, texts);
      OversizedInk(Flush(p), texts, labelOf(unit));
      WithinConcat(ink, InkOf(p), Ink(unit), InkAll(texts));
    } else {
      PackUnitInk(p, unit, size, overlap, labelOf);
      WithinBoth(ink, InkOf(p), Ink(unit));
    }
  }

  lemma PackStep(units: seq<string>, n: nat, size: nat, overlap: nat, labelOf: string -> Option<string>)
    requires n < |units|
    ensures Pack(units, n + 1, size, overlap, labelOf) ==
            PackUnit(Pack(units, n, size, overlap, labelOf), units[n], size, overlap, labelOf)
  {
  }

  lemma {:induction false} PackKeepsInk(units: seq<string>, n: nat, size: nat, overlap: nat,
                                        labelOf: string -> Option<string>, p: Packing)
    requires n <= |units| && p == Pack(units, n, size, overlap, labelOf)
    requires forall i :: 0 <= i < |units| ==> Trim(units[i]) != []
    ensures Within(InkUpto(units, n), InkOf(p))
  {
    if n > 0 {
      var before, unit := Pack(units, n - 1, size, overlap, labelOf), units[n - 1];
      PackKeepsInk(units, n - 1, size, overlap, labelOf, before);
      PackFits(units, n - 1, size, overlap, labelOf);
      PackStep(units, n - 1, size, overlap, labelOf);
      PackUnitKeepsInk(before, unit, size, overlap, labelOf, InkUpto(units, n - 1));
    }
  }

  /** Whatever the size and overlap, no ink of the source is lost or comes out of order; the chunks
      at most repeat some of it. */
  lemma CodeChunksLoseNothing(text: string, lang: CodeLang, size: nat, overlap: nat,
                              labelOf: string -> Option<string>)
    ensures Within(Ink(text), InkAll(TextsOf(CodeChunks(text, lang, size, overlap, labelOf))))
  {
    var units := Units(text, lang);
    UnitsConserve(text, lang);
    var p := Pack(units, |units|, size, overlap, labelOf);
    PackKeepsInk(units, |units|, size, overlap, labelOf, p);
    FlushInk(p);
    assert InkAll(TextsOf(Flush(p).out)) + [] == InkAll(TextsOf(Flush(p).out));
  }
}
