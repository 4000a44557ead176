/** The compliance exports: rows of comma-separated values, and a reader for them.

    The reader follows section 2 of RFC 4180 with records ended by a line feed: a field is either
    quoted, with doubled quotes inside, or has no comma, quote or line feed. It differs from the
    RFC in that a carriage return may stand in a bare field; before a line feed it is data or, for
    the other variant of the reader, part of the line's end. */
module Csv {
  import opened Prelude

  // ---- the printer ----

  /** From position `k` on there is no comma, quote or line feed. */
  predicate PlainFrom(s: string, k: nat)
    requires k <= |s|
    decreases |s| - k
  {
    k == |s| || (s[k] != ',' && s[k] != '"' && s[k] != '\n' && PlainFrom(s, k + 1))
  }

  /** Nothing in the text needs quoting. */
  predicate Plain(s: string) {
    PlainFrom(s, 0)
  }

  function Twice(c: char): string {
    if c == '"' then "\"\"" else [c]
  }

  /** The text from position `k` on with every quote doubled. */
  function Doubled(s: string, k: nat): string
    requires k <= |s|
    decreases |s| - k
  {
    if k == |s| then "" else Twice(s[k]) + Doubled(s, k + 1)
  }

  function Escape(s: string): string {
    if Plain(s) then s else "\"" + (Doubled(s, 0) + "\"")
  }

  /** The text of a record from field `k` on. */
  function RowText(fields: seq<string>, k: nat): string
    requires k < |fields|
    decreases |fields| - k
  {
    if k + 1 == |fields| then Escape(fields[k]) + "\n"
    else (Escape(fields[k]) + ",") + RowText(fields, k + 1)
  }

  function RowsText(rows: seq<seq<string>>): string
    requires forall i :: 0 <= i < |rows| ==> rows[i] != []
  {
    if rows == [] then "" else RowText(rows[0], 0) + RowsText(rows[1..])
  }

  // ---- the reader ----

  /** A field, the position behind its separator, and whether it was the record's last. */
  datatype FieldRead = Malformed | FieldRead(text: string, next: nat, last: bool)

  predicate CrLfAt(s: string, i: nat)
    requires i < |s|
  {
    s[i] == '\r' && i + 1 < |s| && s[i + 1] == '\n'
  }

  /** A field ends at a comma, a line feed, or the end of the text; for a reader that takes `crlf` for
      the end of a line also at a carriage return before a line feed. */
  function Ended(s: string, i: nat, crlf: bool): FieldRead
    requires i <= |s|
  {
    if i == |s| then FieldRead("", i, true)
    else if s[i] == ',' then FieldRead("", i + 1, false)
    else if s[i] == '\n' then FieldRead("", i + 1, true)
    else if crlf && CrLfAt(s, i) then FieldRead("", i + 2, true)
    else Malformed
  }

  function Prepend(c: char, r: FieldRead): FieldRead {
    match r
    case Malformed => Malformed
    case FieldRead(text, next, last) => FieldRead([c] + text, next, last)
  }

  /** The rest of a quoted field. */
  function ReadQuoted(s: string, i: nat, crlf: bool): (r: FieldRead)
    requires i <= |s|
    ensures r.FieldRead? ==> i < r.next <= |s|
    decreases |s| - i
  {
    if i == |s| then Malformed
    else if s[i] != '"' then Prepend(s[i], ReadQuoted(s, i + 1, crlf))
    else if i + 1 < |s| && s[i + 1] == '"' then Prepend('"', ReadQuoted(s, i + 2, crlf))
    else Ended(s, i + 1, crlf)
  }

  /** The rest of a bare field. */
  function ReadBare(s: string, i: nat, crlf: bool): (r: FieldRead)
    requires i <= |s|
    ensures r.FieldRead? ==> i <= r.next <= |s| && (i < |s| ==> i < r.next)
    decreases |s| - i
  {
    if i == |s| || s[i] == ',' || s[i] == '\n' || (crlf && CrLfAt(s, i)) then Ended(s, i, crlf)
    else if s[i] == '"' then Malformed
    else Prepend(s[i], ReadBare(s, i + 1, crlf))
  }

  function ReadField(s: string, i: nat, crlf: bool): (r: FieldRead)
    requires i <= |s|
    ensures r.FieldRead? ==> i <= r.next <= |s| && (i < |s| ==> i < r.next)
  {
    if i < |s| && s[i] == '"' then ReadQuoted(s, i + 1, crlf) else ReadBare(s, i, crlf)
  }

  /** The fields of one record, and the position behind it. */
  datatype RecordRead = Broken | RecordRead(fields: seq<string>, next: nat)

  function ReadRecord(s: string, i: nat, crlf: bool): (r: RecordRead)
    requires i <= |s|
    ensures r.RecordRead? ==> i <= r.next <= |s| && (i < |s| ==> i < r.next)
    decreases |s| - i
  {
    match ReadField(s, i, crlf)
    case Malformed => Broken
    case FieldRead(text, next, last) =>
      if last then RecordRead([text], next)
      else if next == i then Broken
      else
        match ReadRecord(s, next, crlf)
        case Broken => Broken
        case RecordRead(rest, end) => RecordRead([text] + rest, end)
  }

  /** All records from position `i` on. */
  function ReadRecords(s: string, i: nat, crlf: bool): Option<seq<seq<string>>>
    requires i <= |s|
    decreases |s| - i
  {
    if i == |s| then Some([])
    else
      match ReadRecord(s, i, crlf)
      case Broken => None
      case RecordRead(fields, next) =>
        match ReadRecords(s, next, crlf)
        case None => None
        case Some(rest) => Some([fields] + rest)
  }

  /** A record's last field is printed bare and ends in a carriage return. */
  predicate TrailingCr(f: string) {
    Plain(f) && f != "" && f[|f| - 1] == '\r'
  }

  /** What is read of a field in front of a separator: to a reader that takes CRLF for the end of a
      line a bare field loses a carriage return there. */
  function Seen(f: string, sep: char, crlf: bool): string {
    if crlf && sep == '\n' && TrailingCr(f) then f[..|f| - 1] else f
  }

  function SeenRow(fields: seq<string>, crlf: bool): seq<string>
    requires fields != []
  {
    fields[..|fields| - 1] + [Seen(fields[|fields| - 1], '\n', crlf)]
  }

  // ---- reading what was printed ----

  predicate Separator(c: char) {
    c == ',' || c == '\n'
  }

  /** The character at a position, when a text starts there. */
  lemma FirstAt(s: string, i: nat, x: string)
    requires x != [] && At(s, i, x)
    ensures i < |s| && s[i] == x[0]
    ensures |x| > 1 ==> s[i + 1] == x[1]
  {
    assert AtFrom(s, i, x, 1);
  }

  lemma QuotedStep(s: string, i: nat, c: char, crlf: bool)
    requires i < |s| && s[i] == c
    requires c == '"' ==> i + 1 < |s| && s[i + 1] == '"'
    ensures ReadQuoted(s, i, crlf) == Prepend(c, ReadQuoted(s, if c == '"' then i + 2 else i + 1, crlf))
  {
  }

  lemma QuotedEnd(s: string, i: nat, sep: char, crlf: bool)
    requires Separator(sep) && At(s, i, "\"" + [sep])
    ensures ReadQuoted(s, i, crlf) == FieldRead("", i + 2, sep == '\n')
  {
    FirstAt(s, i, "\"" + [sep]);
  }

  lemma DoubledStep(f: string, k: nat, end: string) returns (first: string, rest: string)
    requires k < |f|
    ensures first == Twice(f[k])
    ensures rest == Doubled(f, k + 1) && |Doubled(f, k)| == |first| + |rest|
    ensures Doubled(f, k) + end == first + (rest + end)
  {
    first, rest := Twice(f[k]), Doubled(f, k + 1);
    assert Doubled(f, k) == first + rest;
  }

  /** One character of a quoted text is read, and the others lie behind it. */
  lemma QuotedFirst(s: string, i: nat, f: string, k: nat, end: string, crlf: bool) returns (next: nat)
    requires k < |f| && At(s, i, Doubled(f, k) + end)
    ensures i < next <= |s| && ReadQuoted(s, i, crlf) == Prepend(f[k], ReadQuoted(s, next, crlf))
    ensures At(s, next, Doubled(f, k + 1) + end) && next + |Doubled(f, k + 1)| == i + |Doubled(f, k)|
  {
    var first, rest := DoubledStep(f, k, end);
    FirstAt(s, i, first + (rest + end));
    AtConcat(s, i, first, rest + end);
    QuotedStep(s, i, f[k], crlf);
    next := i + |first|;
  }

  lemma {:induction false} ReadsQuoted(s: string, i: nat, f: string, k: nat, sep: char, crlf: bool)
    requires k <= |f| && Separator(sep) && At(s, i, Doubled(f, k) + ("\"" + [sep]))
    ensures ReadQuoted(s, i, crlf) == FieldRead(f[k..], i + |Doubled(f, k)| + 2, sep == '\n')
    decreases |f| - k
  {
    var end := "\"" + [sep];
    if k < |f| {
      var next := QuotedFirst(s, i, f, k, end, crlf);
      ReadsQuoted(s, next, f, k + 1, sep, crlf);
      assert f[k..] == [f[k]] + f[k + 1..];
    } else {
      assert Doubled(f, k) + end == end;
      QuotedEnd(s, i, sep, crlf);
    }
  }

  /** Where the text of a bare field ends for the reader. */
  function BareEnd(f: string, sep: char, crlf: bool): (r: nat)
    ensures r <= |f|
  {
    if crlf && sep == '\n' && f != "" && f[|f| - 1] == '\r' then |f| - 1 else |f|
  }

  lemma {:induction false} ReadsBare(s: string, i: nat, f: string, k: nat, sep: char, crlf: bool)
    requires k <= BareEnd(f, sep, crlf) && PlainFrom(f, k) && Separator(sep) && At(s, i, f[k..] + [sep])
    ensures ReadBare(s, i, crlf) == FieldRead(f[k..BareEnd(f, sep, crlf)], i + |f| - k + 1, sep == '\n')
    decreases |f| - k
  {
    FirstAt(s, i, f[k..] + [sep]);
    if k == |f| {
      assert f[k..] + [sep] == [sep];
    } else if k == BareEnd(f, sep, crlf) {
      assert f[k..] + [sep] == "\r\n";
      assert CrLfAt(s, i);
    } else {
      BareStep(s, i, f, k, sep, crlf);
      AtConcat(s, i, [f[k]], f[k + 1..] + [sep]);
      ReadsBare(s, i + 1, f, k + 1, sep, crlf);
      assert f[k..BareEnd(f, sep, crlf)] == [f[k]] + f[k + 1..BareEnd(f, sep, crlf)];
    }
  }

  lemma BareStep(s: string, i: nat, f: string, k: nat, sep: char, crlf: bool)
    requires k < BareEnd(f, sep, crlf) && PlainFrom(f, k) && Separator(sep) && At(s, i, f[k..] + [sep])
    ensures f[k..] + [sep] == [f[k]] + (f[k + 1..] + [sep])
    ensures i < |s| && ReadBare(s, i, crlf) == Prepend(f[k], ReadBare(s, i + 1, crlf))
  {
    FirstAt(s, i, f[k..] + [sep]);
    assert f[k..] + [sep] == [f[k]] + (f[k + 1..] + [sep]);
    if k + 1 < |f| {
      assert PlainFrom(f, k + 1);
      assert s[i + 1] == f[k + 1];
    } else {
      assert s[i + 1] == sep;
    }
  }

  /** An escaped field in front of a separator is read back as it was, but for a carriage return that
      the reader takes for part of the line's end. */
  lemma ReadsField(s: string, i: nat, f: string, sep: char, crlf: bool)
    requires Separator(sep) && At(s, i, Escape(f) + [sep])
    ensures ReadField(s, i, crlf) == FieldRead(Seen(f, sep, crlf), i + |Escape(f)| + 1, sep == '\n')
  {
    assert f[0..] == f;
    if Plain(f) {
      FirstAt(s, i, f + [sep]);
      ReadsBare(s, i, f, 0, sep, crlf);
      assert f[0..BareEnd(f, sep, crlf)] == Seen(f, sep, crlf);
    } else {
      var body := Doubled(f, 0) + ("\"" + [sep]);
      assert Escape(f) + [sep] == "\"" + body;
      AtConcat(s, i, "\"", body);
      ReadsQuoted(s, i + 1, f, 0, sep, crlf);
    }
  }

  lemma RecordStep(s: string, i: nat, text: string, next: nat, rest: seq<string>, end: nat, crlf: bool)
    requires i < next <= |s| && ReadField(s, i, crlf) == FieldRead(text, next, false)
    requires ReadRecord(s, next, crlf) == RecordRead(rest, end)
    ensures ReadRecord(s, i, crlf) == RecordRead([text] + rest, end)
  {
  }

  lemma LastFieldStep(s: string, i: nat, text: string, next: nat, crlf: bool)
    requires i <= |s| && ReadField(s, i, crlf) == FieldRead(text, next, true)
    ensures ReadRecord(s, i, crlf) == RecordRead([text], next)
  {
  }

  lemma RecordsStep(s: string, i: nat, fields: seq<string>, next: nat, rest: seq<seq<string>>, crlf: bool)
    requires i < next <= |s| && ReadRecord(s, i, crlf) == RecordRead(fields, next)
    requires ReadRecords(s, next, crlf) == Some(rest)
    ensures ReadRecords(s, i, crlf) == Some([fields] + rest)
  {
  }

  /** Only a record's last field may be seen otherwise. */
  ghost predicate SeenAs(fields: seq<string>, seen: seq<string>, crlf: bool) {
    && |seen| == |fields|
    && forall k :: 0 <= k < |fields| ==>
         seen[k] == if k + 1 == |fields| then Seen(fields[k], '\n', crlf) else fields[k]
  }

  /** A field that is not the last is read, and the rest of the record lies behind it. */
  lemma ReadsFirstField(s: string, i: nat, fields: seq<string>, k: nat, crlf: bool) returns (next: nat)
    requires k + 1 < |fields| && At(s, i, RowText(fields, k))
    ensures i < next <= |s| && ReadField(s, i, crlf) == FieldRead(fields[k], next, false)
    ensures At(s, next, RowText(fields, k + 1)) && next + |RowText(fields, k + 1)| == i + |RowText(fields, k)|
  {
    hide At, ReadField, Escape;
    var first, rest := Escape(fields[k]) + ",", RowText(fields, k + 1);
    assert RowText(fields, k) == first + rest;
    AtConcat(s, i, first, rest);
    ReadsField(s, i, fields[k], ',', crlf);
    next := i + |first|;
  }

  lemma ReadsLastField(s: string, i: nat, fields: seq<string>, k: nat, crlf: bool)
    requires k + 1 == |fields| && At(s, i, RowText(fields, k))
    ensures ReadRecord(s, i, crlf) == RecordRead([Seen(fields[k], '\n', crlf)], i + |RowText(fields, k)|)
  {
    assert RowText(fields, k) == Escape(fields[k]) + "\n";
    ReadsField(s, i, fields[k], '\n', crlf);
    LastFieldStep(s, i, Seen(fields[k], '\n', crlf), i + |RowText(fields, k)|, crlf);
  }

  lemma FromOn(s: seq<string>, k: nat)
    requires k < |s|
    ensures k + 1 == |s| ==> s[k..] == [s[k]]
    ensures s[k..] == [s[k]] + s[k + 1..]
  {
  }

  lemma SeenAt(fields: seq<string>, seen: seq<string>, crlf: bool, k: nat)
    requires SeenAs(fields, seen, crlf) && k < |fields|
    ensures |seen| == |fields|
    ensures seen[k] == (if k + 1 == |fields| then Seen(fields[k], '\n', crlf) else fields[k])
  {
  }

  lemma LastRowStep(s: string, i: nat, fields: seq<string>, k: nat, crlf: bool, seen: seq<string>)
    requires k + 1 == |fields| && At(s, i, RowText(fields, k)) && SeenAs(fields, seen, crlf)
    ensures ReadRecord(s, i, crlf) == RecordRead(seen[k..], i + |RowText(fields, k)|)
  {
    SeenAt(fields, seen, crlf, k);
    FromOn(seen, k);
    ReadsLastField(s, i, fields, k, crlf);
  }

  /** A record is read when its first field and the rest are. */
  lemma RowStep(s: string, i: nat, fields: seq<string>, k: nat, crlf: bool, seen: seq<string>, next: nat, end: nat)
    requires k + 1 < |fields| && SeenAs(fields, seen, crlf) && i < next <= |s|
    requires ReadField(s, i, crlf) == FieldRead(fields[k], next, false)
    requires ReadRecord(s, next, crlf) == RecordRead(seen[k + 1..], end)
    ensures ReadRecord(s, i, crlf) == RecordRead(seen[k..], end)
  {
    SeenAt(fields, seen, crlf, k);
    FromOn(seen, k);
    RecordStep(s, i, fields[k], next, seen[k + 1..], end, crlf);
  }

  lemma {:induction false} ReadsRow(s: string, i: nat, fields: seq<string>, k: nat, crlf: bool, seen: seq<string>,
                                    end: nat)
    requires k < |fields| && At(s, i, RowText(fields, k)) && end == i + |RowText(fields, k)|
    requires SeenAs(fields, seen, crlf)
    ensures ReadRecord(s, i, crlf) == RecordRead(seen[k..], end)
    decreases |fields| - k
  {
    if k + 1 == |fields| {
      LastRowStep(s, i, fields, k, crlf, seen);
    } else {
      var next := ReadsFirstField(s, i, fields, k, crlf);
      ReadsRow(s, next, fields, k + 1, crlf, seen, end);
      RowStep(s, i, fields, k, crlf, seen, next, end);
    }
  }

  ghost predicate Proper(rows: seq<seq<string>>) {
    forall i :: 0 <= i < |rows| ==> rows[i] != []
  }

  /** What is read of printed records. */
  function SeenRows(rows: seq<seq<string>>, crlf: bool): (r: seq<seq<string>>)
    requires Proper(rows)
    ensures |r| == |rows| && forall i :: 0 <= i < |rows| ==> r[i] == SeenRow(rows[i], crlf)
  {
    if rows == [] then [] else [SeenRow(rows[0], crlf)] + SeenRows(rows[1..], crlf)
  }

  lemma SeenRowMeans(row: seq<string>, crlf: bool)
    requires row != []
    ensures SeenAs(row, SeenRow(row, crlf), crlf)
  {
  }

  lemma RowsTextCons(rows: seq<seq<string>>)
    requires rows != [] && Proper(rows)
    ensures RowsText(rows) == RowText(rows[0], 0) + RowsText(rows[1..])
  {
  }

  lemma ReadsWholeRow(s: string, i: nat, row: seq<string>, crlf: bool)
    requires row != [] && At(s, i, RowText(row, 0))
    ensures ReadRecord(s, i, crlf) == RecordRead(SeenRow(row, crlf), i + |RowText(row, 0)|)
  {
    var seen := SeenRow(row, crlf);
    SeenRowMeans(row, crlf);
    ReadsRow(s, i, row, 0, crlf, seen, i + |RowText(row, 0)|);
    assert seen[0..] == seen;
  }

  lemma FirstAndOthers(s: string, i: nat, rows: seq<seq<string>>, crlf: bool, next: nat)
    requires rows != [] && Proper(rows) && i < next <= |s|
    requires ReadRecord(s, i, crlf) == RecordRead(SeenRow(rows[0], crlf), next)
    requires ReadRecords(s, next, crlf) == Some(SeenRows(rows[1..], crlf))
    ensures ReadRecords(s, i, crlf) == Some(SeenRows(rows, crlf))
  {
    RecordsStep(s, i, SeenRow(rows[0], crlf), next, SeenRows(rows[1..], crlf), crlf);
  }

  lemma ReadsNoRows(s: string, rows: seq<seq<string>>, crlf: bool)
    requires rows == []
    ensures ReadRecords(s, |s|, crlf) == Some(SeenRows(rows, crlf)) && RowsText(rows) == ""
  {
  }

  lemma ProperRest(rows: seq<seq<string>>)
    requires rows != [] && Proper(rows)
    ensures rows[0] != [] && Proper(rows[1..])
  {
  }

  /** The first of the printed records is read, and the others lie behind it. */
  lemma ReadsFirstRow(s: string, i: nat, rows: seq<seq<string>>, crlf: bool) returns (next: nat)
    requires rows != [] && Proper(rows) && At(s, i, RowsText(rows))
    ensures i < next <= |s| && ReadRecord(s, i, crlf) == RecordRead(SeenRow(rows[0], crlf), next)
    ensures At(s, next, RowsText(rows[1..])) && next + |RowsText(rows[1..])| == i + |RowsText(rows)|
  {
    hide At, ReadRecord, RowText, SeenRow;
    ProperRest(rows);
    var row, rest := RowText(rows[0], 0), RowsText(rows[1..]);
    RowsTextCons(rows);
    RowTextNotEmpty(rows[0], 0);
    next := i + |row|;
    assert At(s, i, row) && At(s, next, rest) && next + |rest| == i + |RowsText(rows)| by {
      AtConcat(s, i, row, rest);
    }
    assert ReadRecord(s, i, crlf) == RecordRead(SeenRow(rows[0], crlf), next) by {
      ReadsWholeRow(s, i, rows[0], crlf);
    }
  }

  lemma {:induction false} ReadsRows(s: string, i: nat, rows: seq<seq<string>>, crlf: bool)
    requires Proper(rows)
    requires At(s, i, RowsText(rows)) && i + |RowsText(rows)| == |s|
    ensures ReadRecords(s, i, crlf) == Some(SeenRows(rows, crlf))
    decreases |rows|
  {
    if rows == [] {
      ReadsNoRows(s, rows, crlf);
    } else {
      ProperRest(rows);
      var next := ReadsFirstRow(s, i, rows, crlf);
      ReadsRows(s, next, rows[1..], crlf);
      FirstAndOthers(s, i, rows, crlf, next);
    }
  }

  lemma RowTextNotEmpty(fields: seq<string>, k: nat)
    requires k < |fields|
    ensures |RowText(fields, k)| > 0
  {
  }

  lemma ReadsPrinted(rows: seq<seq<string>>, crlf: bool)
    requires Proper(rows)
    ensures ReadRecords(RowsText(rows), 0, crlf) == Some(SeenRows(rows, crlf))
  {
    AtMeans(RowsText(rows), 0, RowsText(rows));
    ReadsRows(RowsText(rows), 0, rows, crlf);
  }

  /** The record's last field is printed bare and ends in a carriage return. */
  predicate EndsInCr(row: seq<string>) {
    row != [] && TrailingCr(row[|row| - 1])
  }

  ghost predicate NoneEndsInCr(rows: seq<seq<string>>) {
    forall row :: row in rows ==> !EndsInCr(row)
  }

  lemma SeenRowIff(row: seq<string>, crlf: bool)
    requires row != []
    ensures SeenRow(row, crlf) == row <==> !(crlf && EndsInCr(row))
  {
    var k := |row| - 1;
    assert row == row[..k] + [row[k]];
    assert SeenRow(row, crlf)[k] == Seen(row[k], '\n', crlf);
  }

  lemma SeenRowsIff(rows: seq<seq<string>>, crlf: bool)
    requires Proper(rows)
    ensures SeenRows(rows, crlf) == rows <==> forall row :: row in rows ==> !(crlf && EndsInCr(row))
  {
    var seen := SeenRows(rows, crlf);
    forall i | 0 <= i < |rows|
      ensures seen[i] == rows[i] <==> !(crlf && EndsInCr(rows[i]))
    {
      SeenRowIff(rows[i], crlf);
    }
  }

  /** Reading printed records gives them back, whatever commas, quotes and line feeds their fields
      hold. */
  lemma {:induction false} PrintedReadsBack(rows: seq<seq<string>>)
    requires Proper(rows)
    ensures ReadRecords(RowsText(rows), 0, false) == Some(rows)
  {
    ReadsPrinted(rows, false);
    SeenRowsIff(rows, false);
  }

  /** A reader that also takes CRLF for the end of a line gives them back exactly when no record's last
      field is printed bare and ends in a carriage return. */
  lemma {:induction false} PrintedReadsBackCrlfIff(rows: seq<seq<string>>)
    requires Proper(rows)
    ensures ReadRecords(RowsText(rows), 0, true) == Some(rows) <==>
            NoneEndsInCr(rows)
  {
    ReadsPrinted(rows, true);
    SeenRowsIff(rows, true);
  }
}
