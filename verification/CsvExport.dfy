/** The GDPR, HIPAA, SOC 2 and ISO 27001 exports of the audit log.

    Rendering a time stamp and quoting a JSON string are library functions: a stamp is any text
    without comma, quote or line feed, and quoting is any function. */
module CsvExport {
  import opened Prelude
  import opened Csv

  /** A value of an event, as far as the exports look at it. */
  datatype Json = Str(s: string) | Num(n: nat) | Other(text: string)

  datatype Field = Field(name: string, value: Json)

  /** A log entry; `fields` are the event's fields without its tag, which is `kind`. */
  datatype Entry = Entry(ts: int, stamp: string, seqNo: nat, actor: string, kind: string, fields: seq<Field>)

  datatype Filter = Filter(workspace: Option<string>, from: Option<int>, to: Option<int>)

  datatype Format = Gdpr | Hipaa | Soc2 | Iso27001

  // ---- what the columns hold ----

  function Digit(d: nat): char
    requires d < 10
  {
    "0123456789"[d]
  }

  function Decimal(n: nat): string {
    if n < 10 then [Digit(n)] else Decimal(n / 10) + [Digit(n % 10)]
  }

  function Show(v: Json, quote: string -> string): string {
    match v
    case Str(s) => quote(s)
    case Num(n) => Decimal(n)
    case Other(text) => text
  }

  /** `name=value` for every field, joined by semicolons. */
  function Detail(fields: seq<Field>, quote: string -> string): string {
    if fields == [] then ""
    else
      var one := fields[0].name + "=" + Show(fields[0].value, quote);
      if |fields| == 1 then one else one + "; " + Detail(fields[1..], quote)
  }

  function Lookup(fields: seq<Field>, name: string): Option<Json> {
    if fields == [] then None
    else if fields[0].name == name then Some(fields[0].value)
    else Lookup(fields[1..], name)
  }

  function Prefixed(e: Entry, name: string): string {
    match Lookup(e.fields, name)
    case Some(Str(s)) => name + "=" + s
    case _ => ""
  }

  function NumberOr0(e: Entry, name: string): nat {
    match Lookup(e.fields, name)
    case Some(Num(n)) => n
    case _ => 0
  }

  function AccessDetail(e: Entry): string {
    if e.kind == "inference_start" then Prefixed(e, "prompt_sha256")
    else if e.kind == "inference_complete" then
      "tokens_in=" + Decimal(NumberOr0(e, "tokens_in")) + " tokens_out=" + Decimal(NumberOr0(e, "tokens_out"))
    else if e.kind == "rag_retrieval" then Prefixed(e, "query_sha256")
    else ""
  }

  function Phi(kind: string): string {
    if kind == "inference_start" || kind == "inference_complete" || kind == "rag_retrieval"
       || kind == "rag_document_ingested"
    then "yes"
    else "no"
  }

  function Category(kind: string): string {
    if kind == "daemon_start" || kind == "daemon_stop" then "availability"
    else if kind == "isolation_applied" || kind == "config_reloaded" then "change_management"
    else if kind == "model_imported" || kind == "model_removed" then "change_management"
    else if kind == "inference_start" || kind == "inference_complete" || kind == "inference_failed"
    then "logical_access"
    else if kind == "rag_document_ingested" || kind == "rag_retrieval" then "logical_access"
    else if kind == "audit_verified" then "monitoring"
    else "other"
  }

  function ControlOf(kind: string): string {
    if kind == "daemon_start" || kind == "daemon_stop" then "A.12.1"
    else if kind == "isolation_applied" then "A.13.1"
    else if kind == "model_imported" || kind == "model_removed" then "A.12.5"
    else if kind == "inference_start" || kind == "inference_complete" || kind == "inference_failed" then "A.9.4"
    else if kind == "rag_document_ingested" || kind == "rag_retrieval" then "A.9.4"
    else if kind == "config_reloaded" then "A.12.1"
    else "A.12.4"
  }

  function OutcomeOf(kind: string): string {
    if kind == "daemon_start" || kind == "daemon_stop" then "operational"
    else if kind == "isolation_applied" then "network_control"
    else if kind == "model_imported" || kind == "model_removed" then "change"
    else if kind == "inference_start" || kind == "inference_complete" then "access"
    else if kind == "inference_failed" then "failure"
    else if kind == "rag_document_ingested" || kind == "rag_retrieval" then "access"
    else if kind == "config_reloaded" then "change"
    else if kind == "audit_verified" then "monitoring"
    else "other"
  }

  function Header(format: Format): seq<string> {
    match format
    case Gdpr => ["timestamp", "seq", "actor", "activity", "detail"]
    case Hipaa => ["timestamp", "seq", "actor", "event_type", "access_detail", "phi_indicator"]
    case Soc2 => ["timestamp", "seq", "actor", "category", "event_type", "detail"]
    case Iso27001 => ["timestamp", "seq", "actor", "control", "event_type", "outcome", "detail"]
  }

  /** The values of an entry's record. */
  function Record(format: Format, e: Entry, quote: string -> string): seq<string> {
    match format
    case Gdpr => [e.stamp, Decimal(e.seqNo), e.actor, e.kind, Detail(e.fields, quote)]
    case Hipaa => [e.stamp, Decimal(e.seqNo), e.actor, e.kind, AccessDetail(e), Phi(e.kind)]
    case Soc2 => [e.stamp, Decimal(e.seqNo), e.actor, Category(e.kind), e.kind, Detail(e.fields, quote)]
    case Iso27001 =>
      [e.stamp, Decimal(e.seqNo), e.actor, ControlOf(e.kind), e.kind, OutcomeOf(e.kind),
       Detail(e.fields, quote)]
  }

  // ---- what is printed: only some of the columns are escaped ----

  /** The columns of a line as they are printed. */
  function Printed(format: Format, e: Entry, quote: string -> string): seq<string> {
    match format
    case Gdpr =>
      [e.stamp, Decimal(e.seqNo), Escape(e.actor), Escape(e.kind), Escape(Detail(e.fields, quote))]
    case Hipaa =>
      [e.stamp, Decimal(e.seqNo), Escape(e.actor), Escape(e.kind), Escape(AccessDetail(e)), Phi(e.kind)]
    case Soc2 =>
      [e.stamp, Decimal(e.seqNo), Escape(e.actor), Category(e.kind), Escape(e.kind),
       Escape(Detail(e.fields, quote))]
    case Iso27001 =>
      [e.stamp, Decimal(e.seqNo), Escape(e.actor), ControlOf(e.kind), Escape(e.kind), OutcomeOf(e.kind),
       Escape(Detail(e.fields, quote))]
  }

  /** Columns from the `k`-th on, separated by commas and ended by a line feed. */
  function Line(columns: seq<string>, k: nat): string
    requires k < |columns|
    decreases |columns| - k
  {
    if k + 1 == |columns| then columns[k] + "\n" else (columns[k] + ",") + Line(columns, k + 1)
  }

  predicate Admits(f: Filter, e: Entry) {
    && (f.workspace.Some? ==> e.actor == f.workspace.value)
    && (f.from.Some? ==> e.ts >= f.from.value)
    && (f.to.Some? ==> e.ts <= f.to.value)
  }

  /** The entries among the first `n` that the filter lets through, in order. */
  function Filtered(f: Filter, entries: seq<Entry>, n: nat): seq<Entry>
    requires n <= |entries|
  {
    if n == 0 then []
    else
      var before := Filtered(f, entries, n - 1);
      if Admits(f, entries[n - 1]) then before + [entries[n - 1]] else before
  }

  // ---- the printed lines are records ----

  lemma {:induction false} PlainMeans(s: string, k: nat)
    requires k <= |s|
    ensures PlainFrom(s, k) <==> forall i :: k <= i < |s| ==> s[i] != ',' && s[i] != '"' && s[i] != '\n'
    decreases |s| - k
  {
    if k < |s| {
      PlainMeans(s, k + 1);
    }
  }

  lemma {:induction false} DecimalIsPlain(n: nat)
    ensures Plain(Decimal(n))
  {
    PlainMeans(Decimal(n), 0);
    if n >= 10 {
      DecimalIsPlain(n / 10);
      PlainMeans(Decimal(n / 10), 0);
    }
  }

  lemma PhiIsPlain(kind: string)
    ensures Plain(Phi(kind))
  {
    PlainMeans(Phi(kind), 0);
  }

  lemma CategoryIsPlain(kind: string)
    ensures Plain(Category(kind))
  {
    hide PlainFrom;
    PlainMeans("availability", 0);
    PlainMeans("change_management", 0);
    PlainMeans("logical_access", 0);
    PlainMeans("monitoring", 0);
    PlainMeans("other", 0);
  }

  lemma ControlIsPlain(kind: string)
    ensures Plain(ControlOf(kind))
  {
    PlainMeans(ControlOf(kind), 0);
  }

  lemma OutcomeIsPlain(kind: string)
    ensures Plain(OutcomeOf(kind))
  {
    hide PlainFrom;
    PlainMeans("operational", 0);
    PlainMeans("network_control", 0);
    PlainMeans("change", 0);
    PlainMeans("access", 0);
    PlainMeans("failure", 0);
    PlainMeans("monitoring", 0);
    PlainMeans("other", 0);
  }

  /** Columns printed as their escaped values make the record's text. */
  lemma {:induction false} LineIsRow(columns: seq<string>, fields: seq<string>, k: nat)
    requires k < |columns| == |fields| && forall i :: 0 <= i < |fields| ==> columns[i] == Escape(fields[i])
    ensures Line(columns, k) == RowText(fields, k)
    decreases |fields| - k
  {
    if k + 1 < |fields| {
      LineIsRow(columns, fields, k + 1);
    }
  }

  lemma SharedNamesArePlain()
    ensures Plain("timestamp") && Plain("seq") && Plain("actor")
  {
    PlainMeans("timestamp", 0);
    PlainMeans("seq", 0);
    PlainMeans("actor", 0);
  }

  lemma EventNamesArePlain()
    ensures Plain("activity") && Plain("detail") && Plain("event_type") && Plain("category")
  {
    PlainMeans("activity", 0);
    PlainMeans("detail", 0);
    PlainMeans("event_type", 0);
    PlainMeans("category", 0);
  }

  lemma OtherNamesArePlain()
    ensures Plain("access_detail") && Plain("phi_indicator") && Plain("control") && Plain("outcome")
  {
    PlainMeans("access_detail", 0);
    PlainMeans("phi_indicator", 0);
    PlainMeans("control", 0);
    PlainMeans("outcome", 0);
  }

  lemma HeaderIsPlain(format: Format, i: nat)
    requires i < |Header(format)|
    ensures Plain(Header(format)[i])
  {
    SharedNamesArePlain();
    EventNamesArePlain();
    OtherNamesArePlain();
  }

  /** The columns that are printed as they are need no escaping. */
  lemma PrintedIsEscaped(format: Format, e: Entry, quote: string -> string)
    requires Plain(e.stamp)
    ensures |Printed(format, e, quote)| == |Record(format, e, quote)|
    ensures forall i :: 0 <= i < |Record(format, e, quote)| ==>
              Printed(format, e, quote)[i] == Escape(Record(format, e, quote)[i])
  {
    hide Plain, Decimal, Detail, AccessDetail, Phi, Category, ControlOf, OutcomeOf;
    DecimalIsPlain(e.seqNo);
    PhiIsPlain(e.kind);
    CategoryIsPlain(e.kind);
    ControlIsPlain(e.kind);
    OutcomeIsPlain(e.kind);
  }

  // ---- the export ----

  /** One record for the header, then one for every entry. */
  function Records(format: Format, entries: seq<Entry>, n: nat, quote: string -> string): (r: seq<seq<string>>)
    requires n <= |entries|
    ensures Proper(r) && |r| == n + 1
  {
    [Header(format)] + seq(n, i requires 0 <= i < n => Record(format, entries[i], quote))
  }

  lemma RecordsSnoc(format: Format, entries: seq<Entry>, n: nat, quote: string -> string)
    requires n < |entries|
    ensures Records(format, entries, n + 1, quote) ==
            Records(format, entries, n, quote) + [Record(format, entries[n], quote)]
  {
  }

  lemma {:induction false} RowsTextSnoc(rows: seq<seq<string>>, last: seq<string>)
    requires Proper(rows) && last != []
    ensures RowsText(rows + [last]) == RowsText(rows) + RowText(last, 0)
  {
    if rows == [] {
      assert rows + [last] == [last];
      assert RowsText([last]) == RowText(last, 0) + RowsText([]);
    } else {
      RowsTextSnoc(rows[1..], last);
      assert (rows + [last])[1..] == rows[1..] + [last];
      var first, rest := RowText(rows[0], 0), RowsText(rows[1..]);
      assert first + (rest + RowText(last, 0)) == (first + rest) + RowText(last, 0);
    }
  }

  method LoadEntries(log: seq<Entry>, f: Filter) returns (entries: seq<Entry>)
    ensures entries == Filtered(f, log, |log|)
  {
    entries := [];
    for i := 0 to |log|
      invariant entries == Filtered(f, log, i)
    {
      if Admits(f, log[i]) {
        entries := entries + [log[i]];
      }
    }
  }

  /** The exports share one loop; they differ in the columns. */
  method Export(format: Format, log: seq<Entry>, f: Filter, quote: string -> string) returns (out: string)
    requires forall i :: 0 <= i < |log| ==> Plain(log[i].stamp)
    ensures var entries := Filtered(f, log, |log|);
      out == RowsText(Records(format, entries, |entries|, quote))
  {
    var entries := LoadEntries(log, f);
    FilteredStamps(f, log, |log|);
    HeaderRow(format);
    out := Line(Header(format), 0);
    for i := 0 to |entries|
      invariant out == RowsText(Records(format, entries, i, quote))
    {
      out := out + Line(Printed(format, entries[i], quote), 0);
      PrintedIsEscaped(format, entries[i], quote);
      LineIsRow(Printed(format, entries[i], quote), Record(format, entries[i], quote), 0);
      RecordsSnoc(format, entries, i, quote);
      RowsTextSnoc(Records(format, entries, i, quote), Record(format, entries[i], quote));
    }
  }

  lemma {:induction false} FilteredStamps(f: Filter, log: seq<Entry>, n: nat)
    requires n <= |log| && forall i :: 0 <= i < |log| ==> Plain(log[i].stamp)
    ensures forall i :: 0 <= i < |Filtered(f, log, n)| ==> Plain(Filtered(f, log, n)[i].stamp)
  {
    if n > 0 {
      FilteredStamps(f, log, n - 1);
    }
  }

  lemma HeaderRow(format: Format)
    ensures Line(Header(format), 0) == RowsText([Header(format)])
  {
    forall i | 0 <= i < |Header(format)|
      ensures Header(format)[i] == Escape(Header(format)[i])
    {
      HeaderIsPlain(format, i);
    }
    LineIsRow(Header(format), Header(format), 0);
    assert RowsText([Header(format)]) == RowText(Header(format), 0) + RowsText([]);
  }

  /** Reading an export gives back the header and one record per exported entry, in order, with the
      original values, whatever commas, quotes and line feeds they hold. */
  lemma {:induction false} ExportReadsBack(format: Format, log: seq<Entry>, f: Filter, quote: string -> string)
    ensures var entries := Filtered(f, log, |log|);
      var records := Records(format, entries, |entries|, quote);
      && ReadRecords(RowsText(records), 0, false) == Some(records)
      && records[0] == Header(format)
      && forall i :: 0 <= i < |entries| ==> records[i + 1] == Record(format, entries[i], quote)
  {
    var entries := Filtered(f, log, |log|);
    PrintedReadsBack(Records(format, entries, |entries|, quote));
    RecordsAt(format, entries, quote);
  }

  lemma HeaderHasNoCr(format: Format)
    ensures !EndsInCr(Header(format))
  {
  }

  /** The entry's record ends in a carriage return that a CRLF reader drops. */
  predicate LosesCr(format: Format, e: Entry, quote: string -> string) {
    !format.Hipaa? && TrailingCr(Detail(e.fields, quote))
  }

  lemma RecordEnds(format: Format, e: Entry, quote: string -> string)
    ensures EndsInCr(Record(format, e, quote)) <==> LosesCr(format, e, quote)
  {
  }

  lemma RecordsEnd(format: Format, entries: seq<Entry>, rows: seq<seq<string>>, quote: string -> string)
    requires |rows| == |entries| + 1 && rows[0] == Header(format)
    requires forall i :: 0 <= i < |entries| ==> rows[i + 1] == Record(format, entries[i], quote)
    ensures NoneEndsInCr(rows) <==> forall i :: 0 <= i < |entries| ==> !LosesCr(format, entries[i], quote)
  {
    if NoneEndsInCr(rows) {
      forall i | 0 <= i < |entries|
        ensures !LosesCr(format, entries[i], quote)
      {
        RecordEnds(format, entries[i], quote);
        assert rows[i + 1] in rows;
      }
    } else {
      var row :| row in rows && EndsInCr(row);
      var j :| 0 <= j < |rows| && rows[j] == row;
      HeaderHasNoCr(format);
      RecordEnds(format, entries[j - 1], quote);
    }
  }

  /** A reader that takes CRLF for the end of a line gives an export back unchanged exactly when no
      exported entry's detail is printed bare and ends in a carriage return; a HIPAA export always. */
  lemma {:induction false} ExportReadsBackCrlfIff(format: Format, log: seq<Entry>, f: Filter, quote: string -> string)
    ensures var entries := Filtered(f, log, |log|);
      var records := Records(format, entries, |entries|, quote);
      ReadRecords(RowsText(records), 0, true) == Some(records) <==>
      forall i :: 0 <= i < |entries| ==> !LosesCr(format, entries[i], quote)
  {
    var entries := Filtered(f, log, |log|);
    var records := Records(format, entries, |entries|, quote);
    PrintedReadsBackCrlfIff(records);
    RecordsAt(format, entries, quote);
    RecordsEnd(format, entries, records, quote);
  }

  /** The text ends as JSON does: a string in its quote, anything else in a digit, letter or bracket. */
  predicate EndsLikeJson(text: string) {
    text != "" && text[|text| - 1] != '\r'
  }

  predicate JsonLike(v: Json, quote: string -> string) {
    match v
    case Str(s) => EndsLikeJson(quote(s))
    case Num(_) => true
    case Other(text) => EndsLikeJson(text)
  }

  /** Every field of the entry is rendered as JSON. */
  ghost predicate Rendered(e: Entry, quote: string -> string) {
    forall f :: f in e.fields ==> JsonLike(f.value, quote)
  }

  lemma ShownEnds(v: Json, quote: string -> string)
    requires JsonLike(v, quote)
    ensures EndsLikeJson(Show(v, quote))
  {
    if v.Num? {
      assert Decimal(v.n)[|Decimal(v.n)| - 1] == Digit(v.n % 10);
    }
  }

  lemma {:induction false} DetailEnds(fields: seq<Field>, quote: string -> string)
    requires forall f :: f in fields ==> JsonLike(f.value, quote)
    ensures fields != [] ==> EndsLikeJson(Detail(fields, quote))
  {
    if fields != [] {
      var shown, rest := Show(fields[0].value, quote), fields[1..];
      assert fields[0] in fields && forall f :: f in rest ==> f in fields;
      ShownEnds(fields[0].value, quote);
      var one := fields[0].name + "=" + shown;
      assert one[|one| - 1] == shown[|shown| - 1];
      if rest != [] {
        DetailEnds(rest, quote);
        var more := Detail(rest, quote);
        var all := one + "; " + more;
        assert Detail(fields, quote) == all && all[|all| - 1] == more[|more| - 1];
      }
    }
  }

  /** Since values are rendered as JSON, a reader that takes CRLF for the end of a line, too, gives back
      every export unchanged. */
  lemma {:induction false} ExportReadsBackCrlf(format: Format, log: seq<Entry>, f: Filter, quote: string -> string)
    requires forall e :: e in log ==> Rendered(e, quote)
    ensures var entries := Filtered(f, log, |log|);
      var records := Records(format, entries, |entries|, quote);
      ReadRecords(RowsText(records), 0, true) == Some(records)
  {
    var entries := Filtered(f, log, |log|);
    ExportReadsBackCrlfIff(format, log, f, quote);
    FilteredRendered(f, log, |log|, quote);
    forall i | 0 <= i < |entries|
      ensures !LosesCr(format, entries[i], quote)
    {
      assert Rendered(entries[i], quote);
      DetailEnds(entries[i].fields, quote);
    }
  }

  lemma {:induction false} FilteredRendered(f: Filter, log: seq<Entry>, n: nat, quote: string -> string)
    requires n <= |log| && forall e :: e in log ==> Rendered(e, quote)
    ensures forall i :: 0 <= i < |Filtered(f, log, n)| ==> Rendered(Filtered(f, log, n)[i], quote)
  {
    if n > 0 {
      FilteredRendered(f, log, n - 1, quote);
    }
  }

  lemma RecordsAt(format: Format, entries: seq<Entry>, quote: string -> string)
    ensures Records(format, entries, |entries|, quote)[0] == Header(format)
    ensures forall i :: 0 <= i < |entries| ==>
              Records(format, entries, |entries|, quote)[i + 1] == Record(format, entries[i], quote)
  {
  }
}
