/** What the exports hold, in terms of an entry's parts and the names of the columns. */
module ExportMeaning {
  import opened Prelude
  import opened Csv
  import opened CsvExport

  // ---- which entries ----

  ghost predicate Chosen(f: Filter, e: Entry) {
    && (f.workspace == None || f.workspace == Some(e.actor))
    && !(f.from.Some? && e.ts < f.from.value) && !(f.to.Some? && e.ts > f.to.value)
  }

  /** The positions of the entries in the log. */
  ghost predicate TakenFrom(f: Filter, log: seq<Entry>, n: nat, entries: seq<Entry>, at: seq<nat>) {
    && |at| == |entries|
    && (forall i, j :: 0 <= i < j < |at| ==> at[i] < at[j])
    && (forall i :: 0 <= i < |at| ==> at[i] < n <= |log| && log[at[i]] == entries[i])
    && (forall k :: 0 <= k < n <= |log| ==> (k in at <==> Chosen(f, log[k])))
  }

  /** An export is of exactly the entries of the workspace, if one is given, that are not before the first
      or after the last time given, in the order of the log. */
  lemma {:induction false} FilteredMeaning(f: Filter, log: seq<Entry>, n: nat) returns (at: seq<nat>)
    requires n <= |log|
    ensures TakenFrom(f, log, n, Filtered(f, log, n), at)
  {
    at := [];
    if n > 0 {
      at := FilteredMeaning(f, log, n - 1);
      if Chosen(f, log[n - 1]) {
        at := at + [n - 1];
      }
    }
  }

  // ---- what the columns hold ----

  /** The number that digits write. */
  function Value(digits: string): int {
    if digits == "" then 0
    else 10 * Value(digits[..|digits| - 1]) + (digits[|digits| - 1] as int - '0' as int)
  }

  /** Decimal digits without leading zeros. */
  ghost predicate Writes(digits: string, n: nat) {
    && digits != "" && (forall i :: 0 <= i < |digits| ==> '0' <= digits[i] <= '9')
    && Value(digits) == n && (|digits| > 1 ==> digits[0] != '0')
  }

  lemma {:induction false} DecimalMeaning(n: nat)
    ensures Writes(Decimal(n), n)
  {
    var s := Decimal(n);
    if n < 10 {
      assert s[..0] == "" && Value(s[..0]) == 0;
    } else {
      DecimalMeaning(n / 10);
      assert s[..|s| - 1] == Decimal(n / 10);
      assert Value(s) == 10 * Value(Decimal(n / 10)) + n % 10;
      assert |Decimal(n / 10)| == 1 ==> Decimal(n / 10)[..0] == "";
    }
  }

  /** A value as it is shown: a string quoted, a number in digits, anything else as its text. */
  ghost predicate ShownAs(v: Json, quote: string -> string, text: string) {
    match v
    case Str(s) => text == quote(s)
    case Num(n) => Writes(text, n)
    case Other(t) => text == t
  }

  /** The detail is the fields as name and value, with a semicolon and a blank between them. */
  lemma {:induction false} DetailMeaning(x: seq<Field>, f: Field, y: seq<Field>, quote: string -> string)
    ensures Detail([], quote) == ""
    ensures exists text :: ShownAs(f.value, quote, text) && Detail([f], quote) == f.name + "=" + text
    ensures x != [] && y != [] ==> Detail(x + y, quote) == Detail(x, quote) + "; " + Detail(y, quote)
  {
    if f.value.Num? {
      DecimalMeaning(f.value.n);
    }
    assert ShownAs(f.value, quote, Show(f.value, quote)) && Detail([f], quote) == f.name + "=" + Show(f.value, quote);
    if x != [] && y != [] {
      DetailOfConcat(x, y, quote);
    }
  }

  lemma {:induction false} DetailOfConcat(x: seq<Field>, y: seq<Field>, quote: string -> string)
    requires x != [] && y != []
    ensures Detail(x + y, quote) == Detail(x, quote) + "; " + Detail(y, quote)
  {
    var one := x[0].name + "=" + Show(x[0].value, quote);
    assert (x + y)[1..] == x[1..] + y;
    if |x| > 1 {
      DetailOfConcat(x[1..], y, quote);
      var rest, more := Detail(x[1..], quote), Detail(y, quote);
      assert one + "; " + (rest + "; " + more) == (one + "; " + rest) + "; " + more;
    }
  }

  /** The field has the name, and no earlier one does. */
  ghost predicate HasFirst(fields: seq<Field>, name: string, i: nat) {
    && i < |fields| && fields[i].name == name
    && forall j :: 0 <= j < i ==> fields[j].name != name
  }

  lemma {:induction false} LookupMeaning(fields: seq<Field>, name: string)
    ensures match Lookup(fields, name)
      case None => forall i :: 0 <= i < |fields| ==> fields[i].name != name
      case Some(v) => exists i: nat :: HasFirst(fields, name, i) && fields[i].value == v
  {
    if fields != [] && fields[0].name != name {
      var rest := fields[1..];
      LookupMeaning(rest, name);
      assert forall i :: 0 <= i < |rest| ==> fields[i + 1] == rest[i];
      if Lookup(fields, name).Some? {
        var i: nat :| HasFirst(rest, name, i) && rest[i].value == Lookup(fields, name).value;
        assert HasFirst(fields, name, i + 1);
      }
    } else if fields != [] {
      assert HasFirst(fields, name, 0);
    }
  }

  ghost predicate TextUnder(fields: seq<Field>, name: string, text: string) {
    exists i: nat :: HasFirst(fields, name, i) && fields[i].value == Str(text)
  }

  ghost predicate NumberUnder(fields: seq<Field>, name: string, n: nat) {
    exists i: nat :: HasFirst(fields, name, i) && fields[i].value == Num(n)
  }

  lemma FirstIsUnique(fields: seq<Field>, name: string, i: nat, j: nat)
    requires HasFirst(fields, name, i) && HasFirst(fields, name, j)
    ensures i == j
  {
  }

  /** The hash under the name, or nothing. */
  ghost predicate ShowsHash(fields: seq<Field>, name: string, value: string) {
    if exists text :: TextUnder(fields, name, text)
    then exists text :: TextUnder(fields, name, text) && value == name + "=" + text
    else value == ""
  }

  lemma HashMeaning(e: Entry, name: string)
    ensures ShowsHash(e.fields, name, Prefixed(e, name))
  {
    LookupMeaning(e.fields, name);
    var found := Lookup(e.fields, name);
    if found.Some? {
      var i: nat :| HasFirst(e.fields, name, i) && e.fields[i].value == found.value;
      forall text | TextUnder(e.fields, name, text)
        ensures found.value == Str(text)
      {
        var j: nat :| HasFirst(e.fields, name, j) && e.fields[j].value == Str(text);
        FirstIsUnique(e.fields, name, i, j);
      }
      if found.value.Str? {
        assert TextUnder(e.fields, name, found.value.s);
      }
    }
  }

  /** The number under the name, or zero. */
  ghost predicate ShowsCount(fields: seq<Field>, name: string, n: nat) {
    if exists m :: NumberUnder(fields, name, m) then NumberUnder(fields, name, n) else n == 0
  }

  lemma CountMeaning(e: Entry, name: string)
    ensures ShowsCount(e.fields, name, NumberOr0(e, name))
  {
    LookupMeaning(e.fields, name);
    var found := Lookup(e.fields, name);
    if found.Some? {
      var i: nat :| HasFirst(e.fields, name, i) && e.fields[i].value == found.value;
      forall m | NumberUnder(e.fields, name, m)
        ensures found.value == Num(m)
      {
        var j: nat :| HasFirst(e.fields, name, j) && e.fields[j].value == Num(m);
        FirstIsUnique(e.fields, name, i, j);
      }
      if found.value.Num? {
        assert NumberUnder(e.fields, name, found.value.n);
      }
    }
  }

  ghost predicate ShowsTokens(fields: seq<Field>, value: string) {
    exists n, m, x, y :: ShowsCount(fields, "tokens_in", n) && ShowsCount(fields, "tokens_out", m)
      && Writes(x, n) && Writes(y, m) && value == "tokens_in=" + x + " tokens_out=" + y
  }

  ghost predicate ShowsAccess(e: Entry, value: string) {
    && (e.kind == "inference_start" ==> ShowsHash(e.fields, "prompt_sha256", value))
    && (e.kind == "inference_complete" ==> ShowsTokens(e.fields, value))
    && (e.kind == "rag_retrieval" ==> ShowsHash(e.fields, "query_sha256", value))
    && (e.kind !in {"inference_start", "inference_complete", "rag_retrieval"} ==> value == "")
  }

  /** The access detail is the hash of the prompt or query, or the two token counts. */
  lemma AccessMeaning(e: Entry)
    ensures ShowsAccess(e, AccessDetail(e))
  {
    HashMeaning(e, "prompt_sha256");
    HashMeaning(e, "query_sha256");
    CountMeaning(e, "tokens_in");
    CountMeaning(e, "tokens_out");
    var n, m := NumberOr0(e, "tokens_in"), NumberOr0(e, "tokens_out");
    DecimalMeaning(n);
    DecimalMeaning(m);
    if e.kind == "inference_complete" {
      assert AccessDetail(e) == "tokens_in=" + Decimal(n) + " tokens_out=" + Decimal(m);
    }
  }

  // ---- the columns that classify the kind of event ----

  ghost predicate IsPhi(kind: string, value: string) {
    value == if kind in {"rag_document_ingested", "rag_retrieval", "inference_complete", "inference_start"}
             then "yes" else "no"
  }

  ghost predicate IsCategory(kind: string, value: string) {
    && (value == "availability" <==> kind in {"daemon_start", "daemon_stop"})
    && (value == "change_management" <==>
          kind in {"config_reloaded", "isolation_applied", "model_imported", "model_removed"})
    && (value == "logical_access" <==>
          kind in {"inference_complete", "inference_failed", "inference_start", "rag_document_ingested",
                   "rag_retrieval"})
    && (value == "monitoring" <==> kind == "audit_verified")
    && value in {"availability", "change_management", "logical_access", "monitoring", "other"}
  }

  ghost predicate IsControl(kind: string, value: string) {
    && (value == "A.12.1" <==> kind in {"config_reloaded", "daemon_start", "daemon_stop"})
    && (value == "A.13.1" <==> kind == "isolation_applied")
    && (value == "A.12.5" <==> kind in {"model_imported", "model_removed"})
    && (value == "A.9.4" <==>
          kind in {"inference_complete", "inference_failed", "inference_start", "rag_document_ingested",
                   "rag_retrieval"})
    && value in {"A.12.1", "A.13.1", "A.12.5", "A.9.4", "A.12.4"}
  }

  ghost predicate IsOutcome(kind: string, value: string) {
    && (value == "operational" <==> kind in {"daemon_start", "daemon_stop"})
    && (value == "network_control" <==> kind == "isolation_applied")
    && (value == "change" <==> kind in {"config_reloaded", "model_imported", "model_removed"})
    && (value == "access" <==>
          kind in {"inference_complete", "inference_start", "rag_document_ingested", "rag_retrieval"})
    && (value == "failure" <==> kind == "inference_failed")
    && (value == "monitoring" <==> kind == "audit_verified")
    && value in {"operational", "network_control", "change", "access", "failure", "monitoring", "other"}
  }

  lemma CategoryMeaning(kind: string)
    ensures IsCategory(kind, Category(kind)) && IsPhi(kind, Phi(kind))
  {
  }

  lemma ControlMeaning(kind: string)
    ensures IsControl(kind, ControlOf(kind))
  {
  }

  lemma OutcomeMeaning(kind: string)
    ensures IsOutcome(kind, OutcomeOf(kind))
  {
  }

  /** The column of this name holds this value for the entry. */
  ghost predicate Holds(column: string, e: Entry, quote: string -> string, value: string) {
    match column
    case "timestamp" => value == e.stamp
    case "seq" => Writes(value, e.seqNo)
    case "actor" => value == e.actor
    case "activity" | "event_type" => value == e.kind
    case "detail" => value == Detail(e.fields, quote)
    case "access_detail" => ShowsAccess(e, value)
    case "phi_indicator" => IsPhi(e.kind, value)
    case "category" => IsCategory(e.kind, value)
    case "control" => IsControl(e.kind, value)
    case "outcome" => IsOutcome(e.kind, value)
    case _ => false
  }

  /** A record holds under each name of its header what the name says. */
  lemma RecordMeaning(format: Format, e: Entry, quote: string -> string)
    ensures |Record(format, e, quote)| == |Header(format)|
    ensures forall i :: 0 <= i < |Header(format)| ==> Holds(Header(format)[i], e, quote, Record(format, e, quote)[i])
  {
    hide IsPhi, IsCategory, IsControl, IsOutcome, ShowsAccess, Writes;
    hide Phi, Category, ControlOf, OutcomeOf, AccessDetail, Decimal, Detail;
    DecimalMeaning(e.seqNo);
    AccessMeaning(e);
    CategoryMeaning(e.kind);
    ControlMeaning(e.kind);
    OutcomeMeaning(e.kind);
  }

  /** A value is quoted exactly when it holds a comma, a quote or a line feed. */
  lemma EscapeIff(s: string)
    ensures Escape(s) == s <==> ',' !in s && '"' !in s && '\n' !in s
  {
    PlainMeans(s, 0);
    if !Plain(s) {
      assert |Doubled(s, 0)| >= |s| by {
        DoubledIsLonger(s, 0);
      }
    }
  }

  lemma {:induction false} DoubledIsLonger(s: string, k: nat)
    requires k <= |s|
    ensures |Doubled(s, k)| >= |s| - k
    decreases |s| - k
  {
    if k < |s| {
      DoubledIsLonger(s, k + 1);
    }
  }
}
