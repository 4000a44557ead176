/** Entries of the audit log, the lines of a log file, and the chain check over them.

    A file is a sequence of lines. The JSON codec is not modelled: a line is blank, or cannot be
    parsed, or is the record of one entry. One kind of event has a key that clashes with a key of
    the entry around it; the text of such an entry cannot be parsed back. The keyed MAC is any
    function of an entry's body. */
module AuditChain {
  import opened Prelude

  type Mac = string
  type Time = int

  const GENESIS_HMAC: Mac := "0000000000000000000000000000000000000000000000000000000000000000"

  datatype Event = Event(kind: string, payload: string) {
    /** An entry with this event can be read back: a shredding names its actor a second time. */
    predicate Parses() {
      kind != "workspace_shredded"
    }
  }

  /** What the MAC covers: everything in an entry but the MAC itself. */
  datatype Body = Body(ts: Time, seqNo: nat, actor: string, prevHmac: Mac, event: Event)

  datatype Entry = Entry(ts: Time, seqNo: nat, actor: string, event: Event, prevHmac: Mac, hmac: Mac)
  {
    function Covered(): Body {
      Body(ts, seqNo, actor, prevHmac, event)
    }
  }

  datatype Line = Blank | Garbled | Clashing(written: Entry) | Record(entry: Entry) {
    predicate Unreadable() {
      Garbled? || Clashing?
    }
  }

  /** The line written for an entry. */
  function LineOf(e: Entry): Line {
    if e.event.Parses() then Record(e) else Clashing(e)
  }

  ghost predicate Readable(lines: seq<Line>) {
    forall line :: line in lines ==> !line.Unreadable()
  }

  /** The entries recorded in a file, in order. */
  function Entries(lines: seq<Line>): seq<Entry> {
    if lines == [] then []
    else
      var last := lines[|lines| - 1];
      var es := Entries(lines[..|lines| - 1]);
      if last.Record? then es + [last.entry] else es
  }

  lemma EntriesSnoc(lines: seq<Line>, last: Line)
    ensures Entries(lines + [last]) ==
            if last.Record? then Entries(lines) + [last.entry] else Entries(lines)
  {
    assert (lines + [last])[..|lines|] == lines;
  }

  lemma {:induction false} EntriesConcat(x: seq<Line>, y: seq<Line>)
    ensures Entries(x + y) == Entries(x) + Entries(y)
  {
    if y == [] {
      assert x + y == x;
    } else {
      var init, last := y[..|y| - 1], y[|y| - 1];
      EntriesConcat(x, init);
      EntriesSnoc(x + init, last);
      assert x + y == (x + init) + [last];
    }
  }

  // ---- what a correct chain is ----

  /** Entry `i` continues a chain whose next number was `seq0` and whose last MAC was `prev0`. */
  ghost predicate LinkedAt(mac: Body -> Mac, es: seq<Entry>, seq0: nat, prev0: Mac, i: nat)
    requires i < |es|
  {
    && es[i].seqNo == seq0 + i
    && es[i].prevHmac == (if i == 0 then prev0 else es[i - 1].hmac)
    && es[i].hmac == mac(es[i].Covered())
  }

  /** Contiguous numbers, every entry naming the MAC of the one before, every MAC correct. */
  ghost predicate Linked(mac: Body -> Mac, es: seq<Entry>, seq0: nat, prev0: Mac) {
    forall i :: 0 <= i < |es| ==> LinkedAt(mac, es, seq0, prev0, i)
  }

  ghost predicate Accepted(mac: Body -> Mac, lines: seq<Line>, seq0: nat, prev0: Mac) {
    Readable(lines) && Linked(mac, Entries(lines), seq0, prev0)
  }

  function EndHmac(es: seq<Entry>, prev0: Mac): Mac {
    if es == [] then prev0 else es[|es| - 1].hmac
  }

  lemma LinkedConcat(mac: Body -> Mac, x: seq<Entry>, y: seq<Entry>, seq0: nat, prev0: Mac)
    ensures Linked(mac, x + y, seq0, prev0) <==>
            Linked(mac, x, seq0, prev0) && Linked(mac, y, seq0 + |x|, EndHmac(x, prev0))
    ensures EndHmac(x + y, prev0) == EndHmac(y, EndHmac(x, prev0))
  {
    var es := x + y;
    assert forall i :: 0 <= i < |x| ==> es[i] == x[i];
    assert forall i :: 0 <= i < |y| ==> es[|x| + i] == y[i];
    if Linked(mac, es, seq0, prev0) {
      forall i | 0 <= i < |x|
        ensures LinkedAt(mac, x, seq0, prev0, i)
      {
        assert LinkedAt(mac, es, seq0, prev0, i);
      }
      var seq1, prev1 := seq0 + |x|, EndHmac(x, prev0);
      forall i | 0 <= i < |y|
        ensures LinkedAt(mac, y, seq1, prev1, i)
      {
        assert LinkedAt(mac, es, seq0, prev0, |x| + i);
      }
    }
    if Linked(mac, x, seq0, prev0) && Linked(mac, y, seq0 + |x|, EndHmac(x, prev0)) {
      forall i | 0 <= i < |es|
        ensures LinkedAt(mac, es, seq0, prev0, i)
      {
        if i < |x| {
          assert LinkedAt(mac, x, seq0, prev0, i);
        } else {
          assert LinkedAt(mac, y, seq0 + |x|, EndHmac(x, prev0), i - |x|);
        }
      }
    }
  }

  lemma AcceptedConcat(mac: Body -> Mac, x: seq<Line>, y: seq<Line>, seq0: nat, prev0: Mac)
    ensures Accepted(mac, x + y, seq0, prev0) <==>
            && Accepted(mac, x, seq0, prev0)
            && Accepted(mac, y, seq0 + |Entries(x)|, EndHmac(Entries(x), prev0))
  {
    EntriesConcat(x, y);
    LinkedConcat(mac, Entries(x), Entries(y), seq0, prev0);
  }

  /** A tail of a correct chain is a correct chain from its own first entry. */
  lemma LinkedSuffix(mac: Body -> Mac, es: seq<Entry>, seq0: nat, prev0: Mac, k: nat)
    requires Linked(mac, es, seq0, prev0) && k < |es|
    ensures es[k].seqNo == seq0 + k && es[k].prevHmac == (if k == 0 then prev0 else es[k - 1].hmac)
    ensures Linked(mac, es[k..], es[k].seqNo, es[k].prevHmac)
  {
    LinkedConcat(mac, es[..k], es[k..], seq0, prev0);
    assert es == es[..k] + es[k..];
    assert LinkedAt(mac, es, seq0, prev0, k);
  }

  // ---- what the chain protects ----

  /** Two chains accepted from one starting cursor that end at the same cursor are the same chain,
      or else they exhibit two different bodies with the same MAC. */
  lemma {:induction false} SameEndSameChainOrCollision(
      mac: Body -> Mac, x: seq<Entry>, y: seq<Entry>, seq0: nat, prev0: Mac)
    requires Linked(mac, x, seq0, prev0) && Linked(mac, y, seq0, prev0)
    requires seq0 + |x| == seq0 + |y|
    requires EndHmac(x, prev0) == EndHmac(y, prev0)
    ensures x == y ||
            exists i :: 0 <= i < |x| && x[i].Covered() != y[i].Covered()
                        && mac(x[i].Covered()) == mac(y[i].Covered())
  {
    if x != [] {
      var n := |x| - 1;
      assert LinkedAt(mac, x, seq0, prev0, n) && LinkedAt(mac, y, seq0, prev0, n);
      if x[n].Covered() == y[n].Covered() {
        var xs, ys := x[..n], y[..n];
        LinkedConcat(mac, xs, [x[n]], seq0, prev0);
        LinkedConcat(mac, ys, [y[n]], seq0, prev0);
        assert x == xs + [x[n]] && y == ys + [y[n]];
        SameEndSameChainOrCollision(mac, xs, ys, seq0, prev0);
        if xs != ys {
          var i :| 0 <= i < n && xs[i].Covered() != ys[i].Covered()
                   && mac(xs[i].Covered()) == mac(ys[i].Covered());
          assert x[i] == xs[i] && y[i] == ys[i];
        }
      }
    }
  }

  ghost predicate Injective(mac: Body -> Mac) {
    forall x, y :: mac(x) == mac(y) ==> x == y
  }

  /** With an injective MAC the two accepted files record the same entries, one by one. */
  lemma SameEndSameChain(mac: Body -> Mac, x: seq<Line>, y: seq<Line>, seq0: nat, prev0: Mac)
    requires Injective(mac)
    requires Accepted(mac, x, seq0, prev0) && Accepted(mac, y, seq0, prev0)
    requires seq0 + |Entries(x)| == seq0 + |Entries(y)|
    requires EndHmac(Entries(x), prev0) == EndHmac(Entries(y), prev0)
    ensures Entries(x) == Entries(y)
  {
    SameEndSameChainOrCollision(mac, Entries(x), Entries(y), seq0, prev0);
  }

  // ---- the walk ----

  datatype Detail = ParseError | SequenceGap | PrevMismatch | HmacMismatch | SegmentMismatch

  datatype Violation = Violation(seqNo: nat, detail: Detail)

  class Cursor {
    var expectedSeq: nat
    var prevHmac: Mac
    var checked: nat

    constructor (expectedSeq: nat, prevHmac: Mac)
      ensures this.expectedSeq == expectedSeq && this.prevHmac == prevHmac && checked == 0
    {
      this.expectedSeq := expectedSeq;
      this.prevHmac := prevHmac;
      checked := 0;
    }

    /** The cursor stands behind the entries `es`, having started at (`seq0`, `prev0`, `n0`). */
    ghost predicate Behind(es: seq<Entry>, seq0: nat, prev0: Mac, n0: nat)
      reads this
    {
      expectedSeq == seq0 + |es| && prevHmac == EndHmac(es, prev0) && checked == n0 + |es|
    }
  }

  /** The report `v` is right about a line met with this expected number and previous MAC. */
  ghost predicate Blames(mac: Body -> Mac, line: Line, expectedSeq: nat, prev: Mac, v: Violation) {
    match line
    case Blank => false
    case Garbled | Clashing(_) => v == Violation(expectedSeq, ParseError)
    case Record(e) =>
      && v.seqNo == e.seqNo
      && match v.detail
         case SequenceGap => e.seqNo != expectedSeq
         case PrevMismatch => e.seqNo == expectedSeq && e.prevHmac != prev
         case HmacMismatch => e.seqNo == expectedSeq && e.prevHmac == prev && e.hmac != mac(e.Covered())
         case _ => false
  }

  /** The next line does not break the chain. */
  predicate LineOk(mac: Body -> Mac, line: Line, expectedSeq: nat, prev: Mac) {
    match line
    case Blank => true
    case Garbled | Clashing(_) => false
    case Record(e) => e.seqNo == expectedSeq && e.prevHmac == prev && e.hmac == mac(e.Covered())
  }

  lemma WalkStep(mac: Body -> Mac, lines: seq<Line>, i: nat, seq0: nat, prev0: Mac)
    requires i < |lines| && Accepted(mac, lines[..i], seq0, prev0)
    ensures var done := Entries(lines[..i]);
      && Entries(lines[..i + 1]) == done + (if lines[i].Record? then [lines[i].entry] else [])
      && (LineOk(mac, lines[i], seq0 + |done|, EndHmac(done, prev0)) <==>
            Accepted(mac, lines[..i + 1], seq0, prev0))
      && (Accepted(mac, lines, seq0, prev0) ==> Accepted(mac, lines[..i + 1], seq0, prev0))
  {
    var done, line := Entries(lines[..i]), lines[i];
    var seq1, prev1 := seq0 + |done|, EndHmac(done, prev0);
    assert lines[..i + 1] == lines[..i] + [line];
    AcceptedConcat(mac, lines[..i], [line], seq0, prev0);
    EntriesSnoc(lines[..i], line);
    OneLine(mac, line, seq1, prev1);
    assert Accepted(mac, lines, seq0, prev0) ==> Accepted(mac, lines[..i + 1], seq0, prev0) by {
      assert lines == lines[..i + 1] + lines[i + 1..];
      AcceptedConcat(mac, lines[..i + 1], lines[i + 1..], seq0, prev0);
    }
  }

  lemma OneLine(mac: Body -> Mac, line: Line, seq1: nat, prev1: Mac)
    ensures Accepted(mac, [line], seq1, prev1) <==> LineOk(mac, line, seq1, prev1)
  {
    EntriesSnoc([], line);
    assert [] + [line] == [line];
    assert line in [line];
    if line.Record? {
      assert Linked(mac, [line.entry], seq1, prev1) <==> LinkedAt(mac, [line.entry], seq1, prev1, 0);
    }
  }

  /** Check a file's lines from the cursor on: no violation is reported exactly when the file is
      accepted; otherwise the report is about line `k`, the first that breaks the chain. */
  method Walk(lines: seq<Line>, mac: Body -> Mac, cur: Cursor)
    returns (r: Option<Violation>, ghost k: nat)
    modifies cur
    ensures k <= |lines| && (r.None? <==> k == |lines|)
    ensures Accepted(mac, lines[..k], old(cur.expectedSeq), old(cur.prevHmac))
    ensures r.None? <==> Accepted(mac, lines, old(cur.expectedSeq), old(cur.prevHmac))
    ensures cur.Behind(Entries(lines[..k]), old(cur.expectedSeq), old(cur.prevHmac), old(cur.checked))
    ensures r.Some? ==> Blames(mac, lines[k], cur.expectedSeq, cur.prevHmac, r.value)
  {
    ghost var seq0, prev0, n0 := cur.expectedSeq, cur.prevHmac, cur.checked;
    k := 0;
    for i := 0 to |lines|
      invariant k == i
      invariant Accepted(mac, lines[..i], seq0, prev0)
      invariant cur.Behind(Entries(lines[..i]), seq0, prev0, n0)
    {
      WalkStep(mac, lines, i, seq0, prev0);
      var line := lines[i];
      match line {
        case Blank =>
        case Garbled | Clashing(_) =>
          return Some(Violation(cur.expectedSeq, ParseError)), k;
        case Record(entry) =>
          if entry.seqNo != cur.expectedSeq {
            return Some(Violation(entry.seqNo, SequenceGap)), k;
          }
          if entry.prevHmac != cur.prevHmac {
            return Some(Violation(entry.seqNo, PrevMismatch)), k;
          }
          if entry.hmac != mac(entry.Covered()) {
            return Some(Violation(entry.seqNo, HmacMismatch)), k;
          }
          cur.prevHmac := entry.hmac;
          cur.expectedSeq := entry.seqNo + 1;
          cur.checked := cur.checked + 1;
      }
      k := k + 1;
    }
    assert lines[..|lines|] == lines;
    r := None;
  }
}
