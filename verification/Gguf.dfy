/** Finding the context length in the metadata of a GGUF file, whose values are skipped unread.

    The format is that of the "File Structure" section of the GGUF specification; versions 1 to 3
    differ in the width of counts. A file position may be moved past the end; reading there fails.
    Keys are compared as bytes: the lossy decoding of other bytes never yields an ASCII key. */
module Gguf {
  import opened Prelude
  import opened GgufFormat

  function FromLe(s: seq<Byte>): nat {
    if s == [] then 0 else s[0] + 256 * FromLe(s[1..])
  }

  // ---- what reading does, as a function of the bytes and the position ----

  /** An integer of `n` bytes, and the position behind it. */
  function IntAt(data: seq<Byte>, pos: nat, n: nat): Option<nat> {
    if pos + n <= |data| then Some(FromLe(data[pos..pos + n])) else None
  }

  /** Version 1 has counts of four bytes, later versions of eight. */
  function CountWidth(version: nat): nat {
    if version == 1 then 4 else 8
  }

  const MAX_STRING: nat := 4096

  /** The length of the string at a position, when all of it can be read. */
  function StringAt(data: seq<Byte>, pos: nat, version: nat): Option<nat> {
    var w := CountWidth(version);
    match IntAt(data, pos, w)
    case None => None
    case Some(len) => if len <= MAX_STRING && pos + w + len <= |data| then Some(len) else None
  }

  /** Bytes of a value of scalar type. */
  function ScalarWidth(ty: nat): Option<nat> {
    if ty == 0 || ty == 1 || ty == 7 then Some(1)
    else if ty == 2 || ty == 3 then Some(2)
    else if ty == 4 || ty == 5 || ty == 6 then Some(4)
    else if ty == 10 || ty == 11 || ty == 12 then Some(8)
    else None
  }

  const STRING: nat := 8
  const ARRAY: nat := 9
  const U32: nat := 4

  function Left(data: seq<Byte>, pos: nat): nat {
    if pos <= |data| then |data| - pos else 0
  }

  /** The position behind a value of type `ty`. */
  function Skipped(data: seq<Byte>, pos: nat, ty: nat, version: nat): (r: Option<nat>)
    ensures r.Some? ==> r.value >= pos
    decreases Left(data, pos), 1, 0
  {
    if ScalarWidth(ty).Some? then Some(pos + ScalarWidth(ty).value)
    else if ty == STRING then
      match StringAt(data, pos, version)
      case None => None
      case Some(len) => Some(pos + CountWidth(version) + len)
    else if ty == ARRAY then
      match IntAt(data, pos, 4)
      case None => None
      case Some(elemType) =>
        match IntAt(data, pos + 4, CountWidth(version))
        case None => None
        case Some(count) => SkippedAll(data, pos + 4 + CountWidth(version), elemType, count, version)
    else None
  }

  /** The position behind `count` values of one type. */
  function SkippedAll(data: seq<Byte>, pos: nat, ty: nat, count: nat, version: nat): (r: Option<nat>)
    ensures r.Some? ==> r.value >= pos
    decreases Left(data, pos), 2, count
  {
    if count == 0 then Some(pos)
    else
      match Skipped(data, pos, ty, version)
      case None => None
      case Some(next) => SkippedAll(data, next, ty, count - 1, version)
  }

  /** `"llama.context_length"` in ASCII. */
  const CONTEXT_KEY: seq<Byte> :=
    [108, 108, 97, 109, 97, 46, 99, 111, 110, 116, 101, 120, 116, 95, 108, 101, 110, 103, 116, 104]

  const MAGIC: seq<Byte> := [71, 71, 85, 70]

  /** The search through `n` key-value pairs for a u32 under a key; an error is a short or
      malformed file. */
  function Searched(data: seq<Byte>, pos: nat, n: nat, version: nat, wanted: seq<Byte>): Result<Option<nat>, string>
    decreases n
  {
    if n == 0 then Ok(None)
    else
      match StringAt(data, pos, version)
      case None => Err("bad key")
      case Some(len) =>
        var keyAt := pos + CountWidth(version);
        match IntAt(data, keyAt + len, 4)
        case None => Err("unexpected end")
        case Some(ty) =>
          if data[keyAt..keyAt + len] == wanted && ty == U32 then
            match IntAt(data, keyAt + len + 4, 4)
            case None => Err("unexpected end")
            case Some(v) => Ok(Some(v))
          else
            match Skipped(data, keyAt + len + 4, ty, version)
            case None => Err("bad value")
            case Some(next) => Searched(data, next, n - 1, version, wanted)
  }

  function ContextLength(data: seq<Byte>): Result<Option<nat>, string> {
    if |data| < 4 then Err("unexpected end")
    else if data[..4] != MAGIC then Ok(None)
    else
      match IntAt(data, 4, 4)
      case None => Err("unexpected end")
      case Some(version) =>
        if version == 0 || version > 3 then Ok(None)
        else
          var w := CountWidth(version);
          match IntAt(data, 8 + w, w)
          case None => Err("unexpected end")
          case Some(n) => Searched(data, 8 + w + w, n, version, CONTEXT_KEY)
  }

  // ---- the reader ----

  class Reader {
    const data: seq<Byte>
    var pos: nat

    constructor (data: seq<Byte>)
      ensures this.data == data && pos == 0
    {
      this.data, pos := data, 0;
    }

    method ReadInt(n: nat) returns (r: Option<nat>)
      modifies this
      ensures r == IntAt(data, old(pos), n)
      ensures r.Some? ==> pos == old(pos) + n <= |data|
    {
      if pos + n > |data| {
        return None;
      }
      r := Some(FromLe(data[pos..pos + n]));
      pos := pos + n;
    }

    method Seek(offset: nat)
      modifies this
      ensures pos == old(pos) + offset
    {
      pos := pos + offset;
    }

    method ReadString(version: nat) returns (r: Option<seq<Byte>>)
      modifies this
      ensures r.Some? <==> StringAt(data, old(pos), version).Some?
      ensures r.Some? ==>
        var start, len := old(pos) + CountWidth(version), StringAt(data, old(pos), version).value;
        r.value == data[start..start + len] && pos == start + len
    {
      var len := ReadInt(CountWidth(version));
      if len.None? || len.value > MAX_STRING || pos + len.value > |data| {
        return None;
      }
      r := Some(data[pos..pos + len.value]);
      pos := pos + len.value;
    }

    method SkipValue(ty: nat, version: nat) returns (ok: bool)
      modifies this
      ensures ok <==> Skipped(data, old(pos), ty, version).Some?
      ensures ok ==> pos == Skipped(data, old(pos), ty, version).value
      decreases Left(data, pos), 1
    {
      if ty == 0 || ty == 7 || ty == 1 {
        Seek(1);
      } else if ty == 2 || ty == 3 {
        Seek(2);
      } else if ty == 4 || ty == 5 || ty == 6 {
        Seek(4);
      } else if ty == 8 {
        var s := ReadString(version);
        return s.Some?;
      } else if ty == 9 {
        ok := SkipArray(version);
        return;
      } else if ty == 10 || ty == 11 || ty == 12 {
        Seek(8);
      } else {
        return false;
      }
      ok := true;
    }

    method SkipArray(version: nat) returns (ok: bool)
      modifies this
      ensures ok <==> Skipped(data, old(pos), ARRAY, version).Some?
      ensures ok ==> pos == Skipped(data, old(pos), ARRAY, version).value
      decreases Left(data, pos), 0
    {
      var elemType := ReadInt(4);
      if elemType.None? {
        return false;
      }
      var count := ReadInt(CountWidth(version));
      if count.None? {
        return false;
      }
      ghost var start := pos;
      for i := 0 to count.value
        invariant start <= pos
        invariant SkippedAll(data, start, elemType.value, count.value, version) ==
                  SkippedAll(data, pos, elemType.value, count.value - i, version)
      {
        ok := SkipValue(elemType.value, version);
        if !ok {
          return;
        }
      }
      ok := true;
    }
  }

  /** The loop over the key-value pairs. */
  method ReadPairs(f: Reader, n: nat, version: nat, wanted: seq<Byte>) returns (r: Result<Option<nat>, string>)
    modifies f
    ensures r == Searched(f.data, old(f.pos), n, version, wanted)
  {
    for i := 0 to n
      invariant Searched(f.data, f.pos, n - i, version, wanted) ==
                Searched(f.data, old(f.pos), n, version, wanted)
    {
      var key := f.ReadString(version);
      if key.None? {
        return Err("bad key");
      }
      var ty := f.ReadInt(4);
      if ty.None? {
        return Err("unexpected end");
      }
      if key.value == wanted && ty.value == U32 {
        var v := f.ReadInt(4);
        return if v.None? then Err("unexpected end") else Ok(Some(v.value));
      }
      var ok := f.SkipValue(ty.value, version);
      if !ok {
        return Err("bad value");
      }
    }
    r := Ok(None);
  }

  method ReadContextLength(data: seq<Byte>) returns (r: Result<Option<nat>, string>)
    ensures r == ContextLength(data)
  {
    var f := new Reader(data);
    if |data| < 4 {
      return Err("unexpected end");
    }
    f.Seek(4);
    if data[..4] != MAGIC {
      return Ok(None);
    }
    var version := f.ReadInt(4);
    if version.None? {
      return Err("unexpected end");
    }
    if version.value == 0 || version.value > 3 {
      return Ok(None);
    }
    var tensors := f.ReadInt(CountWidth(version.value));
    if tensors.None? {
      return Err("unexpected end");
    }
    var n := f.ReadInt(CountWidth(version.value));
    if n.None? {
      return Err("unexpected end");
    }
    r := ReadPairs(f, n.value, version.value, CONTEXT_KEY);
  }

  // ---- reading what was encoded ----

  /** Four bytes are the integer that they write out, and the other way round. */
  lemma FromFour(b: seq<Byte>)
    requires |b| == 4
    ensures FromLe(b) == WordValue(b)
  {
    var b1, b2, b3 := b[1..], b[2..], b[3..];
    assert b1[1..] == b2 && b2[1..] == b3 && b3[1..] == [];
    assert FromLe(b3) == b[3] as int + 256 * FromLe([]);
    assert FromLe(b2) == b[2] as int + 256 * FromLe(b3);
    assert FromLe(b1) == b[1] as int + 256 * FromLe(b2);
  }

  lemma WordReads(v: nat)
    requires v < 0x1_0000_0000
    ensures FromLe(Word(v)) == v
  {
    FromFour(Word(v));
    var q := v / 256;
    var r := q / 256;
    assert v == 256 * q + v % 256 && q == 256 * r + q % 256 && r == 256 * (r / 256) + r % 256;
    assert r == v / 65_536 && r / 256 == v / 16_777_216;
  }

  lemma LongWordReads(v: nat)
    requires v < 0x1_0000_0000_0000_0000
    ensures FromLe(LongWord(v)) == v
  {
    var low, high := Word(v % 0x1_0000_0000), Word(v / 0x1_0000_0000);
    WordReads(v % 0x1_0000_0000);
    WordReads(v / 0x1_0000_0000);
    FromFour(low);
    var b := low + high;
    assert b[1..][1..][1..][1..] == high;
    assert FromLe(b[1..][1..]) == b[2] + 256 * (b[3] + 256 * FromLe(high));
  }

  /** An integer of four bytes in the file is read. */
  lemma WordAt(data: seq<Byte>, pos: nat, v: nat)
    requires v < 0x1_0000_0000 && At(data, pos, Word(v))
    ensures IntAt(data, pos, 4) == Some(v)
  {
    WordReads(v);
    AtMeans(data, pos, Word(v));
  }

  /** A count in the file is read, in any version. */
  lemma CountAt(data: seq<Byte>, pos: nat, v: nat, version: nat)
    requires CountFits(v, version) && At(data, pos, Count(v, version))
    ensures |Count(v, version)| == CountWidth(version)
    ensures IntAt(data, pos, CountWidth(version)) == Some(v)
  {
    AtMeans(data, pos, Count(v, version));
    if version == 1 {
      WordReads(v);
    } else {
      LongWordReads(v);
    }
  }

  /** A string is read exactly if it is not too long. */
  lemma StringAtEncoded(data: seq<Byte>, pos: nat, s: seq<Byte>, version: nat)
    requires CountFits(|s|, version) && At(data, pos, EncodeString(s, version))
    ensures StringAt(data, pos, version) == if |s| > 4096 then None else Some(|s|)
    ensures At(data, pos + CountWidth(version), s)
  {
    AtConcat(data, pos, Count(|s|, version), s);
    CountAt(data, pos, |s|, version);
  }

  /** The elements of an encoded array, and that skipping the array comes to them. */
  lemma ArrayAt(data: seq<Byte>, pos: nat, elemType: nat, elems: seq<Value>, version: nat)
    requires Array(elemType, elems).WellFormed(version)
    requires At(data, pos, Encode(Array(elemType, elems), version))
    ensures var elemsAt := pos + 4 + CountWidth(version);
      && At(data, elemsAt, EncodeAll(elems, version))
      && |Encode(Array(elemType, elems), version)| == 4 + CountWidth(version) + |EncodeAll(elems, version)|
      && Skipped(data, pos, 9, version) == SkippedAll(data, elemsAt, elemType, |elems|, version)
  {
    var count, all := Count(|elems|, version), EncodeAll(elems, version);
    AtConcat(data, pos, Word(elemType), count + all);
    AtConcat(data, pos + 4, count, all);
    WordAt(data, pos, elemType);
    CountAt(data, pos + 4, |elems|, version);
  }

  /** Skipping stops exactly at the end of an encoded value, however deeply arrays are nested, and fails
      exactly when a string in it is too long. */
  lemma {:induction false} SkipsEncoded(data: seq<Byte>, pos: nat, v: Value, version: nat)
    requires v.WellFormed(version) && At(data, pos, Encode(v, version))
    ensures Skipped(data, pos, v.Number(), version) ==
            if v.TooLong() then None else Some(pos + |Encode(v, version)|)
    decreases v, 0
  {
    match v {
      case Scalar(_, _) =>
      case Text(bytes) =>
        StringAtEncoded(data, pos, bytes, version);
      case Array(elemType, elems) =>
        ArrayAt(data, pos, elemType, elems, version);
        SkipsAllEncoded(data, pos + 4 + CountWidth(version), elems, elemType, version);
    }
  }

  ghost predicate AnyTooLong(elems: seq<Value>) {
    exists e :: e in elems && e.TooLong()
  }

  lemma {:induction false} SkipsAllEncoded(data: seq<Byte>, pos: nat, elems: seq<Value>, ty: nat, version: nat)
    requires forall e :: e in elems ==> e.WellFormed(version) && e.Number() == ty
    requires At(data, pos, EncodeAll(elems, version))
    ensures SkippedAll(data, pos, ty, |elems|, version) ==
            if AnyTooLong(elems) then None else Some(pos + |EncodeAll(elems, version)|)
    decreases elems
  {
    if elems != [] {
      var first, rest := Encode(elems[0], version), elems[1..];
      AtConcat(data, pos, first, EncodeAll(rest, version));
      assert elems[0] in elems && forall e :: e in rest ==> e in elems;
      SkipsEncoded(data, pos, elems[0], version);
      AnyTooLongCons(elems);
      if !elems[0].TooLong() {
        SkipsAllEncoded(data, pos + |first|, rest, ty, version);
      }
    }
  }

  lemma AnyTooLongCons(elems: seq<Value>)
    requires elems != []
    ensures AnyTooLong(elems) <==> elems[0].TooLong() || AnyTooLong(elems[1..])
  {
    assert forall e :: e in elems <==> e == elems[0] || e in elems[1..];
  }

  /** The position behind an encoded pair. */
  function PairEnd(pos: nat, p: Pair, version: nat): nat
    requires p.WellFormed(version)
  {
    pos + CountWidth(version) + |p.key| + 4 + |Encode(p.value, version)|
  }

  /** Where the parts of an encoded pair lie. */
  lemma PairAt(data: seq<Byte>, pos: nat, p: Pair, rest: seq<Byte>, version: nat)
    requires p.WellFormed(version)
    requires At(data, pos, EncodePair(p, rest, version))
    ensures StringAt(data, pos, version) == if |p.key| > 4096 then None else Some(|p.key|)
    ensures At(data, pos + CountWidth(version), p.key)
    ensures var tyAt := pos + CountWidth(version) + |p.key|;
      && IntAt(data, tyAt, 4) == Some(p.value.Number())
      && At(data, tyAt + 4, Encode(p.value, version))
      && At(data, PairEnd(pos, p, version), rest)
  {
    NumberIsSmall(p.value, version);
    var tyAt, ty, value := pos + CountWidth(version) + |p.key|, p.value.Number(), Encode(p.value, version);
    AtConcat(data, pos, EncodeString(p.key, version), Word(ty) + (value + rest));
    AtConcat(data, tyAt, Word(ty), value + rest);
    AtConcat(data, tyAt + 4, value, rest);
    StringAtEncoded(data, pos, p.key, version);
    WordAt(data, tyAt, ty);
  }

  /** One round of the search, given what is read at each place. */
  lemma SearchRound(data: seq<Byte>, pos: nat, key: seq<Byte>, ty: nat, n: nat, version: nat, wanted: seq<Byte>)
    requires n > 0 && StringAt(data, pos, version) == Some(|key|)
    requires var keyAt := pos + CountWidth(version);
      data[keyAt..keyAt + |key|] == key && IntAt(data, keyAt + |key|, 4) == Some(ty)
    ensures var valueAt := pos + CountWidth(version) + |key| + 4;
      && (key == wanted && ty == U32 && IntAt(data, valueAt, 4).Some? ==>
            Searched(data, pos, n, version, wanted) == Ok(IntAt(data, valueAt, 4)))
      && (!(key == wanted && ty == U32) ==>
            Searched(data, pos, n, version, wanted) ==
            match Skipped(data, valueAt, ty, version)
            case None => Err("bad value")
            case Some(next) => Searched(data, next, n - 1, version, wanted))
  {
  }

  lemma LongKeyFails(data: seq<Byte>, pos: nat, n: nat, version: nat, wanted: seq<Byte>)
    requires n > 0 && StringAt(data, pos, version).None?
    ensures Searched(data, pos, n, version, wanted).Err?
  {
  }

  /** The round of the search over an encoded pair that is not looked for, when its key is read. */
  lemma PairRound(data: seq<Byte>, pos: nat, p: Pair, rest: seq<Byte>, n: nat, version: nat, wanted: seq<Byte>)
    requires n > 0 && p.WellFormed(version) && !p.IsWanted(wanted) && |p.key| <= 4096
    requires At(data, pos, EncodePair(p, rest, version))
    ensures var valueAt := pos + CountWidth(version) + |p.key| + 4;
      && At(data, valueAt, Encode(p.value, version))
      && Searched(data, pos, n, version, wanted) ==
         match Skipped(data, valueAt, p.value.Number(), version)
         case None => Err("bad value")
         case Some(next) => Searched(data, next, n - 1, version, wanted)
  {
    PairAt(data, pos, p, rest, version);
    AtMeans(data, pos + CountWidth(version), p.key);
    SearchRound(data, pos, p.key, p.value.Number(), n, version, wanted);
  }

  /** One round of the search over an encoded pair that is not looked for. */
  lemma PairSkipped(data: seq<Byte>, pos: nat, p: Pair, rest: seq<Byte>, n: nat, version: nat, wanted: seq<Byte>)
    requires n > 0 && p.WellFormed(version) && !p.IsWanted(wanted)
    requires At(data, pos, EncodePair(p, rest, version))
    ensures At(data, PairEnd(pos, p, version), rest)
    ensures p.TooLong() ==> Searched(data, pos, n, version, wanted).Err?
    ensures !p.TooLong() ==>
            Searched(data, pos, n, version, wanted) ==
            Searched(data, PairEnd(pos, p, version), n - 1, version, wanted)
  {
    hide Searched, Skipped, StringAt, IntAt, Encode, EncodePair, At;
    PairAt(data, pos, p, rest, version);
    if |p.key| > 4096 {
      LongKeyFails(data, pos, n, version, wanted);
    } else {
      PairRound(data, pos, p, rest, n, version, wanted);
      SkipsEncoded(data, pos + CountWidth(version) + |p.key| + 4, p.value, version);
    }
  }

  /** The round of the search that comes to what is looked for. */
  lemma PairFound(data: seq<Byte>, pos: nat, p: Pair, rest: seq<Byte>, n: nat, version: nat, wanted: seq<Byte>)
    requires n > 0 && p.WellFormed(version) && p.IsWanted(wanted)
    requires At(data, pos, EncodePair(p, rest, version))
    ensures p.TooLong() <==> |p.key| > 4096
    ensures |p.value.bytes| == 4
    ensures if p.TooLong() then Searched(data, pos, n, version, wanted).Err?
            else Searched(data, pos, n, version, wanted) == Ok(Some(WordValue(p.value.bytes)))
  {
    hide EncodePair, Skipped;
    PairAt(data, pos, p, rest, version);
    if |p.key| <= 4096 {
      var keyAt := pos + CountWidth(version);
      var valueAt := keyAt + |p.key| + 4;
      AtMeans(data, keyAt, p.key);
      AtMeans(data, valueAt, p.value.bytes);
      FromFour(p.value.bytes);
      assert IntAt(data, valueAt, 4) == Some(WordValue(p.value.bytes));
      SearchRound(data, pos, p.key, 4, n, version, wanted);
    }
  }

  /** A key or string that is too long comes up to the first pair looked for, or anywhere. */
  ghost predicate Blocked(pairs: seq<Pair>, wanted: seq<Byte>) {
    exists i :: 0 <= i < |pairs| && BlockedAt(pairs, wanted, i)
  }

  ghost predicate BlockedAt(pairs: seq<Pair>, wanted: seq<Byte>, i: nat)
    requires i < |pairs|
  {
    pairs[i].TooLong() && forall j :: 0 <= j < i ==> !pairs[j].IsWanted(wanted)
  }

  lemma BlockedCons(pairs: seq<Pair>, wanted: seq<Byte>)
    requires pairs != []
    ensures Blocked(pairs, wanted) <==>
            pairs[0].TooLong() || (!pairs[0].IsWanted(wanted) && Blocked(pairs[1..], wanted))
  {
    var rest := pairs[1..];
    if Blocked(pairs, wanted) && !pairs[0].TooLong() {
      var i :| 0 <= i < |pairs| && BlockedAt(pairs, wanted, i);
      assert BlockedAt(rest, wanted, i - 1);
    }
    if pairs[0].TooLong() {
      assert BlockedAt(pairs, wanted, 0);
    } else if !pairs[0].IsWanted(wanted) && Blocked(rest, wanted) {
      var i :| 0 <= i < |rest| && BlockedAt(rest, wanted, i);
      assert BlockedAt(pairs, wanted, i + 1);
    }
  }

  lemma {:induction false} SearchFindsFirst(data: seq<Byte>, pos: nat, pairs: seq<Pair>, version: nat,
                                            wanted: seq<Byte>)
    requires forall p :: p in pairs ==> p.WellFormed(version)
    requires At(data, pos, EncodePairs(pairs, version))
    ensures if Blocked(pairs, wanted) then Searched(data, pos, |pairs|, version, wanted).Err?
            else Searched(data, pos, |pairs|, version, wanted) == Ok(FirstWanted(pairs, wanted))
    decreases |pairs|
  {
    if pairs != [] {
      var p, rest := pairs[0], pairs[1..];
      assert p in pairs && forall q :: q in rest ==> q in pairs;
      BlockedCons(pairs, wanted);
      var more := EncodePairs(rest, version);
      assert At(data, pos, EncodePair(p, more, version));
      if p.IsWanted(wanted) {
        PairFound(data, pos, p, more, |pairs|, version, wanted);
        assert FirstWanted(pairs, wanted) == Some(WordValue(p.value.bytes));
      } else {
        PairSkipped(data, pos, p, more, |pairs|, version, wanted);
        assert FirstWanted(pairs, wanted) == FirstWanted(rest, wanted);
        if !p.TooLong() {
          SearchFindsFirst(data, PairEnd(pos, p, version), rest, version, wanted);
        }
      }
    }
  }

  /** The constants of the reader are the texts of the format. */
  lemma Constants()
    ensures MAGIC == Ascii("GGUF") && CONTEXT_KEY == Ascii("llama.context_length")
  {
  }

  /** Where the parts of an encoded header lie. */
  lemma HeaderAt(data: seq<Byte>, version: nat, tensors: nat, n: nat, pairs: seq<Byte>)
    requires 1 <= version <= 3 && CountFits(tensors, version) && CountFits(n, version)
    requires At(data, 0, EncodeHeader(version, tensors, n, pairs))
    ensures At(data, 0, Ascii("GGUF")) && IntAt(data, 4, 4) == Some(version)
    ensures var w := CountWidth(version);
      IntAt(data, 8 + w, w) == Some(n) && At(data, 8 + w + w, pairs)
  {
    var magic, first, second := Ascii("GGUF"), Count(tensors, version), Count(n, version);
    AtConcat(data, 0, magic, Word(version) + (first + (second + pairs)));
    AtConcat(data, 4, Word(version), first + (second + pairs));
    AtConcat(data, 8, first, second + pairs);
    AtConcat(data, 8 + |first|, second, pairs);
    WordAt(data, 4, version);
    CountAt(data, 8 + |first|, n, version);
  }

  lemma HeaderStep(data: seq<Byte>, version: nat, n: nat)
    requires 1 <= version <= 3 && At(data, 0, MAGIC)
    requires IntAt(data, 4, 4) == Some(version)
    requires IntAt(data, 8 + CountWidth(version), CountWidth(version)) == Some(n)
    ensures ContextLength(data) ==
            Searched(data, 8 + CountWidth(version) + CountWidth(version), n, version, CONTEXT_KEY)
  {
    AtMeans(data, 0, MAGIC);
    assert data[..4] == data[0..0 + |MAGIC|];
  }

  /** In every file that starts with a metadata list of versions 1 to 3, with strings of any length, the
      reader finds the first context length of type u32, or none, unless a key or string over 4096
      bytes comes before it; then, and only then, it fails. */
  lemma {:induction false} ReaderFindsContextLength(data: seq<Byte>, version: nat, tensors: nat, pairs: seq<Pair>)
    requires Writable(version, tensors, pairs) && At(data, 0, EncodeFile(version, tensors, pairs))
    ensures var key := Ascii("llama.context_length");
      if Blocked(pairs, key) then ContextLength(data).Err?
      else ContextLength(data) == Ok(FirstWanted(pairs, key))
  {
    Constants();
    HeaderAt(data, version, tensors, |pairs|, EncodePairs(pairs, version));
    HeaderStep(data, version, |pairs|);
    SearchFindsFirst(data, 8 + CountWidth(version) + CountWidth(version), pairs, version, CONTEXT_KEY);
  }

  /** A file that does not begin with the four letters, or is of another version, has no length to find. */
  lemma OtherFilesHaveNone(data: seq<Byte>)
    requires |data| >= 8
    requires data[..4] != Ascii("GGUF") || data[4..8] == Word(0) || (data[4] > 3 || data[5..8] != [0, 0, 0])
    ensures ContextLength(data) == Ok(None)
  {
    Constants();
    FromFour(data[4..8]);
    assert data[5..8] != [0, 0, 0] ==> data[5] != 0 || data[6] != 0 || data[7] != 0;
  }

  /** A long text, then the context length. */
  function Hidden(key: seq<Byte>, text: seq<Byte>, length: nat): seq<Pair>
    requires length < 0x1_0000_0000
  {
    [Pair(key, Text(text)), Pair(Ascii("llama.context_length"), Scalar(Uint32, Word(length)))]
  }

  lemma HiddenIsBlocked(key: seq<Byte>, text: seq<Byte>, length: nat)
    requires |text| > 4096 && length < 0x1_0000_0000
    ensures var pairs, wanted := Hidden(key, text, length), Ascii("llama.context_length");
      Blocked(pairs, wanted) && FirstWanted(pairs, wanted) == Some(length)
  {
    var pairs, wanted := Hidden(key, text, length), Ascii("llama.context_length");
    assert BlockedAt(pairs, wanted, 0);
    WordReads(length);
    FromFour(Word(length));
    assert pairs[1..] == [pairs[1]] && !pairs[0].IsWanted(wanted) && pairs[1].IsWanted(wanted);
  }

  /** A file in which a long text comes before the context length, which the reader therefore misses. */
  lemma LongTextHidesContextLength(version: nat, tensors: nat, key: seq<Byte>, text: seq<Byte>, length: nat)
    requires 1 <= version <= 3 && CountFits(tensors, version)
    requires CountFits(|key|, version) && 4096 < |text| && CountFits(|text|, version)
    requires length < 0x1_0000_0000
    ensures var pairs := Hidden(key, text, length);
      && Writable(version, tensors, pairs)
      && FirstWanted(pairs, Ascii("llama.context_length")) == Some(length)
      && ContextLength(EncodeFile(version, tensors, pairs)).Err?
  {
    var pairs := Hidden(key, text, length);
    HiddenIsBlocked(key, text, length);
    var data := EncodeFile(version, tensors, pairs);
    WholeFile(data);
    ReaderFindsContextLength(data, version, tensors, pairs);
  }

  lemma WholeFile(data: seq<Byte>)
    ensures At(data, 0, data)
  {
    AtMeans(data, 0, data);
  }
}
