/** Writing the beginning of a GGUF file, as the "File Structure" section of the GGUF specification lays
    it out. Nothing here is shared with the reader. */
module GgufFormat {
  import opened Prelude

  function Ascii(s: string): (r: seq<Byte>)
    requires forall i :: 0 <= i < |s| ==> s[i] < 128 as char
    ensures |r| == |s| && forall i :: 0 <= i < |s| ==> r[i] == s[i] as int
  {
    seq(|s|, i requires 0 <= i < |s| => s[i] as int)
  }

  /** Little-endian integers of four and eight bytes. */
  function Word(v: nat): (r: seq<Byte>)
    requires v < 0x1_0000_0000
    ensures |r| == 4
  {
    [v % 256, v / 256 % 256, v / 65_536 % 256, v / 16_777_216]
  }

  /** The integer of four bytes, the least significant first. */
  function WordValue(b: seq<Byte>): nat
    requires |b| == 4
  {
    b[0] as int + 256 * b[1] as int + 65_536 * b[2] as int + 16_777_216 * b[3] as int
  }

  function LongWord(v: nat): (r: seq<Byte>)
    requires v < 0x1_0000_0000_0000_0000
    ensures |r| == 8
  {
    Word(v % 0x1_0000_0000) + Word(v / 0x1_0000_0000)
  }

  /** Counts and lengths take four bytes in version 1 and eight in the later ones. */
  predicate CountFits(v: nat, version: nat) {
    v < if version == 1 then 0x1_0000_0000 else 0x1_0000_0000_0000_0000
  }

  function Count(v: nat, version: nat): (r: seq<Byte>)
    requires CountFits(v, version)
    ensures |r| == if version == 1 then 4 else 8
  {
    if version == 1 then Word(v) else LongWord(v)
  }

  datatype Kind = Uint8 | Int8 | Uint16 | Int16 | Uint32 | Int32 | Float32 | Bool | Uint64 | Int64 | Float64 {
    function Number(): nat {
      match this
      case Uint8 => 0
      case Int8 => 1
      case Uint16 => 2
      case Int16 => 3
      case Uint32 => 4
      case Int32 => 5
      case Float32 => 6
      case Bool => 7
      case Uint64 => 10
      case Int64 => 11
      case Float64 => 12
    }

    function Width(): nat {
      match this
      case Uint8 | Int8 | Bool => 1
      case Uint16 | Int16 => 2
      case Uint32 | Int32 | Float32 => 4
      case Uint64 | Int64 | Float64 => 8
    }
  }

  datatype Value =
    | Scalar(kind: Kind, bytes: seq<Byte>)
    | Text(bytes: seq<Byte>)
    | Array(elemType: nat, elems: seq<Value>)
  {
    function Number(): nat {
      match this
      case Scalar(kind, _) => kind.Number()
      case Text(_) => 8
      case Array(_, _) => 9
    }

    /** The value can be written in this version. */
    ghost predicate WellFormed(version: nat) {
      match this
      case Scalar(kind, bytes) => |bytes| == kind.Width()
      case Text(bytes) => CountFits(|bytes|, version)
      case Array(elemType, elems) =>
        && elemType < 0x1_0000_0000 && CountFits(|elems|, version)
        && forall e :: e in elems ==> e.WellFormed(version) && e.Number() == elemType
    }

    /** Somewhere in the value is a string of more than 4096 bytes. */
    ghost predicate TooLong() {
      match this
      case Scalar(_, _) => false
      case Text(bytes) => |bytes| > 4096
      case Array(_, elems) => exists e :: e in elems && e.TooLong()
    }
  }

  datatype Pair = Pair(key: seq<Byte>, value: Value) {
    ghost predicate WellFormed(version: nat) {
      CountFits(|key|, version) && value.WellFormed(version)
    }

    ghost predicate TooLong() {
      |key| > 4096 || value.TooLong()
    }

    /** A pair that is looked for: an unsigned 32-bit integer under the key. */
    predicate IsWanted(wanted: seq<Byte>) {
      key == wanted && value.Scalar? && value.kind == Uint32
    }
  }

  function EncodeString(s: seq<Byte>, version: nat): seq<Byte>
    requires CountFits(|s|, version)
  {
    Count(|s|, version) + s
  }

  function Encode(v: Value, version: nat): seq<Byte>
    requires v.WellFormed(version)
  {
    match v
    case Scalar(_, bytes) => bytes
    case Text(bytes) => EncodeString(bytes, version)
    case Array(elemType, elems) =>
      Word(elemType) + (Count(|elems|, version) + EncodeAll(elems, version))
  }

  function EncodeAll(elems: seq<Value>, version: nat): seq<Byte>
    requires forall e :: e in elems ==> e.WellFormed(version)
  {
    if elems == [] then []
    else
      assert elems[0] in elems;
      Encode(elems[0], version) + EncodeAll(elems[1..], version)
  }

  lemma NumberIsSmall(v: Value, version: nat)
    requires v.WellFormed(version)
    ensures v.Number() < 13
  {
  }

  function EncodePair(p: Pair, rest: seq<Byte>, version: nat): seq<Byte>
    requires p.WellFormed(version)
  {
    NumberIsSmall(p.value, version);
    EncodeString(p.key, version) + (Word(p.value.Number()) + (Encode(p.value, version) + rest))
  }

  function EncodePairs(pairs: seq<Pair>, version: nat): seq<Byte>
    requires forall p :: p in pairs ==> p.WellFormed(version)
  {
    if pairs == [] then []
    else
      assert pairs[0] in pairs;
      EncodePair(pairs[0], EncodePairs(pairs[1..], version), version)
  }

  function EncodeHeader(version: nat, tensors: nat, n: nat, pairs: seq<Byte>): seq<Byte>
    requires 1 <= version <= 3 && CountFits(tensors, version) && CountFits(n, version)
  {
    Ascii("GGUF") + (Word(version) + (Count(tensors, version) + (Count(n, version) + pairs)))
  }

  /** What can be written. */
  ghost predicate Writable(version: nat, tensors: nat, pairs: seq<Pair>) {
    && 1 <= version <= 3
    && CountFits(tensors, version) && CountFits(|pairs|, version)
    && forall p :: p in pairs ==> p.WellFormed(version)
  }

  /** The beginning of a file, up to the end of its metadata. */
  function EncodeFile(version: nat, tensors: nat, pairs: seq<Pair>): seq<Byte>
    requires Writable(version, tensors, pairs)
  {
    EncodeHeader(version, tensors, |pairs|, EncodePairs(pairs, version))
  }

  /** The number in the first pair looked for, if there is one. */
  function FirstWanted(pairs: seq<Pair>, wanted: seq<Byte>): Option<nat> {
    if pairs == [] then None
    else if pairs[0].IsWanted(wanted) && |pairs[0].value.bytes| == 4 then
      Some(WordValue(pairs[0].value.bytes))
    else FirstWanted(pairs[1..], wanted)
  }
}
