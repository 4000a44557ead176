/** Datatypes shared by every component. */
module Prelude {

  datatype Option<+T> = None | Some(value: T)

  datatype Result<+T, +E> = Ok(value: T) | Err(error: E)

  function Min(x: int, y: int): int {
    if x <= y then x else y
  }

  function Max(x: int, y: int): int {
    if x >= y then x else y
  }

  /** Rust's `saturating_sub` on an unsigned integer. */
  function SaturatingSub(x: nat, y: nat): nat {
    if x >= y then x - y else 0
  }

  const U32_MAX: nat := 0xFFFF_FFFF
  const U64_MAX: nat := 0xFFFF_FFFF_FFFF_FFFF

  type u32 = x: nat | x <= U32_MAX
  type u64 = x: nat | x <= U64_MAX

  type Byte = b: int | 0 <= b < 256

  /** Rust's `saturating_add` on an unsigned integer whose largest value is `top`. */
  function SaturatingAdd(x: nat, y: nat, top: nat): nat {
    if x + y <= top then x + y else top
  }

  /** The first `n` elements, or all of them when there are fewer. */
  function Take<T>(s: seq<T>, n: nat): seq<T> {
    if n <= |s| then s[..n] else s
  }

  /** From its `k`-th element on, `s` is in `data` at this position. */
  ghost predicate AtFrom<T>(data: seq<T>, pos: nat, s: seq<T>, k: nat)
    requires pos + |s| <= |data| && k <= |s|
    decreases |s| - k
  {
    k == |s| || (data[pos + k] == s[k] && AtFrom(data, pos, s, k + 1))
  }

  /** The sequence `s` is in `data` at this position. */
  ghost predicate At<T>(data: seq<T>, pos: nat, s: seq<T>) {
    pos + |s| <= |data| && AtFrom(data, pos, s, 0)
  }

  lemma {:induction false} AtFromMeans<T>(data: seq<T>, pos: nat, s: seq<T>, k: nat)
    requires pos + |s| <= |data| && k <= |s|
    ensures AtFrom(data, pos, s, k) <==> data[pos + k..pos + |s|] == s[k..]
    decreases |s| - k
  {
    if k < |s| {
      AtFromMeans(data, pos, s, k + 1);
      assert data[pos + k..pos + |s|] == [data[pos + k]] + data[pos + k + 1..pos + |s|];
      assert s[k..] == [s[k]] + s[k + 1..];
    }
  }

  lemma AtMeans<T>(data: seq<T>, pos: nat, s: seq<T>)
    ensures At(data, pos, s) <==> pos + |s| <= |data| && data[pos..pos + |s|] == s
  {
    if pos + |s| <= |data| {
      AtFromMeans(data, pos, s, 0);
      assert s[0..] == s;
    }
  }

  lemma AtConcat<T>(data: seq<T>, pos: nat, x: seq<T>, y: seq<T>)
    requires At(data, pos, x + y)
    ensures At(data, pos, x) && At(data, pos + |x|, y)
  {
    var xy := x + y;
    AtMeans(data, pos, xy);
    AtMeans(data, pos, x);
    AtMeans(data, pos + |x|, y);
    assert data[pos..pos + |x|] == xy[..|x|] && data[pos + |x|..pos + |xy|] == xy[|x|..];
  }
}
