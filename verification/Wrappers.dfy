/** Small value types shared by the report pipeline, the result parser and the
    work search: optional values, results, BSON fields that distinguish a
    missing key from an explicit null, and C#'s 32-bit `int`. */
module Wrappers {

  datatype Option<+T> = None | Some(value: T) {
    function GetOr(default: T): T {
      match this
      case Some(v) => v
      case None => default
    }
  }

  datatype Result<+R, +E> = Ok(value: R) | Err(error: E)

  /** A value read from a BSON document: the key may be absent, present with
      `null`, or present with a value.  `GetValue(key, default)` returns the
      default only for an absent key; `.AsString` / `.AsInt32` then throw on a
      `null`. */
  datatype Field<+T> = Missing | Null | Val(value: T) {
    /** The value, or the default for an absent key (and for `null`, where
        callers have already ruled it out). */
    function Or(default: T): T {
      match this
      case Val(v) => v
      case _ => default
    }
  }

  const Two31: int := 0x8000_0000
  const Two32: int := 0x1_0000_0000

  /** C#'s `int`. */
  type int32 = x: int | -Two31 <= x < Two31

  /** Unchecked 32-bit two's-complement wrap-around, as C# `+` and `++` do on
      `int` by default: the value in range that differs from `x` by a multiple
      of 2^32 (the literals are 2^31 and 2^32). */
  function Wrap32(x: int): int32 {
    (x + 0x8000_0000) % 0x1_0000_0000 - 0x8000_0000
  }

  /** A value already in range is left alone. */
  lemma Wrap32InRange(x: int)
    requires -Two31 <= x < Two31
    ensures Wrap32(x) == x
  {
  }

  /** The wrapped value differs from the exact one by a multiple of 2^32. */
  lemma Wrap32Congruent(x: int)
    ensures (Wrap32(x) - x) % Two32 == 0
  {
    var q := (x + Two31) / Two32;
    assert Wrap32(x) - x == -q * Two32;
  }

  lemma ModOfMultiple(x: int, k: int)
    ensures (x + k * Two32) % Two32 == x % Two32
  {
    var q := x / Two32;
    var m := x % Two32;
    assert x + k * Two32 == (q + k) * Two32 + m;
  }

  /** Adding to a wrapped counter is the same as wrapping the exact sum, so a
      running 32-bit total equals the wrapped mathematical total. */
  lemma Wrap32Add(a: int, b: int)
    ensures Wrap32(Wrap32(a) + b) == Wrap32(a + b)
  {
    var q := (a + Two31) / Two32;
    assert Wrap32(a) == a - q * Two32;
    ModOfMultiple(a + b + Two31, -q);
    assert Wrap32(a) + b + Two31 == (a + b + Two31) + (-q) * Two32;
  }
}
