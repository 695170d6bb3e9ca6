/** Value types shared by every protocol module. */
module Basics {
  type byte = b: int | 0 <= b < 0x100
  type u16 = n: int | 0 <= n < 0x1_0000
  type u32 = n: int | 0 <= n < 0x1_0000_0000

  datatype Option<+T> = None | Some(value: T)

  /** The kinds of `Obd2Error`; message texts are not modelled. */
  datatype Error =
    | ParseError
    | Timeout
    | Transport
    | Adapter
    | AdapterBusy
    | NoData
    | SecurityRequired
    | ModuleNotFound
    | BusNotAvailable
    | NegativeResponse(service: byte, nrc: byte)

  datatype Result<+T> = Ok(value: T) | Err(error: Error)

  function Min(a: int, b: int): (m: int)
    ensures m <= a && m <= b && (m == a || m == b)
  {
    if a < b then a else b
  }

  /** `n.div_ceil(d)`. */
  function DivCeil(n: nat, d: nat): nat
    requires d > 0
  {
    if n == 0 then 0 else if n <= d then 1 else DivCeil(n - d, d) + 1
  }

  /** `DivCeil` is the number of groups of at most `d` items that `n` items take. */
  lemma {:induction false} DivCeilUnique(n: nat, d: nat, q: nat)
    requires d > 0
    ensures q == DivCeil(n, d) <==> (if n == 0 then q == 0 else q > 0 && (q - 1) * d < n <= q * d)
  {
    if 0 < n <= d {
      if q > 1 {
        assert (q - 1) * d >= d;
      }
    } else if n > d {
      if q > 0 {
        DivCeilUnique(n - d, d, q - 1);
        assert (q - 1) * d == (q - 2) * d + d && q * d == (q - 1) * d + d;
      }
    }
  }

  lemma {:induction false} DivCeilAbove(n: nat, d: nat, q: nat)
    requires d > 0 && q * d < n
    ensures q < DivCeil(n, d)
  {
    if q > 0 {
      assert q * d == (q - 1) * d + d;
      DivCeilAbove(n - d, d, q - 1);
    }
  }

  /** `u8::saturating_add(1)`. */
  function SaturatingInc(b: byte): (r: byte)
    ensures r == Min(b as int + 1, 255)
  {
    if b == 255 then 255 else b + 1
  }

  /** A result with `front` put before it; an error stays an error. */
  function Prepend<T>(front: seq<T>, r: Result<seq<T>>): Result<seq<T>> {
    if r.Err? then r else Ok(front + r.value)
  }

  lemma PrependNothing<T>(r: Result<seq<T>>)
    ensures Prepend([], r) == r
  {
    if r.Ok? {
      assert [] + r.value == r.value;
    }
  }

  lemma PrependJoins<T>(a: seq<T>, b: seq<T>, r: Result<seq<T>>)
    ensures Prepend(a, Prepend(b, r)) == Prepend(a + b, r)
  {
    if r.Ok? {
      assert a + (b + r.value) == a + b + r.value;
    }
  }
}
