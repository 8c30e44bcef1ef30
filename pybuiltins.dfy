/**
  The few Python built-ins that the test harness's helpers rely on, stated over
  unbounded integers: `**` on naturals, `int.to_bytes(length, "big")` with its
  partner `int.from_bytes(..., "big")`, and `bytes(n)`.
  Exceptions that these built-ins raise become the `Err` case of `Result`.
 */
module PyBuiltins {

  /** A byte of a Python `bytes` object. */
  type Byte = b: int | 0 <= b < 256

  /** The exceptions the modelled built-ins can raise. */
  datatype PyError = OverflowError | ValueError

  datatype Result<+T> = Ok(value: T) | Err(error: PyError)

  /** Python's `b ** e` for a natural exponent. */
  function Pow(b: nat, e: nat): (r: nat)
    ensures b > 0 ==> r > 0
  {
    if e == 0 then 1 else b * Pow(b, e - 1)
  }

  /** The exponent law `b ** (m + n) == b ** m * b ** n`. */
  lemma {:induction false} PowAdd(b: nat, m: nat, n: nat)
    ensures Pow(b, m + n) == Pow(b, m) * Pow(b, n)
  {
    if m > 0 {
      PowAdd(b, m - 1, n);
      assert Pow(b, m + n) == b * Pow(b, m - 1 + n);
      assert b * (Pow(b, m - 1) * Pow(b, n)) == (b * Pow(b, m - 1)) * Pow(b, n);
    }
  }

  /** `int.from_bytes(s, "big")`: the unsigned value of a big-endian byte string. */
  function FromBytesBig(s: seq<Byte>): (r: nat)
    ensures r < Pow(256, |s|)
  {
    if s == [] then 0 else FromBytesBig(s[..|s| - 1]) * 256 + s[|s| - 1]
  }

  /** The big-endian digits, base 256, of an integer that fits in `length` bytes. */
  function BigEndian(i: nat, length: nat): (r: seq<Byte>)
    requires i < Pow(256, length)
    ensures |r| == length
    ensures FromBytesBig(r) == i
  {
    if length == 0 then []
    else
      assert i / 256 < Pow(256, length - 1);
      BigEndian(i / 256, length - 1) + [i % 256]
  }

  /**
    `i.to_bytes(length, "big")` with the default `signed=False`: a negative `i`
    ("can't convert negative int to unsigned") and an `i` that needs more than
    `length` bytes ("int too big to convert") both raise `OverflowError`.
   */
  function ToBytesBig(i: int, length: nat): (r: Result<seq<Byte>>)
    ensures r.Ok? <==> 0 <= i < Pow(256, length)
    ensures r.Err? ==> r.error == OverflowError
    ensures r.Ok? ==> |r.value| == length && FromBytesBig(r.value) == i
  {
    if i < 0 || i >= Pow(256, length) then Err(OverflowError) else Ok(BigEndian(i, length))
  }

  /** `int.from_bytes` inverts `to_bytes`: a byte string of length `n` is the `n`-byte encoding of its value. */
  lemma {:induction false} ToBytesFromBytes(s: seq<Byte>)
    ensures ToBytesBig(FromBytesBig(s), |s|) == Ok(s)
  {
    if s != [] {
      var init, last := s[..|s| - 1], s[|s| - 1];
      ToBytesFromBytes(init);
      var v := FromBytesBig(s);
      assert v / 256 == FromBytesBig(init) && v % 256 == last;
      assert s == init + [last];
    }
  }

  /** A single byte is written as itself: `i.to_bytes(1, "big") == bytes([i])` for `0 <= i < 256`. */
  lemma OneByte(i: int)
    ensures ToBytesBig(i, 1) == if 0 <= i < 256 then Ok([i]) else Err(OverflowError)
  {
  }

  /** `bytes(n)`: `n` zero bytes, and `ValueError` ("negative count") when `n < 0`. */
  function ZeroBytes(n: int): (r: Result<seq<Byte>>)
    ensures r.Ok? <==> n >= 0
    ensures r.Err? ==> r.error == ValueError
    ensures r.Ok? ==> |r.value| == n && forall k :: 0 <= k < n ==> r.value[k] == 0
  {
    if n < 0 then Err(ValueError) else Ok(seq(n, _ => 0))
  }
}
