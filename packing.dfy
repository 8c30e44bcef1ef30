/**
  `pack_values` from the test harness: a list of small integers becomes a
  32-byte string holding one big-endian byte per value, in order, followed by
  zero bytes up to 32. The harness builds the per-coin decimals arguments of
  `Registry.add_pool` with it.
 */
module Packing {
  import opened PyBuiltins

  /** The fixed width of a packed field. */
  const WIDTH: nat := 32

  /** Every value passes `to_bytes(1, "big")`. */
  predicate AllBytes(values: seq<int>) {
    forall k :: 0 <= k < |values| ==> 0 <= values[k] < 256
  }

  /** The inputs on which `pack_values` returns rather than raises. */
  predicate Packable(values: seq<int>) {
    AllBytes(values) && |values| <= WIDTH
  }

  /**
    `b"".join(i.to_bytes(1, "big") for i in values)`: the first value that
    does not fit in one byte raises `OverflowError`; otherwise the result is
    the values themselves, one byte each.
   */
  function JoinBytes(values: seq<int>): (r: Result<seq<Byte>>)
    ensures r.Ok? <==> AllBytes(values)
    ensures r.Err? ==> r.error == OverflowError
    ensures r.Ok? ==> r.value == values
  {
    if values == [] then Ok([])
    else
      OneByte(values[0]);
      match ToBytesBig(values[0], 1)
      case Err(e) => Err(e)
      case Ok(head) =>
        match JoinBytes(values[1..])
        case Err(e) => Err(e)
        case Ok(tail) => Ok(head + tail)
  }

  /**
    `pack_values(values)`: the joined bytes followed by `bytes(32 - len(values))`.
    The join is evaluated first, so an out-of-range value raises `OverflowError`
    even when there are too many values; with all values in range, more than 32
    of them make the padding count negative and raise `ValueError`.
   */
  function PackValues(values: seq<int>): (r: Result<seq<Byte>>)
    ensures r.Ok? <==> Packable(values)
    ensures !AllBytes(values) ==> r == Err(OverflowError)
    ensures AllBytes(values) && |values| > WIDTH ==> r == Err(ValueError)
    ensures r.Ok? ==> |r.value| == WIDTH
    ensures r.Ok? ==> r.value[..|values|] == values
    ensures r.Ok? ==> forall k :: |values| <= k < WIDTH ==> r.value[k] == 0
  {
    match JoinBytes(values)
    case Err(e) => Err(e)
    case Ok(packed) =>
      match ZeroBytes(WIDTH - |values|)
      case Err(e) => Err(e)
      case Ok(padding) =>
        assert (packed + padding)[..|values|] == packed;
        Ok(packed + padding)
  }

  /** The decoder: the first `count` bytes of a packed field. */
  function Unpack(packed: seq<Byte>, count: nat): seq<Byte>
    requires count <= |packed|
  {
    packed[..count]
  }

  /** Encode, then decode with the same count: the values come back unchanged. */
  lemma PackThenUnpack(values: seq<int>)
    requires Packable(values)
    ensures PackValues(values).Ok? && Unpack(PackValues(values).value, |values|) == values
  {
  }

  /**
    Decode, then encode: a 32-byte field whose bytes from `count` on are zero is
    exactly what `pack_values` produces for its first `count` bytes, and no other
    field is produced from them.
   */
  lemma UnpackThenPack(packed: seq<Byte>, count: nat)
    requires |packed| == WIDTH && count <= WIDTH
    ensures PackValues(Unpack(packed, count)) == Ok(packed)
            <==> forall k :: count <= k < WIDTH ==> packed[k] == 0
  {
    var values := Unpack(packed, count);
    var r := PackValues(values);
    if forall k :: count <= k < WIDTH ==> packed[k] == 0 {
      assert r.Ok?;
      assert r.value == packed by {
        forall k | 0 <= k < WIDTH
          ensures r.value[k] == packed[k]
        {
          if k < count {
            assert r.value[k] == r.value[..count][k];
          }
        }
      }
    }
  }

  /** For a fixed number of values the encoding is injective. */
  lemma PackInjective(a: seq<int>, b: seq<int>)
    requires Packable(a) && Packable(b) && |a| == |b|
    requires PackValues(a) == PackValues(b)
    ensures a == b
  {
  }

  /**
    Without fixing the count, two inputs share a packed field exactly when the
    longer one is the shorter one followed by zeros.
   */
  lemma {:induction false} PackCollision(a: seq<int>, b: seq<int>)
    requires Packable(a) && Packable(b) && |a| <= |b|
    ensures PackValues(a) == PackValues(b)
            <==> b[..|a|] == a && forall k :: |a| <= k < |b| ==> b[k] == 0
  {
    var ra, rb := PackValues(a).value, PackValues(b).value;
    if b[..|a|] == a && forall k :: |a| <= k < |b| ==> b[k] == 0 {
      forall k | 0 <= k < WIDTH
        ensures ra[k] == rb[k]
      {
        if k < |a| {
          assert ra[k] == ra[..|a|][k] == a[k];
          assert rb[k] == rb[..|b|][k] == b[k] == b[..|a|][k];
        } else if k < |b| {
          assert rb[k] == rb[..|b|][k] == b[k];
        }
      }
      assert ra == rb;
    }
    if ra == rb {
      assert b[..|a|] == rb[..|a|] by {
        assert rb[..|b|] == b;
      }
      forall k | |a| <= k < |b|
        ensures b[k] == 0
      {
        assert b[k] == rb[..|b|][k];
      }
    }
  }

  /** So the field does not record how many values were packed: `[18]` and `[18, 0]` collide. */
  lemma TrailingZeroCollides()
    ensures PackValues([18]) == PackValues([18, 0])
  {
    PackCollision([18], [18, 0]);
  }

  /** The decimals field the harness passes to `Registry.add_pool` for two 18-decimal coins. */
  lemma RegistryDecimals()
    ensures PackValues([18, 18]) == Ok([18, 18] + seq(30, _ => 0))
  {
  }
}
