# Curve DAO test harness: value packing and emission constants

The test harness of the Curve DAO contracts (`tests/conftest.py`) is almost
entirely deployment glue for a test chain. It holds two pieces of
deterministic logic, and this project models and verifies them.

- `pack_values` is a fixed-width encoder. It turns a list of small integers
  into a 32-byte field: one big-endian byte per value, in order, followed by
  zero bytes up to 32. The harness uses it for the per-coin decimals arguments
  of `Registry.add_pool`. It is modelled in module `Packing`.
- The emission constants are `YEAR`, `INITIAL_RATE`, `INITIAL_SUPPLY` and
  `YEAR_1_SUPPLY`. `YEAR_1_SUPPLY` is the initial rate scaled to 18 decimals
  and rounded down to a multiple of `YEAR`. They are modelled in module
  `Emission`.

Module `PyBuiltins` models the Python built-ins these rely on, with
unbounded integers:
- `**` on naturals (`Pow`);
- `int.to_bytes(length, "big")` (`ToBytesBig`), with `int.from_bytes(..., "big")` (`FromBytesBig`) as its inverse;
- `bytes(n)` (`ZeroBytes`).

Python exceptions are not turned into preconditions. They are the `Err` case of a
`Result`:
- `to_bytes` raises `OverflowError` for a negative value or a value too large for the width;
- `bytes(n)` raises `ValueError` for a negative count.

The generator on line 20 runs before the padding on line 21. So an
out-of-range value raises `OverflowError` even when the list also has more
than 32 entries; `PackValues` states this order.

Python's `//` on non-negative integers floors. Dafny's `/` does the same
when the divisor is positive, so `RoundDown` uses it directly.

## Model

| member | source | states |
|---|---|---|
| `PyBuiltins.Pow` | tests/conftest.py:9 | `b ** e` on naturals is positive when `b` is positive. |
| `PyBuiltins.PowAdd` | tests/conftest.py:9 | The exponent law: `b ** (m + n) == b ** m * b ** n`. |
| `PyBuiltins.ToBytesBig` | tests/conftest.py:20 | `i.to_bytes(n, "big")` succeeds exactly when `0 <= i < 256^n`. It raises `OverflowError` otherwise. On success it gives `n` bytes whose big-endian value is `i`. |
| `PyBuiltins.ToBytesFromBytes` | tests/conftest.py:20 | Round trip: every byte string `s` is the `len(s)`-byte big-endian encoding of its own value, so `to_bytes` and `from_bytes` are inverses. |
| `PyBuiltins.OneByte` | tests/conftest.py:20 | `i.to_bytes(1, "big")` is the single byte `i` for `0 <= i < 256` and `OverflowError` for every other integer. |
| `PyBuiltins.ZeroBytes` | tests/conftest.py:21 | `bytes(n)` is `n` zero bytes for `n >= 0`. A negative count raises `ValueError`. |
| `Packing.JoinBytes` | tests/conftest.py:20 | The joined one-byte encodings succeed exactly when every value is in 0..255. The result is then the values themselves, in order. Otherwise it raises `OverflowError`. |
| `Packing.PackValues` | tests/conftest.py:19-22 | Succeeds exactly when every value is in 0..255 and there are at most 32 values. An out-of-range value gives `OverflowError`, even with too many values. Otherwise more than 32 values give `ValueError`. On success: exactly 32 bytes, byte `k` equals `values[k]` for `k < len(values)`, and every later byte is zero. |
| `Packing.PackThenUnpack` | tests/conftest.py:20-22 | Encode then decode: the first `len(values)` bytes of the packed field are exactly `values`. |
| `Packing.UnpackThenPack` | tests/conftest.py:19-22 | Decode then encode: packing the first `count` bytes of a 32-byte field reproduces that field if and only if its bytes from `count` on are zero. |
| `Packing.PackInjective` | tests/conftest.py:19-22 | Two lists of the same length with the same packed field are equal. |
| `Packing.PackCollision` | tests/conftest.py:21 | A shorter and a longer list pack to the same field if and only if the longer one is the shorter one followed by zeros. |
| `Packing.TrailingZeroCollides` | tests/conftest.py:21 | The field does not record the count: `[18]` and `[18, 0]` pack identically. |
| `Packing.RegistryDecimals` | tests/conftest.py:67 | `pack_values([18, 18])` is `[18, 18]` followed by 30 zero bytes. |
| `Emission.RoundDown` | tests/conftest.py:9 | `x // unit * unit` is a multiple of `unit`, is at most `x`, and is less than `unit` below `x`. |
| `Emission.RemainderGap` | tests/conftest.py:9 | `x // unit * unit` is `x - x % unit` and is divisible by `unit`. |
| `Emission.RoundDownUnique` | tests/conftest.py:9 | `RoundDown(x, unit)` is the only multiple of `unit` in `(x - unit, x]`. |
| `Emission.PowTen18` | tests/conftest.py:9 | `10 ** 18` is 1 000 000 000 000 000 000. |
| `Emission.ScaledRate` | tests/conftest.py:9 | `INITIAL_RATE * 10 ** 18` is `INITIAL_RATE` times 10^18. |
| `Emission.YearSeconds` | tests/conftest.py:7 | `YEAR = 365 * 86400` is 31 536 000 seconds. |
| `Emission.Year1Supply` | tests/conftest.py:7-9 | `YEAR_1_SUPPLY` is a multiple of `YEAR`. It is at most `INITIAL_RATE * 10 ** 18`, and the gap is less than `YEAR`. |
| `Emission.Year1SupplyValue` | tests/conftest.py:7-9 | `YEAR_1_SUPPLY` is 274 815 282 999 999 999 982 320 000. That is 17 680 000 below the scaled rate. |

## Left out

- The pytest fixtures (tests/conftest.py:24-200) are left out. They deploy contracts, mint test tokens, approve transfers and hand over ownership on a brownie test chain, which is external contract calls and chain I/O.
- The pool, registry, gauge, voting-escrow, minter and vesting contracts are only named and deployed here. Their source is not part of this model, so this project states no pool invariant, fee rule or share formula.
- `approx` (tests/conftest.py:12-15) is left out. It compares with float division and a float tolerance, and floating point is not modelled.
- `start_time` and `end_time` (tests/conftest.py:118-124) are left out. They read the live chain clock.
- `INITIAL_SUPPLY` (tests/conftest.py:10) is declared as a constant. Nothing in the harness computes with it, so no property is stated about it.
- `PyBuiltins.ToBytesBig` takes a non-negative `length`. It does not model the `ValueError` for a negative length, the `signed=True` mode or little-endian order, because the harness only calls `to_bytes(1, "big")`.
- `Packing.PackValues` takes a list of integers. A non-`int` element (a `str`, `float` or `None`) has no `to_bytes` method and raises `AttributeError` on line 20; that case cannot be expressed. A `bool` element is an `int` in Python and is packed as 0 or 1, which the model covers as the integers 0 and 1. A `values` that cannot be iterated or has no length raises `TypeError`; that is not modelled either.
- Python's `bytes` object identity is not modelled; a packed field is a sequence of byte values.
