# JediSwap test and deployment helpers, modelled in Dafny

The JediSwap repository deploys and exercises a Cairo AMM (Factory, Router,
Pair) on Starknet. Almost all of its Python is network orchestration; the
logic it owns is four small helpers, and this project models exactly those:

- **Short-string codec** (`scripts/base_funcs.py`): `str_to_felt` reads the
  UTF-8 bytes of a string as a big-endian natural number; `felt_to_string`
  writes a number back as its shortest signed big-endian byte string and
  decodes that as UTF-8. Modelled at the byte level (`BigEndian`), with
  UTF-8 itself (section 3 of RFC 3629) written out as an encoder and a
  strict decoder (`Utf8`), and the two helpers on top (`FeltCodec`).
- **Limb split** (`tests/utils/uint.py`): `to_uint` splits an integer into
  the `(low, high)` limbs of Cairo's `Uint256`, using Python's `&` and `>>`
  on unbounded two's complement integers (`Uint`).
- **Event lookup** (`tests/utils/events.py`): the raw events of a
  transaction folded into a dictionary keyed by each event's first key, and
  a lookup by event name with a `False` default (`Events`).
- **Revert checker** (`tests/utils/revert.py`): `assert_revert` decides
  pass or fail from how an awaited call ended (`Revert`).

Python exceptions are modelled as `None` of `Wrappers.Option`:
`OverflowError` of `int.to_bytes`, `UnicodeDecodeError` of `bytes.decode`,
and the `IndexError` of an event without keys. `Power` holds powers of two
and the Euclidean-division facts the arithmetic proofs use. Dafny's `/`
and `%` with a positive divisor floor, which is what Python's `>>` and the
two's complement byte split need.

Main results:

- `felt_to_string(str_to_felt(s))` is characterised for every string of
  Unicode scalar values: leading
  NULs are dropped, and one NUL is put back if nothing is left or if the
  first remaining character is not ASCII (`FeltCodec.RoundTrip`). In
  particular the round trip is exact for every non-empty string that starts
  with an ASCII character other than NUL.
- `felt_to_string`'s length formula always picks the least positive byte
  count that holds the number, so `to_bytes` never raises.
- `to_uint` always recombines to its input, negatives included, and is a
  bijection between `[0, 2^256)` and valid `Uint256` pairs.
- The event dictionary holds, for each first key, the data of the last event
  with that key; it is unaffected by later keys, by the emitting address and
  by swapping neighbouring events with different first keys.

## Model

| member | source | states |
|---|---|---|
| BigEndian.FromBytes | scripts/base_funcs.py:9 | `int.from_bytes(b, "big")` of an n-byte string is a natural number below 256^n |
| BigEndian.LeadingZero | scripts/base_funcs.py:9 | a leading zero byte does not change the value `int.from_bytes` reads |
| BigEndian.ToBytesSigned | scripts/base_funcs.py:12 | `to_bytes(n, 'big', signed=True)` succeeds exactly when x fits in n bytes of two's complement, and then gives n bytes that read back, signed, as x |
| BigEndian.BitLength | scripts/base_funcs.py:12 | `bit_length()` is the b with 2^(b-1) <= abs(x) < 2^b (0 for zero) |
| Utf8.DecodeChar | scripts/base_funcs.py:12 | the strict decoder accepts a character only from bytes that are exactly its UTF-8 encoding |
| Utf8.Decode | scripts/base_funcs.py:12 | whatever `decode('UTF-8')` accepts encodes back to the same bytes |
| Utf8.DecodeEncode | scripts/base_funcs.py:8 | decoding `Utf8.Encode(s)`, the model of `bytes(text, 'UTF-8')`, gives s back for any string |
| Utf8.EncodeInjective | scripts/base_funcs.py:8 | different strings have different UTF-8 encodings |
| FeltCodec.StrToFelt | scripts/base_funcs.py:7-9 | `str_to_felt(s)` is below 256^L where L is the UTF-8 byte length of s |
| FeltCodec.FeltLength | scripts/base_funcs.py:12 | `(8 + (n + (n < 0)).bit_length()) // 8` is the least positive byte count whose two's complement range holds n |
| FeltCodec.FeltToBytes | scripts/base_funcs.py:12 | the `to_bytes` call in `felt_to_string` never overflows and yields the shortest non-empty signed encoding of n, which reads back as n |
| FeltCodec.FeltToString | scripts/base_funcs.py:11-12 | any string `felt_to_string(n)` returns is mapped by `str_to_felt` back to n (to n + 256^L for negative n) |
| FeltCodec.FeltBytesOfValue | scripts/base_funcs.py:9-12 | re-encoding the value of any byte string drops its leading zeros and adds one zero byte if nothing is left or the sign bit is set |
| FeltCodec.FeltBytesRoundTrip | scripts/base_funcs.py:9-12 | a byte string whose first byte is in 1..0x7F comes back unchanged |
| FeltCodec.FeltBytesHighLead | scripts/base_funcs.py:12 | a byte string whose first byte is 0x80 or more comes back with one 0x00 byte in front |
| FeltCodec.EmptyStringBecomesNul | scripts/base_funcs.py:12 | `felt_to_string(0)` is the single byte 0x00, so the empty string comes back as "\x00" |
| FeltCodec.RoundTrip | scripts/base_funcs.py:7-12 | for every string of Unicode scalar values, `felt_to_string(str_to_felt(s))` succeeds and returns s without leading NULs, with one NUL in front if that is empty or starts with a non-ASCII character |
| FeltCodec.RoundTripAscii | scripts/base_funcs.py:7-12 | a non-empty string starting with an ASCII character other than NUL survives the round trip |
| FeltCodec.RoundTripNonAsciiLead | scripts/base_funcs.py:7-12 | a string starting with a non-ASCII character comes back with a NUL prepended |
| FeltCodec.LeadingNulIgnored | scripts/base_funcs.py:9 | a leading NUL does not change `str_to_felt` |
| FeltCodec.StrToFeltNotInjective | scripts/base_funcs.py:9 | two different strings have the same `str_to_felt` |
| FeltCodec.StrToFeltInjective | scripts/base_funcs.py:7-9 | among strings that do not start with NUL, `str_to_felt` is injective |
| Uint.MaskIsMod | tests/utils/uint.py:3 | `Uint.BitAnd(a, 2^k - 1)`, the bit-by-bit model of `a & (2^k - 1)`, is a modulo 2^k, for negative a too |
| Uint.ShiftIsDiv | tests/utils/uint.py:3 | `Uint.ShiftRight(a, k)`, k floor halvings modelling `a >> k`, is the floor of a / 2^k |
| Uint.ToUint | tests/utils/uint.py:1-3 | the low limb is in [0, 2^128) and low + high * 2^128 equals a for every integer a |
| Uint.ToUintValid | tests/utils/uint.py:2-3 | the pair is a valid `Uint256`, both limbs in [0, 2^128), exactly when 0 <= a < 2^256 |
| Uint.ToUintCombine | tests/utils/uint.py:3 | every pair with low in [0, 2^128) is `to_uint` of the number it denotes |
| Uint.ToUintInjective | tests/utils/uint.py:3 | different integers give different pairs |
| Uint.ToUintSmall | tests/utils/uint.py:3 | below 2^128, `to_uint(a)` is `(a, 0)`, the value of the fixture helper `uint` |
| Events.LastData | tests/utils/events.py:8-9 | the data of the last event whose first key is k, or nothing exactly when no event has first key k |
| Events.EventDict | tests/utils/events.py:5-10 | raises exactly when some event has no keys; otherwise its keys are the first keys of the events and each maps to the data of the last event with that first key |
| Events.GetEventData | tests/utils/events.py:13-17 | raises exactly when some event has no keys; otherwise `False` exactly when no first key equals the selector of the name, else the data of the last event with that first key |
| Events.LastDataAppend | tests/utils/events.py:8-9 | in a concatenation, the last occurrence of a key is in the second part whenever that part has one |
| Events.SameLastDataSameDict | tests/utils/events.py:5-10 | the dictionary depends only on the last data for each key |
| Events.SwapDistinctKeys | tests/utils/events.py:8-9 | swapping neighbouring events with different first keys leaves the dictionary unchanged |
| Events.OnlyFirstKeyMatters | tests/utils/events.py:9 | keys after the first and the emitting address do not affect the dictionary |
| Events.NoEventsNotFound | tests/utils/events.py:15-17 | with no events, every lookup returns `False` |
| Revert.Contains | tests/utils/revert.py:13 | Python's `p in s` on strings holds exactly when p occurs in s at some position |
| Revert.AssertRevert | tests/utils/revert.py:5-13 | passes exactly on a StarkException with code TRANSACTION_FAILED whose message contains a truthy `error_msg` (any message when `error_msg` is None or empty); a normal completion fails; other exceptions propagate unchanged |
| Revert.ShorterMessageWeaker | tests/utils/revert.py:12-13 | whatever passes with an expected message also passes with any part of it |

## Left out

- The deployment scripts (`scripts/deploy.py`, `scripts/cairo0_setup.py`, `scripts/upgrade.py`, `scripts/deploy_multicall.py`) and the rest of `scripts/base_funcs.py` (`deploy_or_get_token`, `create_or_get_pair`, `add_liquidity_to_pair`, `swap_token0_to_token1`): asynchronous network calls through the Starknet SDK.
- `print_transaction_execution_details`: network calls, printing and floating-point fee weights.
- `tests/utils/create2_address.py`, `tests/utils/calculate_class_hash.py`: hashes and address derivations from foreign libraries, plus file reads.
- The fixtures of `tests/conftest.py` and the scenario tests: they deploy into a simulator and check Cairo contracts that are not part of this model. The fixture helpers `uint` and `str_to_felt` are covered (`Uint.SmallUint`, `FeltCodec.StrToFelt`).
- `get_selector_from_name` (a Keccak-based hash) is a function parameter of `Events.GetEventData`, not computed.
- FeltCodec.StrToFelt: the result is not reduced modulo the Cairo field prime and no 31-character short-string limit is enforced; the Python helper does neither. A Python `str` holding a lone surrogate (U+D800 to U+DFFF) makes `bytes(text, 'UTF-8')` raise UnicodeEncodeError, so `str_to_felt` raises on it; such a string is not a Dafny `string` (a `char` is never a surrogate) and this error path is not modelled.
- Revert.AssertRevert: the unpacking `_, error = err.args` and the lookups `error['code']` and `error['message']` are assumed to succeed; a StarkException is modelled by its code and message only. The awaiting itself is replaced by the `Outcome` of the call.
- Events.EventDict: a raw event is modelled by its emitting address, keys and data; any other attribute is ignored. Which `IndexError` is raised (at which event) is not distinguished.
- Utf8.Decode: only success or failure of `decode('UTF-8')` is modelled, not the position or reason carried by the `UnicodeDecodeError`.
