# Int64 slot codec of the B-tree index file

The index file is a sequence of 512-byte blocks of two kinds: a header block
(an 8-byte magic tag, the root block id, the next free block id) and B-tree
node blocks (its own id, its parent's id, the key count, 19 keys, 19 values and
20 child ids). Every one of these fields occupies one 8-byte slot. The magic
tag is the raw ASCII bytes "4348PRJ3"; every other field holds a signed
integer, written big-endian in two's complement by `int_to_bytes` and read
back by `bytes_to_int`.

This project models that codec (module `Int64Codec`, `int64_codec.dfy`) and
the format constants and slot layout that go with it (module `BlockFormat`,
`block_format.dfy`):

- `IntToBytes` is `int_to_bytes`: it returns `Ok` of exactly 8 bytes for every
  value in the signed 64-bit range and `Err(Overflow)` otherwise, where
  Python's `to_bytes(8, signed=True)` raises `OverflowError`.
- `BytesToInt` is `bytes_to_int`, defined, as Python's `int.from_bytes` is, for
  byte strings of every length (the empty string reads as 0).
- Bytes are integers in 0..255 (`Int64Codec.Byte`), as Python's `bytes` yields them.
- `DigitSum` is an independent, positional reading of a byte string
  (byte i weighs 256^(len-1-i)) against which the digit order is stated.
- The header and node layouts described in the source's comments are modelled as
  slot-to-offset maps (`HeaderOffset`, `NodeOffset`) with their inverses.

## Model

| member | source | states |
|---|---|---|
| Int64Codec.IntToBytes | project.py:22-23 | the encoding exists exactly for -2^63 <= n < 2^63 and is then exactly 8 bytes long |
| Int64Codec.BytesToInt | project.py:25-26 | the decoded value of a non-empty string of k bytes lies in [-128·256^(k-1), 128·256^(k-1)); it is negative exactly when the first byte's high bit is set; the empty string decodes to 0 |
| Int64Codec.RoundTrip | project.py:22-26 | every value in the signed 64-bit range is encoded, and decoding its encoding gives the value back |
| Int64Codec.ReverseRoundTrip | project.py:22-26 | every 8-byte string decodes to an in-range value whose encoding is that same string |
| Int64Codec.EncodingInjective | project.py:22-23 | two in-range values with the same encoding are equal |
| Int64Codec.TwosComplement | project.py:23 | the unsigned reading of the encoding of n is n mod 2^64: n itself when n >= 0, n + 2^64 when n < 0 |
| Int64Codec.SignBit | project.py:23 | the high bit of byte 0 of the encoding is set if and only if n < 0 |
| Int64Codec.BigEndian | project.py:23 | for every in-range n, the sum over i of byte i times 256^(7-i) is n mod 2^64, and n itself when n >= 0: byte 0 is the most significant |
| Int64Codec.BytesToIntIsSignedDigitSum | project.py:25-26 | for every non-empty string, of any length, the decoded value is the positional sum of the bytes, less 256^length when the first byte's high bit is set |
| Int64Codec.UnsignedIsDigitSum | project.py:26 | the big-endian reading used by the decoder agrees with the positional sum on every suffix of every byte string |
| Int64Codec.HighByte | project.py:26 | the first byte is at least 128 exactly when the unsigned value is at least half of 256^k, the point where the signed reading turns negative |
| Int64Codec.OutOfRangeRefused | project.py:23 | n >= 2^63 and n < -2^63 give `Err(Overflow)` |
| BlockFormat.MagicTag | project.py:9 | the magic tag is 8 bytes, one slot wide, and is the ASCII text "4348PRJ3" |
| BlockFormat.DegreeConstants | project.py:11-13 | max_keys == 2·min_degree - 1 == 19 and children_num == 2·min_degree == max_keys + 1 == 20 |
| BlockFormat.HeaderOffset | project.py:15-16 | each header field starts on a slot boundary and ends within the 24 used bytes |
| BlockFormat.HeaderSlotAt | project.py:15-16 | a header field starts at an offset exactly when the offset is a slot boundary below 24, and it is the field placed there |
| BlockFormat.HeaderLayout | project.py:15 | the magic tag, root id and next id each have their own slot |
| BlockFormat.HeaderFits | project.py:8-16 | the header uses 24 bytes, within the 512-byte block, and the 8-byte tag ends where the root id begins |
| BlockFormat.NodeOffset | project.py:18-19 | each of the 3 + 19 + 19 + 20 node fields starts on a slot boundary and ends within the 488 used bytes |
| BlockFormat.NodeSlotAt | project.py:18-20 | a node field starts at an offset exactly when the offset is a slot boundary below 488, and it is the field placed there |
| BlockFormat.NodeLayout | project.py:18-19 | every node field has its own slot |
| BlockFormat.NodeSlotsDisjoint | project.py:18-19 | the slots of two distinct node fields do not overlap |
| BlockFormat.NodeFits | project.py:8-20 | keys start at byte 24, values at 176, children at 328; the node uses 488 bytes, within the 512-byte block |

## Left out

- `usage_and_exit` and `main` (command-line dispatch, printing, process exit): no logic beyond I/O.
- `cmd_create`, `cmd_insert`, `cmd_search`, `cmd_load`, `cmd_print`, `cmd_extract` and the B-tree engine, block store and node cache behind them: these are not part of this model, as no definition of them is in project.py.
- Encoding and decoding of whole header and node blocks, and the check of the magic tag: the source describes the layout only in comments and has no code for them; only the slot layout is modelled.
- The `int(n)` coercion in `int_to_bytes`: the input is modelled as an integer, so Python's conversion of other types is not modelled.
- The unused `os`, `struct` and `csv` imports.
