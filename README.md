# Spartancoin transaction encoders in Dafny

This project models two byte encoders of Spartancoin, a toy cryptocurrency.
It models them as their unit tests in `tests/test_transactions.py` pin them down:

- `encode_varint(i)` is the Bitcoin variable-length integer, also called CompactSize.
  An unsigned integer below 2^64 becomes 1, 3, 5 or 9 bytes.
  Values 0 to 252 are their own single byte.
  Larger values are a width marker (`0xFD`, `0xFE` or `0xFF`) followed by a 2-, 4- or 8-byte little-endian payload.
  A negative integer, or one too wide for 9 bytes, raises `ValueError`.
- `Tx(prev_tx_hash, sequence, private_key).encode()` is a transaction input.
  It starts with the 32-byte hash of the transaction being spent, copied verbatim.
  The sequence number follows as a 32-bit little-endian word, so the genesis sentinel `-1` becomes `FF FF FF FF`.

The implementation module `spartancoin.transactions` is not part of this model.
The model follows what the tests assert about it.

Files:

- `bytes.dfy` (module `Bytes`) defines the byte type and fixed-width little-endian numbers, with both round trips.
- `varint.dfy` (module `VarInt`) defines `EncodeVarInt`, with `ValueError` as an `Err` result.
  It also holds the lemmas for each width class, the injectivity lemma and the test vectors.
- `transactions.dfy` (module `Transactions`) defines the `Tx` value and its `Encode` function, plus the header lemmas.

`VarInt.PayloadValue` is a reading of an encoding back to an integer.
It is ghost and exists only to state what the encoder means.
No decoder is modelled: the tests import only `encode_varint` and `Tx` (tests/test_transactions.py:12) and decode nothing.

## Model

| member | source | states |
|---|---|---|
| `Bytes.LittleEndianRoundTrip` | tests/test_transactions.py:34-40 | a number below 256^w, written as w little-endian bytes, reads back as itself; this is the meaning of every payload and sequence word |
| `Bytes.LittleEndianInjective` | tests/test_transactions.py:34-40 | distinct numbers that fit in w bytes have distinct w-byte little-endian forms |
| `VarInt.EncodeVarInt` | tests/test_transactions.py:29-56 | succeeds exactly for 0 <= i < 2^64 and otherwise fails with the offending integer; a success is 1 to 9 bytes whose leading byte alone determines the total length (1, 3, 5 or 9) |
| `VarInt.EncodeVarIntSingleByte` | tests/test_transactions.py:32-33 | 0..252 encode as the one byte holding the value |
| `VarInt.EncodeVarIntTwoBytePayload` | tests/test_transactions.py:34-36 | 253..0xFFFF encode as 3 bytes: `FD`, then a 2-byte little-endian payload reading back as i |
| `VarInt.EncodeVarIntFourBytePayload` | tests/test_transactions.py:37-38 | 0x10000..0xFFFFFFFF encode as 5 bytes: `FE`, then a 4-byte little-endian payload reading back as i |
| `VarInt.EncodeVarIntEightBytePayload` | tests/test_transactions.py:39-40 | 2^32..2^64-1 encode as 9 bytes: `FF`, then an 8-byte little-endian payload reading back as i |
| `VarInt.EncodeVarIntMeaning` | tests/test_transactions.py:43-49 | every in-range encoding reads back, by its leading byte and payload, as the integer it was made from |
| `VarInt.EncodeVarIntInjective` | tests/test_transactions.py:29-49 | two integers in range never share an encoding |
| `VarInt.EncodeVarIntShortest` | tests/test_transactions.py:32-40 | the encoder uses the shortest form: 1 byte iff i < 253, at most 3 iff i < 2^16, at most 5 iff i < 2^32 |
| `VarInt.LeadingByteDeterminesLength` | tests/test_transactions.py:32-40 | two encodings that start with the same byte have the same length |
| `VarInt.EncodeVarIntVectorsOneByte` | tests/test_transactions.py:32-33 | 0 gives `00`, 252 gives `FC` |
| `VarInt.EncodeVarIntVectorsThreeBytes` | tests/test_transactions.py:34-36 | 253, 255 and 0x3419 give `FD FD 00`, `FD FF 00` and `FD 19 34` |
| `VarInt.EncodeVarIntVectorsFiveBytes` | tests/test_transactions.py:37-38 | 0xDC4591 and 0x80081E5 give `FE 91 45 DC 00` and `FE E5 81 00 08` |
| `VarInt.EncodeVarIntVectorNineBytesA` | tests/test_transactions.py:39 | 0xB4DA564E2857 gives `FF 57 28 4E 56 DA B4 00 00` |
| `VarInt.EncodeVarIntVectorNineBytesB` | tests/test_transactions.py:40 | 0x4BF583A17D59C158 gives `FF 58 C1 59 7D A1 83 F5 4B` |
| `VarInt.EncodeVarIntRejects` | tests/test_transactions.py:52-56 | -5, -1 and 2^65 are rejected |
| `Transactions.Tx.Encode` | tests/test_transactions.py:69-72 | the encoding is the hash verbatim, then 4 bytes reading back as the sequence mod 2^32, then the key-derived suffix unchanged |
| `Transactions.GenesisHeader` | tests/test_transactions.py:63-72 | with a 32-byte hash and sequence -1, bytes [0,32) are the hash and bytes [32,36) are `FF FF FF FF` |
| `Transactions.SequenceHeader` | tests/test_transactions.py:75-84 | with a 32-byte hash and a sequence in [0, 2^32), bytes [32,36) are the sequence as 4 little-endian bytes; sequence 1 gives `01 00 00 00` |
| `Transactions.GenesisIsMaximalSequence` | tests/test_transactions.py:69-72 | the sentinel -1 encodes exactly as the sequence 0xFFFFFFFF |
| `Transactions.HeaderInjective` | tests/test_transactions.py:69-84 | for 32-byte hashes and sequences in [0, 2^32), equal 36-byte headers imply equal hash and sequence |
| `Transactions.EncodeVectors` | tests/test_transactions.py:62-84 | the assertions of `test_genesis` and `test_generic` on the "Genesis" and "not genesis" hashes |

## Left out

- Elliptic-curve key handling is not modelled.
  This covers secp256k1 key loading, public-key derivation and serialisation, all of which are calls into the `cryptography` library.
  A private key is an opaque `PrivateKey` value.
  Every byte of `Tx.encode()` after offset 36 is one caller-supplied function of that key, `keySuffix`.
  The tests assert nothing about those bytes, so the model gives them no layout.
- Loading the PEM key fixture from disk is file I/O.
- pytest fixtures and parametrisation are not modelled.
  `pytest.raises(ValueError)` becomes the `Err(OutOfRange(i))` result of `EncodeVarInt`.
- No decoders and no round-trip parsing are modelled.
  The tests import only `encode_varint` and `Tx` and decode nothing.
- `VarInt.EncodeVarInt` rejects every integer from 2^64 upward, but the tests pin rejection only at 2^65.
  The bound 2^64 is used because it is one past the largest value an 8-byte payload can hold.
- `Transactions.Tx.Encode` writes the sequence as `sequence % 2^32` for every integer.
  The tests pin this down only for -1 and 1.
  How the implementation treats other values outside [0, 2^32) is not known.
- `Transactions.Tx.Encode` places no length requirement on `prevTxHash`.
  The tests use only 32-byte hashes, so the header lemmas assume 32 bytes.
  What the implementation does with another length is not known.
