/** The transaction input `Tx(prev_tx_hash, sequence, private_key)` and the
    header of its wire encoding: the 32-byte hash of the transaction being
    spent, then the sequence number as a 32-bit little-endian word. What
    follows the header is derived from the public key of `private_key` by the
    cryptography library and is an opaque suffix here. */
module Transactions {
  import opened Bytes

  /** Length of a transaction hash. */
  const HashLength: nat := 32

  /** Length of the header: the hash and the 4-byte sequence word. */
  const HeaderLength: nat := HashLength + 4

  /** Sequence words are 32 bits wide; a sequence is written modulo this. */
  const SequenceModulus: int := 0x1_0000_0000

  /** The sentinel sequence of a genesis input. */
  const GenesisSequence: int := -1

  /** A secp256k1 private key. Only its identity matters here: deriving and
      serialising its public key is left to `keySuffix` below. */
  datatype PrivateKey = PrivateKey(secret: nat)

  /** A transaction input. */
  datatype Tx = Tx(prevTxHash: seq<byte>, sequence: int, privateKey: PrivateKey)
  {
    /** `Tx.encode()`. `keySuffix` stands for the bytes the source derives
        from the private key's public key; they follow the header unchanged.
        The hash comes first, verbatim, then 4 bytes that read back as the
        sequence modulo 2^32. */
    function Encode(keySuffix: PrivateKey -> seq<byte>): (r: seq<byte>)
      ensures |r| == |prevTxHash| + 4 + |keySuffix(privateKey)|
      ensures r[..|prevTxHash|] == prevTxHash
      ensures FromLittleEndian(r[|prevTxHash|..|prevTxHash| + 4]) == sequence % SequenceModulus
      ensures r[|prevTxHash| + 4..] == keySuffix(privateKey)
    {
      var word := LittleEndian(sequence % SequenceModulus, 4);
      LittleEndianRoundTrip(sequence % SequenceModulus, 4);
      assert (prevTxHash + word + keySuffix(privateKey))[|prevTxHash|..|prevTxHash| + 4] == word;
      prevTxHash + word + keySuffix(privateKey)
    }
  }

  /** A genesis input (sequence -1) with a 32-byte hash encodes the hash
      verbatim followed by the word FF FF FF FF. */
  lemma GenesisHeader(tx: Tx, keySuffix: PrivateKey -> seq<byte>)
    requires |tx.prevTxHash| == HashLength && tx.sequence == GenesisSequence
    ensures tx.Encode(keySuffix)[..HashLength] == tx.prevTxHash
    ensures tx.Encode(keySuffix)[HashLength..HeaderLength] == [0xFF, 0xFF, 0xFF, 0xFF]
  {
    var word := tx.Encode(keySuffix)[HashLength..HeaderLength];
    FromLittleEndianRoundTrip(word);
    assert LittleEndian(0xFFFF_FFFF, 4) == [0xFF, 0xFF, 0xFF, 0xFF];
  }

  /** A sequence in [0, 2^32) is written as itself in 4 little-endian bytes;
      sequence 1 becomes 01 00 00 00. */
  lemma SequenceHeader(tx: Tx, keySuffix: PrivateKey -> seq<byte>)
    requires |tx.prevTxHash| == HashLength && 0 <= tx.sequence < SequenceModulus
    ensures tx.Encode(keySuffix)[..HashLength] == tx.prevTxHash
    ensures tx.Encode(keySuffix)[HashLength..HeaderLength] == LittleEndian(tx.sequence, 4)
    ensures tx.sequence == 1 ==> tx.Encode(keySuffix)[HashLength..HeaderLength] == [0x01, 0x00, 0x00, 0x00]
  {
  }

  /** The sentinel -1 and the largest sequence 0xFFFFFFFF encode identically. */
  lemma GenesisIsMaximalSequence(hash: seq<byte>, key: PrivateKey, keySuffix: PrivateKey -> seq<byte>)
    ensures Tx(hash, GenesisSequence, key).Encode(keySuffix) == Tx(hash, SequenceModulus - 1, key).Encode(keySuffix)
  {
  }

  /** The header identifies the hash and the sequence: two inputs with 32-byte
      hashes and sequences in [0, 2^32) whose 36-byte headers agree (under the
      same `keySuffix`) have the same hash and sequence. */
  lemma HeaderInjective(t: Tx, u: Tx, keySuffix: PrivateKey -> seq<byte>)
    requires |t.prevTxHash| == HashLength && |u.prevTxHash| == HashLength
    requires 0 <= t.sequence < SequenceModulus && 0 <= u.sequence < SequenceModulus
    requires t.Encode(keySuffix)[..HeaderLength] == u.Encode(keySuffix)[..HeaderLength]
    ensures t.prevTxHash == u.prevTxHash && t.sequence == u.sequence
  {
    var a, b := t.Encode(keySuffix), u.Encode(keySuffix);
    assert t.prevTxHash == a[..HeaderLength][..HashLength] == b[..HeaderLength][..HashLength] == u.prevTxHash;
    assert t.sequence == FromLittleEndian(a[..HeaderLength][HashLength..]) == FromLittleEndian(b[..HeaderLength][HashLength..]) == u.sequence;
  }

  /** The 32-byte hashes the two tests build: "Genesis" and "not genesis",
      each padded with zero bytes. */
  const GenesisHash: seq<byte> := [0x47, 0x65, 0x6E, 0x65, 0x73, 0x69, 0x73] + seq(25, _ => 0)
  const NotGenesisHash: seq<byte> := [0x6E, 0x6F, 0x74, 0x20, 0x67, 0x65, 0x6E, 0x65, 0x73, 0x69, 0x73] + seq(21, _ => 0)

  /** The assertions of `test_genesis` and `test_generic`. */
  lemma EncodeVectors(key: PrivateKey, keySuffix: PrivateKey -> seq<byte>)
    ensures Tx(GenesisHash, -1, key).Encode(keySuffix)[..32] == GenesisHash
    ensures Tx(GenesisHash, -1, key).Encode(keySuffix)[32..36] == [0xFF, 0xFF, 0xFF, 0xFF]
    ensures Tx(NotGenesisHash, 1, key).Encode(keySuffix)[..32] == NotGenesisHash
    ensures Tx(NotGenesisHash, 1, key).Encode(keySuffix)[32..36] == [0x01, 0x00, 0x00, 0x00]
  {
    GenesisHeader(Tx(GenesisHash, -1, key), keySuffix);
    SequenceHeader(Tx(NotGenesisHash, 1, key), keySuffix);
  }
}
