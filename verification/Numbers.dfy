/** The limits and formats of the source in numbers, and a few strings of bytes written out. */
module Numbers {
  import Bytes
  import Client
  import EventLoop
  import Handshake
  import Keyspace
  import Pack
  import PackedHash
  import Resp
  import SizeClasses
  import Slab
  import Wal

  /** src/server.hpp:72-80, src/database.hpp and src/wal.cpp. */
  lemma Limits()
    ensures EventLoop.MAX_INPUT == 1_048_576 && EventLoop.BATCH_LIMIT == 1_024 && EventLoop.COMPACT_THRESHOLD == 65_536
    ensures EventLoop.SERVE_LIMIT == 64 && Handshake.EXPIRY_SLICE == 128 && Handshake.EVICTION_SLICE == 256
    ensures Keyspace.LIMIT == 67_108_864 && Keyspace.MAX_KEY == 2_097_151 && Wal.MAX_RECORD == 134_217_728
    ensures PackedHash.PACKED_LIMIT == 128 && PackedHash.PACKED_BYTES == 4_096 && Client.LIMIT == 16_777_216
    ensures Slab.CHUNK_BYTES == 65_536 && SizeClasses.NODE_BYTES == 32 && Client.PLUS == 43 && Client.COLON == 58
  {
  }

  /** Numerals are decimal, with at most one sign. */
  lemma Numerals()
    ensures Bytes.ParseSigned([45, 49, 48, 55]) == Bytes.Some(-107) && Bytes.ParseSigned([48, 52, 50]) == Bytes.Some(42)
    ensures Bytes.ParseSigned([43, 49]) == Bytes.None && Bytes.ParseSigned([45]) == Bytes.None
    ensures Bytes.ParseSigned([]) == Bytes.None
    ensures Bytes.ToDecimal(-907) == [45, 57, 48, 55] && Bytes.ToDecimal(0) == [48]
  {
    var s: Bytes.Bytes := [49, 48, 55];
    assert [45, 49, 48, 55][1..] == s && s[..2] == [49, 48] && [49, 48][..1] == [49] && [49][..0] == [];
    var t: Bytes.Bytes := [48, 52, 50];
    assert t[..2] == [48, 52] && [48, 52][..1] == [48] && [48][..0] == [];
    assert !Bytes.IsDigit([43, 49][0]);
    assert [45][1..] == [];
  }

  /** An element, forwards and backwards: "ab", the integer -2, and the back-lengths of 128 and of 300 bytes. */
  lemma Elements()
    ensures Pack.Encode(Pack.Text([97, 98])) == [2, 97, 98, 3]
    ensures Pack.Encode(Pack.Number(-2)) == [128, 254, 255, 255, 255, 255, 255, 255, 255, 9]
    ensures Pack.EncodeBacklen(128) == [1, 128] && Pack.EncodeBacklen(300) == [2, 172]
  {
    assert Bytes.Put32(0xFFFF_FFFE) == [254, 255, 255, 255] && Bytes.Put32(0xFFFF_FFFF) == [255, 255, 255, 255];
  }

  /** A command as it is sent, and what is made of it: "PING" in the wrong form, and in the right one. */
  lemma Requests()
    ensures Resp.Parse([80, 73, 78, 71, 13, 10]).code == Bytes.Some(Resp.ExpectedArray)
    ensures Resp.Parse([42, 48, 13, 10]).code == Bytes.Some(Resp.EmptyArray)
  {
    assert [42, 48, 13, 10][1..2] == [48] && [48][..0] == [];
  }
}
