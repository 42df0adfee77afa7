// The schema-id frame in front of an Avro payload: written by cmd/generate/main.go,
// read by serdes/avro.go. A zero byte, the id as four big-endian bytes, the payload
// (the "Wire format" section of the Confluent Schema Registry documentation).
module SchemaFrame {

  newtype Byte = x: int | 0 <= x < 256

  const TWO_32 := 0x1_0000_0000
  const TWO_31 := 0x8000_0000

  // uint32(id): the low 32 bits.
  function Low32(id: int): nat {
    id % TWO_32
  }

  function BigEndian(u: nat): seq<Byte>
    requires u < TWO_32
  {
    [(u / 0x100_0000) as Byte, (u / 0x1_0000 % 256) as Byte, (u / 256 % 256) as Byte, (u % 256) as Byte]
  }

  function Frame(id: int, payload: seq<Byte>): seq<Byte> {
    [0] + BigEndian(Low32(id)) + payload
  }

  // int32 of four big-endian bytes.
  function SignedBigEndian(b: seq<Byte>): int
    requires |b| == 4
  {
    var u := b[0] as int * 0x100_0000 + b[1] as int * 0x1_0000 + b[2] as int * 256 + b[3] as int;
    if u < TWO_31 then u else u - TWO_32
  }

  // The id, and whether the bytes are taken for a framed Avro record.
  function IsAvroWithSchemaId(data: seq<Byte>): (int, bool) {
    if |data| < 5 then (-1, false)
    else if data[0] != 0 then (-1, false)
    else (SignedBigEndian(data[1..5]), true)
  }

  // Bytes 1 to 4, the most significant one first.
  function IdBytes(data: seq<Byte>): nat
    requires |data| >= 5
  {
    data[1] as int * 0x100_0000 + data[2] as int * 0x1_0000 + data[3] as int * 256 + data[4] as int
  }

  // The publisher's steps: a four-byte buffer filled in place, then three appends.
  method EncodeRecord(schemaId: int, valueBytes: seq<Byte>) returns (record: seq<Byte>)
    ensures record == Frame(schemaId, valueBytes)
    ensures |record| == 5 + |valueBytes| && record[0] == 0 && record[5..] == valueBytes
    ensures IdBytes(record) == schemaId % TWO_32
  {
    var schemaIdBytes := new Byte[4];
    var u := schemaId % TWO_32;
    schemaIdBytes[0] := (u / 0x100_0000) as Byte;
    schemaIdBytes[1] := (u / 0x1_0000 % 256) as Byte;
    schemaIdBytes[2] := (u / 256 % 256) as Byte;
    schemaIdBytes[3] := (u % 256) as Byte;
    record := [];
    record := record + [0];
    record := record + schemaIdBytes[..];
    record := record + valueBytes;
    BigEndianSum(u);
  }

  // One byte more in front of, or split off, a number.
  lemma OneByte(q: nat, r: nat)
    requires r < 256
    ensures (q * 256 + r) / 256 == q && (q * 256 + r) % 256 == r
  {
  }

  lemma SplitByte(u: nat)
    ensures u == u / 256 * 256 + u % 256
    ensures u / 0x1_0000 == u / 256 / 256 && u / 0x100_0000 == u / 0x1_0000 / 256
  {
  }

  lemma BigEndianSum(u: nat)
    requires u < TWO_32
    ensures var b := BigEndian(u);
            b[0] as int * 0x100_0000 + b[1] as int * 0x1_0000 + b[2] as int * 256 + b[3] as int == u
  {
    SplitByte(u);
    SplitByte(u / 256);
    SplitByte(u / 0x1_0000);
  }

  lemma {:induction false} BigEndianUnique(b: seq<Byte>)
    requires |b| == 4
    ensures var u := b[0] as int * 0x100_0000 + b[1] as int * 0x1_0000 + b[2] as int * 256 + b[3] as int;
            0 <= u < TWO_32 && BigEndian(u) == b
  {
    var h: nat := b[0] as int * 256 + b[1] as int;
    var t: nat := h * 256 + b[2] as int;
    var u := t * 256 + b[3] as int;
    OneByte(b[0] as int, b[1] as int);
    OneByte(h, b[2] as int);
    OneByte(t, b[3] as int);
    SplitByte(u);
    assert u / 256 == t && u / 0x1_0000 == h && u / 0x100_0000 == b[0] as int;
    assert BigEndian(u) == b;
  }

  lemma Low32OfSigned(u: nat)
    requires u < TWO_32
    ensures Low32(u) == u && Low32(u - TWO_32) == u
  {
  }

  // Decoding an encoded frame always succeeds and leaves the payload; it returns the
  // id exactly when the id is a signed 32-bit number.
  lemma RoundTripIff(id: int, payload: seq<Byte>)
    ensures var (decoded, ok) := IsAvroWithSchemaId(Frame(id, payload));
            && ok
            && (decoded == id <==> -TWO_31 <= id < TWO_31)
    ensures Frame(id, payload)[5..] == payload
  {
    var u := Low32(id);
    BigEndianSum(u);
    assert Frame(id, payload)[1..5] == BigEndian(u);
  }

  // Conversely, whatever the decoder accepts is the frame of the id it reports: the
  // signed number of the four bytes.
  lemma {:induction false} AcceptedIsAFrame(data: seq<Byte>)
    ensures var (id, ok) := IsAvroWithSchemaId(data);
            && (ok <==> |data| >= 5 && data[0] == 0)
            && (ok ==> data == Frame(id, data[5..]) && -TWO_31 <= id < TWO_31 && id % TWO_32 == IdBytes(data))
  {
    if |data| >= 5 && data[0] == 0 {
      var b := data[1..5];
      BigEndianUnique(b);
      Low32OfSigned(b[0] as int * 0x100_0000 + b[1] as int * 0x1_0000 + b[2] as int * 256 + b[3] as int);
      assert data == [data[0]] + data[1..5] + data[5..];
    }
  }

  // No two ids or payloads share a frame within the 32-bit range.
  lemma FramesAreInjective(id: int, payload: seq<Byte>, id': int, payload': seq<Byte>)
    requires 0 <= id < TWO_31 && 0 <= id' < TWO_31
    requires Frame(id, payload) == Frame(id', payload')
    ensures id == id' && payload == payload'
  {
    RoundTripIff(id, payload);
    RoundTripIff(id', payload');
  }
}
