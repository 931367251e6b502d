/** Per-chunk temporary files of length-prefixed records (internal/storage/chunk_bucket.go). */
module ChunkBucket {
  import opened Common

  type byte = x: int | 0 <= x < 256

  /** Protobuf's Marshal and Unmarshal for one message type. */
  datatype Codec<!T> = Codec(marshal: T -> seq<byte>, unmarshal: seq<byte> -> Option<T>)

  ghost predicate Lossless<T(!new)>(c: Codec<T>) {
    forall t :: |c.marshal(t)| < TWO_32 && c.unmarshal(c.marshal(t)) == Some(t)
  }

  // ----- Framing

  /** The size lowest bytes of n, least significant first. */
  function LittleEndian(n: nat, size: nat): (bytes: seq<byte>)
    ensures |bytes| == size
  {
    if size == 0 then [] else [n % 256] + LittleEndian(n / 256, size - 1)
  }

  function FromLittleEndian(bytes: seq<byte>): nat {
    if bytes == [] then 0 else bytes[0] + FromLittleEndian(bytes[1..]) * 256
  }

  function Pow256(size: nat): nat {
    if size == 0 then 1 else Pow256(size - 1) * 256
  }

  lemma {:induction false} LittleEndianRoundTrip(n: nat, size: nat)
    requires n < Pow256(size)
    ensures FromLittleEndian(LittleEndian(n, size)) == n
  {
    if size > 0 {
      LittleEndianRoundTrip(n / 256, size - 1);
      assert LittleEndian(n, size)[1..] == LittleEndian(n / 256, size - 1);
    }
  }

  /** The 4-byte length prefix. */
  function Prefix(size: nat): seq<byte> {
    LittleEndian(Wrap32(size), 4)
  }

  lemma PrefixRoundTrip(size: nat)
    requires size < TWO_32
    ensures FromLittleEndian(Prefix(size)) == size
  {
    assert Pow256(4) == 256 * Pow256(3) == 0x1_0000 * Pow256(2) == TWO_32;
    LittleEndianRoundTrip(size, 4);
  }

  /** Four bytes, the lowest first. */
  lemma PrefixBytes(size: nat)
    requires size < TWO_32
    ensures var b := Prefix(size); |b| == 4 && Weighed(b[0], b[1], b[2], b[3]) == size
  {
    var s1, s2, s3 := size / 256, size / 256 / 256, size / 256 / 256 / 256;
    assert LittleEndian(s3, 1) == [s3 % 256] + LittleEndian(s3 / 256, 0);
    assert LittleEndian(s2, 2) == [s2 % 256] + LittleEndian(s3, 1);
    assert LittleEndian(s1, 3) == [s1 % 256] + LittleEndian(s2, 2);
    assert Prefix(size) == [size % 256] + LittleEndian(s1, 3);
  }

  function Weighed(b0: int, b1: int, b2: int, b3: int): int {
    b0 + 256 * b1 + 65536 * b2 + 16777216 * b3
  }

  function Record<T>(c: Codec<T>, t: T): seq<byte> {
    var data := c.marshal(t);
    Prefix(|data|) + data
  }

  function EncodeAll<T>(c: Codec<T>, ts: seq<T>): seq<byte> {
    if ts == [] then [] else Record(c, ts[0]) + EncodeAll(c, ts[1..])
  }

  datatype ReadError = ShortLength | ShortData | BadMessage

  /** What a reader makes of the bytes of a file: the records, or why they do not parse. */
  function DecodeAll<T>(c: Codec<T>, bytes: seq<byte>): Result<seq<T>, ReadError>
    decreases |bytes|
  {
    if |bytes| == 0 then Ok([])
    else if |bytes| < 4 then Err(ShortLength)
    else
      var n := FromLittleEndian(bytes[..4]);
      if |bytes| < 4 + n then Err(ShortData)
      else
        match c.unmarshal(bytes[4..4 + n])
        case None => Err(BadMessage)
        case Some(t) => Prepend([t], DecodeAll(c, bytes[4 + n..]))
  }

  function Prepend<T>(ts: seq<T>, r: Result<seq<T>, ReadError>): Result<seq<T>, ReadError> {
    match r
    case Ok(us) => Ok(ts + us)
    case Err(e) => Err(e)
  }

  lemma PrependNothing<T>(r: Result<seq<T>, ReadError>)
    ensures Prepend([], r) == r
  {
    if r.Ok? {
      assert [] + r.value == r.value;
    }
  }

  lemma PrependTwice<T>(ts: seq<T>, us: seq<T>, r: Result<seq<T>, ReadError>)
    ensures Prepend(ts, Prepend(us, r)) == Prepend(ts + us, r)
  {
    if r.Ok? {
      assert ts + (us + r.value) == ts + us + r.value;
    }
  }

  lemma {:induction false} EncodeAppend<T>(c: Codec<T>, ts: seq<T>, t: T)
    ensures EncodeAll(c, ts + [t]) == EncodeAll(c, ts) + Record(c, t)
  {
    if ts == [] {
      assert [t][1..] == [];
    } else {
      EncodeAppend(c, ts[1..], t);
      assert (ts + [t])[1..] == ts[1..] + [t];
    }
  }

  lemma DecodeRecord<T(!new)>(c: Codec<T>, t: T, rest: seq<byte>)
    requires Lossless(c)
    ensures DecodeAll(c, Record(c, t) + rest) == Prepend([t], DecodeAll(c, rest))
  {
    var data := c.marshal(t);
    var bytes := Record(c, t) + rest;
    PrefixRoundTrip(|data|);
    assert bytes[..4] == Prefix(|data|);
    assert bytes[4..4 + |data|] == data;
    assert bytes[4 + |data|..] == rest;
  }

  lemma {:induction false} ReadBack<T(!new)>(c: Codec<T>, ts: seq<T>)
    requires Lossless(c)
    ensures DecodeAll(c, EncodeAll(c, ts)) == Ok(ts)
  {
    if ts != [] {
      var rest := EncodeAll(c, ts[1..]);
      ReadBack(c, ts[1..]);
      assert [ts[0]] + ts[1..] == ts;
      DecodeRecord(c, ts[0], rest);
    }
  }

  ghost predicate RecordBoundary<T>(c: Codec<T>, ts: seq<T>, n: nat, m: int) {
    0 <= m <= |ts| && |EncodeAll(c, ts[..m])| == n
  }

  /** A file cut after n bytes reads as the first m records if the cut falls at the end of record m,
      and is reported as an error if it falls anywhere else. */
  lemma {:induction false} ReadTruncated<T(!new)>(c: Codec<T>, ts: seq<T>, n: nat)
    requires Lossless(c) && n <= |EncodeAll(c, ts)|
    ensures forall m :: RecordBoundary(c, ts, n, m) ==> DecodeAll(c, EncodeAll(c, ts)[..n]) == Ok(ts[..m])
    ensures DecodeAll(c, EncodeAll(c, ts)[..n]).Ok? <==> exists m :: RecordBoundary(c, ts, n, m)
  {
    var cut := EncodeAll(c, ts)[..n];
    if n == 0 {
      assert ts[..0] == [];
      assert RecordBoundary(c, ts, n, 0);
      forall m: nat | 0 < m <= |ts|
        ensures |EncodeAll(c, ts[..m])| > 0
      {
        assert ts[..m][0] == ts[0];
      }
    } else {
      var r := Record(c, ts[0]);
      forall m: nat | 0 < m <= |ts|
        ensures EncodeAll(c, ts[..m]) == r + EncodeAll(c, ts[1..][..m - 1])
      {
        assert ts[..m][1..] == ts[1..][..m - 1];
      }
      assert EncodeAll(c, ts[..0]) == [];
      if n < |r| {
        assert cut == r[..n];
        CutRecord(c, ts[0], cut);
        assert forall m: nat :: 0 < m <= |ts| ==> |EncodeAll(c, ts[..m])| > n;
      } else {
        var n' := n - |r|;
        ReadTruncated(c, ts[1..], n');
        assert cut == r + EncodeAll(c, ts[1..])[..n'];
        DecodeRecord(c, ts[0], EncodeAll(c, ts[1..])[..n']);
        forall m | RecordBoundary(c, ts, n, m)
          ensures DecodeAll(c, cut) == Ok(ts[..m])
        {
          assert RecordBoundary(c, ts[1..], n', m - 1);
          assert [ts[0]] + ts[1..][..m - 1] == ts[..m];
        }
        if m' :| RecordBoundary(c, ts[1..], n', m') {
          assert RecordBoundary(c, ts, n, m' + 1);
        }
      }
    }
  }

  lemma CutRecord<T(!new)>(c: Codec<T>, t: T, cut: seq<byte>)
    requires Lossless(c) && 0 < |cut| < |Record(c, t)| && cut <= Record(c, t)
    ensures DecodeAll(c, cut).Err?
  {
    if |cut| >= 4 {
      PrefixRoundTrip(|c.marshal(t)|);
      assert cut[..4] == Prefix(|c.marshal(t)|);
    }
  }

  /** DecodeAll seen from position pos of a file. */
  lemma DecodeAt<T>(c: Codec<T>, file: seq<byte>, pos: nat)
    requires pos <= |file| - 4
    ensures var n, next := FromLittleEndian(file[pos..pos + 4]), pos + 4;
      DecodeAll(c, file[pos..]) ==
        if |file| < next + n then Err(ShortData)
        else match c.unmarshal(file[next..next + n])
             case None => Err(BadMessage)
             case Some(t) => Prepend([t], DecodeAll(c, file[next + n..]))
  {
    var rest, n := file[pos..], FromLittleEndian(file[pos..pos + 4]);
    assert rest[..4] == file[pos..pos + 4];
    if pos + 4 + n <= |file| {
      assert rest[4..4 + n] == file[pos + 4..pos + 4 + n];
      assert rest[4 + n..] == file[pos + 4 + n..];
    }
  }

  // ----- The bucket

  class Bucket<T(!new)> {
    const codec: Codec<T>
    var disk: map<uint32, seq<byte>>     // the files of the bucket directory
    var writers: map<uint32, seq<byte>>  // open buffered writers and the bytes they still hold
    ghost var records: map<uint32, seq<T>>  // what has been written to each chunk so far

    ghost function Records(k: uint32): seq<T>
      reads this
    {
      if k in records then records[k] else []
    }

    function OnDisk(k: uint32): seq<byte>
      reads this
    {
      if k in disk then disk[k] else []
    }

    function Buffered(k: uint32): seq<byte>
      reads this
    {
      if k in writers then writers[k] else []
    }

    ghost function Content(k: uint32): seq<byte>
      reads this
    {
      OnDisk(k) + Buffered(k)
    }

    /** Disk and buffer together hold exactly the records written, in order. */
    ghost predicate Valid()
      reads this
    {
      && Lossless(codec)
      && writers.Keys <= disk.Keys
      && forall k :: Content(k) == EncodeAll(codec, Records(k))
    }

    constructor (codec: Codec<T>)
      requires Lossless(codec)
      ensures Valid() && this.codec == codec
      ensures records == map[] && writers == map[]
    {
      this.codec := codec;
      disk, writers, records := map[], map[], map[];
    }

    /** bufio: bytes join the buffer, and any part of it may reach the file at any time. */
    method BufferedWrite(k: uint32, bytes: seq<byte>)
      requires k in writers && writers.Keys <= disk.Keys
      modifies this`disk, this`writers
      ensures writers.Keys == old(writers.Keys) && disk.Keys == old(disk.Keys)
      ensures Content(k) == old(Content(k)) + bytes
      ensures forall j :: j != k ==> Content(j) == old(Content(j))
    {
      var pending := writers[k] + bytes;
      var spilled: nat :| spilled <= |pending|;
      assert pending == pending[..spilled] + pending[spilled..];
      disk := disk[k := disk[k] + pending[..spilled]];
      writers := writers[k := pending[spilled..]];
    }

    method OpenWriter(k: uint32)
      requires writers.Keys <= disk.Keys
      modifies this`disk, this`writers
      ensures k in writers && writers.Keys <= disk.Keys
      ensures forall j :: Content(j) == old(Content(j))
    {
      if k !in writers {
        disk := disk[k := OnDisk(k)];
        writers := writers[k := []];
      }
    }

    method AppendRecord(k: uint32, length: seq<byte>, data: seq<byte>)
      requires writers.Keys <= disk.Keys
      modifies this`disk, this`writers
      ensures writers.Keys <= disk.Keys
      ensures Content(k) == old(Content(k)) + (length + data)
      ensures forall j :: j != k ==> Content(j) == old(Content(j))
    {
      OpenWriter(k);
      BufferedWrite(k, length);
      BufferedWrite(k, data);
      assert old(Content(k)) + length + data == old(Content(k)) + (length + data);
    }

    method Write(k: uint32, t: T)
      requires Valid()
      modifies this
      ensures Valid()
      ensures records == old(records)[k := old(Records(k)) + [t]]
    {
      EncodeAppend(codec, Records(k), t);
      var data := codec.marshal(t);
      AppendRecord(k, Prefix(|data|), data);
      records := records[k := Records(k) + [t]];
      forall j
        ensures Content(j) == EncodeAll(codec, Records(j))
      {
        assert old(Content(j)) == EncodeAll(codec, old(Records(j)));
        assert Records(j) == if j == k then old(Records(k)) + [t] else old(Records(j));
      }
    }

    method Flush()
      requires Valid()
      modifies this`disk, this`writers
      ensures Valid()
      ensures writers == map[]
    {
      var open := writers.Keys;
      while open != {}
        invariant Valid() && open <= writers.Keys
        invariant forall k :: k in writers && k !in open ==> writers[k] == []
      {
        var k :| k in open;
        label Before:
        disk := disk[k := disk[k] + writers[k]];
        writers := writers[k := []];
        open := open - {k};
        forall j
          ensures Content(j) == EncodeAll(codec, Records(j))
        {
          assert Content(j) == old@Before(Content(j));
        }
      }
      label Flushed:
      writers := map[];
      forall k
        ensures Content(k) == EncodeAll(codec, Records(k))
      {
        assert Content(k) == OnDisk(k) + [] == old@Flushed(Content(k));
      }
    }

    /** Reads the file of chunk k, if there is one. */
    method Read(k: uint32) returns (r: Result<seq<T>, ReadError>)
      requires Valid()
      ensures r == DecodeAll(codec, OnDisk(k))
      ensures Buffered(k) == [] ==> r == Ok(Records(k))
    {
      assert Buffered(k) == [] ==> Content(k) == OnDisk(k);
      ReadBack(codec, Records(k));
      if k !in disk {
        return Ok([]);
      }
      r := ReadRecords(codec, disk[k]);
    }
  }

  method ReadRecords<T>(codec: Codec<T>, file: seq<byte>) returns (r: Result<seq<T>, ReadError>)
    ensures r == DecodeAll(codec, file)
  {
    hide FromLittleEndian;
    var pos, states := 0, [];
    assert file[0..] == file;
    PrependNothing(DecodeAll(codec, file));
    while pos < |file|
      invariant 0 <= pos <= |file|
      invariant DecodeAll(codec, file) == Prepend(states, DecodeAll(codec, file[pos..]))
      decreases |file| - pos
    {
      if |file| - pos < 4 {
        return Err(ShortLength);
      }
      DecodeAt(codec, file, pos);
      var dataLen := FromLittleEndian(file[pos..pos + 4]);
      pos := pos + 4;
      if |file| - pos < dataLen {
        return Err(ShortData);
      }
      var state := codec.unmarshal(file[pos..pos + dataLen]);
      if state.None? {
        return Err(BadMessage);
      }
      PrependTwice(states, [state.value], DecodeAll(codec, file[pos + dataLen..]));
      states := states + [state.value];
      pos := pos + dataLen;
    }
    assert file[pos..] == [] && states + [] == states;
    r := Ok(states);
  }
}
