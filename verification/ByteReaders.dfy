/**
 Streams being read. Compression is the identity here; a damaged stream is one whose decompressor reports an
 error after its last good byte.
 */
module ByteReaders {
  import opened Wrappers
  import opened Bytes

  datatype Stream = Stream(data: bytes, damaged: bool)

  datatype ReadError = Damaged

  class Reader {
    const data: bytes
    const damaged: bool
    var pos: nat

    constructor (data: bytes, damaged: bool)
      ensures this.data == data && this.damaged == damaged && pos == 0
    {
      this.data := data;
      this.damaged := damaged;
      this.pos := 0;
    }

    ghost predicate Valid()
      reads this
    {
      pos <= |data|
    }

    /**
     `Read::read` into `limit` bytes: a nonempty piece of any length, or nothing at the end or when nothing is asked.
     */
    method Read(limit: nat) returns (r: Result<bytes, ReadError>)
      requires Valid()
      modifies this
      ensures Valid()
      ensures r.Ok? ==> |r.value| <= limit && pos == old(pos) + |r.value| && r.value == data[old(pos)..pos]
      ensures r.Ok? && r.value == [] <==> limit == 0 || (old(pos) == |data| && !damaged)
      ensures r.Err? <==> limit > 0 && old(pos) == |data| && damaged
      ensures r.Err? ==> pos == old(pos)
    {
      if limit == 0 {
        return Ok([]);
      }
      if pos == |data| {
        return if damaged then Err(Damaged) else Ok([]);
      }
      var count: nat :| 1 <= count <= limit && pos + count <= |data|;
      r := Ok(data[pos..pos + count]);
      pos := pos + count;
    }
  }

  /** The stream a reader reads. */
  function Source(reader: Reader): Stream {
    Stream(reader.data, reader.damaged)
  }
}
