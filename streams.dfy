/** The objects the transform reads from and writes to: standard input as a cursor over
    its bytes, standard output as the log of what was written to it, the SHA-1 hasher as
    the log of what it absorbed, and `HashingWrite`, which feeds every buffer to the
    hasher and then forwards it. */
module Streams {
  import opened Bytes
  import opened Codecs

  /** Standard input: all of its bytes and how many have been read. */
  class InputStream {
    const data: seq<byte>
    var pos: nat

    ghost predicate Valid()
      reads this
    {
      pos <= |data|
    }

    constructor (data: seq<byte>)
      ensures this.data == data && pos == 0 && Valid()
    {
      this.data := data;
      pos := 0;
    }

    /** The bytes not read yet. */
    function Rest(): (r: seq<byte>)
      reads this
      requires Valid()
      ensures |r| == |data| - pos
    {
      data[pos..]
    }

    /** `read_u8`: the next byte, or None at the end of the input. */
    method ReadU8() returns (b: Option<byte>)
      requires Valid()
      modifies this
      ensures Valid()
      ensures old(pos) < |data| ==> b == Some(data[old(pos)]) && pos == old(pos) + 1
      ensures old(pos) == |data| ==> b == None && pos == old(pos)
    {
      if pos < |data| {
        b := Some(data[pos]);
        pos := pos + 1;
      } else {
        b := None;
      }
    }

    /** `read_exact`: the next n bytes, or None when fewer remain; what was there is
        consumed either way. */
    method ReadExact(n: nat) returns (bytes: Option<seq<byte>>)
      requires Valid()
      modifies this
      ensures Valid()
      ensures old(pos) + n <= |data| ==> bytes == Some(data[old(pos)..old(pos) + n]) && pos == old(pos) + n
      ensures |data| < old(pos) + n ==> bytes == None && pos == |data|
    {
      if pos + n <= |data| {
        bytes := Some(data[pos..pos + n]);
        pos := pos + n;
      } else {
        bytes := None;
        pos := |data|;
      }
    }

    /** `read_u32::<BigEndian>`. */
    method ReadU32BE() returns (v: Option<nat>)
      requires Valid()
      modifies this
      ensures Valid()
      ensures old(pos) + 4 <= |data| ==> v == Some(FromBE32(data[old(pos)..old(pos) + 4])) && pos == old(pos) + 4
      ensures |data| < old(pos) + 4 ==> v == None && pos == |data|
    {
      var bytes := ReadExact(4);
      if bytes.Some? {
        v := Some(FromBE32(bytes.value));
      } else {
        v := None;
      }
    }

    /** The k bytes a codec reading from this stream pulled. */
    method Advance(k: nat)
      requires Valid() && pos + k <= |data|
      modifies this
      ensures Valid() && pos == old(pos) + k
    {
      pos := pos + k;
    }

    /** `bytes().count()`: reads the input to its end, counting the bytes. */
    method CountRemaining() returns (n: nat)
      requires Valid()
      modifies this
      ensures Valid() && pos == |data|
      ensures n == |data| - old(pos)
    {
      n := 0;
      while true
        invariant Valid() && n == pos - old(pos)
        decreases |data| - pos
      {
        var b := ReadU8();
        if b.None? {
          return;
        }
        n := n + 1;
      }
    }
  }

  /** Standard output: everything written to it, in order. Writes are write-all. */
  class Stdout {
    var contents: seq<byte>

    constructor ()
      ensures contents == []
    {
      contents := [];
    }

    method Write(buf: seq<byte>)
      modifies this
      ensures contents == old(contents) + buf
    {
      contents := contents + buf;
    }

    /** Writes are write-all and nothing is buffered, so flushing changes nothing. */
    method Flush()
      ensures contents == old(contents)
    {
    }
  }

  /** A SHA-1 hasher. Its state is determined by the bytes it has absorbed; `digest` is
      the hash function itself, which is not modelled. */
  class Sha1 {
    const digest: seq<byte> -> Digest
    var absorbed: seq<byte>

    constructor (digest: seq<byte> -> Digest)
      ensures this.digest == digest && absorbed == []
    {
      this.digest := digest;
      absorbed := [];
    }

    /** `input`: feed more bytes. */
    method Input(buf: seq<byte>)
      modifies this
      ensures absorbed == old(absorbed) + buf
    {
      absorbed := absorbed + buf;
    }

    /** `result`: the digest of everything absorbed. */
    function Result(): Digest
      reads this
    {
      digest(absorbed)
    }
  }

  /** The digest-tracking sink that wraps standard output. */
  class HashingWrite {
    const hasher: Sha1
    const actual: Stdout

    /** Until the digest is written, the destination has received exactly what the
        hasher absorbed. */
    ghost predicate InSync()
      reads hasher, actual
    {
      hasher.absorbed == actual.contents
    }

    constructor (hasher: Sha1, actual: Stdout)
      ensures this.hasher == hasher && this.actual == actual
    {
      this.hasher := hasher;
      this.actual := actual;
    }

    /** `write`: the hasher absorbs buf, then buf is forwarded to the destination. */
    method Write(buf: seq<byte>)
      modifies hasher, actual
      ensures hasher.absorbed == old(hasher.absorbed) + buf
      ensures actual.contents == old(actual.contents) + buf
    {
      hasher.Input(buf);
      actual.Write(buf);
    }

    /** `flush`: forwarded to the destination; the hasher is not involved. */
    method Flush()
      ensures hasher.absorbed == old(hasher.absorbed)
      ensures actual.contents == old(actual.contents)
    {
      actual.Flush();
    }

    /** `write_u8`. */
    method WriteU8(b: byte)
      modifies hasher, actual
      ensures hasher.absorbed == old(hasher.absorbed) + [b]
      ensures actual.contents == old(actual.contents) + [b]
    {
      Write([b]);
    }

    /** `write_u32::<BigEndian>`. */
    method WriteU32BE(v: nat)
      requires v < U32
      modifies hasher, actual
      ensures hasher.absorbed == old(hasher.absorbed) + ToBE32(v)
      ensures actual.contents == old(actual.contents) + ToBE32(v)
    {
      Write(ToBE32(v));
    }
  }
}
