/** A reference definition, as functions over the whole input, of what one pass of
    the recompressor reads and writes: the 12-byte pack header, `count` objects (type and
    size varint, optional delta base, transcoded payload) and the trailer. Each function
    says, for a read position, how far the pass gets and exactly which bytes it writes
    to the hashing sink on the way, including when it stops on an error. */
module PackSpec {
  import opened Bytes
  import opened ObjectTypes
  import opened Codecs

  /** "PACK" in ASCII. */
  const Magic: seq<byte> := [0x50, 0x41, 0x43, 0x4B]
  const Version: nat := 2
  const PackHeaderLen: nat := 12
  /** A ref-delta base is named by its 20-byte object id. */
  const BaseIdLen: nat := 20
  /** The pack ends with a 20-byte SHA-1 of everything before it. */
  const TrailerLen: nat := 20
  /** A u64 may not be shifted by this many bits or more. */
  const ShiftLimit: nat := 64
  /** The k-th continuation byte (from 0) holds size bits from 4 + 7k up, so only the
      first nine of them can be shifted into place. */
  const MaxContinuationBytes: nat := 9

  /** Why a pass stops. `transform` signals BadMagic, UnsupportedVersion, ShiftOverflow,
      UnknownObjectType and SizeMismatch by panicking, the others as an io::Error. The
      values these constructors carry (the version, the tag, the two sizes) are for the
      model's statements: the panic messages of `transform` do not include them. */
  datatype Error =
    | Eof                                       // the input ended inside a field
    | BadMagic                                  // the first four bytes are not "PACK"
    | UnsupportedVersion(version: nat)          // the version field is not 2
    | ShiftOverflow                             // a size chunk would be shifted by 64 bits or more
    | UnknownObjectType(tag: byte)              // the type tag names no enumerator
    | DecoderError                              // the zlib decoder reported an error
    | SizeMismatch(expected: nat, actual: nat)  // the payload does not have the declared size
    | TrailingData(remaining: nat)              // input bytes are left over after the trailer

  /** How a stage ends: at a read position, or with an error. Either way, `written` is
      what the stage wrote through the hashing sink. */
  datatype Step = Next(pos: nat, written: seq<byte>) | Halt(error: Error, written: seq<byte>)

  function Prepend(w: seq<byte>, s: Step): (r: Step)
    ensures r.written == w + s.written
    ensures r.Next? == s.Next?
    ensures r.Next? ==> r.pos == s.pos
    ensures r.Halt? ==> r.error == s.error
  {
    match s
    case Next(p, w') => Next(p, w + w')
    case Halt(e, w') => Halt(e, w + w')
  }

  // ---------------------------------------------------------------------------------
  // Pack header

  /** Reading and echoing the magic, the version and the object count. */
  function PackHeader(data: seq<byte>): (h: Step)
    ensures h.written <= data
    ensures h.Next? <==> PackHeaderLen <= |data| && data[..4] == Magic && FromBE32(data[4..8]) == Version
    ensures h.Next? ==> h.pos == PackHeaderLen && h.written == data[..PackHeaderLen]
    ensures h.Halt? && h.error == BadMagic ==> h.written == []
    ensures h.Halt? && h.error.UnsupportedVersion? ==> h.written == Magic
  {
    if |data| < 4 then Halt(Eof, [])
    else if data[..4] != Magic then Halt(BadMagic, [])
    else if |data| < 8 then Halt(Eof, Magic)
    else if FromBE32(data[4..8]) != Version then Halt(UnsupportedVersion(FromBE32(data[4..8])), Magic)
    else
      BE32Canonical(data[4..8]);
      if |data| < PackHeaderLen then Halt(Eof, Magic + ToBE32(Version))
      else
        BE32Canonical(data[8..12]);
        assert data[..PackHeaderLen] == data[..4] + data[4..8] + data[8..12];
        Next(PackHeaderLen, Magic + ToBE32(Version) + ToBE32(FromBE32(data[8..12])))
  }

  function PackCount(data: seq<byte>): nat
    requires PackHeaderLen <= |data|
  {
    FromBE32(data[8..12])
  }

  // ---------------------------------------------------------------------------------
  // Object header: type tag and size varint

  /** The declared size carried by a complete object header: the low four bits of the
      first byte, then seven bits from every further byte, starting at bit 4. */
  function HeaderSize(hdr: seq<byte>): nat
    requires |hdr| >= 1
    decreases |hdr|
  {
    if |hdr| == 1 then hdr[0] % 16
    else HeaderSize(hdr[..|hdr| - 1]) + Shl(hdr[|hdr| - 1] % 128, 4 + 7 * (|hdr| - 2))
  }

  /** A header of n bytes carries a size of at most 4 + 7(n - 1) bits. */
  lemma {:induction false} HeaderSizeBound(hdr: seq<byte>)
    requires |hdr| >= 1
    ensures HeaderSize(hdr) < Pow2(4 + 7 * (|hdr| - 1))
    decreases |hdr|
  {
    if |hdr| == 1 {
      assert Pow2(4) == 16;
    } else {
      HeaderSizeBound(hdr[..|hdr| - 1]);
      ChunkFits(HeaderSize(hdr[..|hdr| - 1]), hdr[|hdr| - 1] % 128, 4 + 7 * (|hdr| - 2));
    }
  }

  lemma ChunkFits(prev: nat, chunk: nat, k: nat)
    requires prev < Pow2(k) && chunk < 128
    ensures prev + Shl(chunk, k) < Pow2(k + 7)
  {
    ShlMul(chunk, k);
    Pow2Add(k, 7);
    assert Pow2(7) == 128;
    assert chunk * Pow2(k) <= 127 * Pow2(k);
  }

  datatype HeaderScan = Header(tag: byte, size: nat, len: nat) | HeaderHalt(error: Error, len: nat)

  /** Decoding the object header at pos. The scan reads the first byte, then one more
      byte while the byte just read has its high bit set; `len` counts the bytes read,
      each of which is echoed. The tag is bits 4-6 of the first byte; the size is
      HeaderSize of the bytes read, as the u64 that `transform` accumulates. */
  function ObjectHeader(data: seq<byte>, pos: nat): (h: HeaderScan)
    requires pos <= |data|
    ensures pos + h.len <= |data|
  {
    if pos == |data| then HeaderHalt(Eof, 0)
    else
      var tag := data[pos] / 16 % 8;
      if !HighBit(data[pos]) then Header(tag, HeaderSize(data[pos..pos + 1]) % U64, 1)
      else
        var j := FirstClear(data[pos + 1..]);
        if j >= MaxContinuationBytes && |data| - pos - 1 > MaxContinuationBytes then
          HeaderHalt(ShiftOverflow, MaxContinuationBytes + 2)
        else if j == |data| - pos - 1 then HeaderHalt(Eof, |data| - pos)
        else Header(tag, HeaderSize(data[pos..pos + j + 2]) % U64, j + 2)
  }

  /** The three ways an object header scan ends: a complete header of at most ten bytes
      whose last byte alone has a clear high bit; the input running out while every byte
      read has its high bit set; or a tenth continuation byte, whose shift of 67 bits is
      refused. */
  lemma ObjectHeaderCases(data: seq<byte>, pos: nat)
    requires pos <= |data|
    ensures var h := ObjectHeader(data, pos);
      && (h.Header? ==>
        && 1 <= h.len <= MaxContinuationBytes + 1
        && h.tag == data[pos] / 16 % 8
        && h.size == HeaderSize(data[pos..pos + h.len]) % U64
        && (forall k :: pos <= k < pos + h.len - 1 ==> HighBit(data[k]))
        && !HighBit(data[pos + h.len - 1]))
      && (h.HeaderHalt? && h.error == Eof ==>
        && pos + h.len == |data| && h.len <= MaxContinuationBytes + 1
        && forall k :: pos <= k < |data| ==> HighBit(data[k]))
      && (h.HeaderHalt? && h.error != Eof ==>
        && h.error == ShiftOverflow && h.len == MaxContinuationBytes + 2
        && forall k :: pos <= k < pos + MaxContinuationBytes + 1 ==> HighBit(data[k]))
  {
    if pos < |data| && HighBit(data[pos]) {
      var rest := data[pos + 1..];
      var j := FirstClear(rest);
      FirstClearSpec(rest);
      forall k | pos + 1 <= k < pos + 1 + j
        ensures HighBit(data[k])
      {
        assert data[k] == rest[k - pos - 1];
      }
      if j < |rest| {
        assert data[pos + j + 1] == rest[j];
      }
    }
  }

  // ---------------------------------------------------------------------------------
  // Delta base reference

  datatype Echo = Echoed(len: nat) | EchoHalt(error: Error, len: nat)

  /** Passing through the delta base that follows the header of an object of type t:
      `len` counts the bytes echoed. */
  function DeltaRef(data: seq<byte>, p: nat, t: ObjectType): (e: Echo)
    requires p <= |data|
    ensures p + e.len <= |data|
  {
    if t == ObjRefDelta then
      if p + BaseIdLen <= |data| then Echoed(BaseIdLen) else EchoHalt(Eof, 0)
    else if t == ObjOfsDelta then
      var j := FirstClear(data[p..]);
      if j == |data| - p then EchoHalt(Eof, j) else Echoed(j + 1)
    else Echoed(0)
  }

  /** A ref-delta base is 20 bytes, all present or the input ends; an ofs-delta base is a
      high-bit varint, complete or cut off by the end of the input; other objects have no
      base. */
  lemma DeltaRefCases(data: seq<byte>, p: nat, t: ObjectType)
    requires p <= |data|
    ensures var e := DeltaRef(data, p, t);
      && (e.EchoHalt? ==> e.error == Eof)
      && (t == ObjRefDelta ==>
        e == if p + BaseIdLen <= |data| then Echoed(BaseIdLen) else EchoHalt(Eof, 0))
      && (t == ObjOfsDelta && e.Echoed? ==>
        && e.len >= 1 && !HighBit(data[p + e.len - 1])
        && forall k :: p <= k < p + e.len - 1 ==> HighBit(data[k]))
      && (t == ObjOfsDelta && e.EchoHalt? ==>
        p + e.len == |data| && forall k :: p <= k < |data| ==> HighBit(data[k]))
      && (t != ObjRefDelta && t != ObjOfsDelta ==> e == Echoed(0))
  {
    if t == ObjOfsDelta {
      var rest := data[p..];
      var j := FirstClear(rest);
      FirstClearSpec(rest);
      forall k | p <= k < p + j
        ensures HighBit(data[k])
      {
        assert data[k] == rest[k - p];
      }
      if j < |rest| {
        assert data[p + j] == rest[j];
      }
    }
  }

  // ---------------------------------------------------------------------------------
  // Object metadata: header, type lookup and delta base together

  datatype Meta = Meta(kind: ObjectType, size: nat, len: nat) | MetaHalt(error: Error, len: nat)

  /** Everything an object carries before its payload. All `len` bytes are echoed. */
  function ObjectMeta(data: seq<byte>, pos: nat): (m: Meta)
    requires pos <= |data|
    ensures pos + m.len <= |data|
  {
    match ObjectHeader(data, pos)
    case HeaderHalt(e, n) => MetaHalt(e, n)
    case Header(tag, size, n) =>
      match FromU8(tag)
      case None => MetaHalt(UnknownObjectType(tag), n)
      case Some(t) =>
        match DeltaRef(data, pos + n, t)
        case EchoHalt(e, m) => MetaHalt(e, n + m)
        case Echoed(m) => Meta(t, size, n + m)
  }

  /** Metadata is at least one byte and names one of the seven object types a 3-bit tag
      can carry; it fails only on a short input, an overlong size, or tag 5. */
  lemma ObjectMetaCases(data: seq<byte>, pos: nat)
    requires pos <= |data|
    ensures var m := ObjectMeta(data, pos);
      && (m.Meta? ==> m.len >= 1 && m.kind in {ObjNone, ObjCommit, ObjTree, ObjBlob, ObjTag, ObjOfsDelta, ObjRefDelta})
      && (m.MetaHalt? ==> m.error in {Eof, ShiftOverflow, UnknownObjectType(5)})
      && (m.MetaHalt? && m.error == UnknownObjectType(5) ==>
        ObjectHeader(data, pos).Header? && ObjectHeader(data, pos).tag == 5 && ObjectHeader(data, pos).len == m.len)
  {
    var h := ObjectHeader(data, pos);
    ObjectHeaderCases(data, pos);
    if h.Header? {
      TagLookup(h.tag);
      if FromU8(h.tag).Some? {
        DeltaRefCases(data, pos + h.len, FromU8(h.tag).value);
      }
    }
  }

  // ---------------------------------------------------------------------------------
  // Payload transcoding

  /** Transcoding one payload that starts at q. Decompressing, the decoder runs over all
      the remaining input and finds the end of the zlib stream itself; compressing, the
      encoder reads from a reader that holds at most `size` bytes. Either way everything
      the codec produced is written before its size is checked. */
  function Payload(data: seq<byte>, q: nat, size: nat, doEnflate: bool, env: Env): (s: Step)
    requires q <= |data| && WellBehaved(env)
    ensures s.Next? ==> q <= s.pos <= |data|
  {
    if doEnflate then
      var dec := env.inflate(data[q..]);
      if dec.failed then Halt(DecoderError, dec.out)
      else if |dec.out| != size then Halt(SizeMismatch(size, |dec.out|), dec.out)
      else Next(q + dec.consumed, dec.out)
    else
      var limited := data[q..q + Min(size, |data| - q)];
      var enc := env.deflate(limited);
      if enc.consumed != size then Halt(SizeMismatch(size, enc.consumed), enc.out)
      else Next(q + size, enc.out)
  }

  /** Everything the codec produced is written; the step goes on exactly when the decoder
      succeeded with `size` bytes of output, or the encoder read all `size` input bytes. */
  lemma PayloadCases(data: seq<byte>, q: nat, size: nat, doEnflate: bool, env: Env)
    requires q <= |data| && WellBehaved(env)
    ensures var s := Payload(data, q, size, doEnflate, env);
      && (s.Halt? ==> s.error == DecoderError || (s.error.SizeMismatch? && s.error.expected == size))
      && (doEnflate ==> s.written == env.inflate(data[q..]).out)
      && (doEnflate ==> (s.Next? <==> !env.inflate(data[q..]).failed && |s.written| == size))
      && (doEnflate && s.Next? ==> s.pos == q + env.inflate(data[q..]).consumed)
      && (!doEnflate ==> s.written == env.deflate(data[q..q + Min(size, |data| - q)]).out)
      && (!doEnflate ==> (s.Next? <==> q + size <= |data| && env.deflate(data[q..q + size]).consumed == size))
      && (!doEnflate && s.Next? ==> s.pos == q + size)
  {
  }

  // ---------------------------------------------------------------------------------
  // Objects

  /** One whole object at pos: its metadata echoed, then its transcoded payload. */
  function ObjectAt(data: seq<byte>, pos: nat, doEnflate: bool, env: Env): (s: Step)
    requires pos <= |data| && WellBehaved(env)
    ensures s.Next? ==> pos <= s.pos <= |data|
  {
    match ObjectMeta(data, pos)
    case MetaHalt(e, n) => Halt(e, data[pos..pos + n])
    case Meta(t, size, n) => Prepend(data[pos..pos + n], Payload(data, pos + n, size, doEnflate, env))
  }

  /** An object is echoed up to its payload, whether or not it goes on to fail; a step
      that goes on has read its metadata and moved forward. */
  lemma ObjectAtEchoesMeta(data: seq<byte>, pos: nat, doEnflate: bool, env: Env)
    requires pos <= |data| && WellBehaved(env)
    ensures var s := ObjectAt(data, pos, doEnflate, env);
      var m := ObjectMeta(data, pos);
      && (s.Next? ==> m.Meta? && pos < s.pos)
      && |s.written| >= m.len
      && s.written[..m.len] == data[pos..pos + m.len]
      && (m.MetaHalt? ==> s == Halt(m.error, data[pos..pos + m.len]))
  {
    var m := ObjectMeta(data, pos);
    ObjectMetaCases(data, pos);
    if m.Meta? {
      var s := ObjectAt(data, pos, doEnflate, env);
      assert s.written[..m.len] == data[pos..pos + m.len];
    }
  }

  /** The first n objects from pos, one after the other: where the pass is after them and
      what they wrote. The first object that fails stops the pass. */
  function Objects(data: seq<byte>, pos: nat, n: nat, doEnflate: bool, env: Env): (s: Step)
    requires pos <= |data| && WellBehaved(env)
    ensures s.Next? ==> pos <= s.pos <= |data|
    decreases n
  {
    if n == 0 then Next(pos, [])
    else
      match Objects(data, pos, n - 1, doEnflate, env)
      case Halt(e, w) => Halt(e, w)
      case Next(p, w) => Prepend(w, ObjectAt(data, p, doEnflate, env))
  }

  // ---------------------------------------------------------------------------------
  // Trailer and the whole pass

  datatype Status = Success | Failure(error: Error)

  /** What a pass leaves behind: its status, the bytes on standard output and the bytes
      the hasher was fed. */
  datatype Outcome = Outcome(status: Status, output: seq<byte>, hashed: seq<byte>)

  /** After the last object, at q, with `hashed` written so far: the old trailer is read
      and dropped, the digest of `hashed` goes straight to the destination, and only then
      is the rest of the input counted. */
  function Trailer(data: seq<byte>, q: nat, hashed: seq<byte>, sha1: seq<byte> -> Digest): (r: Outcome)
    requires q <= |data|
    ensures r.hashed == hashed
    ensures r.status == Success <==> |data| == q + TrailerLen
    ensures q + TrailerLen <= |data| <==> r.output == hashed + sha1(hashed)
    ensures |data| < q + TrailerLen ==> r == Outcome(Failure(Eof), hashed, hashed)
    ensures q + TrailerLen < |data| ==> r.status == Failure(TrailingData(|data| - q - TrailerLen))
  {
    if |data| - q < TrailerLen then Outcome(Failure(Eof), hashed, hashed)
    else
      var remaining := |data| - q - TrailerLen;
      Outcome(if remaining == 0 then Success else Failure(TrailingData(remaining)), hashed + sha1(hashed), hashed)
  }

  /** One pass over the input `data`, compressing when doEnflate is false and
      decompressing when it is true. */
  function Run(data: seq<byte>, doEnflate: bool, env: Env): (r: Outcome)
    requires WellBehaved(env)
    ensures r.output == r.hashed || r.output == r.hashed + env.sha1(r.hashed)
    ensures r.status == Success ==> r.output == r.hashed + env.sha1(r.hashed)
  {
    match PackHeader(data)
    case Halt(e, w) => Outcome(Failure(e), w, w)
    case Next(p, w) =>
      match Objects(data, p, PackCount(data), doEnflate, env)
      case Halt(e, w') => Outcome(Failure(e), w + w', w + w')
      case Next(q, w') => Trailer(data, q, w + w', env.sha1)
  }
}
