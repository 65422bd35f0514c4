/** Properties of one pass of the recompressor, stated on the reference definition
    (PackSpec.Run and the stage functions it is made of), which Transform.Transform is
    proved to follow. */
module Properties {
  import opened Bytes
  import opened ObjectTypes
  import opened Codecs
  import opened PackSpec

  // ---------------------------------------------------------------------------------
  // The pack header

  /** A stream that does not start with "PACK" fails before anything is written. */
  lemma BadMagicWritesNothing(data: seq<byte>, doEnflate: bool, env: Env)
    requires WellBehaved(env)
    ensures Run(data, doEnflate, env).status == Failure(BadMagic) <==> 4 <= |data| && data[..4] != Magic
    ensures Run(data, doEnflate, env).status == Failure(BadMagic) ==>
      Run(data, doEnflate, env).output == [] && Run(data, doEnflate, env).hashed == []
  {
    hide Objects, Trailer;
    var h := PackHeader(data);
    if h.Next? {
      NotBadMagicAfterHeader(data, doEnflate, env);
    }
  }

  /** An unsupported version fails after "PACK", and only "PACK", has been written. */
  lemma BadVersionWritesMagic(data: seq<byte>, doEnflate: bool, env: Env)
    requires WellBehaved(env)
    ensures Run(data, doEnflate, env).status.Failure? && Run(data, doEnflate, env).status.error.UnsupportedVersion?
        <==> 8 <= |data| && data[..4] == Magic && FromBE32(data[4..8]) != Version
    ensures Run(data, doEnflate, env).status.Failure? && Run(data, doEnflate, env).status.error.UnsupportedVersion? ==>
      && Run(data, doEnflate, env).status.error.version == FromBE32(data[4..8])
      && Run(data, doEnflate, env).output == Magic
  {
    hide Objects, Trailer;
    var h := PackHeader(data);
    if h.Next? {
      NotBadMagicAfterHeader(data, doEnflate, env);
    }
  }

  /** After a good header, no error can be BadMagic or UnsupportedVersion: those checks
      happen only in the header. */
  lemma NotBadMagicAfterHeader(data: seq<byte>, doEnflate: bool, env: Env)
    requires WellBehaved(env)
    requires PackHeader(data).Next?
    ensures Run(data, doEnflate, env).status != Failure(BadMagic)
    ensures !(Run(data, doEnflate, env).status.Failure? && Run(data, doEnflate, env).status.error.UnsupportedVersion?)
  {
    var s := Objects(data, PackHeaderLen, PackCount(data), doEnflate, env);
    if s.Halt? {
      ObjectsErrors(data, PackHeaderLen, PackCount(data), doEnflate, env);
    }
  }

  /** The errors an object can stop the pass with. */
  lemma {:induction false} ObjectsErrors(data: seq<byte>, pos: nat, n: nat, doEnflate: bool, env: Env)
    requires pos <= |data| && WellBehaved(env)
    ensures var s := Objects(data, pos, n, doEnflate, env);
      s.Halt? ==> s.error in {Eof, ShiftOverflow, UnknownObjectType(5), DecoderError} || s.error.SizeMismatch?
    decreases n
  {
    hide ObjectAt;
    if n > 0 {
      ObjectsErrors(data, pos, n - 1, doEnflate, env);
      var prev := Objects(data, pos, n - 1, doEnflate, env);
      if prev.Next? {
        ObjectAtErrors(data, prev.pos, doEnflate, env);
      }
    }
  }

  lemma ObjectAtErrors(data: seq<byte>, pos: nat, doEnflate: bool, env: Env)
    requires pos <= |data| && WellBehaved(env)
    ensures var s := ObjectAt(data, pos, doEnflate, env);
      s.Halt? ==> s.error in {Eof, ShiftOverflow, UnknownObjectType(5), DecoderError} || s.error.SizeMismatch?
  {
    ObjectMetaCases(data, pos);
    var m := ObjectMeta(data, pos);
    if m.Meta? {
      PayloadCases(data, pos + m.len, m.size, doEnflate, env);
    }
  }

  /** Whenever the header is good, the output starts with the 12 header bytes of the input,
      whatever happens after it. */
  lemma HeaderEchoed(data: seq<byte>, doEnflate: bool, env: Env)
    requires WellBehaved(env)
    requires PackHeader(data).Next?
    ensures |Run(data, doEnflate, env).output| >= PackHeaderLen
    ensures Run(data, doEnflate, env).output[..PackHeaderLen] == data[..PackHeaderLen]
  {
    hide Objects;
    var w := PackHeader(data).written;
    var s := Objects(data, PackHeaderLen, PackCount(data), doEnflate, env);
    var r := Run(data, doEnflate, env);
    assert r.output[..PackHeaderLen] == w;
  }

  // ---------------------------------------------------------------------------------
  // The object header

  /** `0x93 0x05`: type 1, size 3 + (5 << 4) = 83, two bytes; a commit. */
  lemma WorkedExample()
    ensures ObjectHeader([0x93, 0x05], 0) == Header(1, 83, 2)
    ensures FromU8(1) == Some(ObjCommit)
    ensures ObjectMeta([0x93, 0x05], 0) == Meta(ObjCommit, 83, 2)
  {
    var data: seq<byte> := [0x93, 0x05];
    assert FirstClear(data[1..]) == 0;
    assert data[0..2] == data;
    assert HeaderSize(data) == 3 + Shl(5, 4);
    assert Shl(5, 4) == 80;
  }

  /** A complete header of at most nine bytes carries at most 60 size bits, so the u64
      accumulator holds its size exactly. */
  lemma NoTruncation(data: seq<byte>, pos: nat)
    requires pos <= |data|
    requires ObjectHeader(data, pos).Header? && ObjectHeader(data, pos).len <= MaxContinuationBytes
    ensures ObjectHeader(data, pos).size == HeaderSize(data[pos..pos + ObjectHeader(data, pos).len])
  {
    var h := ObjectHeader(data, pos);
    ObjectHeaderCases(data, pos);
    var hdr := data[pos..pos + h.len];
    HeaderSizeBound(hdr);
    Pow2Monotone(4 + 7 * (|hdr| - 1), 64);
    Pow2Is64();
  }

  lemma Pow2Is64()
    ensures Pow2(64) == U64
  {
    assert Pow2(8) == 256;
    Pow2Add(8, 8);
    assert Pow2(16) == 0x1_0000;
    Pow2Add(16, 16);
    assert Pow2(32) == 0x1_0000_0000;
    Pow2Add(32, 32);
  }

  // ---------------------------------------------------------------------------------
  // Bytes appended to a valid pack

  /** Bytes after a complete header do not change it. */
  lemma ObjectHeaderExtend(data: seq<byte>, t: seq<byte>, pos: nat)
    requires pos <= |data|
    requires ObjectHeader(data, pos).Header?
    ensures ObjectHeader(data + t, pos) == ObjectHeader(data, pos)
  {
    var h := ObjectHeader(data, pos);
    ObjectHeaderCases(data, pos);
    assert (data + t)[pos] == data[pos];
    if HighBit(data[pos]) {
      var rest := data[pos + 1..];
      assert (data + t)[pos + 1..] == rest + t;
      FirstClearSpec(rest);
      FirstClearExtend(rest, t);
    }
    assert (data + t)[pos..pos + h.len] == data[pos..pos + h.len];
  }

  /** Bytes after a complete delta base do not change it. */
  lemma DeltaRefExtend(data: seq<byte>, t: seq<byte>, p: nat, ty: ObjectType)
    requires p <= |data|
    requires DeltaRef(data, p, ty).Echoed?
    ensures DeltaRef(data + t, p, ty) == DeltaRef(data, p, ty)
  {
    if ty == ObjOfsDelta {
      var rest := data[p..];
      assert (data + t)[p..] == rest + t;
      FirstClearExtend(rest, t);
    }
  }

  lemma ObjectMetaExtend(data: seq<byte>, t: seq<byte>, pos: nat)
    requires pos <= |data|
    requires ObjectMeta(data, pos).Meta?
    ensures ObjectMeta(data + t, pos) == ObjectMeta(data, pos)
  {
    var h := ObjectHeader(data, pos);
    ObjectHeaderExtend(data, t, pos);
    DeltaRefExtend(data, t, pos + h.len, FromU8(h.tag).value);
  }

  /** A payload that was transcoded in full is transcoded the same way when more bytes
      follow, given a decoder that finds the end of its stream by itself, when the payload
      ended before the end of the input (as every payload of a pack with a trailer does). */
  lemma PayloadExtend(data: seq<byte>, t: seq<byte>, q: nat, size: nat, doEnflate: bool, env: Env)
    requires q <= |data| && WellBehaved(env)
    requires doEnflate ==> SelfTerminating(env)
    requires Payload(data, q, size, doEnflate, env).Next? && Payload(data, q, size, doEnflate, env).pos < |data|
    ensures Payload(data + t, q, size, doEnflate, env) == Payload(data, q, size, doEnflate, env)
  {
    if doEnflate {
      assert (data + t)[q..] == data[q..] + t;
    } else {
      var limited := data[q..q + Min(size, |data| - q)];
      assert (data + t)[q..q + Min(size, |data + t| - q)] == limited;
    }
  }

  lemma ObjectAtExtend(data: seq<byte>, t: seq<byte>, pos: nat, doEnflate: bool, env: Env)
    requires pos <= |data| && WellBehaved(env)
    requires doEnflate ==> SelfTerminating(env)
    requires ObjectAt(data, pos, doEnflate, env).Next? && ObjectAt(data, pos, doEnflate, env).pos < |data|
    ensures ObjectAt(data + t, pos, doEnflate, env) == ObjectAt(data, pos, doEnflate, env)
  {
    hide ObjectMeta, Payload;
    var m := ObjectMeta(data, pos);
    ObjectMetaExtend(data, t, pos);
    PayloadExtend(data, t, pos + m.len, m.size, doEnflate, env);
    assert (data + t)[pos..pos + m.len] == data[pos..pos + m.len];
  }

  lemma {:induction false} ObjectsExtend(data: seq<byte>, t: seq<byte>, pos: nat, n: nat, doEnflate: bool, env: Env)
    requires pos <= |data| && WellBehaved(env)
    requires doEnflate ==> SelfTerminating(env)
    requires Objects(data, pos, n, doEnflate, env).Next? && Objects(data, pos, n, doEnflate, env).pos < |data|
    ensures Objects(data + t, pos, n, doEnflate, env) == Objects(data, pos, n, doEnflate, env)
    decreases n
  {
    hide ObjectAt;
    if n > 0 {
      var prev := Objects(data, pos, n - 1, doEnflate, env);
      ObjectsExtend(data, t, pos, n - 1, doEnflate, env);
      ObjectAtExtend(data, t, prev.pos, doEnflate, env);
    }
  }

  /** Bytes appended to a pack that converts cleanly make the pass fail with their count,
      after it has written exactly what it wrote before, digest included. */
  lemma AppendedDataReported(data: seq<byte>, t: seq<byte>, doEnflate: bool, env: Env)
    requires WellBehaved(env)
    requires doEnflate ==> SelfTerminating(env)
    requires Run(data, doEnflate, env).status == Success
    requires t != []
    ensures Run(data + t, doEnflate, env)
         == Outcome(Failure(TrailingData(|t|)), Run(data, doEnflate, env).output, Run(data, doEnflate, env).hashed)
  {
    hide Objects;
    var h := PackHeader(data);
    assert (data + t)[..4] == data[..4];
    assert (data + t)[4..8] == data[4..8];
    assert (data + t)[8..12] == data[8..12];
    assert PackHeader(data + t) == h;
    var s := Objects(data, PackHeaderLen, PackCount(data), doEnflate, env);
    ObjectsExtend(data, t, PackHeaderLen, PackCount(data), doEnflate, env);
  }

  // ---------------------------------------------------------------------------------
  // The trailer and the digest

  /** The digest is on standard output exactly when the old trailer was read: the pass
      either succeeded or stopped on bytes after the trailer, which are counted only once
      the digest has been written. */
  lemma DigestWrittenIffTrailerRead(data: seq<byte>, doEnflate: bool, env: Env)
    requires WellBehaved(env)
    ensures var r := Run(data, doEnflate, env);
      r.output == r.hashed + env.sha1(r.hashed) <==> (r.status == Success || r.status.error.TrailingData?)
  {
    if PackHeader(data).Next? {
      ObjectsErrors(data, PackHeaderLen, PackCount(data), doEnflate, env);
    }
  }

  /** The smallest pack: a header for zero objects and a 20-byte trailer. Its old trailer
      is dropped and replaced by the digest of the header. */
  lemma EmptyPack(trailer: seq<byte>, doEnflate: bool, env: Env)
    requires WellBehaved(env)
    requires |trailer| == TrailerLen
    ensures var hdr := Magic + ToBE32(Version) + ToBE32(0);
      Run(hdr + trailer, doEnflate, env) == Outcome(Success, hdr + env.sha1(hdr), hdr)
  {
    var hdr := Magic + ToBE32(Version) + ToBE32(0);
    var data := hdr + trailer;
    assert ToBE32(Version) == [0, 0, 0, 2];
    assert ToBE32(0) == [0, 0, 0, 0];
    assert data[..4] == Magic;
    assert data[4..8] == [0, 0, 0, 2];
    assert data[8..12] == [0, 0, 0, 0];
    assert data[..PackHeaderLen] == hdr;
    assert PackHeader(data) == Next(PackHeaderLen, hdr);
    assert PackCount(data) == 0;
    assert Objects(data, PackHeaderLen, 0, doEnflate, env) == Next(PackHeaderLen, []);
    assert hdr + [] == hdr;
  }

  /** The same pack with one more byte: the extra byte is reported, after the digest has
      been written. */
  lemma EmptyPackTrailingByte(trailer: seq<byte>, extra: byte, doEnflate: bool, env: Env)
    requires WellBehaved(env)
    requires |trailer| == TrailerLen
    ensures var hdr := Magic + ToBE32(Version) + ToBE32(0);
      Run(hdr + trailer + [extra], doEnflate, env) == Outcome(Failure(TrailingData(1)), hdr + env.sha1(hdr), hdr)
  {
    var hdr := Magic + ToBE32(Version) + ToBE32(0);
    var data := hdr + trailer + [extra];
    assert ToBE32(Version) == [0, 0, 0, 2];
    assert ToBE32(0) == [0, 0, 0, 0];
    assert data[..4] == Magic;
    assert data[4..8] == [0, 0, 0, 2];
    assert data[8..12] == [0, 0, 0, 0];
    assert data[..PackHeaderLen] == hdr;
    assert PackHeader(data) == Next(PackHeaderLen, hdr);
    assert PackCount(data) == 0;
    assert Objects(data, PackHeaderLen, 0, doEnflate, env) == Next(PackHeaderLen, []);
    assert hdr + [] == hdr;
  }
}
