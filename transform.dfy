/** `transform`: one forward pass over a pack stream read from standard input, written
    to standard output through the hashing sink. Each method below is one stage of the
    pass and is proved to read and write exactly what the matching PackSpec function
    says; Transform itself is proved equal to PackSpec.Run. */
module Transform {
  import opened Bytes
  import opened ObjectTypes
  import opened Codecs
  import opened PackSpec
  import opened Streams

  /** The 12-byte header: magic, version and object count, each checked and echoed. */
  method ReadPackHeader(inp: InputStream, oup: HashingWrite) returns (s: Step, count: nat)
    requires inp.Valid() && inp.pos == 0 && oup.InSync()
    modifies inp, oup.hasher, oup.actual
    ensures inp.Valid() && oup.InSync()
    ensures s == PackHeader(inp.data)
    ensures s.Next? ==> inp.pos == s.pos && count == PackCount(inp.data)
    ensures oup.hasher.absorbed == old(oup.hasher.absorbed) + s.written
  {
    // A four-byte buffer is valid UTF-8 equal to "PACK" exactly when its bytes are Magic.
    var magic := inp.ReadExact(4);
    if magic.None? {
      return Halt(Eof, []), 0;
    }
    if magic.value != Magic {
      return Halt(BadMagic, []), 0;
    }
    oup.Write(Magic);
    var version := inp.ReadU32BE();
    if version.None? {
      return Halt(Eof, Magic), 0;
    }
    if version.value != Version {
      return Halt(UnsupportedVersion(version.value), Magic), 0;
    }
    oup.WriteU32BE(Version);
    var n := inp.ReadU32BE();
    if n.None? {
      return Halt(Eof, Magic + ToBE32(Version)), 0;
    }
    count := n.value;
    oup.WriteU32BE(count);
    s := Next(inp.pos, Magic + ToBE32(Version) + ToBE32(count));
  }

  lemma ModAdd(a: nat, c: nat)
    ensures (a % U64 + c) % U64 == (a + c) % U64
  {
    var q := a / U64;
    assert a == q * U64 + a % U64;
  }

  /** A header whose last byte, at pos - 1, is the first with a clear high bit. */
  lemma HeaderEndsAt(data: seq<byte>, start: nat, pos: nat)
    requires start < pos <= |data| && pos - start <= MaxContinuationBytes + 1
    requires forall k :: start <= k < pos - 1 ==> HighBit(data[k])
    requires !HighBit(data[pos - 1])
    ensures ObjectHeader(data, start) == Header(data[start] / 16 % 8, HeaderSize(data[start..pos]) % U64, pos - start)
  {
    if pos > start + 1 {
      var rest := data[start + 1..];
      FirstClearIs(rest, pos - start - 2);
    }
  }

  /** A header still open when the input ends. */
  lemma HeaderRunsOut(data: seq<byte>, start: nat)
    requires start < |data| && |data| - start <= MaxContinuationBytes + 1
    requires forall k :: start <= k < |data| ==> HighBit(data[k])
    ensures ObjectHeader(data, start) == HeaderHalt(Eof, |data| - start)
  {
    var rest := data[start + 1..];
    FirstClearIs(rest, |rest|);
  }

  /** A header that reaches its tenth continuation byte. */
  lemma HeaderTooLong(data: seq<byte>, start: nat)
    requires start + MaxContinuationBytes + 2 <= |data|
    requires forall k :: start <= k < start + MaxContinuationBytes + 1 ==> HighBit(data[k])
    ensures ObjectHeader(data, start) == HeaderHalt(ShiftOverflow, MaxContinuationBytes + 2)
  {
    var rest := data[start + 1..];
    FirstClearAtLeast(rest, MaxContinuationBytes);
  }

  /** One step of the size accumulation: adding the chunk of the byte at pos, shifted by
      `offset`, to a u64 that holds the size of the bytes before it. */
  lemma SizeStep(data: seq<byte>, start: nat, pos: nat, size: nat, offset: nat)
    requires start + 1 <= pos < |data|
    requires size == HeaderSize(data[start..pos]) % U64
    requires offset == 4 + 7 * (pos - start - 1)
    ensures (size + Shl(data[pos] % 128, offset)) % U64 == HeaderSize(data[start..pos + 1]) % U64
  {
    var hdr := data[start..pos + 1];
    assert hdr[..|hdr| - 1] == data[start..pos];
    assert hdr[|hdr| - 1] == data[pos];
    ModAdd(HeaderSize(data[start..pos]), Shl(data[pos] % 128, offset));
  }

  /** What the `while cont == 1` loop computes from the state it is in after reading the
      byte b at pos - 1, with `size` and `offset` accumulated so far: it stops on a byte
      with a clear high bit, on the end of the input, or on a shift of 64 bits or more,
      which it attempts only after reading (and echoing) the byte to be shifted. */
  ghost function HeaderLoop(data: seq<byte>, start: nat, pos: nat, b: byte, size: nat, offset: nat): HeaderScan
    requires start < pos <= |data|
    decreases |data| - pos
  {
    if !HighBit(b) then Header(data[start] / 16 % 8, size, pos - start)
    else if pos == |data| then HeaderHalt(Eof, pos - start)
    else if offset >= ShiftLimit then HeaderHalt(ShiftOverflow, pos + 1 - start)
    else HeaderLoop(data, start, pos + 1, data[pos], (size + Shl(data[pos] % 128, offset)) % U64, offset + 7)
  }

  /** From any state the loop reaches, it computes ObjectHeader. */
  lemma {:induction false} HeaderLoopIsObjectHeader(data: seq<byte>, start: nat, pos: nat, size: nat, offset: nat)
    requires start < pos <= |data| && pos - start <= MaxContinuationBytes + 1
    requires forall k :: start <= k < pos - 1 ==> HighBit(data[k])
    requires size == HeaderSize(data[start..pos]) % U64
    requires offset == 4 + 7 * (pos - start - 1)
    ensures HeaderLoop(data, start, pos, data[pos - 1], size, offset) == ObjectHeader(data, start)
    decreases |data| - pos
  {
    if !HighBit(data[pos - 1]) {
      HeaderEndsAt(data, start, pos);
    } else if pos == |data| {
      HeaderRunsOut(data, start);
    } else if offset >= ShiftLimit {
      HeaderTooLong(data, start);
    } else {
      SizeStep(data, start, pos, size, offset);
      HeaderLoopIsObjectHeader(data, start, pos + 1, (size + Shl(data[pos] % 128, offset)) % U64, offset + 7);
    }
  }

  // Bookkeeping for what the hasher has absorbed, stated on the exact values at hand.

  lemma EchoNothing(before: seq<byte>, data: seq<byte>, i: nat)
    requires i <= |data|
    ensures before == before + data[i..i]
  {
  }

  lemma EchoFirst(before: seq<byte>, a: seq<byte>, data: seq<byte>, i: nat)
    requires i < |data|
    requires a == before + [data[i]]
    ensures a == before + data[i..i + 1]
  {
  }

  lemma EchoByte(before: seq<byte>, a: seq<byte>, a': seq<byte>, data: seq<byte>, i: nat, j: nat)
    requires i <= j < |data|
    requires a == before + data[i..j]
    requires a' == a + [data[j]]
    ensures a' == before + data[i..j + 1]
  {
    assert data[i..j + 1] == data[i..j] + [data[j]];
  }

  /** The scan starts on the first byte, whose low four bits are the size so far. */
  lemma HeaderLoopStarts(data: seq<byte>, start: nat, h: HeaderScan)
    requires start < |data|
    requires h == HeaderLoop(data, start, start + 1, data[start], data[start] % 16, 4)
    ensures h == ObjectHeader(data, start)
  {
    assert HeaderSize(data[start..start + 1]) == data[start] % 16;
    HeaderLoopIsObjectHeader(data, start, start + 1, data[start] % 16, 4);
  }

  /** The type and size varint (the `while cont == 1` loop). Every byte read is echoed. */
  method ReadObjectHeader(inp: InputStream, oup: HashingWrite) returns (h: HeaderScan)
    requires inp.Valid() && oup.InSync()
    modifies inp, oup.hasher, oup.actual
    ensures inp.Valid() && oup.InSync()
    ensures h == ObjectHeader(inp.data, old(inp.pos))
    ensures h.Header? ==> inp.pos == old(inp.pos) + h.len
    ensures oup.hasher.absorbed == old(oup.hasher.absorbed) + inp.data[old(inp.pos)..old(inp.pos) + h.len]
  {
    ghost var data := inp.data;
    ghost var before := oup.hasher.absorbed;
    var start := inp.pos;
    var first := inp.ReadU8();
    if first.None? {
      EchoNothing(before, data, start);
      return HeaderHalt(Eof, 0);
    }
    var b := first.value;
    oup.WriteU8(b);
    EchoFirst(before, oup.hasher.absorbed, data, start);
    var cont := b / 128;
    var typ := b / 16 % 8;
    var size: nat := b % 16;
    var offset: nat := 4;
    ghost var goal := HeaderLoop(data, start, start + 1, b, size, offset);
    while cont == 1
      invariant inp.Valid() && oup.InSync() && start < inp.pos
      invariant cont == b / 128 && typ == data[start] / 16 % 8
      invariant HeaderLoop(data, start, inp.pos, b, size, offset) == goal
      invariant oup.hasher.absorbed == before + data[start..inp.pos]
      decreases |data| - inp.pos
    {
      ghost var absorbed := oup.hasher.absorbed;
      var next := inp.ReadU8();
      if next.None? {
        HeaderLoopStarts(data, start, goal);
        return HeaderHalt(Eof, inp.pos - start);
      }
      b := next.value;
      oup.WriteU8(b);
      EchoByte(before, absorbed, oup.hasher.absorbed, data, start, inp.pos - 1);
      if offset >= ShiftLimit {
        HeaderLoopStarts(data, start, goal);
        return HeaderHalt(ShiftOverflow, inp.pos - start);
      }
      // `size += (b & 0x7f) << offset` on a u64: the shift drops bits from 64 up and the
      // add wraps, which together reduce the sum modulo 2^64.
      size := (size + Shl(b % 128, offset)) % U64;
      offset := offset + 7;
      cont := b / 128;
    }
    HeaderLoopStarts(data, start, goal);
    h := Header(typ, size, inp.pos - start);
  }

  /** What the ofs-delta loop computes after reading the byte b at pos - 1 of a base
      offset that starts at p: it reads on while the byte just read has its high bit set. */
  ghost function OfsLoop(data: seq<byte>, p: nat, pos: nat, b: byte): Echo
    requires p < pos <= |data|
    decreases |data| - pos
  {
    if !HighBit(b) then Echoed(pos - p)
    else if pos == |data| then EchoHalt(Eof, pos - p)
    else OfsLoop(data, p, pos + 1, data[pos])
  }

  /** From any state the loop reaches, it computes DeltaRef. */
  lemma {:induction false} OfsLoopIsDeltaRef(data: seq<byte>, p: nat, pos: nat)
    requires p < pos <= |data|
    requires forall k :: p <= k < pos - 1 ==> HighBit(data[k])
    ensures OfsLoop(data, p, pos, data[pos - 1]) == DeltaRef(data, p, ObjOfsDelta)
    decreases |data| - pos
  {
    var rest := data[p..];
    if !HighBit(data[pos - 1]) {
      FirstClearIs(rest, pos - 1 - p);
    } else if pos == |data| {
      FirstClearIs(rest, |rest|);
    } else {
      OfsLoopIsDeltaRef(data, p, pos + 1);
    }
  }

  lemma OfsLoopStarts(data: seq<byte>, p: nat, e: Echo)
    requires p < |data|
    requires e == OfsLoop(data, p, p + 1, data[p])
    ensures e == DeltaRef(data, p, ObjOfsDelta)
  {
    OfsLoopIsDeltaRef(data, p, p + 1);
  }

  /** The delta base: a 20-byte id for a ref-delta, a high-bit varint for an ofs-delta,
      nothing otherwise. Every byte read is echoed. */
  method PassDeltaRef(inp: InputStream, oup: HashingWrite, t: ObjectType) returns (e: Echo)
    requires inp.Valid() && oup.InSync()
    modifies inp, oup.hasher, oup.actual
    ensures inp.Valid() && oup.InSync()
    ensures e == DeltaRef(inp.data, old(inp.pos), t)
    ensures e.Echoed? ==> inp.pos == old(inp.pos) + e.len
    ensures oup.hasher.absorbed == old(oup.hasher.absorbed) + inp.data[old(inp.pos)..old(inp.pos) + e.len]
  {
    ghost var data := inp.data;
    ghost var before := oup.hasher.absorbed;
    var start := inp.pos;
    if t == ObjRefDelta {
      var baseSha := inp.ReadExact(BaseIdLen);
      if baseSha.None? {
        EchoNothing(before, data, start);
        return EchoHalt(Eof, 0);
      }
      oup.Write(baseSha.value);
      e := Echoed(BaseIdLen);
    } else if t == ObjOfsDelta {
      var first := inp.ReadU8();
      if first.None? {
        EchoNothing(before, data, start);
        return EchoHalt(Eof, 0);
      }
      var b := first.value;
      oup.WriteU8(b);
      EchoFirst(before, oup.hasher.absorbed, data, start);
      ghost var goal := OfsLoop(data, start, start + 1, b);
      while HighBit(b)
        invariant inp.Valid() && oup.InSync() && start < inp.pos
        invariant OfsLoop(data, start, inp.pos, b) == goal
        invariant oup.hasher.absorbed == before + data[start..inp.pos]
        decreases |data| - inp.pos
      {
        ghost var absorbed := oup.hasher.absorbed;
        var next := inp.ReadU8();
        if next.None? {
          OfsLoopStarts(data, start, goal);
          return EchoHalt(Eof, inp.pos - start);
        }
        b := next.value;
        oup.WriteU8(b);
        EchoByte(before, absorbed, oup.hasher.absorbed, data, start, inp.pos - 1);
      }
      OfsLoopStarts(data, start, goal);
      e := Echoed(inp.pos - start);
    } else {
      EchoNothing(before, data, start);
      e := Echoed(0);
    }
  }

  /** The payload, through the decoder or the encoder, and the size check after it. */
  method TranscodePayload(inp: InputStream, oup: HashingWrite, size: nat, doEnflate: bool, env: Env)
    returns (s: Step)
    requires inp.Valid() && oup.InSync() && WellBehaved(env)
    modifies inp, oup.hasher, oup.actual
    ensures inp.Valid() && oup.InSync()
    ensures s == Payload(inp.data, old(inp.pos), size, doEnflate, env)
    ensures s.Next? ==> inp.pos == s.pos
    ensures oup.hasher.absorbed == old(oup.hasher.absorbed) + s.written
  {
    if doEnflate {
      // `ZlibDecoder` over the whole remaining input, copied to the sink.
      var dec := env.inflate(inp.Rest());
      inp.Advance(dec.consumed);
      oup.Write(dec.out);
      if dec.failed {
        return Halt(DecoderError, dec.out);
      }
      if |dec.out| != size {
        return Halt(SizeMismatch(size, |dec.out|), dec.out);
      }
      s := Next(inp.pos, dec.out);
    } else {
      // `ZlibEncoder` over `take(size)` of the input, copied to the sink.
      var rest := inp.Rest();
      var limited := rest[..Min(size, |rest|)];
      assert limited == inp.data[old(inp.pos)..old(inp.pos) + Min(size, |inp.data| - old(inp.pos))];
      var enc := env.deflate(limited);
      inp.Advance(enc.consumed);
      oup.Write(enc.out);
      if enc.consumed != size {
        return Halt(SizeMismatch(size, enc.consumed), enc.out);
      }
      s := Next(inp.pos, enc.out);
    }
  }

  /** Two echoes in a row: the bytes i..j, then j..k. */
  lemma EchoTwo(before: seq<byte>, a1: seq<byte>, a2: seq<byte>, data: seq<byte>, i: nat, j: nat, k: nat)
    requires i <= j <= k <= |data|
    requires a1 == before + data[i..j]
    requires a2 == a1 + data[j..k]
    ensures a2 == before + data[i..k]
  {
    assert data[i..k] == data[i..j] + data[j..k];
  }

  // One lemma per way the metadata scan can end, each equating ObjectMeta with what the
  // object loop computed up to that point.

  lemma MetaHeaderHalt(data: seq<byte>, pos: nat, h: HeaderScan)
    requires pos <= |data|
    requires h == ObjectHeader(data, pos) && h.HeaderHalt?
    ensures ObjectMeta(data, pos) == MetaHalt(h.error, h.len)
  {
  }

  lemma MetaUnknown(data: seq<byte>, pos: nat, h: HeaderScan)
    requires pos <= |data|
    requires h == ObjectHeader(data, pos) && h.Header? && FromU8(h.tag).None?
    ensures ObjectMeta(data, pos) == MetaHalt(UnknownObjectType(h.tag), h.len)
  {
  }

  lemma MetaWithBase(data: seq<byte>, pos: nat, h: HeaderScan, t: ObjectType, e: Echo)
    requires pos <= |data|
    requires h == ObjectHeader(data, pos) && h.Header? && FromU8(h.tag) == Some(t)
    requires e == DeltaRef(data, pos + h.len, t)
    ensures ObjectMeta(data, pos) == if e.Echoed? then Meta(t, h.size, h.len + e.len) else MetaHalt(e.error, h.len + e.len)
  {
  }

  /** The object header, the type lookup and the delta base: everything before the
      payload. Every byte read is echoed. */
  method ReadObjectMeta(inp: InputStream, oup: HashingWrite) returns (m: Meta)
    requires inp.Valid() && oup.InSync()
    modifies inp, oup.hasher, oup.actual
    ensures inp.Valid() && oup.InSync()
    ensures m == ObjectMeta(inp.data, old(inp.pos))
    ensures m.Meta? ==> inp.pos == old(inp.pos) + m.len
    ensures oup.hasher.absorbed == old(oup.hasher.absorbed) + inp.data[old(inp.pos)..old(inp.pos) + m.len]
  {
    var start := inp.pos;
    ghost var before := oup.hasher.absorbed;
    var h := ReadObjectHeader(inp, oup);
    if h.HeaderHalt? {
      MetaHeaderHalt(inp.data, start, h);
      return MetaHalt(h.error, h.len);
    }
    ghost var afterHeader := oup.hasher.absorbed;
    var objType := FromU8(h.tag);
    if objType.None? {
      MetaUnknown(inp.data, start, h);
      return MetaHalt(UnknownObjectType(h.tag), h.len);
    }
    var d := PassDeltaRef(inp, oup, objType.value);
    EchoTwo(before, afterHeader, oup.hasher.absorbed, inp.data, start, start + h.len, start + h.len + d.len);
    MetaWithBase(inp.data, start, h, objType.value, d);
    if d.EchoHalt? {
      return MetaHalt(d.error, h.len + d.len);
    }
    m := Meta(objType.value, h.size, h.len + d.len);
  }

  lemma AppendStep(a0: seq<byte>, a1: seq<byte>, a2: seq<byte>, x: seq<byte>, y: seq<byte>, xy: seq<byte>)
    requires a1 == a0 + x && a2 == a1 + y && xy == x + y
    ensures a2 == a0 + xy
  {
  }

  lemma ObjectAtHalt(data: seq<byte>, pos: nat, doEnflate: bool, env: Env, m: Meta)
    requires pos <= |data| && WellBehaved(env)
    requires m == ObjectMeta(data, pos) && m.MetaHalt?
    ensures ObjectAt(data, pos, doEnflate, env) == Halt(m.error, data[pos..pos + m.len])
  {
  }

  lemma ObjectAtPayload(data: seq<byte>, pos: nat, doEnflate: bool, env: Env, m: Meta, q: nat, p: Step)
    requires pos <= |data|
    requires WellBehaved(env)
    requires m == ObjectMeta(data, pos)
    requires m.Meta?
    requires q == pos + m.len
    requires p == Payload(data, q, m.size, doEnflate, env)
    ensures ObjectAt(data, pos, doEnflate, env) == Prepend(data[pos..pos + m.len], p)
  {
  }

  /** One iteration of the object loop. */
  method TransformObject(inp: InputStream, oup: HashingWrite, doEnflate: bool, env: Env) returns (s: Step)
    requires inp.Valid() && oup.InSync() && WellBehaved(env)
    modifies inp, oup.hasher, oup.actual
    ensures inp.Valid() && oup.InSync()
    ensures s == ObjectAt(inp.data, old(inp.pos), doEnflate, env)
    ensures s.Next? ==> inp.pos == s.pos
    ensures oup.hasher.absorbed == old(oup.hasher.absorbed) + s.written
  {
    var start := inp.pos;
    ghost var before := oup.hasher.absorbed;
    var m := ReadObjectMeta(inp, oup);
    var echoed := inp.data[start..start + m.len];
    if m.MetaHalt? {
      ObjectAtHalt(inp.data, start, doEnflate, env, m);
      return Halt(m.error, echoed);
    }
    ghost var mid := oup.hasher.absorbed;
    ghost var q := inp.pos;
    assert q == start + m.len;
    var p := TranscodePayload(inp, oup, m.size, doEnflate, env);
    ObjectAtPayload(inp.data, start, doEnflate, env, m, q, p);
    s := Prepend(echoed, p);
    AppendStep(before, mid, oup.hasher.absorbed, echoed, p.written, s.written);
  }

  lemma ObjectsNone(data: seq<byte>, start: nat, doEnflate: bool, env: Env)
    requires start <= |data|
    requires WellBehaved(env)
    ensures Objects(data, start, 0, doEnflate, env) == Next(start, [])
  {
  }

  /** The object after the first i: the state after i + 1 objects. */
  lemma ObjectsStep(data: seq<byte>, start: nat, i: nat, doEnflate: bool, env: Env, pos: nat, w: seq<byte>, s: Step)
    requires start <= |data|
    requires WellBehaved(env)
    requires Objects(data, start, i, doEnflate, env) == Next(pos, w)
    requires s == ObjectAt(data, pos, doEnflate, env)
    ensures Objects(data, start, i + 1, doEnflate, env) == Prepend(w, s)
  {
    hide ObjectAt;
  }

  /** Once an object has failed, further objects change nothing. */
  lemma {:induction false} ObjectsHalted(data: seq<byte>, start: nat, i: nat, j: nat, doEnflate: bool, env: Env)
    requires start <= |data|
    requires WellBehaved(env)
    requires i <= j
    requires Objects(data, start, i, doEnflate, env).Halt?
    ensures Objects(data, start, j, doEnflate, env) == Objects(data, start, i, doEnflate, env)
    decreases j
  {
    hide ObjectAt;
    if i < j {
      ObjectsHalted(data, start, i, j - 1, doEnflate, env);
    }
  }

  /** The object loop (`for i in 0..count`); it stops at the first object that fails. */
  method TransformObjects(inp: InputStream, oup: HashingWrite, count: nat, doEnflate: bool, env: Env)
    returns (status: Status)
    requires inp.Valid() && oup.InSync() && WellBehaved(env)
    modifies inp, oup.hasher, oup.actual
    ensures inp.Valid() && oup.InSync()
    ensures var s := Objects(inp.data, old(inp.pos), count, doEnflate, env);
      && (status == Success <==> s.Next?)
      && (s.Halt? ==> status == Failure(s.error))
      && (s.Next? ==> inp.pos == s.pos)
      && oup.hasher.absorbed == old(oup.hasher.absorbed) + s.written
  {
    // The loop needs only the lemmas about these definitions, not the definitions.
    hide Objects, ObjectAt;
    ghost var data := inp.data;
    ghost var before := oup.hasher.absorbed;
    var start := inp.pos;
    ghost var w: seq<byte> := [];
    var i: nat := 0;
    ObjectsNone(data, start, doEnflate, env);
    while i < count
      invariant inp.Valid() && oup.InSync() && i <= count
      invariant Objects(data, start, i, doEnflate, env) == Next(inp.pos, w)
      invariant oup.hasher.absorbed == before + w
    {
      ghost var pos := inp.pos;
      ghost var a0 := oup.hasher.absorbed;
      var s := TransformObject(inp, oup, doEnflate, env);
      ObjectsStep(data, start, i, doEnflate, env, pos, w, s);
      AppendStep(before, a0, oup.hasher.absorbed, w, s.written, w + s.written);
      if s.Halt? {
        ObjectsHalted(data, start, i + 1, count, doEnflate, env);
        return Failure(s.error);
      }
      w := w + s.written;
      i := i + 1;
    }
    status := Success;
  }

  /** After the last object: the old trailer is read and dropped, the digest of what the
      hasher absorbed goes to the destination without passing through the hasher, and the
      rest of the input is counted. */
  method ReplaceTrailer(inp: InputStream, oup: HashingWrite) returns (status: Status)
    requires inp.Valid() && oup.InSync()
    modifies inp, oup.actual
    ensures inp.Valid()
    ensures Outcome(status, oup.actual.contents, oup.hasher.absorbed)
         == Trailer(inp.data, old(inp.pos), old(oup.hasher.absorbed), oup.hasher.digest)
  {
    var sha1sum := inp.ReadExact(TrailerLen);
    if sha1sum.None? {
      return Failure(Eof);
    }
    var newsum := oup.hasher.Result();
    oup.actual.Write(newsum);
    var remaining := inp.CountRemaining();
    if remaining == 0 {
      status := Success;
    } else {
      status := Failure(TrailingData(remaining));
    }
  }

  // How Run ends, one lemma per stage that can end it.

  lemma RunHeaderHalt(data: seq<byte>, doEnflate: bool, env: Env, h: Step)
    requires WellBehaved(env)
    requires h == PackHeader(data) && h.Halt?
    ensures Run(data, doEnflate, env) == Outcome(Failure(h.error), h.written, h.written)
  {
  }

  lemma RunObjectsHalt(data: seq<byte>, doEnflate: bool, env: Env, h: Step, count: nat, s: Step)
    requires WellBehaved(env)
    requires h == PackHeader(data) && h.Next?
    requires count == PackCount(data)
    requires s == Objects(data, h.pos, count, doEnflate, env) && s.Halt?
    ensures Run(data, doEnflate, env) == Outcome(Failure(s.error), h.written + s.written, h.written + s.written)
  {
  }

  lemma RunTrailer(data: seq<byte>, doEnflate: bool, env: Env, h: Step, count: nat, s: Step, hashed: seq<byte>, r: Outcome)
    requires WellBehaved(env)
    requires h == PackHeader(data) && h.Next?
    requires count == PackCount(data)
    requires s == Objects(data, h.pos, count, doEnflate, env) && s.Next?
    requires hashed == h.written + s.written
    requires r == Trailer(data, s.pos, hashed, env.sha1)
    ensures Run(data, doEnflate, env) == r
  {
  }

  /** The whole pass over `stdin`: the status it ends with, what it wrote to standard
      output and what the hasher absorbed. */
  method Transform(doEnflate: bool, stdin: seq<byte>, env: Env)
    returns (status: Status, stdout: seq<byte>, hashed: seq<byte>)
    requires WellBehaved(env)
    ensures Run(stdin, doEnflate, env) == Outcome(status, stdout, hashed)
  {
    // Each way the pass can end is tied to Run by its own lemma.
    hide Run, PackHeader, Objects, ObjectAt, Trailer;
    var inp := new InputStream(stdin);
    var hasher := new Sha1(env.sha1);
    var actual := new Stdout();
    var oup := new HashingWrite(hasher, actual);
    var header, count := ReadPackHeader(inp, oup);
    assert oup.hasher.absorbed == header.written;
    if header.Halt? {
      RunHeaderHalt(stdin, doEnflate, env, header);
      return Failure(header.error), oup.actual.contents, oup.hasher.absorbed;
    }
    ghost var objects := Objects(stdin, inp.pos, count, doEnflate, env);
    status := TransformObjects(inp, oup, count, doEnflate, env);
    if status.Failure? {
      RunObjectsHalt(stdin, doEnflate, env, header, count, objects);
      return status, oup.actual.contents, oup.hasher.absorbed;
    }
    ghost var hashedSoFar := oup.hasher.absorbed;
    ghost var q := inp.pos;
    ghost var r := Trailer(stdin, q, hashedSoFar, env.sha1);
    status := ReplaceTrailer(inp, oup);
    stdout, hashed := oup.actual.contents, oup.hasher.absorbed;
    assert Outcome(status, stdout, hashed) == r;
    RunTrailer(stdin, doEnflate, env, header, count, objects, hashedSoFar, r);
  }
}
