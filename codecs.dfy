/** The collaborators the transform calls but does not define: the zlib decoder and
    encoder and the SHA-1 hasher. Each is a function value; what the transform relies
    on is stated as predicates over them. */
module Codecs {
  import opened Bytes

  /** What a run of the streaming zlib decoder over the remaining input yields: how many
      input bytes it pulled, the decompressed bytes it produced (all of which were copied
      to the output before it stopped), and whether it stopped on an error. */
  datatype Inflation = Inflation(consumed: nat, out: seq<byte>, failed: bool)

  /** What a run of the zlib encoder over a bounded reader yields: how many input bytes
      it pulled (`total_in`) and the compressed bytes it produced. */
  datatype Deflation = Deflation(consumed: nat, out: seq<byte>)

  /** A SHA-1 digest: 20 bytes. */
  type Digest = s: seq<byte> | |s| == 20 witness seq(20, _ => 0)

  datatype Env = Env(
    inflate: seq<byte> -> Inflation,
    deflate: seq<byte> -> Deflation,
    sha1: seq<byte> -> Digest)

  /** A reader-based codec cannot pull more bytes than its reader holds. */
  ghost predicate WellBehaved(env: Env) {
    && (forall s :: env.inflate(s).consumed <= |s|)
    && (forall s :: env.deflate(s).consumed <= |s|)
  }

  /** The decoder finds the end of a zlib stream from the stream itself: a decode that
      stopped before the end of its input did not look at the bytes after the point where
      it stopped, so appending more bytes changes nothing. */
  ghost predicate SelfTerminating(env: Env) {
    forall s, t :: env.inflate(s).consumed < |s| ==> env.inflate(s + t) == env.inflate(s)
  }
}
