/** The security context of the channel and the byte codecs around it. The
    GSSAPI implementation, Netty's Base64 and its line splitter are not part
    of this model: each is a function value supplied from outside, so the
    channel's logic is proved for every choice of them. */
module SecurityContext {
  import opened Wrappers
  import opened Text

  /** protect and unprotect of an established context; either may throw,
      which is None here. */
  datatype Security = Security(protect: Bytes -> Option<Bytes>, unprotect: Bytes -> Option<Bytes>)

  /** Base64 encoding without line breaks; Base64 decoding, which throws
      (None) on input that is not Base64; and the line splitter applied to
      one buffer: the first complete line with its line end removed, or None
      when the buffer holds no complete line. */
  datatype Codec = Codec(encode64: Bytes -> Bytes, decode64: Bytes -> Option<Bytes>, frame: Bytes -> Option<Bytes>)

  /** Whatever protect produces, unprotect takes back. */
  ghost predicate Inverse(sec: Security) {
    forall x :: sec.protect(x).Some? ==> sec.unprotect(sec.protect(x).value) == Some(x)
  }

  ghost predicate Base64RoundTrips(codec: Codec) {
    forall x :: codec.decode64(codec.encode64(x)) == Some(x)
  }

  function WithCrlf(w: Bytes): Bytes {
    w + CRLF
  }

  /** A line without '\n', followed by CRLF, is framed back into that line. */
  ghost predicate FramesLines(codec: Codec) {
    forall w :: LF !in w ==> codec.frame(WithCrlf(w)) == Some(w)
  }
}
