/** Commands on their way to the server: the text writeCmd builds from a
    command and its arguments, and the bytes CommandEncoder puts on the wire
    for that text, in the clear or protected by the security context. */
module Encoding {
  import opened Wrappers
  import opened Text
  import opened SecurityContext

  /** "ENC " */
  const ENC: Bytes := [69, 78, 67, SP]

  /** The command followed by ' ' and each argument in turn. */
  function CommandText(cmd: Bytes, args: seq<Bytes>): Bytes
  {
    Join([cmd] + args, SP)
  }

  lemma {:induction false} JoinSnoc(parts: seq<Bytes>, x: Bytes, sep: Byte)
    requires |parts| >= 1
    ensures Join(parts + [x], sep) == Join(parts, sep) + [sep] + x
    decreases |parts|
  {
    if |parts| == 1 {
      assert parts + [x] == [parts[0], x];
    } else {
      assert (parts + [x])[1..] == parts[1..] + [x];
      JoinSnoc(parts[1..], x, sep);
    }
  }

  /** The StringBuilder loop of writeCmd. */
  method BuildCommandText(cmd: Bytes, args: seq<Bytes>) returns (text: Bytes)
    ensures text == CommandText(cmd, args)
  {
    text := cmd;
    var i := 0;
    while i < |args|
      invariant 0 <= i <= |args|
      invariant text == Join([cmd] + args[..i], SP)
    {
      JoinSnoc([cmd] + args[..i], args[i], SP);
      assert [cmd] + args[..i + 1] == [cmd] + args[..i] + [args[i]];
      text := text + [SP] + args[i];
      i := i + 1;
    }
    assert args[..i] == args;
  }

  /** The text splits on ' ' back into the command and its arguments when
      none of them contains a space. */
  lemma CommandTextSplits(cmd: Bytes, args: seq<Bytes>)
    requires SP !in cmd && forall i :: 0 <= i < |args| ==> SP !in args[i]
    ensures Split(CommandText(cmd, args), SP) == [cmd] + args
  {
    var parts := [cmd] + args;
    forall i | 0 <= i < |parts| ensures SP !in parts[i] {
      if i > 0 {
        assert parts[i] == args[i - 1];
      }
    }
    SplitJoin(parts, SP);
  }

  /** CommandEncoder.encode: the text and CRLF, or, with a security context,
      "ENC ", the Base64 encoding of the protected text, and CRLF. When
      protect throws, nothing is written. */
  function EncodeCommand(sec: Option<Security>, codec: Codec, text: Bytes): (out: Option<Bytes>)
    ensures sec.None? ==> out == Some(WithCrlf(text))
    ensures out.Some? ==> |out.value| >= 2 && out.value[|out.value| - 2..] == CRLF
  {
    if sec.None? then Some(WithCrlf(text))
    else
      match sec.value.protect(text)
      case None => None
      case Some(p) => Some(WithCrlf(ENC + codec.encode64(p)))
  }

  /** The reading the server gives a framed command line: the line itself
      in the clear, or the unprotected payload of an "ENC " line. */
  function ReceiveCommand(sec: Option<Security>, codec: Codec, line: Bytes): Option<Bytes>
  {
    if sec.None? then Some(line)
    else if StartsWith(line, ENC) then
      match codec.decode64(line[|ENC|..])
      case None => None
      case Some(p) => sec.value.unprotect(p)
    else None
  }

  /** Base64 without line breaks never produces '\n'. */
  ghost predicate Unbroken(codec: Codec) {
    forall x :: LF !in codec.encode64(x)
  }

  /** "ENC " followed by Base64 output holds no '\n'. */
  lemma EncLineUnbroken(codec: Codec, p: Bytes)
    requires Unbroken(codec)
    ensures LF !in ENC + codec.encode64(p)
  {
    var e := codec.encode64(p);
    assert LF !in e;
    var w := ENC + e;
    forall k | 0 <= k < |w| ensures w[k] != LF {
      if k >= |ENC| {
        assert w[k] == e[k - |ENC|];
      }
    }
  }

  /** The server reads an "ENC " line back through Base64 decoding and
      unprotect. */
  lemma SealedCommandReads(sec: Option<Security>, codec: Codec, text: Bytes)
    requires sec.Some? && Inverse(sec.value) && Base64RoundTrips(codec)
    requires sec.value.protect(text).Some?
    ensures ReceiveCommand(sec, codec, ENC + codec.encode64(sec.value.protect(text).value)) == Some(text)
  {
    var p := sec.value.protect(text).value;
    var e := codec.encode64(p);
    var w := ENC + e;
    assert StartsWith(w, ENC) && w[|ENC|..] == e;
    assert codec.decode64(e) == Some(p);
  }

  /** The line written for a protected command, as the splitter frames it. */
  lemma SealedCommandFrames(sec: Option<Security>, codec: Codec, text: Bytes)
    requires FramesLines(codec) && Unbroken(codec)
    requires sec.Some? && sec.value.protect(text).Some?
    ensures EncodeCommand(sec, codec, text).Some?
    ensures codec.frame(EncodeCommand(sec, codec, text).value) == Some(ENC + codec.encode64(sec.value.protect(text).value))
  {
    var w := ENC + codec.encode64(sec.value.protect(text).value);
    assert EncodeCommand(sec, codec, text) == Some(WithCrlf(w));
    EncLineUnbroken(codec, sec.value.protect(text).value);
  }

  /** Every command written for a text without '\n' comes off the wire as
      one line that the server reads back as that text. */
  lemma EncodeRoundTrip(sec: Option<Security>, codec: Codec, text: Bytes)
    requires LF !in text && FramesLines(codec) && Unbroken(codec) && Base64RoundTrips(codec)
    requires sec.Some? ==> Inverse(sec.value)
    requires EncodeCommand(sec, codec, text).Some?
    ensures var line := codec.frame(EncodeCommand(sec, codec, text).value);
            line.Some? && ReceiveCommand(sec, codec, line.value) == Some(text)
  {
    if sec.Some? {
      SealedCommandFrames(sec, codec, text);
      SealedCommandReads(sec, codec, text);
    } else {
      assert codec.frame(WithCrlf(text)) == Some(text);
    }
  }
}
