/** The reply decoder: lines arrive one at a time, already split, and are
    buffered until a line whose separator is ' ' completes a reply. A reply in
    the 6xx class is unwrapped through the security context, recursively. */
module Decoding {
  import opened Wrappers
  import opened Text
  import opened Replies
  import opened SecurityContext

  /** The decoder's fields: the lines buffered since the last reply, the code
      string of the first of them and its parsed value. */
  datatype DecoderState = DecoderState(lines: seq<Bytes>, codestr: Bytes, code: int)

  /** A new decoder: an empty list, codestr unset, code 0. */
  const Fresh: DecoderState := DecoderState([], [], 0)

  /** What one line yields: nothing yet, a finished reply, or the
      "Bad reply from server." error. */
  datatype LineResult = Incomplete | Complete(reply: Reply) | BadReply

  /** The errors an unwrap can end in: the decoder's own error, an
      exception from Base64 decoding or from unprotect, and the nesting
      bound of this model. */
  datatype Fault = BadReplyFromServer | BadBase64 | UnprotectFailed | NestingTooDeep

  /** The buffered lines always belong to one reply whose first line's code
      string parsed to the stored code. */
  predicate Consistent(st: DecoderState) {
    |st.lines| > 0 ==> |st.codestr| == 3 && ParseCode(st.codestr) == Some(st.code)
  }

  /** innerDecodeReplyLine, with every exception it can raise turned into
      BadReply as decodeReplyLine does. The state is the one the fields hold
      when the exception is raised. */
  function Step(st: DecoderState, msg: Bytes): (DecoderState, LineResult)
  {
    if |msg| == 0 then (st, BadReply)  // getByte(0) of an empty line
    else
      // the reader index once a leading NUL has been consumed
      var ri := if msg[0] == NUL then 1 else 0;
      if |st.lines| == 0 then FirstLine(st, msg, ri) else NextLine(st, msg, ri)
  }

  /** The first line of a reply. The code string is read from absolute index
      0, so a consumed NUL is still part of it. */
  function FirstLine(st: DecoderState, msg: Bytes, ri: nat): (DecoderState, LineResult)
    requires ri <= 1 && ri <= |msg|
  {
    if |msg| < 3 then (st, BadReply)
    else
      var cs := msg[..3];
      match ParseCode(cs)
      case None => (st.(codestr := cs), BadReply)
      case Some(c) =>
        if |msg| < ri + 4 then (st.(codestr := cs, code := c), BadReply)  // no separator byte
        else Finish(DecoderState(st.lines + [msg[ri + 4..]], cs, c), msg[ri + 3])
  }

  /** A later line: its 4-byte prefix (again read from absolute index 0) is
      stripped only when it repeats the code string and ends in ' ' or '-';
      otherwise the whole line is a continuation. */
  function NextLine(st: DecoderState, msg: Bytes, ri: nat): (DecoderState, LineResult)
    requires ri <= 1 && ri <= |msg|
  {
    if |msg| - ri >= 4 && StartsWith(msg[..4], st.codestr) && (msg[3] == DASH || msg[3] == SP) then
      Finish(st.(lines := st.lines + [msg[ri + 4..]]), msg[3])
    else
      Finish(st.(lines := st.lines + [msg[ri..]]), DASH)
  }

  /** The switch on the separator. On ' ' the list is replaced by a new one
      before the reply is constructed, so an out-of-range code still empties
      the buffer. */
  function Finish(st: DecoderState, sep: Byte): (DecoderState, LineResult)
  {
    if sep == SP then
      (st.(lines := []), if ValidCode(st.code) then Complete(Reply(st.code, st.lines)) else BadReply)
    else if sep == DASH then (st, Incomplete)
    else (st, BadReply)
  }

  /** Feed several lines in order. */
  function FeedAll(st: DecoderState, msgs: seq<Bytes>): (r: (DecoderState, seq<LineResult>))
    ensures |r.1| == |msgs|
    decreases |msgs|
  {
    if msgs == [] then (st, [])
    else
      var (st1, res) := Step(st, msgs[0]);
      var (st2, rest) := FeedAll(st1, msgs[1..]);
      (st2, [res] + rest)
  }

  function Incompletes(n: nat): (s: seq<LineResult>)
    ensures |s| == n && forall i :: 0 <= i < n ==> s[i] == Incomplete
  {
    seq(n, _ => Incomplete)
  }

  // ---------------------------------------------------------------------
  // Properties of one step

  lemma StepKeepsConsistent(st: DecoderState, msg: Bytes)
    requires Consistent(st)
    ensures Consistent(Step(st, msg).0)
  {
  }

  /** A first line is well formed when it has a numeric code, a separator
      byte that is ' ' or '-', and, when it ends the reply, a code in
      [100, 700). */
  predicate WellFormedFirst(msg: Bytes) {
    && |msg| >= 4
    && ParseCode(msg[..3]).Some?
    && (msg[3] == SP || msg[3] == DASH)
    && (msg[3] == SP ==> ValidCode(ParseCode(msg[..3]).value))
  }

  /** With nothing buffered, a line fails exactly when it is not well formed;
      otherwise it either completes a one-line reply or starts a multi-line
      one. */
  lemma FirstLineOutcome(st: DecoderState, msg: Bytes)
    requires |st.lines| == 0
    ensures Step(st, msg).1.BadReply? <==> !WellFormedFirst(msg)
    ensures WellFormedFirst(msg) && msg[3] == SP ==>
      Step(st, msg) == (DecoderState([], msg[..3], ParseCode(msg[..3]).value),
                        Complete(Reply(ParseCode(msg[..3]).value, [msg[4..]])))
    ensures WellFormedFirst(msg) && msg[3] == DASH ==>
      Step(st, msg) == (DecoderState([msg[4..]], msg[..3], ParseCode(msg[..3]).value), Incomplete)
  {
    if |msg| > 0 && msg[0] == NUL && |msg| >= 3 {
      assert !ParseCode(msg[..3]).Some?;
    }
    if WellFormedFirst(msg) {
      assert msg[0] != NUL;
      assert st.lines + [msg[4..]] == [msg[4..]];
    }
  }

  /** A first line that starts with NUL is always rejected, although the NUL
      itself has been consumed: the code string still includes it. */
  lemma LeadingNulRejected(st: DecoderState, rest: Bytes)
    requires |st.lines| == 0
    ensures Step(st, [NUL] + rest).1 == BadReply
  {
    var msg := [NUL] + rest;
    if |msg| >= 3 {
      assert msg[..3][0] == NUL;
    }
  }

  /** Out-of-range codes that parseInt accepts ("+12", "-05", "099") are
      rejected when the reply is constructed, and the buffer is emptied. */
  lemma OutOfRangeCodeRejected(st: DecoderState, msg: Bytes)
    requires |st.lines| == 0 && |msg| >= 4 && msg[3] == SP
    requires ParseCode(msg[..3]).Some? && !ValidCode(ParseCode(msg[..3]).value)
    ensures Step(st, msg) == (DecoderState([], msg[..3], ParseCode(msg[..3]).value), BadReply)
  {
    assert msg[0] != NUL;
  }

  /** How many bytes of a line readByte consumes first: one leading NUL. */
  function Skipped(msg: Bytes): (ri: nat)
    ensures ri <= 1 && ri <= |msg|
  {
    if |msg| > 0 && msg[0] == NUL then 1 else 0
  }

  /** Whether a later line carries the prefix of the reply being buffered:
      four readable bytes, where the first four of the line (read from
      absolute index 0) repeat the code string and end in ' ' or '-'. */
  predicate Prefixed(st: DecoderState, msg: Bytes) {
    |msg| - Skipped(msg) >= 4 && StartsWith(msg[..4], st.codestr) && (msg[3] == SP || msg[3] == DASH)
  }

  /** With lines buffered, an empty line fails and changes nothing. Any other
      line is appended from its reader index, stripped of its prefix exactly
      when Prefixed holds. It ends the reply exactly when it is prefixed with
      ' ', and then the reply holds the first line's code and every buffered
      line in order, and the buffer is empty. */
  lemma ContinuationOutcome(st: DecoderState, msg: Bytes)
    requires |st.lines| >= 1
    ensures msg == [] ==> Step(st, msg) == (st, BadReply)
    ensures msg != [] ==>
      var kept := if Prefixed(st, msg) then msg[Skipped(msg) + 4..] else msg[Skipped(msg)..];
      && (Prefixed(st, msg) && msg[3] == SP ==>
            Step(st, msg) == (st.(lines := []),
                              if ValidCode(st.code) then Complete(Reply(st.code, st.lines + [kept])) else BadReply))
      && (!(Prefixed(st, msg) && msg[3] == SP) ==>
            Step(st, msg) == (st.(lines := st.lines + [kept]), Incomplete))
  {
  }

  /** A later line that starts with NUL loses the NUL and is kept whole as a
      continuation: its first four bytes, read from absolute index 0, never
      repeat a code string, which starts with a digit or a sign. */
  lemma NulLedContinuation(st: DecoderState, rest: Bytes)
    requires Consistent(st) && |st.lines| >= 1
    ensures Step(st, [NUL] + rest) == (st.(lines := st.lines + [rest]), Incomplete)
  {
    var msg := [NUL] + rest;
    if |msg| >= 4 {
      assert msg[..4][0] == NUL;
      assert !StartsWith(msg[..4], st.codestr);
    }
    assert msg[1..] == rest;
  }

  /** A line with another code, or shorter than 4 bytes, never ends a reply. */
  lemma ForeignLineNeverEnds(st: DecoderState, msg: Bytes)
    requires |st.lines| >= 1 && |st.codestr| == 3 && |msg| >= 1
    requires |msg| < 4 || msg[..3] != st.codestr
    ensures Step(st, msg).1 == Incomplete
    ensures |Step(st, msg).0.lines| == |st.lines| + 1
  {
    if |msg| >= 4 {
      assert msg[..4][..3] == msg[..3];
    }
  }

  // ---------------------------------------------------------------------
  // Decoding the wire form of a reply

  /** Continuation lines in wire form are stripped and buffered; the last
      one completes the reply with every buffered line. */
  lemma {:induction false} FeedContinuation(st: DecoderState, code: ReplyCode, rest: seq<Bytes>)
    requires |st.lines| >= 1 && st.codestr == CodeDigits(code) && st.code == code && |rest| >= 1
    ensures FeedAll(st, WireLines(code, rest)) ==
            (DecoderState([], CodeDigits(code), code), Incompletes(|rest| - 1) + [Complete(Reply(code, st.lines + rest))])
    decreases |rest|
  {
    var ws := WireLines(code, rest);
    var sep := if |rest| == 1 then SP else DASH;
    var w := WireLine(code, sep, rest[0]);
    assert ws[0] == w;
    assert w[..4][..3] == CodeDigits(code) && w[3] == sep && w[4..] == rest[0];
    assert w[0] != NUL;
    var st1 := st.(lines := st.lines + [rest[0]]);
    assert Step(st, w) == Finish(st1, sep);
    if |rest| == 1 {
      assert ws == [w] && ws[1..] == [];
      assert rest == [rest[0]];
      var done := DecoderState([], CodeDigits(code), code);
      assert Finish(st1, SP) == (done, Complete(Reply(code, st.lines + rest)));
      assert Step(st, ws[0]) == (done, Complete(Reply(code, st.lines + rest)));
      assert FeedAll(st, ws) == (FeedAll(done, ws[1..]).0, [Complete(Reply(code, st.lines + rest))] + FeedAll(done, ws[1..]).1);
      assert FeedAll(done, ws[1..]) == (done, []);
      assert [Complete(Reply(code, st.lines + rest))] + [] == Incompletes(|rest| - 1) + [Complete(Reply(code, st.lines + rest))];
    } else {
      assert ws[1..] == WireLines(code, rest[1..]);
      FeedContinuation(st1, code, rest[1..]);
      assert Step(st, w) == (st1, Incomplete);
      assert FeedAll(st, ws) == (FeedAll(st1, ws[1..]).0, [Incomplete] + FeedAll(st1, ws[1..]).1);
      assert st1.lines + rest[1..] == st.lines + rest;
      assert [Incomplete] + Incompletes(|rest| - 2) == Incompletes(|rest| - 1);
      var tail := Incompletes(|rest| - 2) + [Complete(Reply(code, st.lines + rest))];
      assert FeedAll(st1, ws[1..]).1 == tail;
      assert [Incomplete] + tail == Incompletes(|rest| - 1) + [Complete(Reply(code, st.lines + rest))];
    }
  }

  /** Decoding the wire lines of a reply yields nothing until the last line,
      which yields the reply itself, whatever its lines say. */
  lemma DecodeWireLines(st: DecoderState, code: ReplyCode, lines: seq<Bytes>)
    requires |st.lines| == 0 && |lines| >= 1
    ensures FeedAll(st, WireLines(code, lines)) ==
            (DecoderState([], CodeDigits(code), code), Incompletes(|lines| - 1) + [Complete(Reply(code, lines))])
  {
    ParseCodeDigits(code);
    var ws := WireLines(code, lines);
    var sep := if |lines| == 1 then SP else DASH;
    var w := WireLine(code, sep, lines[0]);
    assert ws[0] == w;
    assert w[..3] == CodeDigits(code) && w[3] == sep && w[4..] == lines[0];
    assert w[0] != NUL;
    var st1 := DecoderState([lines[0]], CodeDigits(code), code);
    assert st.lines + [lines[0]] == [lines[0]];
    assert Step(st, w) == Finish(st1, sep);
    if |lines| == 1 {
      assert ws == [w] && ws[1..] == [];
      assert lines == [lines[0]];
      var done := DecoderState([], CodeDigits(code), code);
      assert Step(st, w) == (done, Complete(Reply(code, lines)));
      assert Step(st, ws[0]) == (done, Complete(Reply(code, lines)));
      assert FeedAll(st, ws) == (FeedAll(done, ws[1..]).0, [Complete(Reply(code, lines))] + FeedAll(done, ws[1..]).1);
      assert FeedAll(done, ws[1..]) == (done, []);
      assert [Complete(Reply(code, lines))] + [] == Incompletes(|lines| - 1) + [Complete(Reply(code, lines))];
    } else {
      assert ws[1..] == WireLines(code, lines[1..]);
      FeedContinuation(st1, code, lines[1..]);
      assert Step(st, w) == (st1, Incomplete);
      assert FeedAll(st, ws) == (FeedAll(st1, ws[1..]).0, [Incomplete] + FeedAll(st1, ws[1..]).1);
      assert [lines[0]] + lines[1..] == lines;
      assert [Incomplete] + Incompletes(|lines| - 2) == Incompletes(|lines| - 1);
      var tail := Incompletes(|lines| - 2) + [Complete(Reply(code, lines))];
      assert FeedAll(st1, ws[1..]).1 == tail;
      assert [Incomplete] + tail == Incompletes(|lines| - 1) + [Complete(Reply(code, lines))];
    }
  }

  /** toString() of a reply, split into lines and decoded, gives the reply
      back. */
  lemma ToStringDecodes(r: Reply)
    requires |r.lines| >= 1
    requires forall i :: 0 <= i < |r.lines| ==> LF !in r.lines[i]
    ensures FeedAll(Fresh, Split(ToString(r), LF)).1 == Incompletes(|r.lines| - 1) + [Complete(r)]
  {
    ToStringLines(r);
    DecodeWireLines(Fresh, r.code, r.lines);
  }

  // ---------------------------------------------------------------------
  // Protected replies

  /** decode() after line splitting: decode the line and, when it completes a
      6xx reply, unwrap it. */
  function DecodeLineSpec(sec: Option<Security>, codec: Codec, st: DecoderState, msg: Bytes, depth: nat)
    : (DecoderState, Result<Option<Reply>, Fault>)
    decreases depth, 2, 0
  {
    var (st1, res) := Step(st, msg);
    match res
    case BadReply => (st1, Err(BadReplyFromServer))
    case Incomplete => (st1, Ok(None))
    case Complete(r) =>
      if IsProtected(r) then
        (st1, match Unwrap(sec, codec, r, depth)
              case Ok(inner) => Ok(Some(inner))
              case Err(e) => Err(e))
      else (st1, Ok(Some(r)))
  }

  /** decodeProtectedReply: without a security context the reply is returned
      as it is; otherwise a fresh decoder is fed the unprotected payload of
      each line in turn and the first reply it completes is the result.
      `depth` bounds how deeply protected replies may nest. */
  function Unwrap(sec: Option<Security>, codec: Codec, reply: Reply, depth: nat): (r: Result<Reply, Fault>)
    ensures sec.None? ==> r == Ok(reply)
    decreases depth, 1, 0
  {
    if sec.None? then Ok(reply)
    else if depth == 0 then Err(NestingTooDeep)
    else FeedPayloads(sec.value, codec, Fresh, reply.lines, depth - 1)
  }

  /** unprotect(Base64.decode(line)): either call may throw. */
  function Open(sec: Security, codec: Codec, payload: Bytes): (r: Result<Bytes, Fault>)
    ensures r.Err? ==> r.error == BadBase64 || r.error == UnprotectFailed
  {
    match codec.decode64(payload)
    case None => Err(BadBase64)
    case Some(eb) =>
      match sec.unprotect(eb)
      case None => Err(UnprotectFailed)
      case Some(db) => Ok(db)
  }

  function FeedPayloads(sec: Security, codec: Codec, st: DecoderState, payloads: seq<Bytes>, depth: nat)
    : Result<Reply, Fault>
    decreases depth, 3, |payloads|
  {
    if payloads == [] then Err(BadReplyFromServer)
    else
      match Open(sec, codec, payloads[0])
      case Err(e) => Err(e)
      case Ok(db) =>
        match codec.frame(db)
        case None => FeedPayloads(sec, codec, st, payloads[1..], depth)
        case Some(line) =>
          var (st1, res) := DecodeLineSpec(Some(sec), codec, st, line, depth);
          match res
          case Err(e) => Err(e)
          case Ok(Some(inner)) => Ok(inner)
          case Ok(None) => FeedPayloads(sec, codec, st1, payloads[1..], depth)
  }

  /** An unwrapped reply is never itself protected: nested 6xx replies are
      unwrapped again. */
  lemma {:induction false} UnwrapNeverProtected(sec: Option<Security>, codec: Codec, reply: Reply, depth: nat)
    requires sec.Some?
    ensures Unwrap(sec, codec, reply, depth).Ok? ==> !IsProtected(Unwrap(sec, codec, reply, depth).value)
    decreases depth, 1, 0
  {
    if depth > 0 {
      PayloadsNeverProtected(sec.value, codec, Fresh, reply.lines, depth - 1);
    }
  }

  lemma {:induction false} PayloadsNeverProtected(sec: Security, codec: Codec, st: DecoderState, payloads: seq<Bytes>, depth: nat)
    ensures FeedPayloads(sec, codec, st, payloads, depth).Ok? ==> !IsProtected(FeedPayloads(sec, codec, st, payloads, depth).value)
    decreases depth, 3, |payloads|
  {
    if payloads != [] {
      var db := Open(sec, codec, payloads[0]);
      if db.Ok? {
        var line := codec.frame(db.value);
        if line.None? {
          PayloadsNeverProtected(sec, codec, st, payloads[1..], depth);
        } else {
          var (st1, res) := Step(st, line.value);
          if res.Complete? && IsProtected(res.reply) {
            UnwrapNeverProtected(Some(sec), codec, res.reply, depth);
          } else if res.Incomplete? {
            PayloadsNeverProtected(sec, codec, st1, payloads[1..], depth);
          }
        }
      }
    }
  }

  /** The lines the payloads open into, in order, when every payload opens;
      a payload holding no complete line gives none. */
  function Framed(sec: Security, codec: Codec, payloads: seq<Bytes>): seq<Bytes>
    decreases |payloads|
  {
    if payloads == [] then []
    else
      var line := match Open(sec, codec, payloads[0])
                  case Err(_) => []
                  case Ok(db) => match codec.frame(db) case None => [] case Some(l) => [l];
      line + Framed(sec, codec, payloads[1..])
  }

  /** When every payload opens and no line they hold completes a reply or
      fails, the unwrap ends in the "Bad reply from server." error. */
  lemma {:induction false} NoReplyIsError(sec: Security, codec: Codec, st: DecoderState, payloads: seq<Bytes>, depth: nat)
    requires forall i :: 0 <= i < |payloads| ==> Open(sec, codec, payloads[i]).Ok?
    requires forall k :: 0 <= k < |FeedAll(st, Framed(sec, codec, payloads)).1| ==>
      FeedAll(st, Framed(sec, codec, payloads)).1[k] == Incomplete
    ensures FeedPayloads(sec, codec, st, payloads, depth) == Err(BadReplyFromServer)
    decreases |payloads|
  {
    if payloads != [] {
      var rest := payloads[1..];
      assert forall i :: 0 <= i < |rest| ==> Open(sec, codec, rest[i]).Ok? by {
        forall i | 0 <= i < |rest| ensures Open(sec, codec, rest[i]).Ok? {
          assert rest[i] == payloads[i + 1];
        }
      }
      var db := Open(sec, codec, payloads[0]);
      assert db.Ok?;
      if codec.frame(db.value).None? {
        assert Framed(sec, codec, payloads) == Framed(sec, codec, rest);
        NoReplyIsError(sec, codec, st, rest, depth);
      } else {
        var line := codec.frame(db.value).value;
        var ls := Framed(sec, codec, rest);
        assert Framed(sec, codec, payloads) == [line] + ls;
        var (st1, res) := Step(st, line);
        assert ([line] + ls)[1..] == ls;
        assert FeedAll(st, [line] + ls).1 == [res] + FeedAll(st1, ls).1;
        assert FeedAll(st, [line] + ls).1[0] == Incomplete;
        forall k | 0 <= k < |FeedAll(st1, ls).1| ensures FeedAll(st1, ls).1[k] == Incomplete {
          assert FeedAll(st1, ls).1[k] == FeedAll(st, [line] + ls).1[k + 1];
        }
        NoReplyIsError(sec, codec, st1, rest, depth);
      }
    }
  }

  /** decodeProtectedReply fails with "Bad reply from server." when the
      lines of the reply open but a fresh decoder fed them completes no
      reply. */
  lemma UnwrapNoReply(sec: Security, codec: Codec, reply: Reply, depth: nat)
    requires depth >= 1
    requires forall i :: 0 <= i < |reply.lines| ==> Open(sec, codec, reply.lines[i]).Ok?
    requires forall k :: 0 <= k < |FeedAll(Fresh, Framed(sec, codec, reply.lines)).1| ==>
      FeedAll(Fresh, Framed(sec, codec, reply.lines)).1[k] == Incomplete
    ensures Unwrap(Some(sec), codec, reply, depth) == Err(BadReplyFromServer)
  {
    NoReplyIsError(sec, codec, Fresh, reply.lines, depth - 1);
  }

  /** The sender's side of a protected reply: every line, with CRLF, is
      protected and Base64-encoded. */
  function SealLines(sec: Security, codec: Codec, ws: seq<Bytes>): (r: Option<seq<Bytes>>)
    ensures r.Some? ==> |r.value| == |ws|
  {
    if ws == [] then Some([])
    else
      match sec.protect(WithCrlf(ws[0]))
      case None => None
      case Some(p) =>
        match SealLines(sec, codec, ws[1..])
        case None => None
        case Some(rest) => Some([codec.encode64(p)] + rest)
  }

  lemma {:induction false} SealedLinesOpen(sec: Security, codec: Codec, ws: seq<Bytes>)
    requires Inverse(sec) && Base64RoundTrips(codec)
    requires SealLines(sec, codec, ws).Some?
    ensures var ps := SealLines(sec, codec, ws).value;
      forall i :: 0 <= i < |ps| ==> Open(sec, codec, ps[i]) == Ok(WithCrlf(ws[i]))
    decreases |ws|
  {
    if ws != [] {
      SealedLinesOpen(sec, codec, ws[1..]);
      var ps := SealLines(sec, codec, ws).value;
      var rest := SealLines(sec, codec, ws[1..]).value;
      var p := sec.protect(WithCrlf(ws[0])).value;
      assert ps == [codec.encode64(p)] + rest;
      forall i | 0 <= i < |ps| ensures Open(sec, codec, ps[i]) == Ok(WithCrlf(ws[i])) {
        if i == 0 {
          assert codec.decode64(codec.encode64(p)) == Some(p);
        } else {
          assert ps[i] == rest[i - 1];
        }
      }
    }
  }

  /** Feeding payloads that open into lines behaves as feeding the lines:
      the payload whose line completes a reply ends the unwrap, whatever
      follows it, and a completed protected reply is unwrapped in turn. */
  lemma {:induction false} FeedPayloadsAsLines(sec: Security, codec: Codec, st: DecoderState,
                                               ps: seq<Bytes>, more: seq<Bytes>, ws: seq<Bytes>, inner: Reply, depth: nat)
    requires |ps| == |ws| >= 1
    requires forall i :: 0 <= i < |ps| ==>
      Open(sec, codec, ps[i]).Ok? && codec.frame(Open(sec, codec, ps[i]).value) == Some(ws[i])
    requires FeedAll(st, ws).1 == Incompletes(|ws| - 1) + [Complete(inner)]
    ensures !IsProtected(inner) ==> FeedPayloads(sec, codec, st, ps + more, depth) == Ok(inner)
    ensures IsProtected(inner) ==> FeedPayloads(sec, codec, st, ps + more, depth) == Unwrap(Some(sec), codec, inner, depth)
    decreases |ps|
  {
    var (st1, r0) := Step(st, ws[0]);
    assert FeedAll(st, ws).1[0] == r0;
    assert (ps + more)[0] == ps[0];
    assert codec.frame(Open(sec, codec, ps[0]).value) == Some(ws[0]);
    if |ws| == 1 {
      assert r0 == Complete(inner);
    } else {
      assert r0 == Incomplete;
      assert (ps + more)[1..] == ps[1..] + more;
      assert FeedAll(st, ws).1[1..] == FeedAll(st1, ws[1..]).1;
      assert FeedAll(st1, ws[1..]).1 == Incompletes(|ws| - 2) + [Complete(inner)];
      FeedPayloadsAsLines(sec, codec, st1, ps[1..], more, ws[1..], inner, depth);
    }
  }

  /** A payload that is not Base64, or does not unprotect, before any reply
      completes ends the unwrap with that failure, whatever follows it. */
  lemma {:induction false} OpenFailureIsError(sec: Security, codec: Codec, st: DecoderState,
                                              ps: seq<Bytes>, bad: Bytes, more: seq<Bytes>, depth: nat)
    requires forall i :: 0 <= i < |ps| ==> Open(sec, codec, ps[i]).Ok?
    requires forall k :: 0 <= k < |FeedAll(st, Framed(sec, codec, ps)).1| ==>
      FeedAll(st, Framed(sec, codec, ps)).1[k] == Incomplete
    requires Open(sec, codec, bad).Err?
    ensures FeedPayloads(sec, codec, st, ps + [bad] + more, depth) == Err(Open(sec, codec, bad).error)
    decreases |ps|
  {
    var all := ps + [bad] + more;
    if ps == [] {
      assert all[0] == bad;
    } else {
      var rest := ps[1..];
      assert all[0] == ps[0];
      assert all[1..] == rest + [bad] + more;
      assert forall i :: 0 <= i < |rest| ==> Open(sec, codec, rest[i]).Ok? by {
        forall i | 0 <= i < |rest| ensures Open(sec, codec, rest[i]).Ok? {
          assert rest[i] == ps[i + 1];
        }
      }
      var db := Open(sec, codec, ps[0]);
      assert db.Ok?;
      if codec.frame(db.value).None? {
        assert Framed(sec, codec, ps) == Framed(sec, codec, rest);
        OpenFailureIsError(sec, codec, st, rest, bad, more, depth);
      } else {
        var line := codec.frame(db.value).value;
        var ls := Framed(sec, codec, rest);
        assert Framed(sec, codec, ps) == [line] + ls;
        var (st1, res) := Step(st, line);
        assert ([line] + ls)[1..] == ls;
        assert FeedAll(st, [line] + ls).1 == [res] + FeedAll(st1, ls).1;
        assert FeedAll(st, [line] + ls).1[0] == Incomplete;
        forall k | 0 <= k < |FeedAll(st1, ls).1| ensures FeedAll(st1, ls).1[k] == Incomplete {
          assert FeedAll(st1, ls).1[k] == FeedAll(st, [line] + ls).1[k + 1];
        }
        OpenFailureIsError(sec, codec, st1, rest, bad, more, depth);
      }
    }
  }

  /** Each sealed line of a reply opens, through unprotect, Base64 decoding
      and the splitter, into the wire line it was made from. */
  lemma SealedLinesFrame(sec: Security, codec: Codec, ws: seq<Bytes>)
    requires Inverse(sec) && Base64RoundTrips(codec) && FramesLines(codec)
    requires forall i :: 0 <= i < |ws| ==> LF !in ws[i]
    requires SealLines(sec, codec, ws).Some?
    ensures var ps := SealLines(sec, codec, ws).value;
      forall i :: 0 <= i < |ps| ==>
        Open(sec, codec, ps[i]).Ok? && codec.frame(Open(sec, codec, ps[i]).value) == Some(ws[i])
  {
    var ps := SealLines(sec, codec, ws).value;
    SealedLinesOpen(sec, codec, ws);
    forall i | 0 <= i < |ps|
      ensures Open(sec, codec, ps[i]).Ok? && codec.frame(Open(sec, codec, ps[i]).value) == Some(ws[i])
    {
      assert LF !in ws[i];
      assert codec.frame(WithCrlf(ws[i])) == Some(ws[i]);
    }
  }

  /** A fresh decoder fed the sealed wire lines of a reply completes that
      reply. */
  lemma SealedLinesDecode(sec: Security, codec: Codec, inner: Reply, depth: nat)
    requires Inverse(sec) && Base64RoundTrips(codec) && FramesLines(codec)
    requires |inner.lines| >= 1 && !IsProtected(inner)
    requires forall i :: 0 <= i < |inner.lines| ==> LF !in inner.lines[i]
    requires SealLines(sec, codec, WireLines(inner.code, inner.lines)).Some?
    ensures FeedPayloads(sec, codec, Fresh, SealLines(sec, codec, WireLines(inner.code, inner.lines)).value, depth)
            == Ok(inner)
  {
    var ws := WireLines(inner.code, inner.lines);
    WireLinesHaveNoNewline(inner.code, inner.lines);
    SealedLinesFrame(sec, codec, ws);
    DecodeWireLines(Fresh, inner.code, inner.lines);
    var ps := SealLines(sec, codec, ws).value;
    assert ps + [] == ps;
    FeedPayloadsAsLines(sec, codec, Fresh, ps, [], ws, inner, depth);
  }

  /** Protecting a reply line by line and unwrapping the result gives the
      reply back, when unprotect undoes protect, Base64 decoding undoes
      encoding and the splitter frames a CRLF-terminated line. */
  lemma ProtectedRoundTrip(sec: Security, codec: Codec, outer: ReplyCode, inner: Reply, depth: nat)
    requires Inverse(sec) && Base64RoundTrips(codec) && FramesLines(codec)
    requires |inner.lines| >= 1 && !IsProtected(inner) && depth >= 1
    requires forall i :: 0 <= i < |inner.lines| ==> LF !in inner.lines[i]
    requires SealLines(sec, codec, WireLines(inner.code, inner.lines)).Some?
    ensures Unwrap(Some(sec), codec, Reply(outer, SealLines(sec, codec, WireLines(inner.code, inner.lines)).value), depth)
            == Ok(inner)
  {
    SealedLinesDecode(sec, codec, inner, depth - 1);
  }

  // ---------------------------------------------------------------------
  // The decoder object

  class ReplyDecoder {
    var lines: seq<Bytes>
    var codestr: Bytes
    var code: int

    function State(): DecoderState
      reads this
    {
      DecoderState(lines, codestr, code)
    }

    ghost predicate Valid()
      reads this
    {
      Consistent(State())
    }

    constructor ()
      ensures State() == Fresh && Valid()
    {
      lines := [];
      codestr := [];
      code := 0;
    }

    /** decodeReplyLine / innerDecodeReplyLine on one line. */
    method DecodeReplyLine(msg: Bytes) returns (res: LineResult)
      requires Valid()
      modifies this
      ensures Valid()
      ensures (State(), res) == Step(old(State()), msg)
    {
      StepKeepsConsistent(State(), msg);
      if |msg| == 0 {
        return BadReply;
      }
      var ri := 0;
      if msg[0] == NUL {
        ri := 1;  // msg.readByte()
      }
      var sep := DASH;
      if |lines| == 0 {
        if |msg| < 3 {
          return BadReply;
        }
        codestr := msg[..3];
        var parsed := ParseCode(codestr);
        if parsed.None? {
          return BadReply;
        }
        code := parsed.value;
        if |msg| < ri + 4 {
          return BadReply;
        }
        sep := msg[ri + 3];
        ri := ri + 4;
      } else if |msg| - ri >= 4 {
        var s := msg[..4];
        sep := s[3];
        if StartsWith(s, codestr) && (sep == DASH || sep == SP) {
          ri := ri + 4;
        } else {
          sep := DASH;
        }
      }
      lines := lines + [msg[ri..]];
      if sep == SP {
        var la := lines;
        lines := [];
        if ValidCode(code) {
          return Complete(Reply(code, la));
        }
        return BadReply;
      } else if sep == DASH {
        return Incomplete;
      }
      return BadReply;
    }

    /** decode() on a line that has already been split off the stream. */
    method DecodeLine(msg: Bytes, sec: Option<Security>, codec: Codec, depth: nat)
      returns (res: Result<Option<Reply>, Fault>)
      requires Valid()
      modifies this
      ensures Valid()
      ensures (State(), res) == DecodeLineSpec(sec, codec, old(State()), msg, depth)
      decreases depth, 2, 0
    {
      var r := DecodeReplyLine(msg);
      match r
      case BadReply =>
        return Err(BadReplyFromServer);
      case Incomplete =>
        return Ok(None);
      case Complete(reply) =>
        if IsProtected(reply) {
          var u := DecodeProtectedReply(reply, sec, codec, depth);
          if u.Err? {
            return Err(u.error);
          }
          return Ok(Some(u.value));
        }
        return Ok(Some(reply));
    }

    /** decodeProtectedReply: a fresh decoder is fed the unprotected payload
        of each line until one completes a reply. */
    method DecodeProtectedReply(reply: Reply, sec: Option<Security>, codec: Codec, depth: nat)
      returns (res: Result<Reply, Fault>)
      ensures res == Unwrap(sec, codec, reply, depth)
      decreases depth, 1, 0
    {
      if sec.None? {
        return Ok(reply);
      }
      if depth == 0 {
        return Err(NestingTooDeep);
      }
      var rd := new ReplyDecoder();
      var i := 0;
      while i < |reply.lines|
        invariant 0 <= i <= |reply.lines|
        invariant rd.Valid()
        invariant FeedPayloads(sec.value, codec, rd.State(), reply.lines[i..], depth - 1) == Unwrap(sec, codec, reply, depth)
      {
        assert reply.lines[i..][1..] == reply.lines[i + 1..];
        var eb := codec.decode64(reply.lines[i]);
        if eb.None? {
          return Err(BadBase64);
        }
        var db := sec.value.unprotect(eb.value);
        if db.None? {
          return Err(UnprotectFailed);
        }
        var line := codec.frame(db.value);
        if line.Some? {
          var r := rd.DecodeLine(line.value, sec, codec, depth - 1);
          if r.Err? {
            return Err(r.error);
          }
          if r.value.Some? {
            return Ok(r.value.value);
          }
        }
        i := i + 1;
      }
      return Err(BadReplyFromServer);
    }
  }
}
