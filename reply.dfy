/** A reply from the server: a 3-digit code and the text of its lines, with
    prefixes and line ends removed. Classification depends on code / 100 only. */
module Replies {
  import opened Wrappers
  import opened Text

  type ReplyCode = c: int | 100 <= c < 700 witness 100

  datatype Reply = Reply(code: ReplyCode, lines: seq<Bytes>)

  predicate ValidCode(c: int) {
    100 <= c < 700
  }

  /** The private constructor: it rejects every code outside [100, 700). */
  function NewReply(code: int, lines: seq<Bytes>): (r: Option<Reply>)
    ensures r.Some? <==> ValidCode(code)
    ensures r.Some? ==> r.value.code == code && r.value.lines == lines
  {
    if ValidCode(code) then Some(Reply(code, lines)) else None
  }

  predicate IsPreliminary(r: Reply) { r.code / 100 == 1 }
  predicate IsComplete(r: Reply) { r.code / 100 == 2 }
  predicate IsIncomplete(r: Reply) { r.code / 100 == 3 }
  predicate IsNegative(r: Reply) { r.code / 100 == 4 || r.code / 100 == 5 }
  predicate IsProtected(r: Reply) { r.code / 100 == 6 }

  /** Every reply falls in exactly one class. */
  lemma ClassesPartition(r: Reply)
    ensures IsPreliminary(r) || IsComplete(r) || IsIncomplete(r) || IsNegative(r) || IsProtected(r)
    ensures !(IsPreliminary(r) && (IsComplete(r) || IsIncomplete(r) || IsNegative(r) || IsProtected(r)))
    ensures !(IsComplete(r) && (IsIncomplete(r) || IsNegative(r) || IsProtected(r)))
    ensures !(IsIncomplete(r) && (IsNegative(r) || IsProtected(r)))
    ensures !(IsNegative(r) && IsProtected(r))
  {
  }

  /** Two replies whose codes share a hundreds digit are classified alike,
      whatever their lines. */
  lemma ClassDependsOnHundreds(r1: Reply, r2: Reply)
    requires r1.code / 100 == r2.code / 100
    ensures IsPreliminary(r1) == IsPreliminary(r2) && IsComplete(r1) == IsComplete(r2)
    ensures IsIncomplete(r1) == IsIncomplete(r2) && IsNegative(r1) == IsNegative(r2)
    ensures IsProtected(r1) == IsProtected(r2)
  {
  }

  /** Each line followed by '\n'. */
  function Terminated(ls: seq<Bytes>): Bytes
  {
    if ls == [] then [] else ls[0] + [LF] + Terminated(ls[1..])
  }

  /** message() as written: the only line of a one-line reply; otherwise every
      line strictly between the first and the last, each followed by '\n'
      (the guard on adding the newline is always true inside the loop). */
  function Message(r: Reply): Bytes
    requires |r.lines| >= 1
  {
    if |r.lines| <= 1 then r.lines[0] else Terminated(r.lines[1..|r.lines| - 1])
  }

  /** message() as its comment describes it: the lines between the first and
      the last, separated (not followed) by '\n'. */
  function MessageIntended(r: Reply): Bytes
    requires |r.lines| >= 1
  {
    if |r.lines| <= 1 then r.lines[0]
    else if |r.lines| == 2 then []
    else Join(r.lines[1..|r.lines| - 1], LF)
  }

  lemma {:induction false} TerminatedIsJoinPlusNewline(ls: seq<Bytes>)
    requires |ls| >= 1
    ensures Terminated(ls) == Join(ls, LF) + [LF]
    decreases |ls|
  {
    if |ls| > 1 {
      TerminatedIsJoinPlusNewline(ls[1..]);
    }
  }

  /** The two readings differ exactly by a trailing '\n' once a reply has an
      interior line. */
  lemma MessageHasTrailingNewline(r: Reply)
    requires |r.lines| >= 3
    ensures Message(r) == MessageIntended(r) + [LF]
  {
    TerminatedIsJoinPlusNewline(r.lines[1..|r.lines| - 1]);
  }

  /** A concrete reply on which the two readings differ: "211-a", "211-b",
      "211 c" gives "b\n" rather than "b". */
  lemma MessageCounterexample()
    ensures var r := Reply(211, [[97], [98], [99]]);
            Message(r) == [98, LF] && MessageIntended(r) == [98]
  {
    var r := Reply(211, [[97], [98], [99]]);
    assert r.lines[1..|r.lines| - 1] == [[98]];
    assert Terminated([[98]]) == [98] + [LF] + Terminated([]);
  }

  lemma {:induction false} TerminatedSnoc(ls: seq<Bytes>, x: Bytes)
    ensures Terminated(ls + [x]) == Terminated(ls) + x + [LF]
    decreases |ls|
  {
    if ls == [] {
      assert [x][1..] == [];
    } else {
      assert (ls + [x])[1..] == ls[1..] + [x];
      TerminatedSnoc(ls[1..], x);
    }
  }

  /** The StringBuilder loop of message(). */
  method BuildMessage(r: Reply) returns (m: Bytes)
    requires |r.lines| >= 1
    ensures m == Message(r)
  {
    if |r.lines| <= 1 {
      return r.lines[0];
    }
    m := [];
    var i, z := 1, |r.lines| - 1;
    while i < z
      invariant 1 <= i <= z
      invariant m == Terminated(r.lines[1..i])
    {
      TerminatedSnoc(r.lines[1..i], r.lines[i]);
      assert r.lines[1..i + 1] == r.lines[1..i] + [r.lines[i]];
      m := m + r.lines[i];
      if i != z {
        m := m + [LF];
      }
      i := i + 1;
    }
  }

  /** The intended message splits back into the interior lines when none of
      them contains '\n'. */
  lemma MessageIntendedLines(r: Reply)
    requires |r.lines| >= 3
    requires forall i :: 0 <= i < |r.lines| ==> LF !in r.lines[i]
    ensures Split(MessageIntended(r), LF) == r.lines[1..|r.lines| - 1]
  {
    var inner := r.lines[1..|r.lines| - 1];
    assert forall i :: 0 <= i < |inner| ==> inner[i] == r.lines[i + 1];
    SplitJoin(inner, LF);
  }

  /** One wire line: the code, a separator and the text. */
  function WireLine(code: ReplyCode, sep: Byte, text: Bytes): Bytes
  {
    CodeDigits(code) + [sep] + text
  }

  /** The wire form of a reply: '-' after the code on every line but the
      last, ' ' on the last. */
  function WireLines(code: ReplyCode, lines: seq<Bytes>): (ws: seq<Bytes>)
    ensures |ws| == |lines|
  {
    if |lines| == 0 then []
    else if |lines| == 1 then [WireLine(code, SP, lines[0])]
    else [WireLine(code, DASH, lines[0])] + WireLines(code, lines[1..])
  }

  /** toString(): the wire lines of the reply joined by '\n'. */
  function ToString(r: Reply): Bytes
  {
    Render(r.code, r.lines)
  }

  function Render(code: ReplyCode, lines: seq<Bytes>): Bytes
  {
    if |lines| == 0 then []
    else if |lines| == 1 then CodeDigits(code) + [SP] + lines[0]
    else CodeDigits(code) + [DASH] + lines[0] + [LF] + Render(code, lines[1..])
  }

  /** The StringBuilder loop of toString(). */
  method BuildString(r: Reply) returns (s: Bytes)
    ensures s == ToString(r)
  {
    s := [];
    var i, z := 0, |r.lines| - 1;
    while i <= z
      invariant 0 <= i <= |r.lines|
      invariant s + Render(r.code, r.lines[i..]) == Render(r.code, r.lines)
    {
      assert r.lines[i..][1..] == r.lines[i + 1..];
      if i != z {
        s := s + CodeDigits(r.code) + [DASH] + r.lines[i] + [LF];
      } else {
        s := s + CodeDigits(r.code) + [SP] + r.lines[i];
      }
      i := i + 1;
    }
  }

  lemma {:induction false} RenderIsJoinedWireLines(code: ReplyCode, lines: seq<Bytes>)
    requires |lines| >= 1
    ensures Render(code, lines) == Join(WireLines(code, lines), LF)
    decreases |lines|
  {
    if |lines| > 1 {
      RenderIsJoinedWireLines(code, lines[1..]);
    }
  }

  lemma WireLineHasNoNewline(code: ReplyCode, sep: Byte, text: Bytes)
    requires sep != LF && LF !in text
    ensures LF !in WireLine(code, sep, text)
  {
    var d := CodeDigits(code);
    assert LF !in d by {
      assert d == [d[0], d[1], d[2]];
    }
    assert WireLine(code, sep, text) == d + ([sep] + text);
  }

  lemma {:induction false} WireLinesHaveNoNewline(code: ReplyCode, lines: seq<Bytes>)
    requires forall i :: 0 <= i < |lines| ==> LF !in lines[i]
    ensures forall i :: 0 <= i < |lines| ==> LF !in WireLines(code, lines)[i]
    decreases |lines|
  {
    if |lines| == 1 {
      WireLineHasNoNewline(code, SP, lines[0]);
    } else if |lines| > 1 {
      WireLinesHaveNoNewline(code, lines[1..]);
      WireLineHasNoNewline(code, DASH, lines[0]);
      var ws := WireLines(code, lines);
      var rest := WireLines(code, lines[1..]);
      assert ws == [WireLine(code, DASH, lines[0])] + rest;
      forall i | 0 <= i < |ws| ensures LF !in ws[i] {
        if i > 0 {
          assert ws[i] == rest[i - 1];
          assert LF !in WireLines(code, lines[1..])[i - 1];
        } else {
          assert ws[0] == WireLine(code, DASH, lines[0]);
        }
      }
    }
  }

  /** toString() splits on '\n' into exactly the wire lines of the reply,
      provided no line of its text contains '\n'. */
  lemma ToStringLines(r: Reply)
    requires |r.lines| >= 1
    requires forall i :: 0 <= i < |r.lines| ==> LF !in r.lines[i]
    ensures Split(ToString(r), LF) == WireLines(r.code, r.lines)
  {
    RenderIsJoinedWireLines(r.code, r.lines);
    WireLinesHaveNoNewline(r.code, r.lines);
    SplitJoin(WireLines(r.code, r.lines), LF);
  }
}
