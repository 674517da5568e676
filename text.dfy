/** Byte strings and the few ASCII text operations the control channel uses:
    the 3-digit reply code, Java's String.trim, toUpperCase and split on one
    separator byte, and joining with a separator. Every byte stands for one
    character of a single-byte encoding; only its ASCII range has letters,
    digits or blanks. */
module Text {
  import opened Wrappers

  newtype Byte = b: int | 0 <= b < 256

  type Bytes = seq<Byte>

  const NUL: Byte := 0
  const LF: Byte := 10
  const CR: Byte := 13
  const SP: Byte := 32
  const STAR: Byte := 42
  const PLUS: Byte := 43
  const DASH: Byte := 45
  const CRLF: Bytes := [CR, LF]

  predicate IsDigit(b: Byte) {
    48 <= b <= 57
  }

  predicate IsLower(b: Byte) {
    97 <= b <= 122
  }

  function DigitValue(b: Byte): (d: int)
    requires IsDigit(b)
    ensures 0 <= d <= 9
  {
    b as int - 48
  }

  /** Integer.parseInt applied to a 3-character code string: either three
      decimal digits, or a sign followed by two digits. */
  function ParseCode(s: Bytes): (r: Option<int>)
    requires |s| == 3
    ensures r.Some? <==> (IsDigit(s[0]) || s[0] == PLUS || s[0] == DASH) && IsDigit(s[1]) && IsDigit(s[2])
    ensures r.Some? ==> -99 <= r.value <= 999
    ensures r.Some? && r.value >= 100 ==> IsDigit(s[0])
    ensures r.Some? && IsDigit(s[0]) ==> r.value == 100 * DigitValue(s[0]) + 10 * DigitValue(s[1]) + DigitValue(s[2])
    ensures r.Some? && s[0] == PLUS ==> r.value == 10 * DigitValue(s[1]) + DigitValue(s[2])
    ensures r.Some? && s[0] == DASH ==> r.value == -(10 * DigitValue(s[1]) + DigitValue(s[2]))
  {
    if !(IsDigit(s[1]) && IsDigit(s[2])) then None
    else
      var low := 10 * DigitValue(s[1]) + DigitValue(s[2]);
      if IsDigit(s[0]) then Some(100 * DigitValue(s[0]) + low)
      else if s[0] == PLUS then Some(low)
      else if s[0] == DASH then Some(-low)
      else None
  }

  /** The decimal digits of a 3-digit number, as StringBuilder.append(int)
      writes them. */
  function CodeDigits(c: int): (s: Bytes)
    requires 100 <= c <= 999
    ensures |s| == 3 && IsDigit(s[0]) && IsDigit(s[1]) && IsDigit(s[2])
    ensures s[0] != 48 && s[0] != NUL
  {
    [(48 + c / 100) as Byte, (48 + (c / 10) % 10) as Byte, (48 + c % 10) as Byte]
  }

  lemma ParseCodeDigits(c: int)
    requires 100 <= c <= 999
    ensures ParseCode(CodeDigits(c)) == Some(c)
  {
    var s := CodeDigits(c);
    assert IsDigit(s[0]) && s[0] != PLUS && s[0] != DASH;
    assert DigitValue(s[0]) == c / 100;
    assert DigitValue(s[1]) == (c / 10) % 10;
    assert DigitValue(s[2]) == c % 10;
  }

  predicate StartsWith(s: Bytes, prefix: Bytes) {
    |prefix| <= |s| && s[..|prefix|] == prefix
  }

  /** The end of the run of bytes at or below ' ' that starts at i. */
  function BlanksFrom(s: Bytes, i: nat): (j: nat)
    requires i <= |s|
    ensures i <= j <= |s|
    ensures j < |s| ==> s[j] > SP
    decreases |s| - i
  {
    if i < |s| && s[i] <= SP then BlanksFrom(s, i + 1) else i
  }

  /** The start of the run of bytes at or below ' ' that ends at j. */
  function BlanksUntil(s: Bytes, j: nat): (i: nat)
    requires j <= |s|
    ensures i <= j
    ensures i > 0 ==> s[i - 1] > SP
    decreases j
  {
    if j > 0 && s[j - 1] <= SP then BlanksUntil(s, j - 1) else j
  }

  /** Java's String.trim: drop every byte at or below ' ' at both ends. */
  function TrimStart(s: Bytes): (r: Bytes)
    ensures |r| > 0 ==> r[0] > SP
  {
    s[BlanksFrom(s, 0)..]
  }

  function TrimEnd(s: Bytes): (r: Bytes)
    ensures |r| > 0 ==> r[|r| - 1] > SP
  {
    s[..BlanksUntil(s, |s|)]
  }

  function Trim(s: Bytes): (r: Bytes)
    ensures |r| > 0 ==> r[0] > SP && r[|r| - 1] > SP
  {
    TrimEnd(TrimStart(s))
  }

  lemma {:induction false} BlanksFromSkips(s: Bytes, i: nat)
    requires i <= |s|
    ensures forall k :: i <= k < BlanksFrom(s, i) ==> s[k] <= SP
    decreases |s| - i
  {
    if i < |s| && s[i] <= SP {
      BlanksFromSkips(s, i + 1);
    }
  }

  lemma {:induction false} BlanksUntilSkips(s: Bytes, j: nat)
    requires j <= |s|
    ensures forall k :: BlanksUntil(s, j) <= k < j ==> s[k] <= SP
    decreases j
  {
    if j > 0 && s[j - 1] <= SP {
      BlanksUntilSkips(s, j - 1);
    }
  }

  /** trim() removes bytes at or below ' ' from both ends and nothing else:
      the result is a slice of the input with only such bytes around it. */
  lemma TrimMeaning(s: Bytes)
    ensures exists i, j ::
              && 0 <= i <= j <= |s| && Trim(s) == s[i..j]
              && (forall k :: 0 <= k < i ==> s[k] <= SP)
              && (forall k :: j <= k < |s| ==> s[k] <= SP)
  {
    var i := BlanksFrom(s, 0);
    var t := s[i..];
    var m := BlanksUntil(t, |t|);
    BlanksFromSkips(s, 0);
    BlanksUntilSkips(t, |t|);
    assert Trim(s) == s[i..i + m];
    forall k | i + m <= k < |s| ensures s[k] <= SP {
      assert s[k] == t[k - i];
    }
  }

  /** ASCII toUpperCase. */
  function ToUpper(s: Bytes): (r: Bytes)
    ensures |r| == |s|
  {
    seq(|s|, i requires 0 <= i < |s| => if IsLower(s[i]) then s[i] - 32 else s[i])
  }

  /** toUpperCase leaves no lower-case letter and changes nothing else. */
  lemma ToUpperBytes(s: Bytes)
    ensures forall i :: 0 <= i < |s| ==> !IsLower(ToUpper(s)[i])
    ensures forall i :: 0 <= i < |s| ==> ToUpper(s)[i] == s[i] || (IsLower(s[i]) && ToUpper(s)[i] == s[i] - 32)
  {
  }

  /** Split on every occurrence of sep, keeping empty parts. On a string that
      does not end with sep (a trimmed one, say) this is Java's split(" "),
      which only differs by dropping trailing empty parts; its first part is
      also what split(" ", 2)[0] returns. */
  function Split(s: Bytes, sep: Byte): (parts: seq<Bytes>)
    ensures |parts| >= 1
    ensures forall i :: 0 <= i < |parts| ==> sep !in parts[i]
    decreases |s|
  {
    if |s| == 0 then [[]]
    else if s[0] == sep then [[]] + Split(s[1..], sep)
    else
      var rest := Split(s[1..], sep);
      [[s[0]] + rest[0]] + rest[1..]
  }

  /** Every byte of a part is a byte of the string split. */
  lemma {:induction false} SplitPartsWithin(s: Bytes, sep: Byte)
    ensures forall i, k :: 0 <= i < |Split(s, sep)| && 0 <= k < |Split(s, sep)[i]| ==> Split(s, sep)[i][k] in s
    decreases |s|
  {
    if |s| > 0 {
      SplitPartsWithin(s[1..], sep);
      var parts := Split(s, sep);
      var rest := Split(s[1..], sep);
      forall i, k | 0 <= i < |parts| && 0 <= k < |parts[i]| ensures parts[i][k] in s {
        if s[0] == sep {
          assert parts[i] == rest[i - 1];
          assert rest[i - 1][k] in s[1..];
        } else if i == 0 {
          if k > 0 {
            assert parts[0][k] == rest[0][k - 1];
            assert rest[0][k - 1] in s[1..];
          }
        } else {
          assert parts[i] == rest[i];
          assert rest[i][k] in s[1..];
        }
      }
    }
  }

  function Join(parts: seq<Bytes>, sep: Byte): (s: Bytes)
    requires |parts| >= 1
  {
    if |parts| == 1 then parts[0] else parts[0] + [sep] + Join(parts[1..], sep)
  }

  /** Joining the parts of a split with the separator gives the string back. */
  lemma {:induction false} JoinSplit(s: Bytes, sep: Byte)
    ensures Join(Split(s, sep), sep) == s
    decreases |s|
  {
    if |s| > 0 {
      JoinSplit(s[1..], sep);
      var rest := Split(s[1..], sep);
      if s[0] == sep {
        assert Split(s, sep)[1..] == rest;
      } else {
        var parts := Split(s, sep);
        assert parts[0] == [s[0]] + rest[0] && parts[1..] == rest[1..];
        if |rest| > 1 {
          assert Join(rest, sep) == rest[0] + [sep] + Join(rest[1..], sep);
        }
        assert s == [s[0]] + s[1..];
      }
    }
  }

  lemma {:induction false} SplitWithoutSep(a: Bytes, sep: Byte)
    requires sep !in a
    ensures Split(a, sep) == [a]
    decreases |a|
  {
    if |a| > 0 {
      SplitWithoutSep(a[1..], sep);
      assert [a[0]] + a[1..] == a;
    }
  }

  lemma {:induction false} SplitAfterPart(a: Bytes, sep: Byte, rest: Bytes)
    requires sep !in a
    ensures Split(a + [sep] + rest, sep) == [a] + Split(rest, sep)
    decreases |a|
  {
    var s := a + [sep] + rest;
    if |a| == 0 {
      assert s[1..] == rest;
    } else {
      assert s[1..] == a[1..] + [sep] + rest;
      SplitAfterPart(a[1..], sep, rest);
      assert [a[0]] + a[1..] == a;
    }
  }

  /** Splitting a join recovers the parts when no part holds the separator. */
  lemma {:induction false} SplitJoin(parts: seq<Bytes>, sep: Byte)
    requires |parts| >= 1
    requires forall i :: 0 <= i < |parts| ==> sep !in parts[i]
    ensures Split(Join(parts, sep), sep) == parts
    decreases |parts|
  {
    if |parts| == 1 {
      SplitWithoutSep(parts[0], sep);
    } else {
      SplitAfterPart(parts[0], sep, Join(parts[1..], sep));
      SplitJoin(parts[1..], sep);
    }
  }

  /** On a string whose last byte is not the separator, the last part is not
      empty, so Java's removal of trailing empty parts removes nothing. */
  lemma {:induction false} SplitLastPartNonEmpty(s: Bytes, sep: Byte)
    requires |s| > 0 && s[|s| - 1] != sep
    ensures var parts := Split(s, sep); parts[|parts| - 1] != []
    decreases |s|
  {
    if |s| > 1 {
      SplitLastPartNonEmpty(s[1..], sep);
    }
  }
}
