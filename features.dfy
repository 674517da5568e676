/** The set of commands a server is known to support. It is learned once,
    from the replies to HELP, HELP SITE and FEAT issued on the first query;
    queries made while those replies are outstanding wait for them and are
    resolved as soon as their command shows up, or with false when the
    listings are over. */
module Features {
  import opened Wrappers
  import opened Text
  import opened Replies

  // ---------------------------------------------------------------------
  // Parsing the listings

  /** The parts that do not contain '*'. */
  function Starless(parts: seq<Bytes>): (r: seq<Bytes>)
    ensures forall i :: 0 <= i < |r| ==> r[i] in parts && STAR !in r[i]
    decreases |parts|
  {
    if parts == [] then []
    else
      var last := parts[|parts| - 1];
      Starless(parts[..|parts| - 1]) + (if STAR in last then [] else [last])
  }

  /** Starless drops only the parts that contain '*'. */
  lemma {:induction false} StarlessComplete(parts: seq<Bytes>, i: nat)
    requires i < |parts| && STAR !in parts[i]
    ensures parts[i] in Starless(parts)
    decreases |parts|
  {
    if i < |parts| - 1 {
      StarlessComplete(parts[..|parts| - 1], i);
    }
  }

  lemma ElemsSnoc(s: seq<Bytes>, x: Bytes)
    ensures Elems(s + [x]) == Elems(s) + {x}
  {
  }

  lemma ElemsEmpty(s: seq<Bytes>)
    requires s == []
    ensures Elems(s) == {}
  {
  }

  lemma StarlessSnoc(parts: seq<Bytes>, p: Bytes)
    ensures Starless(parts + [p]) == Starless(parts) + (if STAR in p then [] else [p])
  {
    assert (parts + [p])[..|parts|] == parts;
  }

  /** The features one HELP line lists: the line trimmed, upper-cased and
      split on ' ', without the words marked by '*'. */
  function HelpTokens(line: Bytes): seq<Bytes>
  {
    Starless(Split(ToUpper(Trim(line)), SP))
  }

  /** The feature one FEAT line names: the first word of the trimmed line,
      upper-cased; what follows the first ' ' is the feature's parameters. */
  function FeatToken(line: Bytes): Bytes
  {
    ToUpper(Split(Trim(line), SP)[0])
  }

  function Elems(s: seq<Bytes>): set<Bytes>
  {
    set t | t in s
  }

  /** The lines between the first and the last one of a reply. */
  function Interior(lines: seq<Bytes>): (body: seq<Bytes>)
    ensures |body| == if |lines| >= 2 then |lines| - 2 else 0
    ensures forall i :: 0 <= i < |body| ==> body[i] == lines[i + 1]
  {
    if |lines| >= 2 then lines[1..|lines| - 1] else []
  }

  /** Everything parse finds in any of the lines, gathered line by line. */
  function Collect(lines: seq<Bytes>, parse: Bytes -> set<Bytes>): set<Bytes>
    decreases |lines|
  {
    if lines == [] then {} else Collect(lines[..|lines| - 1], parse) + parse(lines[|lines| - 1])
  }

  /** One more line adds what parse finds in it. */
  lemma CollectSnoc(lines: seq<Bytes>, parse: Bytes -> set<Bytes>, line: Bytes)
    ensures Collect(lines + [line], parse) == Collect(lines, parse) + parse(line)
  {
    assert (lines + [line])[..|lines|] == lines;
  }

  /** What is collected is what parse finds in some line. */
  lemma {:induction false} CollectMembers(lines: seq<Bytes>, parse: Bytes -> set<Bytes>, t: Bytes)
    ensures t in Collect(lines, parse) <==> exists i :: 0 <= i < |lines| && t in parse(lines[i])
    decreases |lines|
  {
    if lines != [] {
      var init := lines[..|lines| - 1];
      CollectMembers(init, parse, t);
      if t in Collect(init, parse) {
        var i :| 0 <= i < |init| && t in parse(init[i]);
        assert lines[i] == init[i];
      }
      if exists i :: 0 <= i < |lines| && t in parse(lines[i]) {
        var i :| 0 <= i < |lines| && t in parse(lines[i]);
        if i < |init| {
          assert init[i] == lines[i];
        }
      }
    }
  }

  function HelpSet(line: Bytes): set<Bytes>
  {
    Elems(HelpTokens(line))
  }

  function FeatSet(line: Bytes): set<Bytes>
  {
    {FeatToken(line)}
  }

  /** What a complete HELP reply adds: the words of every interior line. */
  function HelpFeatures(r: Reply): set<Bytes>
  {
    Collect(Interior(r.lines), HelpSet)
  }

  /** What a complete FEAT reply adds: the feature of every interior line. */
  function FeatFeatures(r: Reply): set<Bytes>
  {
    Collect(Interior(r.lines), FeatSet)
  }

  predicate Upper(t: Bytes) {
    forall k :: 0 <= k < |t| ==> !IsLower(t[k])
  }

  predicate AllUpper(f: set<Bytes>) {
    forall t :: t in f ==> Upper(t)
  }

  /** A HELP word holds no ' ', no '*' and no lower-case letter. */
  lemma HelpTokenShape(line: Bytes, t: Bytes)
    requires t in HelpTokens(line)
    ensures SP !in t && STAR !in t && Upper(t)
  {
    var s := ToUpper(Trim(line));
    var parts := Split(s, SP);
    var j :| 0 <= j < |HelpTokens(line)| && HelpTokens(line)[j] == t;
    assert t in parts;
    var i :| 0 <= i < |parts| && parts[i] == t;
    SplitPartsWithin(s, SP);
    ToUpperBytes(Trim(line));
    forall k | 0 <= k < |t| ensures !IsLower(t[k]) {
      assert t[k] in s;
    }
  }

  /** A FEAT feature holds no ' ' and no lower-case letter. */
  lemma FeatTokenShape(line: Bytes)
    ensures SP !in FeatToken(line) && Upper(FeatToken(line))
  {
    var w := Split(Trim(line), SP)[0];
    var t := FeatToken(line);
    ToUpperBytes(w);
    forall k | 0 <= k < |t| ensures t[k] != SP {
      assert w[k] != SP;
    }
  }

  /** Every feature learned from a reply is upper case, so a query spelled
      with a lower-case letter never finds one. */
  lemma FeaturesUpper(r: Reply)
    ensures AllUpper(HelpFeatures(r)) && AllUpper(FeatFeatures(r))
  {
    var body := Interior(r.lines);
    forall t | t in HelpFeatures(r) ensures Upper(t) {
      CollectMembers(body, HelpSet, t);
      var i :| 0 <= i < |body| && t in HelpTokens(body[i]);
      HelpTokenShape(body[i], t);
    }
    forall t | t in FeatFeatures(r) ensures Upper(t) {
      CollectMembers(body, FeatSet, t);
      var i :| 0 <= i < |body| && t in FeatSet(body[i]);
      FeatTokenShape(body[i]);
    }
  }

  lemma {:induction false} StarlessKeeps(parts: seq<Bytes>)
    requires forall i :: 0 <= i < |parts| ==> STAR !in parts[i]
    ensures Starless(parts) == parts
    decreases |parts|
  {
    if parts != [] {
      StarlessKeeps(parts[..|parts| - 1]);
      assert parts[..|parts| - 1] + [parts[|parts| - 1]] == parts;
    }
  }

  lemma {:induction false} JoinUpper(parts: seq<Bytes>, sep: Byte)
    requires |parts| >= 1 && !IsLower(sep)
    requires forall i :: 0 <= i < |parts| ==> Upper(parts[i])
    ensures Upper(Join(parts, sep))
    decreases |parts|
  {
    if |parts| > 1 {
      JoinUpper(parts[1..], sep);
      var s := Join(parts, sep);
      var a := parts[0] + [sep];
      var b := Join(parts[1..], sep);
      assert s == a + b;
      forall k | 0 <= k < |s| ensures !IsLower(s[k]) {
        if k >= |a| {
          assert s[k] == b[k - |a|];
        } else if k < |parts[0]| {
          assert s[k] == parts[0][k];
        }
      }
    }
  }

  lemma {:induction false} JoinEnds(parts: seq<Bytes>, sep: Byte)
    requires |parts| >= 1 && forall i :: 0 <= i < |parts| ==> parts[i] != []
    ensures var s := Join(parts, sep);
      s != [] && s[0] == parts[0][0] && s[|s| - 1] == parts[|parts| - 1][|parts[|parts| - 1]| - 1]
    decreases |parts|
  {
    if |parts| > 1 {
      JoinEnds(parts[1..], sep);
    }
  }

  lemma UpperUnchanged(s: Bytes)
    requires Upper(s)
    ensures ToUpper(s) == s
  {
    var u := ToUpper(s);
    ToUpperBytes(s);
    forall k | 0 <= k < |s| ensures u[k] == s[k] {
    }
  }

  /** A HELP line listing upper-case words of printing characters, each
      without '*', after a leading space, gives back exactly these words. */
  lemma HelpLineTokens(words: seq<Bytes>)
    requires |words| >= 1
    requires forall i :: 0 <= i < |words| ==> words[i] != [] && STAR !in words[i] && Upper(words[i])
    requires forall i, k :: 0 <= i < |words| && 0 <= k < |words[i]| ==> words[i][k] > SP
    ensures HelpTokens([SP] + Join(words, SP)) == words
  {
    var s := Join(words, SP);
    JoinEnds(words, SP);
    TrimLeadingSpace(s);
    assert Trim([SP] + s) == s;
    JoinUpper(words, SP);
    UpperUnchanged(s);
    forall i | 0 <= i < |words| ensures SP !in words[i] {
      forall k | 0 <= k < |words[i]| ensures words[i][k] != SP {
      }
    }
    SplitJoin(words, SP);
    StarlessKeeps(words);
  }

  /** One leading space before a printing byte (or nothing) is trimmed. */
  lemma TrimLeadingSpace(s: Bytes)
    requires s == [] || s[0] > SP
    ensures TrimStart([SP] + s) == s
  {
    var x := [SP] + s;
    assert BlanksFrom(x, 1) == 1;
    assert BlanksFrom(x, 0) == 1;
  }

  /** A FEAT line " NAME params" names the feature NAME, upper-cased,
      whatever follows it. */
  lemma FeatLineToken(name: Bytes, params: Bytes)
    requires name != [] && forall k :: 0 <= k < |name| ==> name[k] > SP
    ensures FeatToken([SP] + name + [SP] + params) == ToUpper(name)
    ensures FeatToken([SP] + name) == ToUpper(name)
  {
    assert SP !in name by {
      forall k | 0 <= k < |name| ensures name[k] != SP {
      }
    }
    var long := name + ([SP] + params);
    assert [SP] + name + [SP] + params == [SP] + long;
    TrimLeadingSpace(long);
    FirstPartOfTrimEnd(name, [SP] + params);
    TrimLeadingSpace(name);
    assert name + [] == name;
    FirstPartOfTrimEnd(name, []);
  }

  /** Trimming the end of name + rest, where the last byte of name is
      printing and rest starts with ' ' or is empty, keeps name as the first
      part of the split. */
  lemma FirstPartOfTrimEnd(name: Bytes, rest: Bytes)
    requires name != [] && name[|name| - 1] > SP && SP !in name
    requires rest == [] || rest[0] == SP
    ensures Split(TrimEnd(name + rest), SP)[0] == name
  {
    TrimEndAppend(name, rest);
    var p := TrimEnd(rest);
    if p == [] {
      assert name + p == name;
      SplitWithoutSep(name, SP);
    } else {
      assert p[0] == rest[0];
      assert p == [SP] + p[1..];
      assert name + p == name + [SP] + p[1..];
      SplitAfterPart(name, SP, p[1..]);
    }
  }

  lemma {:induction false} BlanksUntilAppend(a: Bytes, b: Bytes, j: nat)
    requires a != [] && a[|a| - 1] > SP && j <= |b|
    ensures BlanksUntil(a + b, |a| + j) == |a| + BlanksUntil(b, j)
    decreases j
  {
    var s := a + b;
    if j == 0 {
      assert s[|a| - 1] == a[|a| - 1];
    } else {
      assert s[|a| + j - 1] == b[j - 1];
      if b[j - 1] <= SP {
        BlanksUntilAppend(a, b, j - 1);
      }
    }
  }

  /** Trimming the end never reaches past a printing byte. */
  lemma TrimEndAppend(a: Bytes, b: Bytes)
    requires a != [] && a[|a| - 1] > SP
    ensures TrimEnd(a + b) == a + TrimEnd(b)
  {
    BlanksUntilAppend(a, b, |b|);
    var m := BlanksUntil(b, |b|);
    assert (a + b)[..|a| + m] == a + b[..m];
  }

  /** A FEAT listing, one " NAME" line per feature between the greeting
      line and the closing line, adds exactly the upper-cased names. */
  lemma FeatListing(code: ReplyCode, head: Bytes, listing: seq<Bytes>, tail: Bytes, names: seq<Bytes>)
    requires |listing| == |names|
    requires forall i :: 0 <= i < |names| ==> names[i] != [] && listing[i] == [SP] + names[i]
    requires forall i, k :: 0 <= i < |names| && 0 <= k < |names[i]| ==> names[i][k] > SP
    ensures FeatFeatures(Reply(code, [head] + listing + [tail])) == set i | 0 <= i < |names| :: ToUpper(names[i])
  {
    assert Interior([head] + listing + [tail]) == listing;
    ListingTokens(listing, names);
    CollectSingletons(listing, FeatSet, names, ToUpper);
  }

  lemma ListingTokens(listing: seq<Bytes>, names: seq<Bytes>)
    requires |listing| == |names|
    requires forall i :: 0 <= i < |names| ==> names[i] != [] && listing[i] == [SP] + names[i]
    requires forall i, k :: 0 <= i < |names| && 0 <= k < |names[i]| ==> names[i][k] > SP
    ensures forall i :: 0 <= i < |names| ==> FeatSet(listing[i]) == {ToUpper(names[i])}
  {
    forall i | 0 <= i < |names| ensures FeatSet(listing[i]) == {ToUpper(names[i])} {
      FeatLineToken(names[i], []);
    }
  }

  /** When each line yields one item, the collection is the set of them. */
  lemma CollectSingletons(lines: seq<Bytes>, parse: Bytes -> set<Bytes>, names: seq<Bytes>, f: Bytes -> Bytes)
    requires |lines| == |names|
    requires forall i :: 0 <= i < |names| ==> parse(lines[i]) == {f(names[i])}
    ensures Collect(lines, parse) == set i | 0 <= i < |names| :: f(names[i])
  {
    var want := set i | 0 <= i < |names| :: f(names[i]);
    forall t ensures t in Collect(lines, parse) <==> t in want {
      CollectMembers(lines, parse, t);
      if t in want {
        var i :| 0 <= i < |names| && f(names[i]) == t;
        assert t in parse(lines[i]);
      }
    }
  }

  /** The loops of the HELP parser: every word of every interior line. */
  method HelpReplyWords(r: Reply) returns (w: set<Bytes>)
    ensures w == HelpFeatures(r)
  {
    ghost var body := Interior(r.lines);
    w := {};
    var i := 1;
    while i < |r.lines| - 1
      invariant 1 <= i <= |body| + 1
      invariant w == Collect(body[..i - 1], HelpSet)
    {
      var more := LineWords(r.lines[i]);
      w := w + more;
      assert body[..i] == body[..i - 1] + [r.lines[i]];
      CollectSnoc(body[..i - 1], HelpSet, r.lines[i]);
      i := i + 1;
    }
    assert body[..i - 1] == body;
  }

  /** The words of one HELP line that carry no '*'. */
  method LineWords(line: Bytes) returns (w: set<Bytes>)
    ensures w == HelpSet(line)
  {
    var parts := Split(ToUpper(Trim(line)), SP);
    w := StarlessWords(parts);
  }

  method StarlessWords(parts: seq<Bytes>) returns (w: set<Bytes>)
    ensures w == Elems(Starless(parts))
  {
    w := {};
    var k := 0;
    ElemsEmpty(Starless(parts[..0]));
    while k < |parts|
      invariant 0 <= k <= |parts|
      invariant w == Elems(Starless(parts[..k]))
    {
      ghost var done := Starless(parts[..k]);
      assert parts[..k + 1] == parts[..k] + [parts[k]];
      StarlessSnoc(parts[..k], parts[k]);
      if STAR !in parts[k] {
        w := w + {parts[k]};
        ElemsSnoc(done, parts[k]);
      } else {
        assert done + [] == done;
      }
      k := k + 1;
    }
    assert parts[..k] == parts;
  }

  /** The loop of the FEAT parser: the first word of every interior line. */
  method FeatReplyWords(r: Reply) returns (w: set<Bytes>)
    ensures w == FeatFeatures(r)
  {
    ghost var body := Interior(r.lines);
    w := {};
    var i := 1;
    while i < |r.lines| - 1
      invariant 1 <= i <= |body| + 1
      invariant w == Collect(body[..i - 1], FeatSet)
    {
      w := w + {ToUpper(Split(Trim(r.lines[i]), SP)[0])};
      assert body[..i] == body[..i - 1] + [r.lines[i]];
      CollectSnoc(body[..i - 1], FeatSet, r.lines[i]);
      i := i + 1;
    }
    assert body[..i - 1] == body;
  }

  // ---------------------------------------------------------------------
  // Queries

  /** The result of a query, rung at most once: the first ring wins. */
  function Settle(o: Option<bool>, v: bool): Option<bool>
  {
    if o.Some? then o else Some(v)
  }

  /** The bell handed out by supports(), remembering its command. */
  class Check {
    const cmd: Bytes
    var result: Option<bool>

    constructor (cmd: Bytes)
      ensures this.cmd == cmd && result.None?
    {
      this.cmd := cmd;
      result := None;
    }

    method Ring(v: bool)
      modifies this
      ensures result == Settle(old(result), v)
    {
      if result.None? {
        result := Some(v);
      }
    }
  }

  /** The commands the first query issues, in this order: HELP, HELP SITE,
      FEAT, then a sync command whose handler finalizes the checks. */
  datatype Query = Help | HelpSite | Feat | Finalize

  const HELP: Bytes := [72, 69, 76, 80]
  const HELP_SITE: Bytes := HELP + [SP, 83, 73, 84, 69]
  const FEAT: Bytes := [70, 69, 65, 84]

  /** The command each query writes; None is the sync command. */
  function QueryCommand(q: Query): (c: Option<Bytes>)
    ensures c.None? <==> q == Finalize
  {
    match q
    case Help => Some(HELP)
    case HelpSite => Some(HELP_SITE)
    case Feat => Some(FEAT)
    case Finalize => None
  }

  datatype Stage = Unstarted | InProgress | Done

  /** The checks still waiting after an update are exactly those whose
      command is not among the features f. */
  predicate Kept(before: set<Check>, after: set<Check>, f: set<Bytes>) {
    after <= before && forall c :: c in before ==> (c in after <==> c.cmd !in f)
  }

  /** The checks bell c takes in an update: ringing true when its command is
      among the features f, untouched otherwise. */
  twostate predicate Updated(s: set<Check>, f: set<Bytes>)
    reads s
  {
    forall c :: c in s ==> c.result == if c.cmd in f then Settle(old(c.result), true) else old(c.result)
  }

  class FeatureSet {
    var inProgress: bool
    var features: Option<set<Bytes>>
    var checks: Option<set<Check>>

    /** The buffer of checks exists exactly while detection is in progress,
      which it can only be once the feature set exists; every feature is
      upper case. */
    ghost predicate Valid()
      reads this
    {
      (features.None? ==> !inProgress) &&
      (checks.Some? <==> inProgress) &&
      (features.Some? ==> AllUpper(features.value))
    }

    function Stage(): Stage
      reads this
    {
      if features.None? then Unstarted else if inProgress then InProgress else Done
    }

    /** The checks waiting for detection to finish. */
    function Waiting(): set<Check>
      reads this
    {
      if checks.Some? then checks.value else {}
    }

    constructor ()
      ensures Valid() && Stage() == Unstarted && checks.None?
    {
      inProgress := false;
      features := None;
      checks := None;
    }

    /** isDone: detection has run and every later query is answered at once. */
    function IsDone(): (b: bool)
      reads this
      ensures b <==> Stage() == Done
    {
      features != None && !inProgress
    }

    /** isSupported: the command, spelled exactly so, is a known feature. */
    function IsSupported(cmd: Bytes): bool
      reads this
    {
      features.Some? && cmd in features.value
    }

    /** supports(cmd): the first query starts detection and returns the
      commands to issue for it; later queries wait while it is in progress
      and are answered at once when it is done. */
    method Supports(cmd: Bytes) returns (b: Check, issue: seq<Query>)
      requires Valid()
      modifies this
      ensures Valid() && fresh(b) && b.cmd == cmd
      ensures old(Stage()) == Unstarted ==>
        Stage() == InProgress && features == Some({}) && checks == Some({b}) &&
        b.result.None? && issue == [Help, HelpSite, Feat, Finalize]
      ensures old(Stage()) == InProgress ==>
        Stage() == InProgress && features == old(features) && checks == Some(old(checks.value) + {b}) &&
        b.result.None? && issue == []
      ensures old(Stage()) == Done ==>
        Stage() == Done && features == old(features) && checks == old(checks) &&
        b.result == Some(cmd in features.value) && issue == []
    {
      b := new Check(cmd);
      issue := [];
      if features.None? {
        inProgress := true;
        features := Some({});
        checks := Some({b});
        issue := [Help, HelpSite, Feat, Finalize];
      } else if inProgress {
        checks := Some(checks.value + {b});
      } else {
        b.Ring(IsSupported(cmd));
      }
    }

    /** updateChecks: ring true every waiting check whose command is a
      feature and stop waiting for it. Without a buffer of checks (the
      source dereferences null there) it fails and changes nothing. */
    method UpdateChecks() returns (ok: bool)
      requires Valid()
      modifies this`checks, Waiting()
      ensures Valid()
      ensures ok <==> old(checks).Some?
      ensures features == old(features) && inProgress == old(inProgress)
      ensures !ok ==> checks == old(checks)
      ensures ok ==> Kept(old(checks.value), checks.value, features.value)
      ensures ok ==> Updated(old(checks.value), features.value)
    {
      if checks.None? {
        return false;
      }
      ghost var s := checks.value;
      var f := features.value;
      var todo := checks.value;
      while todo != {}
        invariant todo <= s && checks.Some? && checks.value <= s
        invariant forall c :: c in s ==> (c in checks.value <==> c in todo || c.cmd !in f)
        invariant forall c :: c in s && c !in todo ==>
          c.result == if c.cmd in f then Settle(old(c.result), true) else old(c.result)
        invariant forall c :: c in todo ==> c.result == old(c.result)
        decreases |todo|
      {
        var c :| c in todo;
        if IsSupported(c.cmd) {
          c.Ring(true);
          checks := Some(checks.value - {c});
        }
        todo := todo - {c};
      }
      return true;
    }

    /** finalizeChecks: after a last update, ring false every check still
      waiting and end detection. Each check is then answered with whether
      its command is a feature. */
    method FinalizeChecks() returns (ok: bool)
      requires Valid()
      modifies this, Waiting()
      ensures Valid()
      ensures ok <==> old(checks).Some?
      ensures !ok ==> unchanged(this)
      ensures ok ==> Stage() == Done && features == old(features) && checks.None?
      ensures ok ==> forall c :: c in old(checks.value) ==> c.result == Settle(old(c.result), c.cmd in features.value)
    {
      ghost var s := Waiting();
      ok := UpdateChecks();
      if !ok {
        return;
      }
      var f := features.value;
      var rest := checks.value;
      ghost var kept := rest;
      while rest != {}
        invariant rest <= kept && features == Some(f) && inProgress && checks == Some(kept)
        invariant forall c :: c in s ==> (c in kept <==> c.cmd !in f)
        invariant forall c :: c in s && c.cmd in f ==> c.result == Settle(old(c.result), true)
        invariant forall c :: c in kept && c !in rest ==> c.result == Settle(old(c.result), false)
        invariant forall c :: c in rest ==> c.result == old(c.result)
        decreases |rest|
      {
        var c :| c in rest;
        c.Ring(false);
        rest := rest - {c};
      }
      inProgress := false;
      checks := None;
    }

    /** The reply to HELP: a complete reply adds the words of its interior
      lines and updates the checks; any other reply is ignored. */
    method OnHelpReply(r: Reply) returns (ok: bool)
      requires Valid()
      modifies this, Waiting()
      ensures Valid()
      ensures !IsComplete(r) ==> ok && unchanged(this) && unchanged(Waiting())
      ensures IsComplete(r) && old(features).None? ==> !ok && unchanged(this)
      ensures IsComplete(r) && old(features).Some? ==>
        features == Some(old(features.value) + HelpFeatures(r)) && inProgress == old(inProgress) &&
        (ok <==> old(checks).Some?)
      ensures IsComplete(r) && old(checks).None? ==> checks == old(checks)
      ensures IsComplete(r) && old(checks).Some? ==>
        checks.Some? && Kept(old(checks.value), checks.value, features.value) &&
        Updated(old(checks.value), features.value)
    {
      if !IsComplete(r) {
        return true;
      }
      if features.None? {
        return false;
      }
      var words := HelpReplyWords(r);
      features := Some(features.value + words);
      FeaturesUpper(r);
      ok := UpdateChecks();
    }

    /** The reply to FEAT: a complete reply adds the feature of each interior
      line and updates the checks; any other reply is ignored. */
    method OnFeatReply(r: Reply) returns (ok: bool)
      requires Valid()
      modifies this, Waiting()
      ensures Valid()
      ensures !IsComplete(r) ==> ok && unchanged(this) && unchanged(Waiting())
      ensures IsComplete(r) && old(features).None? ==> !ok && unchanged(this)
      ensures IsComplete(r) && old(features).Some? ==>
        features == Some(old(features.value) + FeatFeatures(r)) && inProgress == old(inProgress) &&
        (ok <==> old(checks).Some?)
      ensures IsComplete(r) && old(checks).None? ==> checks == old(checks)
      ensures IsComplete(r) && old(checks).Some? ==>
        checks.Some? && Kept(old(checks.value), checks.value, features.value) &&
        Updated(old(checks.value), features.value)
    {
      if !IsComplete(r) {
        return true;
      }
      if features.None? {
        return false;
      }
      var words := FeatReplyWords(r);
      features := Some(features.value + words);
      FeaturesUpper(r);
      ok := UpdateChecks();
    }

  }
}
