/** authorize(user, pass): USER is sent, and its handler runs on every reply
    to it. A 331 reply sends PASS and ties the result to the reply to PASS;
    every other reply, preliminary or not, ties the result to USER's own
    final reply. The result keeps the first reply it is tied to. */
module Authorization {
  import opened Text
  import opened Replies
  import opened Encoding

  const USER: Bytes := [85, 83, 69, 82]
  const PASS: Bytes := [80, 65, 83, 83]
  /** The defaults of authorize(): user "anonymous", an empty password. */
  const ANONYMOUS: Bytes := [97, 110, 111, 110, 121, 109, 111, 117, 115]

  /** What the USER handler does with a reply: send PASS and promise its
      reply to the result, or promise USER's own final reply to it. */
  datatype AuthStep = SendPass(command: Bytes) | Forward

  /** The handler of USER. */
  function AuthorizeStep(r: Reply, pass: Bytes): (s: AuthStep)
    ensures s.SendPass? <==> r.code == 331
    ensures s.SendPass? ==> s.command == CommandText(PASS, [pass])
  {
    if r.code == 331 then SendPass(CommandText(PASS, [pass])) else Forward
  }

  /** A corollary of Encoding.CommandTextSplits: the PASS command carries
      the password as its one argument, so a password without spaces is
      exactly what the server reads after "PASS"; the empty default gives
      "PASS" followed by one empty argument. */
  lemma PassCommandSplits(r: Reply, pass: Bytes)
    requires r.code == 331 && SP !in pass
    ensures Split(AuthorizeStep(r, pass).command, SP) == [PASS, pass]
  {
    CommandTextSplits(PASS, [pass]);
  }

  /** The commands authorize writes, given the final reply to USER
      (preliminary replies write nothing). */
  function AuthorizeCommands(user: Bytes, pass: Bytes, userReply: Reply): (cmds: seq<Bytes>)
    ensures |cmds| == if userReply.code == 331 then 2 else 1
    ensures cmds[0] == CommandText(USER, [user])
    ensures userReply.code == 331 ==> cmds[1] == CommandText(PASS, [pass])
  {
    [CommandText(USER, [user])] +
    match AuthorizeStep(userReply, pass)
    case SendPass(c) => [c]
    case Forward => []
  }

  /** authorize() without arguments logs in as "anonymous" with an empty
      password: "USER anonymous", then "PASS " on a 331. */
  lemma AnonymousCommands(userReply: Reply)
    requires userReply.code == 331
    ensures AuthorizeCommands(ANONYMOUS, [], userReply) == [USER + [SP] + ANONYMOUS, PASS + [SP]]
  {
    var none: Bytes := [];
    var user := [USER] + [ANONYMOUS];
    var pass := [PASS] + [none];
    assert user[1..] == [ANONYMOUS] && Join(user[1..], SP) == ANONYMOUS;
    assert pass[1..] == [none] && Join(pass[1..], SP) == none;
    assert PASS + [SP] + none == PASS + [SP];
  }

  /** Whether the handler has promised USER's own reply to the result after
      the replies rs. */
  function Forwarded(rs: seq<Reply>): (f: bool)
    decreases |rs|
  {
    if rs == [] then false else AuthorizeStep(rs[0], []).Forward? || Forwarded(rs[1..])
  }

  lemma {:induction false} ForwardedExactly(rs: seq<Reply>)
    ensures Forwarded(rs) <==> exists i :: 0 <= i < |rs| && rs[i].code != 331
    decreases |rs|
  {
    if rs != [] {
      ForwardedExactly(rs[1..]);
      if exists i :: 0 <= i < |rs[1..]| && rs[1..][i].code != 331 {
        var i :| 0 <= i < |rs[1..]| && rs[1..][i].code != 331;
        assert rs[i + 1].code != 331;
      }
      if exists i :: 0 <= i < |rs| && rs[i].code != 331 {
        var i :| 0 <= i < |rs| && rs[i].code != 331;
        if i > 0 {
          assert rs[1..][i - 1] == rs[i];
        }
      }
    }
  }

  /** The reply authorize resolves with, given every reply the USER handler
      saw (the last one is final) and the reply to PASS. USER's future is
      rung with its final reply right after the handler runs, so once it
      has been promised to the result it wins over any later reply to
      PASS. */
  function Authorized(userReplies: seq<Reply>, passReply: Reply): (r: Reply)
    requires |userReplies| >= 1
    ensures (forall i :: 0 <= i < |userReplies| ==> userReplies[i].code == 331) ==> r == passReply
    ensures (exists i :: 0 <= i < |userReplies| && userReplies[i].code != 331) ==> r == userReplies[|userReplies| - 1]
  {
    ForwardedExactly(userReplies);
    if Forwarded(userReplies) then userReplies[|userReplies| - 1] else passReply
  }

  /** A direct 331 hands the result to PASS; every other final reply to USER
      is the result itself. */
  lemma AuthorizedFinal(userReply: Reply, passReply: Reply)
    ensures userReply.code == 331 ==> Authorized([userReply], passReply) == passReply
    ensures userReply.code != 331 ==> Authorized([userReply], passReply) == userReply
  {
    assert [userReply][0] == userReply;
  }

  /** A preliminary reply before a 331 has already promised USER's final
      reply to the result, so authorize resolves with the 331 itself and
      not with the reply to PASS, although PASS is still sent. */
  lemma PreliminaryBeforePassRequest(p: Reply, u: Reply, passReply: Reply)
    requires IsPreliminary(p) && u.code == 331
    ensures Authorized([p, u], passReply) == u
    ensures AuthorizeStep(u, []).SendPass?
  {
    assert [p, u][0].code != 331;
  }
}
