# FTP control channel

A Dafny model of the control-channel logic of Stork's FTP module
(`FTPChannel`). The model covers the following:

- **Replies.** They are read from the server one line at a time. A server
  reply is a three-digit code with one or more text lines. A line whose
  separator after the code is `-` continues the reply, and one whose
  separator is ` ` ends it. A reply in the 6xx class is a protected reply.
  Every line of it is the Base64 form of a payload encrypted by the
  session's security context. The payloads are unwrapped, and the lines
  they contain are decoded again as a reply.
- **Commands.** They are written to the server as text followed by CRLF.
  With a security context, the text is protected and written as `ENC `
  plus its Base64 form. A command that is written is also appended to a
  queue of handlers. Each reply goes to the handler at the head of the
  queue:
  - A preliminary (1xx) reply leaves the head in place.
  - Any other reply removes the head, together with the sync commands
    queued right behind it.
  - A sync command writes nothing. It resolves once every command issued
    before it has had its final reply.
  - The first 220 reply is the server's welcome and reaches no handler.
- **Login.** `authorize` sends `USER`. It sends `PASS` when the reply is
  331. The handler of `USER` runs on every reply to it. Any reply other
  than 331, even a preliminary one, promises USER's own final reply to the
  result, so a 1xx reply followed by 331 resolves with the 331.
- **Feature detection.** The first support query starts it by issuing
  HELP, HELP SITE, FEAT and a sync command. Later queries wait while it
  runs. The words of the HELP and FEAT listings become the supported
  commands. Each waiting query is answered `true` as soon as its command
  is listed, and `false` when the sync command ends detection.

Bytes (`Text.Byte`, 0 to 255) are the characters of a single-byte
encoding, whose ASCII range holds every letter, digit and blank the
code looks at. Integers are unbounded; no arithmetic in the modelled
code can reach a limit.

The following are parameters of the model rather than modelled code:

- the security context's `protect` and `unprotect`;
- Base64 encoding and decoding;
- the line splitter.

Their properties appear as explicit preconditions where a theorem needs
them:

- unprotect undoes protect;
- Base64 decoding undoes encoding;
- Base64 output holds no line break (`Encoding.Unbroken`);
- the splitter returns a CRLF-terminated line without its line end.

Files, by module:

- `text.dfy` (`Text`): bytes, the code parser, Java's `trim`,
  `toUpperCase`, `split` and joining.
- `reply.dfy` (`Replies`): the reply value, its classification,
  `message()` and `toString()`.
- `security.dfy` (`SecurityContext`): the security context and codecs as
  values.
- `decoder.dfy` (`Decoding`): the reply decoder, as a step function and
  as a class, and protected replies.
- `encoder.dfy` (`Encoding`): the command text and the command encoder.
- `auth.dfy` (`Authorization`): the login decision.
- `pipeline.dfy` (`Pipeline`): commands, the handler queue and the
  channel.
- `features.dfy` (`Features`): the feature set and its parsers.
- `wrappers.dfy` (`Wrappers`): `Option` and `Result`.

In a few places the code and its own comments disagree. The model follows
the code:

- The comment on `feedHandler` says a *preliminary* reply pops the
  handler. The code pops it on every *other* reply and leaves it in place
  on a preliminary one.
- The decoder consumes a leading NUL byte "inserted by some
  implementation". It still reads the code string from absolute index 0,
  so a first line starting with NUL is always rejected
  (`Decoding.LeadingNulRejected`).
- `message()` is described as the part between the first and last lines.
  As written, it also ends with a newline (see Findings).
- The protected-reply decoder is described as handling arbitrarily nested
  replies. The model bounds the nesting with a `depth` argument.

## Model

All source paths are in `stork/module/ftp/FTPChannel.java`.

| member | source | states |
|---|---|---|
| Text.ParseCode | stork/module/ftp/FTPChannel.java:261-262 | `Integer.parseInt` of the 3-byte code string succeeds exactly when it is three digits, or a sign and two digits. The value is the decimal number those digits write, negated after '-'. It lies in [-99, 999], and a value of 100 or more starts with a digit. |
| Text.ParseCodeDigits | stork/module/ftp/FTPChannel.java:152-155 | The three digits `toString` writes for a code parse back to that code. |
| Text.Trim | stork/module/ftp/FTPChannel.java:539 | A trimmed line is empty or begins and ends with a byte above ' '. |
| Text.TrimMeaning | stork/module/ftp/FTPChannel.java:539 | The trimmed line is a slice of the line, and only bytes up to ' ' lie before and after it. |
| Text.ToUpperBytes | stork/module/ftp/FTPChannel.java:539 | Upper-casing leaves no lower-case letter. It changes each lower-case letter only to its capital and leaves every other byte alone. |
| Text.Split | stork/module/ftp/FTPChannel.java:539 | `split(" ")` yields at least one part, and no part contains the separator. |
| Text.SplitPartsWithin | stork/module/ftp/FTPChannel.java:539 | Every byte of every part is a byte of the split string. |
| Text.SplitLastPartNonEmpty | stork/module/ftp/FTPChannel.java:539 | On a trimmed line the last part is not empty, so Java's removal of trailing empty parts removes nothing. |
| Text.SplitJoin | stork/module/ftp/FTPChannel.java:665-668 | Splitting parts joined by a separator gives the parts back, when no part contains the separator. |
| Text.JoinSplit | stork/module/ftp/FTPChannel.java:539 | Joining the parts of a split with its separator gives the split string back. |
| Replies.NewReply | stork/module/ftp/FTPChannel.java:101-106 | The constructor succeeds exactly for codes in [100, 700), and keeps that code and those lines. |
| Replies.ClassesPartition | stork/module/ftp/FTPChannel.java:159-188 | Every reply is in exactly one class: preliminary, complete, incomplete, negative or protected. |
| Replies.ClassDependsOnHundreds | stork/module/ftp/FTPChannel.java:161-188 | Two replies whose codes share the hundreds digit are classified alike, whatever their lines. |
| Replies.BuildMessage | stork/module/ftp/FTPChannel.java:139-148 | The loop of `message()` computes `Message`. This is the only line for a one-line reply, and otherwise each interior line followed by '\n'. |
| Replies.MessageHasTrailingNewline | stork/module/ftp/FTPChannel.java:143-146 | With at least one interior line, the message as written is the intended message plus a trailing '\n'. |
| Replies.MessageCounterexample | stork/module/ftp/FTPChannel.java:143-146 | The lines "a", "b", "c" give `b\n` as written, where `b` is intended. |
| Replies.MessageIntendedLines | stork/module/ftp/FTPChannel.java:136-138 | The intended message splits on '\n' into exactly the interior lines, when no line contains '\n'. |
| Replies.BuildString | stork/module/ftp/FTPChannel.java:150-157 | The loop of `toString()` puts `code-` before every line but the last, and `code ` before the last. Every line but the last ends with '\n'. |
| Replies.RenderIsJoinedWireLines | stork/module/ftp/FTPChannel.java:150-157 | `toString()` is the wire lines of the reply joined by '\n'. |
| Replies.ToStringLines | stork/module/ftp/FTPChannel.java:150-157 | `toString()` splits on '\n' into the wire lines, when no line contains '\n'. |
| Decoding.StepKeepsConsistent | stork/module/ftp/FTPChannel.java:252-286 | Whenever the decoder buffers lines, it holds a 3-byte code string that parses to its stored code. Every step preserves this. |
| Decoding.FirstLineOutcome | stork/module/ftp/FTPChannel.java:252-286 | A first line fails exactly when it is not well formed. A well-formed line either completes a one-line reply, or starts a buffer holding its text; the new state is given in both cases. |
| Decoding.LeadingNulRejected | stork/module/ftp/FTPChannel.java:253-262 | A first line starting with NUL is always rejected, because the code string is read from absolute index 0. |
| Decoding.OutOfRangeCodeRejected | stork/module/ftp/FTPChannel.java:278-282 | A code that parses but is outside [100, 700) fails when the reply is built. The buffer has already been emptied. |
| Decoding.ContinuationOutcome | stork/module/ftp/FTPChannel.java:252-286 | With lines buffered, an empty later line fails and leaves the state alone. A leading NUL is skipped. The rest of the line loses its 4-byte prefix exactly when that prefix repeats the code string and ends in ' ' or '-'. The line ends the reply exactly when the prefix ends in ' '. The reply then holds the first line's code and every buffered line in order, and the buffer is emptied. Otherwise the line is appended. |
| Decoding.NulLedContinuation | stork/module/ftp/FTPChannel.java:253-255 | A later line starting with NUL has the NUL dropped and the rest appended. Because the prefix is read from absolute index 0, such a line never ends the reply. |
| Decoding.ForeignLineNeverEnds | stork/module/ftp/FTPChannel.java:265-272 | A later line with another code, or shorter than 4 bytes, never ends the reply; it is appended. |
| Decoding.FeedContinuation | stork/module/ftp/FTPChannel.java:265-285 | Continuation lines in wire form are buffered, and the last one completes the reply with every buffered line. |
| Decoding.DecodeWireLines | stork/module/ftp/FTPChannel.java:257-285 | Feeding the wire lines of any reply gives nothing until the last line, which gives the reply itself. |
| Decoding.ToStringDecodes | stork/module/ftp/FTPChannel.java:150-157 | `toString()`, split into lines and decoded, gives the reply back. |
| Decoding.Unwrap | stork/module/ftp/FTPChannel.java:215-216 | Without a security context, a protected reply is returned unchanged. |
| Decoding.UnwrapNeverProtected | stork/module/ftp/FTPChannel.java:237-238 | A reply obtained by unwrapping is never itself protected, because nested ones are unwrapped again. |
| Decoding.FeedPayloadsAsLines | stork/module/ftp/FTPChannel.java:219-238 | Take payloads that each open into one line, where the lines leave the decoder incomplete until the last one completes a reply. The unwrap gives that reply, whatever payloads follow; a completed protected reply is unwrapped in turn, with that result or failure. |
| Decoding.OpenFailureIsError | stork/module/ftp/FTPChannel.java:219-220 | A payload that is not Base64 or does not unprotect, met before any reply completes, fails the unwrap with that fault, whatever payloads follow. |
| Decoding.ProtectedRoundTrip | stork/module/ftp/FTPChannel.java:211-225 | Protecting each wire line of a reply and unwrapping the result gives the reply back. |
| Decoding.NoReplyIsError | stork/module/ftp/FTPChannel.java:219-224 | When every payload opens but none of the framed lines completes a reply, the payloads fail with `BadReplyFromServer`. |
| Decoding.UnwrapNoReply | stork/module/ftp/FTPChannel.java:218-224 | A protected reply whose payloads all open, but whose lines complete no inner reply, unwraps to `BadReplyFromServer`. |
| Decoding.ReplyDecoder.constructor | stork/module/ftp/FTPChannel.java:196-203 | A new decoder has an empty buffer. |
| Decoding.ReplyDecoder.DecodeReplyLine | stork/module/ftp/FTPChannel.java:245-286 | The method's new fields and result are exactly those of the step function; the invariant is kept. |
| Decoding.ReplyDecoder.DecodeLine | stork/module/ftp/FTPChannel.java:229-240 | `decode()` on a framed line. It is the step, unwrapping a completed 6xx reply; faults become errors. |
| Decoding.ReplyDecoder.DecodeProtectedReply | stork/module/ftp/FTPChannel.java:211-225 | The loop over the lines, feeding a fresh decoder, returns exactly the result of `Unwrap`. It returns the first completed reply. It fails on a line that is not Base64 or does not unprotect, and when no reply completes. |
| Encoding.BuildCommandText | stork/module/ftp/FTPChannel.java:660-669 | The StringBuilder loop gives the command followed by ' ' and each argument. |
| Encoding.CommandTextSplits | stork/module/ftp/FTPChannel.java:665-668 | The text splits on ' ' back into the command and its arguments, when none of them contains a space. |
| Encoding.EncodeCommand | stork/module/ftp/FTPChannel.java:383-391 | Without a security context, the output is the text plus CRLF. Every output ends in CRLF. |
| Encoding.EncodeRoundTrip | stork/module/ftp/FTPChannel.java:375-391 | Every encoded command of a text without '\n' frames as one line. The server reads that line back as the text, in the clear or through unprotect. |
| Encoding.SealedCommandReads | stork/module/ftp/FTPChannel.java:385-388 | An `ENC ` line is read back through Base64 decoding and unprotect as the protected text. |
| Authorization.AuthorizeStep | stork/module/ftp/FTPChannel.java:408-415 | The USER handler sends the PASS command, with the password as its argument, exactly on 331. On any other reply it forwards USER's own final reply to the result. |
| Authorization.PassCommandSplits | stork/module/ftp/FTPChannel.java:410 | The PASS command carries the password as its one argument. |
| Authorization.AuthorizeCommands | stork/module/ftp/FTPChannel.java:405-419 | The USER command goes first. After a 331 reply the PASS command follows, and nothing else is written. |
| Authorization.AnonymousCommands | stork/module/ftp/FTPChannel.java:401-402 | The defaults send `USER anonymous`, then `PASS ` on 331. |
| Authorization.Authorized | stork/module/ftp/FTPChannel.java:405-419 | Over every reply USER's handler saw: when all of them were 331, the result is the reply to PASS; once any other reply was seen, it is USER's final reply. |
| Authorization.AuthorizedFinal | stork/module/ftp/FTPChannel.java:408-415 | A direct 331 resolves with the reply to PASS, and any other final reply to USER is the result itself. |
| Authorization.PreliminaryBeforePassRequest | stork/module/ftp/FTPChannel.java:411-414 | A preliminary reply and then 331 resolve with the 331, although PASS is still sent. |
| Authorization.ForwardedExactly | stork/module/ftp/FTPChannel.java:409-414 | The handler has forwarded USER's reply exactly when some reply was not 331. |
| Pipeline.Handled | stork/module/ftp/FTPChannel.java:739-750 | A settled future stays settled. An exception settles a pending one as failed. Otherwise a sync settles with no value and any other command with a final reply. A future stays pending exactly when nothing threw, the command is not a sync, and the reply is preliminary. |
| Pipeline.PreliminaryThenFinal | stork/module/ftp/FTPChannel.java:736-750 | A preliminary reply and then a final one resolve the command once, with the final reply. |
| Pipeline.Command.constructor | stork/module/ftp/FTPChannel.java:712-720 | A command is a sync exactly when it has no verb, and its future starts pending. |
| Pipeline.Command.InternalHandle | stork/module/ftp/FTPChannel.java:739-750 | The new future is `Handled` of the old one. |
| Pipeline.LeadingSyncs | stork/module/ftp/FTPChannel.java:641-649 | The count of sync commands at the front of the queue: all of them are syncs, and the next command is not. |
| Pipeline.AdmitInOrder | stork/module/ftp/FTPChannel.java:609-619 | `appendHandler` keeps issue order, keeps the head non-sync, and keeps the queue free of repeats. A command is handled at once exactly when it is a sync meeting an empty queue. |
| Pipeline.Dispatch | stork/module/ftp/FTPChannel.java:626-657 | `feedHandler` fails exactly on an empty queue. Otherwise it delivers the reply to the head and nothing to each sync behind it, in queue order. |
| Pipeline.DispatchInOrder | stork/module/ftp/FTPChannel.java:635-650 | The commands leaving the queue are its first ones, in order, and the rest stay. A preliminary reply removes nothing. |
| Pipeline.DispatchKeepsShape | stork/module/ftp/FTPChannel.java:635-650 | After a reply, the head is still non-sync and the queue is still free of repeats. A final reply removes the head and all syncs behind it. |
| Pipeline.DispatchValid | stork/module/ftp/FTPChannel.java:626-657 | Dispatch keeps the channel's invariant: every issued command has either left the queue, in order, or is still in it. |
| Pipeline.DrainShape | stork/module/ftp/FTPChannel.java:640-649 | The syncs popped behind the head are exactly the queue's next commands. They are distinct, and every command behind them is distinct from them and from the head. |
| Pipeline.SyncBarrier | stork/module/ftp/FTPChannel.java:640-656 | A sync between two ordinary commands is resolved by the first one's final reply, and the second waits. |
| Pipeline.Channel.Issue | stork/module/ftp/FTPChannel.java:712-720 | The command is admitted as `appendHandler` does, and then its encoded text, if any, is written. The invariant is kept. |
| Pipeline.Channel.FeedHandler | stork/module/ftp/FTPChannel.java:626-657 | The queue and the handler calls are those of `Dispatch`. Every queued future changes as those deliveries say, and an empty queue fails with nothing changed. |
| Pipeline.Channel.TakeFinished | stork/module/ftp/FTPChannel.java:632-651 | The synchronized part of `feedHandler` yields the head and the syncs behind it, and leaves the queue of `Dispatch`. |
| Pipeline.Channel.Notify | stork/module/ftp/FTPChannel.java:653-656 | The handler calls of `feedHandler`: the head with the reply, then each sync without one. |
| Pipeline.Channel.RunSyncs | stork/module/ftp/FTPChannel.java:655-656 | Each removed sync is handled once, without a reply, in order. |
| Pipeline.Channel.Receive | stork/module/ftp/FTPChannel.java:291-298 | The first 220 reply while no welcome is stored becomes the welcome and reaches no handler; nothing else changes. Every other reply is fed to the handlers: the queue, the handler calls and every queued future change as `Dispatch` says, and an empty queue fails with nothing changed. |
| Features.Starless | stork/module/ftp/FTPChannel.java:540 | The kept words are words of the line without '*'. |
| Features.StarlessComplete | stork/module/ftp/FTPChannel.java:540 | Every word without '*' is kept. |
| Features.HelpTokenShape | stork/module/ftp/FTPChannel.java:539-540 | A HELP word holds no ' ', no '*' and no lower-case letter. |
| Features.FeatTokenShape | stork/module/ftp/FTPChannel.java:552 | A FEAT feature holds no ' ' and no lower-case letter. |
| Features.FeaturesUpper | stork/module/ftp/FTPChannel.java:534-556 | Every feature learned from a reply is upper case. |
| Features.HelpLineTokens | stork/module/ftp/FTPChannel.java:538-540 | A HELP line of upper-case words without '*', after a leading space, yields exactly those words. |
| Features.FeatLineToken | stork/module/ftp/FTPChannel.java:552 | A FEAT line " NAME params" or " NAME" names the feature NAME, upper-cased. |
| Features.FeatListing | stork/module/ftp/FTPChannel.java:549-553 | A FEAT listing of " NAME" lines between its first and last line yields exactly the upper-cased names. |
| Features.HelpReplyWords | stork/module/ftp/FTPChannel.java:538-540 | The two HELP loops compute the words of every interior line. |
| Features.LineWords | stork/module/ftp/FTPChannel.java:539-540 | The inner HELP loop computes the words of one line that hold no '*'. |
| Features.StarlessWords | stork/module/ftp/FTPChannel.java:539-540 | Filtering the split parts by '*' gives the set of `Starless` parts. |
| Features.FeatReplyWords | stork/module/ftp/FTPChannel.java:551-552 | The FEAT loop computes the feature of every interior line. |
| Features.QueryCommand | stork/module/ftp/FTPChannel.java:507-512 | Detection issues HELP, HELP SITE and FEAT, and then one sync command. |
| Features.Check.constructor | stork/module/ftp/FTPChannel.java:495-497 | A query remembers its command and starts unanswered. |
| Features.Check.Ring | stork/module/ftp/FTPChannel.java:573 | A query keeps its first answer. |
| Features.FeatureSet.constructor | stork/module/ftp/FTPChannel.java:477-480 | A new feature set is unstarted. |
| Features.FeatureSet.IsDone | stork/module/ftp/FTPChannel.java:489-491 | `isDone` holds exactly in the done stage. |
| Features.FeatureSet.Supports | stork/module/ftp/FTPChannel.java:494-521 | Unstarted: detection starts with no features and this query waiting, and the four commands are returned. In progress: the query joins the waiting ones. Done: the query is answered at once by membership. |
| Features.FeatureSet.UpdateChecks | stork/module/ftp/FTPChannel.java:569-577 | The checks still waiting are exactly those whose command is not a feature. Those that left were answered `true`, and the others are untouched. Without a buffer of checks it fails. |
| Features.FeatureSet.FinalizeChecks | stork/module/ftp/FTPChannel.java:582-588 | Every waiting query is answered with whether its command is a feature. Detection is done, and the buffer is gone. |
| Features.FeatureSet.OnHelpReply | stork/module/ftp/FTPChannel.java:534-544 | A complete HELP reply adds the words of its interior lines and updates the checks. Any other reply changes nothing. |
| Features.FeatureSet.OnFeatReply | stork/module/ftp/FTPChannel.java:547-556 | A complete FEAT reply adds the feature of each interior line and updates the checks. Any other reply changes nothing. |

## Left out

- **Netty.** Bootstrap, the event loop, the pipeline initializer,
  `channel()` and `writeAndFlush` are network I/O. Writing is an append
  to `Channel.wire`.
- **The line splitter.** `LineBasedFrameDecoder` splits the incoming
  stream into lines of at most 20480 bytes. It is the `Codec.frame`
  parameter, and the decoder is fed lines that are already split. Its
  length limit is not modelled.
- **Base64 and the security context.** The `GSSSecurityContext` (JGSS)
  and Netty's Base64 are foreign code. They are the function parameters
  `Security` and `Codec`.
- **Character sets.** UTF-8 decoding is replaced by single-byte
  characters. `toUpperCase` is the ASCII mapping, not Java's locale-dependent one.
- **`authenticate` and `handshake`.** They depend on GSS and on chaining
  futures.
- **`Bell`.** Its source is not part of this model. A future is a value
  that keeps its first outcome. `promise` and `sync` are not modelled as
  operations. The chaining `authorize` uses is modelled only by its
  outcome: `Forwarded` and `Authorized` state which reply resolves it.
- **Other operations.** `supportsAny` and `supportsAll` combine futures
  through `Bell`. `FTPMessages.fromCode` and `asError` are not shown.
  `printCommandStack` and `main` only print. `Reply.line`/`lines()` are
  the sequence `Reply.lines` itself.
- **Threads.** `synchronized` blocks and thread safety are not modelled:
  everything is sequential.
- **Handlers.** What a handler does is not modelled, only whether
  `handle()` throws on a delivery (`Command.throwsOn`). Handlers that call
  back into the channel (re-entrancy) are not modelled.
- **`parseSiteReply`.** Its body is empty, so the HELP SITE reply changes
  nothing and has no method.
- **Feature detection, standalone.** The feature set does not issue
  commands on a channel. `FeatureSet.Supports` returns the list of
  queries the first call issues. The replies are given to `OnHelpReply`,
  `OnFeatReply` and `FinalizeChecks`. Each check is still one object
  whose answer is set in place. `HashSet` iteration order is arbitrary,
  so the loops pick any element.
- Decoding.Unwrap: nesting of protected replies is bounded by the `depth`
  argument, beyond which it fails with `NestingTooDeep`. The source has
  no bound.
- Pipeline.Channel.Issue: the command text is encoded when the command is
  issued. The source builds it lazily, when Netty writes it. This makes
  no difference only because nothing runs in between: there is no
  re-entrancy, no other thread, and no `authenticate`, so `security`
  cannot change between the issue and the write.
- Replies.Message: like `message()`, it needs at least one line. The
  source throws on a reply without lines, but the decoder never builds
  one.
- Features.FeatureSet.IsSupported has no row: it is membership in the
  feature set, which is case-sensitive. Features are upper case
  (`Features.FeaturesUpper`), so a query with a lower-case letter is
  always answered `false`.

## Findings

| source | as written | input that shows it | evidently intended | confidence | as-written member | corrected member |
|---|---|---|---|---|---|---|
| stork/module/ftp/FTPChannel.java:143-146 | `message()` appends '\n' after every interior line. The test `i != z` is always true inside the loop, since the loop runs while `i < z`. | The reply "211-a", "211-b", "211 c" gives the message `b\n`. | The interior lines separated by '\n', with no trailing one: `b`. | not executed | Replies.MessageCounterexample | Replies.MessageIntendedLines |
