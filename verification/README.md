# Verified model of multicrum's streams, protocols and lists

multicrum multiplexes terminals. Bytes from many child processes pass through small state machines
(history capture, clipboard and keyboard filters), through a reader protocol that survives restarts
and late subscribers, and end up in lists and caches that the user reorders. This project models
those parts in Dafny and proves what they promise for every input, every run and every way of
cutting a stream into reads. `dafny verify dfyconfig.toml` checks all of it.

| file | models |
|---|---|
| `Bytes.dfy`, `Utf8.dfy`, `Base64.dfy` | bytes and sequences; Go's rune conversions; base64 (RFC 4648 section 4) |
| `Ansi.dfy`, `ScreenSwitch.dfy` | cutting terminal output into bytes and control sequences; which bytes those are and which switch screens |
| `Capture.dfy` | what capture makes of those: lines, carriage returns, eviction, the plain-text observer |
| `CaptureTheorems.dfy`, `CaptureBackspace.dfy`, `CaptureHistory.dfy`, `CaptureLines.dfy`, `CaptureControls.dfy` | what the captured history promises, and what each control sequence does to it |
| `VTScreen.dfy`, `ByteRing.dfy` | the imperative screen capture and the in-place replay buffer, proved against the above |
| `Replay.dfy`, `SessionRun.dfy`, `SessionExits.dfy` | replay arithmetic, reader generations, the report of their end |
| `Subscription.dfy`, `SubscriptionFlow.dfy` | replay-to-live handover, its queue and its completion |
| `Coalescing.dfy`, `CoalescingCounts.dfy`, `CoalescingMoves.dfy`, `CoalescingRest.dfy` | the flag that wakes the event loop for output, one notification a time, the moves that forget no changed session, and what has been scanned once all is at rest |
| `Roster.dfy`, `Manager.dfy` | session lists, focus, index-keyed caches, moves between connections |
| `Selection.dfy`, `WrapMetadata.dfy` | copying out of wrapped rows, recovering wrap flags |
| `KeyboardStrip.dfy`, `Osc52.dfy`, `Osc52Sequences.dfy`, `SshEscape.dfy` | the three byte filters |
| `ProcessTree.dfy` | the search below a process |

Two layers recur. Code that updates fields or arrays is a class or a method with loops, and its
`ensures` equates the new state with a function of the old one. The promises are then lemmas about
that function. The protocols (`SessionRun`, `Subscription`, `Coalescing`) are state machines: one
action per critical section or atomic operation, and a run is any sequence of actions, so every
interleaving is covered.

Facts about the code that the proofs brought out:

- A replay reads the raw history and the output counter under two different locks. When a chunk is
  written and not yet counted at the first read, or is written and counted between the two, the reply
  can be wrong: a gap that is none, or bytes of another position under the requested number. Every
  request is answered exactly if and only if the ring held the same bytes at both reads
  (`ExactIffSameTail`); for all streams alike, if and only if the counter is the number of bytes in
  the history (`ExactIffCounterMatches`).
- A session closed while a chunk is written and not counted stays that way until a respawn. If it was
  the first chunk, every request for it is answered with a gap (`ClosedSessionReplaysNothing`).
- So a subscriber's replay frame can carry other bytes than its number says when output is counted
  between the two reads (`CountBetweenReadsMisleads`); live frames never do.
- A session moved to another connection after its output was announced for the old one can come to
  rest unscanned (`MovedSessionForgotten`). `MovedIsForgottenIff` is the exact condition: the flag of
  its new connection is not set, and no reader, its own or another, is on its way to that flag.
- The comment at `IsAltScreen` (pkg/session/vtscreen.go) speaks of mode 47 as well; the capture code
  reacts to modes 1047 and 1049 only, and the model follows the code.
- A backspace trims one rune of the plain and one of the ANSI copy of a line. It parts the two copies
  exactly when it comes right after a colour sequence, or on a line whose copies differ once malformed
  bytes are replaced, as with a colour inside a rune (`CopiesAgreeIffBackspacesHarmless`).
- Erasing the display or the history makes the captured lines depend on the resizes before it exactly
  when these have led to more or fewer evicted lines by then (`EraseSeesEvictions`); a full reset does
  not, since it erases both sides.
- Filtering keyboard sequences twice can remove more than once does: removing one can join an ESC of
  its own to a bracket. `IdempotentIff` is the exact condition.
- The end of a run is not reported when the session was closed before its start and not respawned since:
  the exit flag is still set (`EndIsReportedOnce`).
- A session that takes the focus and then fails to start does not give the focus back to the session
  that had it (`SessionManager.New`).
- A second start without a respawn would go on counting from the first one's total
  (`UnpairedStartCountsOn`); the callers always respawn in between.

## Model

| member | source | states |
|---|---|---|
| `VTScreen.VTScreen.Write` | pkg/session/vtscreen.go:230-239 | a read extends the raw history to the newest bytes of the whole stream and the capture state to that of the whole stream |
| `VTScreen.VTScreen.CaptureLogicalLines` | pkg/session/vtscreen.go:335-420 | the byte loop computes the lexer and line discipline of `Capture` and keeps the row count and both caps exact |
| `VTScreen.VTScreen.CaptureByte` | pkg/session/vtscreen.go:337-372 | one byte: unfinished sequence, screen switch, hidden alternate screen, or text |
| `VTScreen.VTScreen.CaptureSequence` | pkg/session/vtscreen.go:344-357 | a finished sequence goes to the observer, to a held carriage return, or to the line |
| `VTScreen.VTScreen.CaptureLineByte` | pkg/session/vtscreen.go:378-418 | a held carriage return is resolved by the byte after it: CRLF finishes the line, anything else starts it over |
| `VTScreen.VTScreen.CaptureObservedLines` | pkg/session/vtscreen.go:282-323 | the second parser's loop computes the observer, its list capped at 256 lines |
| `VTScreen.VTScreen.FinishObservedLine` | pkg/session/vtscreen.go:325-333 | an observed line is kept unless it is empty, the oldest one making room |
| `VTScreen.VTScreen.CaptureScreenSwitch` | pkg/session/vtscreen.go:425-450 | reports a switch exactly for DEC 1047/1049 sets and resets, and leaves the alternate screen on a full reset |
| `VTScreen.VTScreen.CaptureControlSequence` | pkg/session/vtscreen.go:474-487 | SGR joins the line; ED 2, ED 3 and RIS clear what they clear and nothing else |
| `VTScreen.VTScreen.ClearLogicalScreen` | pkg/session/vtscreen.go:505-515 | live lines, current line, held return and observed lines are gone; history stays |
| `VTScreen.VTScreen.FinishLogicalLine` | pkg/session/vtscreen.go:517-524 | the current line becomes the newest live line and the oldest ones over budget leave |
| `VTScreen.VTScreen.FlushPendingLogicalLines` | pkg/session/vtscreen.go:526-533 | evicts exactly the lines over the row budget, with the row counter still the sum of wrapped rows |
| `VTScreen.VTScreen.AppendLogicalScrollback` | pkg/session/vtscreen.go:542-547 | the scrollback is the newest 10000 of all evicted lines |
| `VTScreen.VTScreen.Resize` | pkg/session/vtscreen.go:605-619 | a non-positive size is refused; otherwise rows are recounted at the new width and the surplus evicted |
| `VTScreen.FlushStep` | pkg/session/vtscreen.go:526-533 | flushing is: while over budget, the oldest live line moves to the history |
| `Capture.FeedConcat` | pkg/session/vtscreen.go:335-420 | capturing two reads is capturing them joined, at any cut |
| `Capture.ChunkingIsInvisible` | pkg/session/vtscreen.go:335-420 | the captured state does not depend on how the stream is cut into reads |
| `Ansi.LexConcat` | pkg/session/vtscreen.go:336-372 | sequence recognition and screen mode carry over any read boundary |
| `Ansi.LexGood` | pkg/session/vtscreen.go:452-472 | what is held back is always an unfinished sequence, and every token is a whole sequence or a byte that is not ESC |
| `Ansi.ReadSpelled` | pkg/session/vtscreen.go:335-372 | reading back the spelling of main-screen tokens gives exactly those tokens |
| `Ansi.AlternateIsSilent` | pkg/session/vtscreen.go:339-372 | behind the alternate screen nothing reaches the main screen until a leave or a reset |
| `ScreenSwitch.WholeForms` | pkg/session/vtscreen.go:452-472 | the finished sequences are exactly `ESC [` up to a byte 0x40-0x7e, `ESC ]` up to BEL or `ESC \`, and ESC with any other byte |
| `ScreenSwitch.AltModeNumerals` | pkg/session/vtscreen.go:437-447 | the parameters that count are exactly the numerals 1047 and 1049, zeros and a plus sign in front allowed |
| `ScreenSwitch.SequenceSwitches` | pkg/session/vtscreen.go:425-450 | a private mode list with such a numeral puts the alternate screen up when set with `h` and down when reset with `l`, `ESC c` takes it down, and every other sequence leaves it |
| `ScreenSwitch.AltScreenLeavesNoTrace` | pkg/session/vtscreen.go:335-450 | `ESC[?1049h`, a body and `ESC[?1049l`, or 1047, leave every captured field as it was |
| `CaptureTheorems.ObserverIgnoresSequences` | pkg/session/vtscreen.go:282-323 | a whole control sequence leaves the observer exactly as it was |
| `CaptureTheorems.ObservedControlStaysEmpty` | pkg/session/vtscreen.go:282-323 | the second parser never stops inside a sequence, after any bytes |
| `CaptureTheorems.AlternateScreenErased` | pkg/session/vtscreen.go:335-450 | enter, any body without leave or reset, leave: every captured field is as before |
| `CaptureTheorems.AlternateSegmentDeleted` | pkg/session/vtscreen.go:335-450 | such a segment may be deleted from any stream without a captured difference |
| `CaptureTheorems.CaptureSeesMainScreenOnly` | pkg/session/vtscreen.go:335-450 | any stream captures like what is left of it with everything on the alternate screen deleted |
| `CaptureTheorems.AnsiAndPlainAgree` | pkg/session/vtscreen.go:378-419 | without backspaces, every ANSI line minus its SGR sequences is its plain line |
| `CaptureTheorems.FeedKeepsAgreement` | pkg/session/vtscreen.go:335-420 | the same for every byte stream that writes no backspace on the main screen |
| `CaptureControls.EraseScreen` | pkg/session/vtscreen.go:478-479 | `ESC[2J` empties the live screen, the current line, a held return and the observer, and keeps the history |
| `CaptureControls.EraseHistory` | pkg/session/vtscreen.go:480-482 | `ESC[3J` empties the history and the observed lines and keeps the live screen, but for a line a held return starts over |
| `CaptureControls.FullReset` | pkg/session/vtscreen.go:483-486 | `ESC c` leaves nothing, on either screen |
| `CaptureControls.ColourIsKept` | pkg/session/vtscreen.go:345-347 | a colour sequence joins the ANSI copy of the line, or waits behind a held return |
| `CaptureControls.OtherSequences` | pkg/session/vtscreen.go:344-357 | every other finished sequence changes no line, but for one a held return starts over |
| `CaptureLines.CapturedLines` | pkg/session/vtscreen.go:335-420 | for all streams without ED 2, ED 3 and RIS, in any chunks, each stored line is the text between two line feeds, with its colour sequences at their places and without them |
| `CaptureLines.ObservedLines` | pkg/session/vtscreen.go:282-333 | on those streams the observer has exactly the lines of the bare text that are not empty |
| `CaptureBackspace.BackspacePartsCopies` | pkg/session/vtscreen.go:407-409 | whatever the line holds, a backspace right after an SGR sequence makes the two copies disagree |
| `CaptureBackspace.TrimAgreesIff` | pkg/session/vtscreen.go:572-580 | trimming a rune of both copies keeps them in agreement if and only if the ANSI one does not end in SGR and they agree with malformed bytes replaced |
| `CaptureBackspace.BackspaceKeepsAgreement` | pkg/session/vtscreen.go:394-409 | the same for a backspace on any line; where the line holds whole runes, not ending in SGR is all it takes |
| `CaptureBackspace.CopiesAgreeIffBackspacesHarmless` | pkg/session/vtscreen.go:335-420 | for every stream the copies agree after each byte if and only if every backspace meets that condition |
| `CaptureBackspace.SplitRunePartsCopies` | pkg/session/vtscreen.go:572-580 | a colour inside one rune is a case where it fails without the text ending in SGR |
| `CaptureHistory.StreamingIsBatch` | pkg/session/vtscreen.go:335-420 | for text, backspaces, controls and SGR in any chunks: drop SGR, split at LF, drop trailing CRs, keep what follows the last CR, type it out |
| `CaptureHistory.ResizesKeepHistory` | pkg/session/vtscreen.go:517-558 | lines, current line and observer do not depend on when or to what size resizes happened |
| `CaptureHistory.EraseSeesEvictions` | pkg/session/vtscreen.go:474-487 | two runs that write the same and resize differently are alike behind ED 2 or ED 3 if and only if they have evicted equally many lines by then |
| `CaptureHistory.EraseSeesResize` | pkg/session/vtscreen.go:474-487 | right before ED 2 or ED 3, a resize leaves no trace if and only if it is refused or evicts nothing |
| `CaptureHistory.TwoLinesTellSizesApart` | pkg/session/vtscreen.go:474-487 | two lines fed to a screen of two rows are such a trace |
| `CaptureHistory.EvictionIsLeast` | pkg/session/vtscreen.go:526-533 | eviction stops at the first point where the rest fits |
| `CaptureHistory.RunsKeepBudget` | pkg/session/vtscreen.go:517-540 | after any run of writes and resizes the live lines fit the current rows |
| `Utf8.DecodeEncode` | pkg/session/vtscreen.go:560-580 | every rune string survives being written as bytes and read back |
| `Utf8.RuneForms` | pkg/session/vtscreen.go:572-580 | a rune is written in the shortest form of RFC 3629 section 3 that holds its value |
| `Utf8.FirstRuneIs` | pkg/session/vtscreen.go:572-580 | a rune is read exactly where its bytes stand, and U+FFFD for one byte where none begins |
| `Utf8.TrimLastRuneDropsOne` | pkg/session/vtscreen.go:572-580 | a backspace removes exactly the last rune, also from malformed text |
| `ByteRing.Ring.Append` | pkg/session/vtscreen.go:95-126 | the ring holds the last 262144 bytes of all appended, updated in place once full |
| `ByteRing.Ring.Overwrite` | pkg/session/vtscreen.go:123-125 | two copies around the end replace the oldest bytes by the new ones |
| `ByteRing.Ring.Snapshot` | pkg/session/vtscreen.go:132-141 | the bytes oldest first, wherever the ring starts |
| `ByteRing.RingIsTailOfStream` | pkg/session/vtscreen.go:88-126 | after any sequence of appends the contents are the tail of the whole stream |
| `Replay.ControlReplay` | pkg/ui/control.go:573-599 | with history and counter of the same stream: the stream from the requested byte, a gap naming the oldest byte kept, or an error; otherwise the bytes that end where the history ended |
| `Replay.ReplayIsExact` | pkg/ui/control.go:582-598 | the subtraction does not wrap and the slice is the one asked for when both reads see the whole stream |
| `Replay.ReplyIsAcross` | pkg/ui/control.go:582-598 | the answer when the two reads fall at different moments: nothing available after a wrap, or bytes shifted by the difference |
| `Replay.ExactIffSameTail` | pkg/ui/control.go:584-598 | every request is answered exactly if and only if the ring held the same bytes at both reads |
| `Replay.ExactIffCounterMatches` | pkg/ui/control.go:584-598 | for all streams of a length that is so if and only if the counter read equals the bytes written at the first read |
| `SessionRun.RunIsolation` | pkg/session/session.go:86-144 | over every interleaving: at most one reader holds the token, each generation's messages are contiguous, a prefix of its bytes, with at most one exit |
| `SessionRun.GenerationsStartFromZero` | pkg/session/session.go:384-429 | with a respawn between starts every generation counts from 0 and no two readers share a screen |
| `SessionExits.ExitFollowsEnd` | pkg/session/session.go:121-140 | a reader that meets the end of output reports it exactly once if it holds the token and the session had not exited, else never |
| `SessionExits.EndIsReportedOnce` | pkg/session/session.go:121-140 | in paired runs a current reader that has returned was reported once, unless the session was closed since the last respawn, and then not at all |
| `SessionExits.EveryByteIsSent` | pkg/session/session.go:98-120 | each byte read was sent in order, is in the chunk in hand, or was in the one chunk lost with the token; a current reader loses nothing |
| `SessionExits.CurrentReaderFinishes` | pkg/session/session.go:98-120 | from any moment of any run, counting and sending what a current reader has in hand brings out every byte it has read |
| `SessionRun.UnpairedStartCountsOn` | pkg/session/start_unix.go:22-39 | without one the counter and the screen are carried over |
| `SessionRun.StaleReaderIsHarmless` | pkg/session/session.go:86-144 | a reader from before a respawn changes no screen, counter, token or exit flag of the new run |
| `SessionRun.ScreenIsCountedStream` | pkg/session/session.go:100-119 | in every started session, closed or not, the screen holds the counted stream plus at most the chunk in between, and the counter is that stream's length |
| `SessionRun.LiveReplayIsExact` | pkg/ui/control.go:582-598 | with any steps of one generation between the reads the reply ends where the screen ended, and is exact when the counter is still there |
| `SessionRun.LiveReplayIffRingUnchanged` | pkg/ui/control.go:582-598 | over such runs every request is answered exactly if and only if the ring held the same bytes at both reads |
| `SessionRun.ClosedSessionReplaysNothing` | pkg/session/session.go:102-109 | a session closed between writing and counting its first chunk answers every request for it with a gap until a respawn |
| `Subscription.NothingIsLost` | pkg/control/service.go:613-657 | over every interleaving without overflow, each promised byte is in a frame that carries what it says; the promise starts at the request when the two reads of the replay agree, else at the counter |
| `Subscription.FramesAreTruthful` | pkg/control/service.go:851-895 | each live frame with sequence q and n bytes carries bytes q to q+n of the stream, and so does the replay frame when the two reads agree |
| `Subscription.NoCountBetweenReads` | pkg/control/service.go:629-655 | in a run with no count between the reads they agree, so all frames are right and the promise is the request |
| `Subscription.ReplayFrameIsShifted` | pkg/ui/control.go:584-598 | in every run the replay frame carries the bytes as far before its number as was counted between the reads, and is right exactly when the two stretches are alike |
| `Subscription.CountBetweenReadsMisleads` | pkg/ui/control.go:584-585 | for any amounts written and counted in between, a run whose replay frame is wrong |
| `SubscriptionFlow.OverflowIff` | pkg/control/service.go:255-262 | a frame is lost if and only if it is offered while 256 are waiting |
| `SubscriptionFlow.FewFramesNeverOverflow` | pkg/control/service.go:169 | a client sent no more frames than fit its channel loses none, however slowly it reads |
| `SubscriptionFlow.EveryHandoverFinishes` | pkg/control/service.go:613-657 | from any moment of any run the missing steps complete the handover, and without overflow every byte from the promised one to the last has then arrived |
| `CoalescingMoves.CoalescingNeverSticks` | pkg/ui/connections.go:129-152 | over every interleaving, moves included: one tick exactly while a frame is pending, each raised flag attended to; and if the moves are safe, each changed session will be scanned |
| `CoalescingCounts.OneNotificationPerFlag` | pkg/ui/connections.go:141-152 | in every run a connection's notifications, sent, received or under way, are as many as its flag was cleared, and one more while it is set |
| `CoalescingCounts.LiveNotification` | pkg/ui/model.go:909-932 | a notification out of view clears the flag and scans exactly the connection's sessions; one in view keeps it and scans the one shown |
| `CoalescingCounts.StaleNotification` | pkg/ui/model.go:903-908 | a notification of a connection no longer shown only clears its flag |
| `CoalescingRest.LeftUnscannedIff` | pkg/ui/model.go:903-973 | internal steps can bring all to rest with a changed session unscanned if and only if no scan of it is due, its connection's flag is not set, and no reader is on its way to that flag |
| `CoalescingMoves.MoveRemembersIff` | pkg/ui/control.go:657-662 | the safe moves are exactly those after which every changed session, the moved one and those left behind, still has a scan to come |
| `CoalescingRest.MovedIsForgottenIff` | pkg/ui/control.go:657-662 | a moved changed session can end up unscanned if and only if its new connection's flag is not set and no reader is on its way to it |
| `CoalescingRest.MovedSessionForgotten` | pkg/ui/model.go:909-915 | a reachable move after which all comes to rest with a shown session changed and unscanned |
| `CoalescingRest.InternalStepsEnd` | pkg/ui/model.go:903-973 | each step that works off a notification, tick or scan leaves less work |
| `CoalescingRest.SomeStepIsEnabled` | pkg/ui/model.go:903-973 | while work is left, some such step can be taken |
| `CoalescingRest.EveryRunComesToRest` | pkg/ui/model.go:596-606 | every run can be finished by such steps, and then no flag is stuck, and after safe moves every shown session was scanned |
| `Roster.MoveKeepsFocus` | pkg/session/manager.go:409-436 | a move permutes the list and keeps the same session focused |
| `Roster.MoveRelocates` | pkg/ui/model.go:2270-2285 | the item at each index is found at the index the rekeying computes |
| `Roster.MoveLands` | pkg/session/manager.go:409-436 | a moved session is at the destination, brought onto the list, and the others keep their order |
| `Roster.RemovalIs` | pkg/session/manager.go:220-283 | only the session at a valid index goes, and a focus that falls off goes to the new last one |
| `Roster.AdoptionIs` | pkg/session/manager.go:286-304 | an adopted session is at the position asked for, or last when that is off the list |
| `Roster.CreationIs` | pkg/session/manager.go:96-181 | a new session is last and focused if asked; a failed one leaves the list as it was |
| `Roster.OperationsAct` | pkg/session/manager.go:96-304 | each operation lists or closes exactly the session it is about, and touches no other list |
| `Roster.SessionsAreConserved` | pkg/session/manager.go:96-304 | over every sequence of operations each session is in exactly one list or was closed, and every list keeps its focus in range |
| `Roster.TransferConserves` | pkg/ui/control.go:657-662 | a transfer between lists loses and duplicates nothing and puts the session into the target |
| `Manager.SessionManager.Move` | pkg/session/manager.go:409-436 | the list is spliced and renumbered as the move describes, with the same session focused |
| `Manager.SessionManager.Focus` | pkg/session/manager.go:184-191 | focus follows a valid index and ignores others |
| `Manager.SessionManager.Detach` | pkg/session/manager.go:265-283 | the session leaves the list still running, the rest is renumbered, the focus stays in range |
| `Manager.SessionManager.Remove` | pkg/session/manager.go:242-262 | the same with the session closed and no other |
| `Manager.SessionManager.Kill` | pkg/session/manager.go:220-238 | the same, and the last session is never taken |
| `Manager.SessionManager.Adopt` | pkg/session/manager.go:286-304 | the session is inserted at its slot, at the end for a position off the list, and reports to this manager from then on |
| `Manager.SessionManager.New` | pkg/session/manager.go:139-181 | an appended, focused session; after a failed start the list is as before and the focus on the last session |
| `Manager.SessionManager.Withdraw` | pkg/session/manager.go:157-179 | after a failed start the list is searched for the new session, and exactly that one is gone, closed, and the rest numbered by position |
| `Manager.SessionManager.NewConfigured` | pkg/session/manager.go:96-131 | the same without any change of focus |
| `Manager.MoveIndexedMap` | pkg/ui/model.go:2270-2285 | the rekeyed cache is the same whatever order the map is iterated in, and no entry is lost |
| `Manager.MoveSession` | pkg/ui/model.go:2255-2268 | what was cached under a session's old index is cached under its new one |
| `Manager.ConnectionList.MoveConnection` | pkg/ui/connections.go:98-114 | connections are reordered and the same one stays active |
| `Manager.ControlMoveSession` | pkg/ui/control.go:643-670 | within a connection a move, between connections out of one list and into the other, found at its reported position |
| `Manager.ControlRemoveConnectionMove` | pkg/ui/control.go:700-707 | the loop ends with all sessions behind the target's own, in order and running |
| `Selection.SelectionText` | pkg/ui/selection.go:349-394 | the copied text is one contiguous slice of the rows joined, newline after hard rows only |
| `Selection.PartIsNext` | pkg/ui/selection.go:376-391 | each row's part is the next piece of that slice |
| `Selection.DirectionDoesNotMatter` | pkg/ui/selection.go:46-52 | dragging from either end copies the same |
| `Selection.AppendWrapped` | pkg/session/vtscreen.go:560-570 | the loop appends the rows that wrapping describes |
| `Selection.WrappingIsInvisible` | pkg/session/vtscreen.go:560-570 | rows wrapped at any width join to the lines they came from |
| `Selection.WrappedRowsAreFull` | pkg/session/vtscreen.go:560-570 | every row but the last is exactly full and goes on; the last is hard |
| `Selection.BudgetCountsRows` | pkg/session/vtscreen.go:549-558 | the row budget counts exactly the rows that wrapping makes |
| `Selection.SameRangeSameText` | pkg/ui/selection.go:349-394 | the same range of the lines copied at two widths gives the same text |
| `Selection.LocateIsOffset` | pkg/session/vtscreen.go:560-570 | at every width each cell of each line has a row and column, with the offset it has in the lines |
| `Selection.DragCopiesLines` | pkg/ui/selection.go:349-394 | a drag between two cells copies the lines from the first up to and including the second, whatever the width |
| `Selection.SameCellsSameText` | pkg/ui/selection.go:349-394 | a drag between the same two cells copies the same text at any two widths, in either direction |
| `WrapMetadata.LongestRun` | pkg/session/vtscreen.go:893-905 | the run found matches and no pair of starts has a longer one |
| `WrapMetadata.WholeScreenIsLongest` | pkg/session/vtscreen.go:893-905 | where the screen shows a stretch of logical rows, the run found is the whole screen |
| `WrapMetadata.ApplyMatchingWrapMetadata` | pkg/session/vtscreen.go:893-919 | the rows of that run take over text and flag, all others stay, and rows gain only trailing spaces |
| `WrapMetadata.ApplyAdjacentWrapMetadata` | pkg/session/vtscreen.go:869-891 | each row is decided from the rows as they were before the pass, though the pass updates them in place |
| `WrapMetadata.MarkFullRows` | pkg/session/vtscreen.go:861-865 | a row of unknown wrapping that fills its width, with a row below, is marked as wrapped, and no other |
| `WrapMetadata.TrimmedIs` | pkg/session/vtscreen.go:893-919 | trimming takes all trailing spaces and nothing else |
| `WrapMetadata.CutSourceIsRecovered` | pkg/session/vtscreen.go:869-891 | a row painted from a source cut at the width gets its trailing spaces and its wrap flag back |
| `WrapMetadata.OthersStay` | pkg/session/vtscreen.go:869-891 | a row that is known, full, empty, last, above an empty one, or in no source with the next is left alone |
| `WrapMetadata.ApplyWrapMetadata` | pkg/session/vtscreen.go:859-867 | after the two passes and the marking every row is the painted row plus trailing spaces, and a row no pass recognised changed only by the marking |
| `KeyboardStrip.KeyboardStripWriter.Write` | pkg/ui/keyboardstrip.go:67-115 | what is written and held back are the filter of the buffered bytes and the write together |
| `KeyboardStrip.KeyboardStripWriter.ScanCSIEnd` | pkg/ui/keyboardstrip.go:122-135 | finds the first byte outside 0x20-0x3F, or reports that there is none |
| `KeyboardStrip.EnhancementsAreListed` | pkg/ui/keyboardstrip.go:140-208 | exactly the modifyOtherKeys and kitty forms are recognised |
| `KeyboardStrip.InputIsTokens` | pkg/ui/keyboardstrip.go:67-180 | input is whole tokens, then nothing, a lone ESC, or `ESC [` and bytes 0x20-0x3F held back; no lone ESC stands before a bracket; output is those tokens minus the enhancements, in order |
| `KeyboardStrip.TokensAreUnique` | pkg/ui/keyboardstrip.go:67-135 | no other cutting of the input meets that description |
| `KeyboardStrip.ChunkIndependent` | pkg/ui/keyboardstrip.go:67-115 | output and held-back bytes do not depend on how the input is cut into writes |
| `KeyboardStrip.UndisturbedIsIdempotent` | pkg/ui/keyboardstrip.go:67-115 | filtering again changes nothing unless a lone ESC comes last or right before a removed sequence |
| `KeyboardStrip.StableIff` | pkg/ui/keyboardstrip.go:67-115 | the filter leaves text alone if and only if none of its tokens is an enhancement and nothing is unfinished |
| `KeyboardStrip.IdempotentIff` | pkg/ui/keyboardstrip.go:67-115 | filtering again changes nothing if and only if no lone ESC dangles in the output or, re-read from the first one, it holds no enhancement and nothing unfinished |
| `KeyboardStrip.NotIdempotent` | pkg/ui/keyboardstrip.go:67-115 | an input on which filtering twice removes more |
| `Osc52.Osc52Decoder.Write` | pkg/session/osc52.go:18-96 | the byte loop computes the decoder, the payload never over its cap |
| `Osc52.ChunkIndependent` | pkg/session/osc52.go:18-84 | the texts found do not depend on how the stream is cut |
| `Osc52.BuiltSequenceDecodes` | pkg/ui/selection.go:492-495 | a built sequence decodes to its text exactly when that is not empty and fits the cap, else to nothing, and leaves the decoder idle |
| `Osc52.ClipboardOutputDecodes` | pkg/ui/clipboard.go:78-85 | the plain and the tmux form together decode to the text twice, under the same condition |
| `Osc52Sequences.SequenceTexts` | pkg/session/osc52.go:18-84 | `ESC ] 52 ;`, a payload within the cap, and BEL or `ESC \` yield what the payload says, ESCs inside it included |
| `Osc52Sequences.SequenceDecodes` | pkg/session/osc52.go:18-111 | for any selection, either terminator, padded or not: the text, exactly when it is not empty and the payload fits |
| `Osc52Sequences.SaysNothing` | pkg/session/osc52.go:98-111 | a payload yields nothing if and only if it has no semicolon, or behind it nothing, `?`, or what neither decoder takes |
| `Osc52Sequences.NothingUnlessIntroduced` | pkg/session/osc52.go:21-50 | a stream without the five opening bytes in a row yields no text |
| `Osc52Sequences.TmuxPassesOn` | pkg/ui/clipboard.go:78-85 | what tmux unwraps is the plain sequence again |
| `Base64.RoundTrip` | pkg/session/osc52.go:98-111 | the padded decoder undoes the encoder for every text |
| `Base64.RawRoundTrip` | pkg/session/osc52.go:103-106 | the raw decoder undoes the unpadded encoding, which the padded one takes only when no padding is missing |
| `Base64.QuantumOfThree` | pkg/ui/selection.go:492-495 | three bytes are the four letters of the same 24-bit number |
| `Base64.QuantumOfFewer` | pkg/ui/selection.go:492-495 | one or two bytes are filled with zero bits and padded |
| `Base64.LettersInOrder` | pkg/ui/selection.go:492-495 | the alphabet is that of RFC 4648 section 4 |
| `Base64.QuantaIff` | pkg/session/osc52.go:103-110 | exactly which strings each of the two decoders takes |
| `Base64.BreaksDoNotMatter` | pkg/session/osc52.go:103-106 | a line break anywhere changes nothing for either decoder |
| `SshEscape.RemoteSession.FilterEscapes` | pkg/ssh_client/session.go:126-154 | the byte loop computes output, state and disconnect of the filter |
| `SshEscape.ChunkIndependent` | pkg/ssh_client/session.go:126-154 | all three do not depend on how the input is cut |
| `SshEscape.EscapeRoundTrip` | pkg/ssh_client/session.go:126-154 | any bytes with tildes at line starts doubled come through as they were, without disconnecting |
| `SshEscape.EscapedInputArrives` | pkg/ssh_client/session.go:126-154 | the same in any chunks |
| `SshEscape.DisconnectMeansEscape` | pkg/ssh_client/session.go:133-138 | a disconnect happens if and only if a dot follows a held-back tilde |
| `SshEscape.OnlyEscapesAreRemoved` | pkg/ssh_client/session.go:126-154 | for every input, only the first tilde of a doubled pair and `~.`, both at a line start, are taken out |
| `ProcessTree.ProcessTreeContains` | pkg/agentdetect/process.go:24-48 | the search ends on any table and succeeds if and only if a reachable listed process matches |
| `ProcessTree.LastEntryWins` | pkg/agentdetect/process.go:25-30 | a PID means the last entry that has it |
| `ProcessTree.IndexTable` | pkg/agentdetect/process.go:25-30 | a repeated PID means its last entry, and children are kept in table order |

## Left out

- The emulator, painted cells, rendering and the rewriting of restore-cursor sequences: library behaviour; painted rows are arbitrary input to `WrapMetadata`.
- The choice of the logical rows and sources that the row snapshot hands to the wrap passes; they are arbitrary there.
- Sockets, PTYs, consoles, SSH dialling, files, timers, JSON and logs: I/O. Whether a backend starts, whether a sink accepts bytes and when a tick fires are parameters or actions.
- Permissions, tokens and delegation in the control service.
- Rectangular selections.
- Run steps: a failed start is no step; `Start` and `startSSH` are the same step; `Respawn` is the step up to its call of `Start` followed by a start, which is the pairing that `GenerationsStartFromZero` and the results after it ask for.
- Replay: requests of another generation than the current one are refused before the two reads, and a respawn waits for the same loop, so both reads belong to one generation.
- Subscription: writing the screen and counting are one step, one session and one subscription are followed, other frames to the same client are steps that only take room in the queue; the 64-bit counter does not overflow.
- Coalescing: covers agent scans, not the freshness of the drawn pane. Sessions move between connections and are neither created nor removed, connections are only taken off the list, and a reader that returns before trying the flag is not a step.
- Cache re-keying when a session is closed or moved by the browser, and which session is focused after a removal or adoption: the code keeps only the number in range.
- A session whose construction fails before it is listed: it changes nothing.
- Manager calls that interleave while a backend starts outside the lock: manager operations are sequential here.
- `ControlRemoveConnectionMove`: the other two session policies and the removal of the emptied connection from the list add no list behaviour beyond it.
- `MoveSession`: stated for one cache of any value type; the code applies the same function to five.
- `ApplyAdjacentWrapMetadata`: the display width of a text is the parameter `cells`, since the width tables are library data.
- `ProcessTreeContains`: a process has one name field, since the search hands it on to the match function unread.
- The mode numbers 1047 and 1049 are those of the terminal library's named modes; that library is not part of this model.
