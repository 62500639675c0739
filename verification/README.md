# Verified core of a Sway-based compositor

Dafny models of the algorithmic parts of the compositor, its bar and its client library, with proofs
of what they promise. `dafny verify dfyconfig.toml` checks the whole project.

One module per component, one file per module (`Options` and `Layouts` hold types several of them share):

- **In-place stable sort** (`StableSort`, `Lists`, `Urgent`): the growable list with its rotation-based
  merge sort on an array, and the urgent criterion that relies on its stability.
- **IPC** (`IpcFrame`, `IpcRead`, `IpcWrite`, `IpcClients`, `IpcServer`, `IpcReceive`): framing, the
  readable handler, the doubling write queue, broadcasting while clients drop out, and the client
  library's receive loop. The frame format is that of the i3 document "IPC interface (interprocess
  communication)", sections "Sending messages to i3" and "Receiving replies from i3".
- **Session lock** (`SessionLockSpec`, `SessionLockRuns`, `SessionLock`): the compositor side of
  ext-session-lock-v1 as a state machine, what it covers in every run, and the objects and handlers that
  refine it.
- **Text** (`Tokens`, `TokenForms`, `Unquote`, `WorkspaceCommand`, `IpcLines`, `CommandList`, `CommandCuts`,
  `ExecuteCommand`, `SplitString`): splitting and joining command lines, unquoting and unescaping in the
  string's own buffer, the workspace command of the bar and what becomes of it on its way through the server.
- **Configuration** (`Variables`, `ConfigCommand`, `ConfigQuoting`, `ConfigReader`, `ConfigLines`, `ConfigItems`,
  `ConfigDeferred`, `NestedConfig`, `BarSight`, `BarBlocks`, `IncludeGraph`, `IncludeRuns`, `Includes`):
  variables, arguments of commands, the block-stack reader and its meaning, includes.
- **Animation** (`Bernstein`, `Bezier`, `AnimationTicks`, `Animation`): easing by bisection (the curves are those of
  "Cubic Bezier easing functions" in CSS Easing Functions Level 1), the schedule of an animation, and
  the manager's list.
- **Bindings** (`KeyTranslation`, `BindingTable`, `Bindings`): binding lists as finite maps, and the
  re-translation of keysyms when the keymap changes.
- **Resize** (`TiledResize`, `Resize`): the search in the container tree and the arithmetic on siblings.
- **Gestures** (`GestureText`, `GestureMatch`) and **layout toggle** (`LayoutToggle`).

A method that changes objects or arrays states its result by a function or relation on values, and the
promises are lemmas about those. Bytes of numbers are little-endian, numbers with a fraction are exact
reals, allocation succeeds.

Where the code does not do what its documentation or a reader would expect, the model follows the code
and a lemma says exactly when the expectation holds:

- `Variables.SeesOriginalIff` and, about results, `Variables.SameResultIff`: the look-back for an escaping
  backslash also sees substituted text, with `Variables.SecondUseLost` as an example.
- `ExecuteCommand.NameArrivesIff`: the server turns newlines of a command into semicolons, executed
  commands are not unescaped, and variables are substituted in what was quoted, so only names without
  newlines, double quotes, backslashes and dollar signs arrive unchanged.
- `CommandList.CommandWholeIff`: the escape flag of `argsep` outlives an escaped quote, so a quoted name
  can be cut at a separator, or at a newline that has become one (`CommandList.AdjacentQuotesCut`).
- `IpcReceive.TakeAllParses`: a peer that closes inside a payload makes the receiving loop spin
  (`IpcReceive.StuckBehindHeader`); `IpcReceive.SendCommand`: short writes are taken for whole ones.
- `NestedConfig.NestedMeansFlatIff` for any handlers, `BarSight.BarsMeanFlatIff` for handlers of which only
  those of `bar` look at the current bar: a nested file is not always as good as its flat form, because the
  borders of `bar` blocks unset the current bar: two such blocks with one id fail (`BarBlocks.TwoBars`),
  the flat form selects the same bar twice and loads (`sway/commands/bar.c:60-75`,
  `sway/commands/bar/id.c:10-26`).
- `ConfigItems.SuccessIff`: success does not mean balanced braces; only a closing line without an opening
  one is reported, blocks left open never are.
- `ConfigLines.CommandsStayOpen`: a `<commands>` block can never be closed, because the name of the block is put
  in front of the closing brace.
- `Unquote.HexStops`: a `\x` escape with digits ends the unescaping, since the loop runs into the NULs it leaves
  behind, and its digits are decimal ones read as hexadecimal.
- `CommandCuts.EscapesRun`: in `argsep` one backslash protects a whole run of separators.
- `LayoutToggle.NeverEnds`: the toggle loops forever exactly without a current layout and a valid entry.
  Whether its callers ever pass no layout is not shown: `cmd_layout` passes that of a parent container or
  of the workspace (`sway/commands/layout.c:164-176`).
- `IpcWrite.CapacityLimit`: the limit written as 4e6 bytes is in effect 2^21.
- `Bezier.CurveConfig.SetCurve`: y control points are not checked. `Bezier.NeverFallsIff` says for which
  the curve never falls and `Bezier.StaysIff` for which it stays in [0, 1]; then the eased value does
  (`Bezier.EaseMonotone`, `Bezier.EaseInUnit`). `Bezier.Overshoots` is an accepted curve that passes its end.
- `IncludeRuns.ReadOnceIff`: while only validating, a file with a failing command leaves the chain, so
  another include of it reads it again (`IncludeRuns.ReadsTwice`).

Handlers of configuration commands are any function of what happened before: the commands that were run
and where between them the current bar was unset and the handler context cleared. The context may be left
out of that, because each command that has a context while a file is read sets the part it uses itself
before its subcommands look at it (`sway/commands/input.c:60`, `sway/commands/output.c:80`,
`sway/commands/seat.c:64-69`); `NestedConfig.NestedMeansFlatIff` covers handlers that do not as well. A
file is read into a fresh configuration, in which there is neither a current bar nor a context.

## Model

| member | source | states |
|---|---|---|
| Lists.List.Resize | common/list.c:18-23 | A full buffer is doubled, otherwise nothing happens; the items stay, and afterwards there is room for one more. |
| Lists.List.Add | common/list.c:33-36 | The list is the old one followed by the item, whether or not the buffer had to grow. |
| Lists.List.Insert | common/list.c:38-43 | The item stands at the index, what was there and behind it comes after it. |
| Lists.List.Del | common/list.c:45-48 | Exactly the item at the index is gone. |
| Lists.List.Rotate | common/list.c:99-108 | The item at `to` moves down to `from`, those between move up by one, the rest of the buffer stays. |
| Lists.List.InplaceMerge | common/list.c:110-127 | The rotations turn two adjacent runs, the left one sorted, into their stable merge and leave the rest of the buffer alone. |
| Lists.List.InplaceSort | common/list.c:129-142 | The range is replaced by its merge sort, nothing else in the buffer changes. |
| Lists.List.StableSort | common/list.c:144-148 | In place, the list becomes the merge sort of what it was; see MergeSortStable. |
| StableSort.MergeSortStable | common/list.c:129-148 | Under every total preorder the result is a sorted permutation in which items that compare equal keep their order. |
| StableSort.StableSortUnique | common/list.c:144-148 | Sortedness and stability determine the result, so no other order satisfies the promise. |
| StableSort.MergeStable | common/list.c:110-127 | A merge lists equal items of the left run before those of the right one. |
| StableSort.MergeInOrder | common/list.c:110-116 | When the border of two runs is in order, merging is concatenation: the early return loses nothing. |
| Urgent.ChosenIsSortedEnd | sway/criteria.c:408-425 | With an urgent view present, oldest and latest each choose exactly one position: the first minimum and the last maximum in traversal order, which is the end of the sorted list the code reads. |
| Urgent.MatchesUrgent | sway/criteria.c:408-425 | A view matches exactly if it is the chosen one among the urgent views. |
| Urgent.CollectUrgent | sway/criteria.c:154-160 | The list holds the urgent views in traversal order. |
| Urgent.ComparesMoments | sway/criteria.c:137-152 | The comparison puts the earlier moment first, and calls two views equal exactly if they became urgent at the same moment. |
| Urgent.UrgentInOrder | sway/criteria.c:154-160 | The urgent views keep their order, and none is left out or added. |
| Urgent.ChosenMeans | sway/criteria.c:408-425 | In terms of moments: exactly the view is chosen than which no other is older, or as old and in front of it; or no other later, or as late and behind it. |
| IpcFrame.HeaderRoundTrip | sway/ipc-server.c:939-943 | Length and type are read back from any buffer that starts with a header made of them. |
| IpcFrame.HeaderFromFields | sway/ipc-server.c:238-254 | A header that has the magic is determined by its two fields. |
| IpcRead.HandleReadableDecodes | sway/ipc-server.c:201-265 | Every call of the readable handler keeps the client part-way through decoding the stream that arrived. |
| IpcRead.ChunkingIndependence | sway/ipc-server.c:201-265 | After any interleaving of arrivals and calls that has come to rest: unless the client was lost, the commands handled are those of the whole stream decoded at once; the client is connected iff it was not lost and no command border shows a bad magic; and only one partial command is held. |
| IpcRead.HandlerProgress | sway/ipc-server.c:201-265 | Every call that changes something takes bytes off the socket, so the handler comes to rest. |
| IpcRead.HandledIsPrefix | sway/ipc-server.c:201-265 | At any moment of any run, with or without an error or hang-up, the commands handled are a prefix of those in the stream. |
| IpcRead.ParseEncodeAll | sway/ipc-server.c:935-943 | Decoding a stream of encoded messages gives back exactly those messages. |
| IpcRead.ParseAppend | sway/ipc-server.c:201-265 | Decoding is incremental: what was decoded of a prefix stands when more bytes follow. |
| IpcRead.ParseIs | sway/ipc-server.c:201-265 | The stream is the encoding of the commands decoded; behind them there is the beginning of one more, or a whole header without the magic. |
| IpcWrite.Delivery | sway/ipc-server.c:524-561 | For every schedule of sends and full, partial, refused or failing writes: bytes on the wire followed by bytes queued are all accepted frames in order, a writable source exists iff something is queued, fewer than 2^21 bytes are queued; after a disconnect the wire holds a prefix. How much goes onto the wire: WritableTakes, Drained. |
| IpcWrite.WritableTakes | sway/ipc-server.c:537-560 | One call takes exactly the smaller of what the kernel takes and what is queued off the front of the queue onto the wire; only an error or hang-up ends the connection. |
| IpcWrite.Drained | sway/ipc-server.c:524-561 | After the last send the queue is empty exactly when the takes add up to what was queued then; then everything accepted is on the wire, before that as much more as the kernel took. |
| IpcWrite.ConnectedIff | sway/ipc-server.c:524-561 | Over every run: the client is connected exactly as long as no message was too much for its queue and no error or hang-up was reported. |
| IpcWrite.DecodedFromWire | sway/ipc-server.c:524-561 | What a reader can decode is always a prefix of the accepted messages, and all of them once the queue has drained. |
| IpcWrite.SendRefusedIff | sway/ipc-server.c:945-954 | A reply costs the client its connection exactly if it would not leave the queue below 2^21 bytes. |
| IpcWrite.CapacityLimit | sway/ipc-server.c:945-954 | The capacity is 128 times a power of two, so the limit of 4e6 amounts to 2^21. |
| IpcWrite.SendKeepsInv | sway/ipc-server.c:935-977 | Sending keeps the invariant of the queue. |
| IpcWrite.WritableKeepsInv | sway/ipc-server.c:524-561 | Writing keeps the invariant and accepts nothing new. |
| IpcWrite.RunAccepts | sway/ipc-server.c:935-977 | The accepted messages of a run are those sent while the client was connected and not dropped by that very send. |
| IpcClients.IpcClient.Enqueue | sway/ipc-server.c:935-977 | On the buffer itself: the reply is appended behind the used part after growing it, or the client has to be dropped, exactly as on values. |
| IpcClients.IpcClient.Flush | sway/ipc-server.c:524-561 | What the kernel took is shifted out of the buffer, the source goes with the last byte, exactly as on values. |
| IpcClients.IpcClient.Receive | sway/ipc-server.c:201-265 | The handler on the client's fields does what the model on values does; an error, a hang-up or a failed call asks for a disconnect and changes nothing. |
| IpcClients.IpcClient.HandleCommand | sway/ipc-server.c:612-635 | The payload is taken off the socket and the command handed over with it. |
| IpcServer.IpcServer.SendEvent | sway/ipc-server.c:277-293 | Walking the list while it shrinks offers the event exactly once to each client subscribed at the start and leaves the survivors in order. |
| IpcServer.IpcServer.SendReply | sway/ipc-server.c:935-977 | The client's queue takes the reply, or the client is deleted from the list. |
| IpcServer.IpcServer.Disconnect | sway/ipc-server.c:563-583 | Exactly the client's entry is deleted. |
| IpcServer.SurvivorsAre | sway/ipc-server.c:277-293 | After a broadcast exactly the clients that are not subscribed or have room are left, each served, none reordered. |
| IpcServer.ServedIff | sway/ipc-server.c:277-293 | A client stays exactly if it is not subscribed or the event fits below 2^21 bytes, and then only its queue has changed, by the encoded event. |
| IpcServer.EventIndexIs | include/ipc.h:4-4 | Event number n of the protocol has bit n of the subscription mask, for the first 128; from there on the bits repeat. |
| IpcReceive.RecvResponse | common/ipc-client.c:79-121 | Whatever sizes `recv` picks, the outcome depends on the stream alone: a response, an abort, or an endless loop on a socket closed inside a payload. |
| IpcReceive.TakeAllParses | common/ipc-client.c:79-121 | On well-formed streams receiving agrees with decoding; the program is stuck in the loop exactly if the stream ends inside a payload, and aborts if it ends inside a header or between frames. |
| IpcReceive.MagicIgnored | common/ipc-client.c:79-103 | The library does not look at the magic: whatever stands in its place makes no difference. |
| IpcReceive.EndToEnd | common/ipc-client.c:79-121 | A client library that receives what the server's queue ever wrote gets exactly the accepted messages once the queue has drained, and a prefix of them before. |
| IpcReceive.TakeAllEncoded | common/ipc-client.c:79-121 | A client that receives encoded messages gets exactly those, and then what the rest of the stream gives. |
| IpcReceive.StuckBehindHeader | common/ipc-client.c:104-116 | The streams on which it gets stuck: a header and less payload than it promises, behind any number of messages. |
| IpcReceive.SendCommand | common/ipc-client.c:128-140 | A short write passes for a whole one; what was sent is an encoded command exactly if both writes took everything. |
| IpcReceive.CutRequestWaits | common/ipc-client.c:138-140 | A request whose payload was cut short is not handled; the first bytes of the next request are taken for its end. |
| SessionLockSpec.StepKeepsInv | sway/lock.c:31-333 | Every event keeps the invariant: focus valid, listeners exactly those of the objects alive, surfaces and outputs distinct. |
| SessionLockSpec.AlwaysConsistent | sway/lock.c:31-319 | In every state of every run the listeners linked are exactly those of the objects alive, so none outlives its object; the focus is on an attached surface, or there is none and then no attached surface is mapped; and the background is red iff the lock is abandoned. |
| SessionLockSpec.LockedUntilUnlocked | sway/lock.c:214-319 | Once locked the session stays locked until the manager goes or a lock in force that was not abandoned is unlocked. |
| SessionLockSpec.AbandonedStays | sway/lock.c:242-275 | An abandoned lock stays in force until another client asks for a lock, which is granted, or the manager goes. |
| SessionLockSpec.StepOfLocked | sway/lock.c:214-307 | Only unlocking and the end of the manager lift a lock, only its own client abandons it, and only an abandoned lock gives way to another. |
| SessionLockSpec.RequestLockKeepsInv | sway/lock.c:258-307 | A request is refused while a lock that is not abandoned is in force and granted otherwise. |
| SessionLockSpec.RefocusOk | sway/lock.c:41-60 | When an output's surface goes, the focus moves to a mapped surface of another output if there is one. |
| SessionLockSpec.DestroyLockKeepsInv | sway/lock.c:194-212 | Destroying a lock leaves none of its listeners linked. |
| SessionLockRuns.CoveredOutputs | sway/lock.c:258-333 | In every run, from a request that was granted until the lock is lifted or replaced: the outputs covered are those of the request and those added since, less those destroyed, each as often as it should be. |
| SessionLockRuns.GrantedCovers | sway/lock.c:258-307 | A lock that is granted covers exactly the outputs there are; none of them has a surface, and nothing has the focus. |
| SessionLockRuns.AddOutputCovers | sway/lock.c:151-192 | An output that is added is covered, without a surface; the other lock outputs, focus and lock stay. |
| SessionLockRuns.StepOutputs | sway/lock.c:62-149 | What each event does to the lock outputs: which one gets, maps, unmaps or loses a surface, goes, or turns red; all others stay as they are. |
| SessionLockRuns.StepFocus | sway/lock.c:41-79 | The focus moves only when a surface is mapped while there is none, or when the surface that has it goes: then to the first mapped surface of another output, or nowhere if there is none. |
| SessionLockRuns.ManagedUntilDestroyed | sway/lock.c:309-319 | In every run locks can be asked for exactly until the manager goes. |
| SessionLockRuns.AnsweredInTurn | sway/lock.c:258-307 | In every run each request for a lock is answered once, in turn: refused exactly while a lock that is not abandoned is in force. |
| SessionLock.SessionLock.RefocusOutput | sway/lock.c:41-60 | On the object, the focus moves as on values. |
| SessionLock.LockServer.OutputDestroyed | sway/lock.c:132-149 | The lock output leaves the list with its surface and its listeners, each unlinked exactly once. |
| SessionLock.LockServer.DestroyCurrentLock | sway/lock.c:194-212 | All lock outputs and the lock's own listeners go, each listener unlinked exactly once. |
| SessionLock.LockServer.AddOutput | sway/lock.c:321-333 | A new lock output with its destroy listener goes to the front of the list. |
| SessionLock.LockServer.HandleSessionLock | sway/lock.c:258-307 | The handler performs the step of the specification, including replacing an abandoned lock. |
| SessionLock.LockServer.HandleNewSurface | sway/lock.c:103-130 | The handler attaches the surface and links its two listeners. |
| SessionLock.LockServer.HandleSurfaceMap | sway/lock.c:62-68 | Mapping focuses the surface if none is focused. |
| SessionLock.LockServer.HandleSurfaceDestroy | sway/lock.c:70-79 | The surface is detached, its listeners unlinked, the focus moved if it was there. |
| SessionLock.LockServer.HandleUnlock | sway/lock.c:214-240 | The handler destroys the lock. |
| SessionLock.LockServer.HandleAbandon | sway/lock.c:242-256 | The lock stays in force, marked abandoned, with red backgrounds and its listeners unlinked. |
| SessionLock.LockServer.HandleManagerDestroy | sway/lock.c:309-319 | The lock, if any, and the manager's listeners go. |
| SessionLock.LockServer.HandleNewOutput | sway/lock.c:321-333 | An output that appears during a lock is covered. |
| Tokens.SplitArgs | common/stringop.c:92-143 | The loop over flags and pointers returns the tokens of the line, with room left for the final NULL. |
| Tokens.Push | common/stringop.c:118-133 | Storing a token keeps those before it, and growing keeps the slot for the final NULL. |
| Tokens.JoinArgs | common/stringop.c:236-253 | The buffer holds the arguments with single spaces between them and the terminator, filled exactly. |
| Tokens.SplitJoin | common/stringop.c:92-143 | Splitting the join of well-formed tokens gives them back. |
| Tokens.SplitIsNormal | common/stringop.c:92-143 | The tokens of any line are well formed: no unprotected whitespace, closed unless last. |
| Tokens.NormalFormIff | common/stringop.c:236-253 | Exactly the well-formed token lists survive joining and splitting. |
| Tokens.ResplitStable | common/stringop.c:92-143 | Splitting, joining and splitting again changes nothing. |
| TokenForms.Marked | common/stringop.c:92-143 | Text between quotes or brackets is one word, whatever whitespace is in it. |
| TokenForms.Unclosed | common/stringop.c:92-143 | Without the closing mark the rest of the line belongs to the word. |
| TokenForms.EscapedSpace | common/stringop.c:92-143 | Whitespace behind a backslash does not end a word. |
| TokenForms.QuotedInBrackets | common/stringop.c:92-143 | Quoted text inside brackets keeps a closing bracket from ending them. |
| TokenForms.WordEnds | common/stringop.c:92-143 | Whitespace behind a well-formed word ends it. |
| Unquote.StripQuotes | common/stringop.c:26-50 | In place, the string loses its quotes and keeps its backslashes. |
| Unquote.StripPair | common/stringop.c:26-50 | A pair of quotes goes, and all between them stays, quotes of the other kind as well. |
| Unquote.StripKeeps | common/stringop.c:26-50 | A character behind a backslash stays, and so do the backslash and all characters that are no quotes. |
| Unquote.UnescapeString | common/stringop.c:152-234 | In place, both phases compute the unescaped string and its length, or the index of a `\0` escape; for strings without a trailing lone backslash. |
| Unquote.ApplyEscape | common/stringop.c:160-221 | One escape becomes its character followed by NULs over the cells it took. |
| Unquote.Squeeze | common/stringop.c:223-233 | The second phase removes exactly the NULs. |
| Unquote.UnescapedSimple | common/stringop.c:152-234 | On text whose escapes are the single-character ones, unescaping is plain decoding and reads no cell behind the string. |
| Unquote.SimpleIs | common/stringop.c:152-234 | The single-character escapes: letters for the seven control characters from 7 on in their order, four characters that stand for themselves, no others. |
| Unquote.HexStops | common/stringop.c:203-220 | A `\x` escape of two digits is read as if they were hexadecimal, and the rest of the string is not unescaped. |
| Unquote.HexDigitStops | common/stringop.c:203-220 | A `\x` escape of one digit does the same with that. |
| Unquote.HexVanishes | common/stringop.c:203-220 | A `\x` without digits disappears, and unescaping goes on behind it. |
| Unquote.ZeroEnds | common/stringop.c:159-161 | A `\0` escape ends the string. |
| Unquote.UnknownStays | common/stringop.c:152-234 | Escapes that mean nothing stay. |
| WorkspaceCommand.BuildCommand | swaybar/ipc.c:21-41 | The computed size is filled exactly: the name with its escapes ends right in front of the closing quote, which is never touched. |
| WorkspaceCommand.Measure | swaybar/ipc.c:22-27 | The count is the length of head, escaped name and closing quote. |
| WorkspaceCommand.CommandSplits | swaybar/ipc.c:21-41 | For every name the command splits into exactly two words. |
| WorkspaceCommand.QuotingInvertible | swaybar/ipc.c:21-41 | For every NUL-free name, stripping the quotes of the second word and unescaping it gives the name back. |
| WorkspaceCommand.StrippingAloneIff | common/stringop.c:26-50 | Stripping the quotes, without unescaping, gives the name back exactly if it has neither double quotes nor backslashes. |
| ExecuteCommand.PrepareArguments | sway/commands.c:318-341 | Splitting, stripping and substituting argument by argument give the handler its arguments, all but the command and the name in a `set` substituted. |
| ExecuteCommand.QuotedArgument | sway/commands.c:318-341 | An argument in quotes arrives without them and with all between them, unless the command is one of the three that keep them. |
| ExecuteCommand.ValueArrives | sway/commands.c:338-341 | The value of a variable arrives as it is, in one argument, with quotes and spaces. |
| ExecuteCommand.SetNameArrives | sway/commands.c:338-341 | The name in a `set` arrives unsubstituted, whatever is defined. |
| IpcLines.JoinLines | sway/ipc-server.c:640-648 | In its buffer, a command ends up with every newline that ends a line replaced by a semicolon; newlines at the beginning and behind newlines stay. |
| IpcLines.CommandDispatched | sway/ipc-server.c:640-648 | Of the bar's command that makes the command for the name with its own newlines so replaced: escaping and joining lines can be exchanged. |
| ExecuteCommand.NameArrivesIff | sway/commands.c:261-390 | From the bar through the server to the handler: the name arrives as the one argument of one command, whatever variables are defined, exactly if it has no double quote, backslash, dollar sign or newline. |
| ExecuteCommand.NewlineLost | sway/ipc-server.c:640-648 | A name of two lines arrives as one line, with a semicolon between its parts. |
| ExecuteCommand.DoubledDollarLost | sway/commands.c:338-341 | Names that stripping alone would give back and that arrive changed: `a$$b` arrives as `a$b`. |
| CommandList.ArgSep | common/stringop.c:255-312 | The loop over the next interesting character, with its escape flag that only an ordinary character or a backslash ends, cuts off the first command of a list. |
| CommandList.CommandWholeIff | common/stringop.c:267-312 | What the server makes of the bar's command is taken as one command exactly if every separator in the name, and every newline that becomes one, comes where the flags are not clear. |
| CommandList.QuoteFree | common/stringop.c:267-312 | Names without double quotes satisfy that. |
| CommandList.AdjacentQuotesCut | common/stringop.c:275-277 | Names that do not: behind two double quotes next to each other the string counts as closed, so the command is cut at a separator or newline. |
| CommandCuts.CutsBare | common/stringop.c:255-312 | A separator cuts behind a command without quotes and backslashes; the command in front of it and the rest are exact. |
| CommandCuts.SkipsSeparators | common/stringop.c:255-312 | Separators in front of a command are skipped. |
| CommandCuts.QuotesProtect | common/stringop.c:255-312 | Separators between quotes of either kind do not cut; the one behind them does. |
| CommandCuts.EscapesRun | common/stringop.c:267-312 | Behind a backslash no separator cuts, however many there are, until an ordinary character comes. |
| Variables.DoVarReplacement | sway/config.c:978-1028 | Rewriting in place refines one left-to-right pass that never reads substituted text again but for the look-back, and ends. |
| Variables.AtDollar | sway/config.c:986-1024 | One round does what the pass does at a dollar sign, and what is not scanned yet gets shorter. |
| Variables.MatchIsLongestDefined | sway/config.c:1003-1016 | At an unescaped dollar sign the entry used is the unique longest defined name there, with the value set last. |
| Variables.ExpandDependsOnMap | sway/config.c:978-1028 | However names of equal length are ordered in the table, the result is the same. |
| Variables.InsertedVerbatim | sway/config.c:1003-1016 | A value that is not empty and does not end in a backslash is inserted as it is and never scanned. |
| Variables.UndefinedKept | sway/config.c:978-1028 | A dollar sign at which nothing defined starts stays. |
| Variables.EscapedKept | sway/config.c:986-991 | Behind a backslash a dollar sign stays, and so does the backslash; what stands behind them is read as fresh text. |
| Variables.TwoBackslashes | sway/config.c:986-991 | Behind two backslashes the variable is substituted, and they stay. |
| Variables.SeesOriginalIff | sway/config.c:986-991 | For every text the look-back sees the backslashes of the original text, exactly if every value that can be inserted is harmless: not empty, not a lone backslash, and ending in as many backslashes as its name. |
| Variables.HarmlessMeansBySource | sway/config.c:978-1028 | With such values substitution is what it is with a look-back on the original text. |
| Variables.SameResultIff | sway/config.c:978-1028 | For names without backslashes and further dollar signs the results are the same, for every text, exactly if no value is empty or ends in a backslash. |
| Variables.HarmlessIff | sway/config.c:986-991 | For a name that does not end in a backslash, a value is harmless exactly if it is not empty and does not end in one. |
| Variables.SecondUseLost | sway/config.c:986-991 | A table and a text where it differs: with a backslash as its value, the second of two uses of `$a` is taken for escaped. |
| Variables.LookBackIff | sway/config.c:986-991 | Text emitted so far can affect the substitution of what follows exactly if it ends in a backslash. |
| Variables.BackslashSeen | sway/config.c:986-991 | What it then affects: a backslash followed by two dollar signs. |
| Variables.ExpandBehind | sway/config.c:978-1028 | Text emitted before does not change what becomes of the rest unless it ends in a backslash. |
| Variables.Config.Set | sway/commands/set.c:26-59 | Names without a dollar sign are refused and change nothing; otherwise the value is replaced, or the variable is added and the table sorted. |
| Variables.RunDefines | sway/commands/set.c:10-59 | In every run of `set` the table has distinct names, longest first, and holds exactly the values set last. |
| Variables.SetStepUpdatesMap | sway/commands/set.c:36-57 | One `set` is an update of a finite map, whatever order the unstable sort leaves. |
| Variables.SetStepKeepsTable | sway/commands/set.c:36-57 | One `set` keeps the order of the table and changes one entry. |
| ConfigCommand.PrepareArguments | sway/commands.c:447-479 | Substitution, splitting again, stripping and unescaping word by word give the handler its arguments. |
| ConfigCommand.SetKeepsName | sway/commands.c:447-457 | The name in a `set` arrives as written even if a prefix of it is defined; only what follows is substituted. |
| ConfigCommand.SetAloneKeepsName | sway/commands.c:447-457 | So does the name in a `set` without a value. |
| ConfigCommand.SetDelivers | sway/commands.c:447-479 | The handler of `set` gets command and name as they are and what follows unescaped, with its quotes. |
| ConfigCommand.QuotesDelivered | sway/commands.c:459-479 | Other handlers get a quoted word with its quotes if they keep them, else what is between them; unescaped either way. |
| ConfigCommand.ValueSplits | sway/commands.c:447-457 | Variables are substituted before the line is split again: a value of several words gives several arguments. |
| ConfigQuoting.QuotedArgumentsArrive | sway/commands.c:394-479 | Any arguments without NULs can be written on one line, in quotes, with dollar signs doubled and newlines as escapes, so that an ordinary handler gets exactly them, whatever is defined. |
| ConfigQuoting.LineIsRead | sway/config.c:852-957 | A file with that line in it hands the words of the line to the handler. |
| ConfigReader.ReadConfig | sway/config.c:852-957 | The loop over the file with its block stack computes the command log, the places where the current bar was unset and the handler context cleared, the deferred lines and the verdict of the reader on values. |
| ConfigReader.File.GetLine | sway/config.c:754-782 | The next logical line, which is what ContinuedLine and SingleLine say. |
| ConfigLines.ContinuedLine | sway/config.c:754-782 | Any number of lines that end in a backslash, and the one behind them, make one line without the backslashes, unless it starts like a comment. |
| ConfigLines.SingleLine | sway/config.c:754-782 | Comments, and lines that do not end in a backslash, go on on no other line. |
| ConfigLines.TrimIs | common/stringop.c:15-24 | Stripping takes whitespace off both ends, all of it and nothing else. |
| ConfigLines.BraceLineAlone | sway/config.c:875-882 | Behind a line that ends in a brace no brace is looked for. |
| ConfigLines.CommandsStayOpen | sway/config.c:883-896 | A `<commands>` block can never be closed: every line in it is refused, the closing brace as well. |
| ConfigReader.File.SkipBrace | sway/config.c:784-805 | The position moves behind an opening brace on a line of its own, or not at all. |
| ConfigReader.HandleLine | sway/config.c:894-944 | A line runs a command, opens or closes a block with what that does to current bar and handler context, or is refused; which lines that puts off is said by DeferredInOrder. |
| ConfigItems.ItemsRead | sway/config.c:852-957 | Any list of commands, comments, opening and closing lines, in either brace layout, nested or not, does what its items should do, in order, in front of any further lines. |
| ConfigItems.SuccessIff | sway/config.c:852-957 | A file loads exactly if no command failed and no part of it from the top has more closing than opening lines; the blocks left on the stack are the openings less the closings. |
| ConfigDeferred.DeferredInOrder | sway/config.c:912-915 | Of every list of well-formed items the deferred lines are exactly, in order, the lines of those commands whose handlers, asked with all that happened before, put them off. |
| ConfigItems.UnclosedUnnoticed | sway/config.c:852-957 | Cutting closing lines off the end of a file in which none is too many never changes the verdict. |
| NestedConfig.NestedMeansCommands | sway/config.c:852-957 | A well-formed nested file, in either brace layout, is read as its leaves in file order, each behind all its headers. |
| NestedConfig.NestedDoes | sway/config.c:852-957 | It does exactly that and, at the borders of blocks, what is done to current bar and handler context; the stack is empty again. |
| NestedConfig.NestedMeansFlatIff | sway/config.c:894-944 | It has the commands, deferred lines and verdict of its flat form, for all handlers, exactly if no border that they can see has a command in front of it and one behind: the begin or end of a `bar` block or, for handlers that look at the context others left, the end of any block. |
| NestedConfig.UndisturbedIff | sway/config.c:894-944 | That condition by recursion over the tree's steps and by positions is the same. |
| NestedConfig.NestedMeansFlat | sway/config.c:807-818 | In particular a file without `bar` blocks has the outcome of its flat form, for all handlers that set up the context they use. |
| BarSight.BarsMeanFlatIff | sway/config.c:894-944 | For all handlers of which only those of `bar` look at the current bar, and to which unsetting it means nothing before a `bar` command: nested file and flat form agree exactly if no begin or end of a `bar` block lies between two `bar` commands. |
| BarSight.OneBlockMeansFlat | sway/config.c:894-944 | In particular if the file has one block, `bar` or not, among nodes without `bar` commands. |
| BarBlocks.TwoBars | sway/config.c:924-938 | A file that differs from its flat form: two `bar` blocks with the same id fail to load, the flat form loads. |
| NestedConfig.UnmatchedBraceFails | sway/config.c:924-932 | An unmatched closing brace makes the load report failure, whatever follows. |
| NestedConfig.UnclosedBlockUnnoticed | sway/config.c:852-957 | The smallest file with a block left open: one opening line loads, with the block still on the stack. |
| Includes.Loader.LoadMain | sway/config.c:534-596 | Unless only validating, exactly the files reachable through includes are read, each once, on every include graph. In any case what is read, in which order, is what the run on values says. |
| IncludeRuns.ReadOnceIff | sway/config.c:643-682 | While only validating, no file is read twice exactly if reading the same configuration for real meets no file again that was read to the end and in which commands failed. Whether a command fails may depend on all commands before it. |
| IncludeRuns.ReadOnce | sway/config.c:643-682 | In particular if no command fails in any reachable file but the main one. |
| IncludeRuns.ReadsTwice | sway/config.c:668-681 | Configurations where one is: a main file that includes `a` twice, with a command in `a` that fails the first time, reads main, `a`, `a`. |
| IncludeRuns.LinesAppend | sway/config.c:852-957 | A file is read line by line: what is behind is read as the part in front of it left things, and the verdict is that of both. |
| IncludeRuns.CommandsRun | sway/config.c:894-915 | Commands are run in the order of the file; the file is good exactly if all of them succeed. |
| IncludeRuns.IncludedInPlace | sway/config.c:643-682 | The commands of an included file that was not read yet run in the place of the `include`. |
| Includes.Loader.LoadConfig | sway/config.c:503-532 | A file fails to load only if it cannot be read, or in a pure validation if one of its own commands fails; its lines are read as on values. |
| Includes.Loader.LoadInclude | sway/config.c:643-682 | A file already on the chain is not loaded again; the chain keeps what was on it and has no duplicates, and the path of the including file is restored. |
| Includes.Loader.LoadNew | sway/config.c:668-681 | A file that does not load is taken off the chain again, others stay; what is read meanwhile is as on values. |
| Includes.Loader.TakeOff | sway/config.c:672-676 | The index remembered before loading still points to the file's own entry, whatever was added meanwhile. |
| Includes.Loader.LoadIncludes | sway/config.c:684-712 | All files a line names are on the chain afterwards, unless only validating. |
| Includes.Loader.ReadConfig | sway/config.c:820-957 | An include never makes its file fail, and recursion ends because fewer files are left outside the chain. |
| IncludeGraph.CompleteIsReachable | sway/config.c:643-682 | When nothing is being read any more, the files read are those that can be reached. |
| IncludeGraph.Removed | sway/config.c:672-676 | Deleting at the remembered index removes the file itself and keeps the chain in order. |
| Bezier.CurveMonotoneLipschitz | sway/animation_manager.c:34-38 | With control points in [0, 1] the curve does not fall and rises at most three times as fast as its parameter. |
| Bezier.CurveIsCasteljau | sway/animation_manager.c:34-38 | The polynomial is the Bezier curve of the control points 0, c1, c2 and 1: cutting their polygon three times in the ratio of the parameter leads to it. |
| Bezier.BisectBrackets | sway/animation_manager.c:47-59 | Every halving keeps x(low) < progress <= x(high) and cuts the interval in two. |
| Bezier.EasingAccuracy | sway/animation_manager.c:40-63 | The time found hits the progress within 3/2^33. |
| Bezier.EaseOnCurve | sway/animation_manager.c:40-63 | The eased value is 0 before the start, 1 after the end, and between them the height of the curve at a place in [0, 1] where its x coordinate is the progress, within 3/2^33. |
| Bezier.EaseIdentity | sway/animation_manager.c:40-63 | A curve whose two coordinates are the same leaves the progress as it is, within 3/2^33. |
| Bezier.WindowBezierEase | sway/animation_manager.c:40-63 | The 32 halvings compute the eased value that EaseOnCurve speaks of. |
| Bezier.NeverFallsIff | sway/animation_manager.c:34-38 | For all control points: the curve never falls on [0, 1] exactly if c1 >= 0, c2 <= 1 and, where c1 > c2, (c2 - c1)^2 <= c1 (1 - c2). |
| Bernstein.NotNegativeIff | sway/animation_manager.c:34-38 | A quadratic polynomial with Bernstein coefficients p0, p1, p2 is not negative on [0, 1] exactly if p0 >= 0, p2 >= 0 and, where p1 < 0, p1^2 <= p0 p2: applied to how steep the curve is, and to how far it is from its start. |
| Bezier.StaysIff | sway/animation_manager.c:34-38 | For all control points: the curve stays in [0, 1] exactly if c1 >= 0 and, where c2 < 0, 3 c2^2 <= 4 c1, and the same holds of 1 - c2 and 1 - c1. |
| Bezier.EaseMonotone | sway/animation_manager.c:40-63 | For every accepted curve whose y coordinate never falls the eased value never falls and stays in [0, 1]. |
| Bezier.EaseInUnit | sway/animation_manager.c:40-63 | For every accepted curve whose y coordinate stays in [0, 1] so does the eased value. |
| Bezier.UnitEaseMonotone | sway/animation_manager.c:40-63 | In particular, with all control points in [0, 1] the eased value never falls and stays in [0, 1]. |
| Bezier.UnitNeverFalls | sway/animation_manager.c:34-38 | The curve of control points in [0, 1] never falls. |
| Bezier.Overshoots | sway/animation_manager.c:40-63 | There are accepted curves whose eased value exceeds 1 on the way. |
| Bezier.HalfWay | sway/animation_manager.c:34-38 | One of them, with control points (0, 1) and (1, 3): wherever it is half-way, within a hundredth, it is beyond its end. |
| Bezier.BisectMonotone | sway/animation_manager.c:47-59 | Searches for two progresses stay together until they part, the larger to the right; for any curve. |
| Bezier.CurveConfig.SetCurve | sway/commands/window_open_curve.c:7-17 | A curve is accepted exactly if its x control points lie in [0, 1]; y is not checked. |
| AnimationTicks.LeavesExactlyAt | sway/animation_manager.c:93-116 | An animation is on the list for exactly ceil(delay / step) + ceil(1 / step) ticks. |
| AnimationTicks.ProgressMonotone | sway/animation_manager.c:93-116 | Progress never falls, never exceeds 1, and is 0 while delayed. |
| AnimationTicks.ShowsEase | sway/animation_manager.c:93-116 | At every tick the animation is shown at the eased value of its progress. |
| AnimationTicks.KindDurationIs | sway/animation_manager.c:173-206 | Animations last as long as the setting for their kind says; where it is not set at the speed of the base duration, closing ones in four fifths of it; without a base duration there are none. |
| AnimationTicks.WithoutBase | sway/animation_manager.c:95-115 | An animation that is on the list although there is no base duration is over with the first tick behind its delay; a scale that is not positive counts as 1. |
| AnimationTicks.StartedLasts | sway/tree/view.c:975-995 | From the settings to the last tick: a started animation is on the list for ceil(delay / tick) + ceil(duration / tick) ticks, and one of a kind without duration is never on it. |
| AnimationTicks.MovingTicksIff | sway/animation_manager.c:173-206 | The scale of a kind makes the moving phase last ceil(kind duration / tick) ticks exactly if the kind has a positive duration; otherwise it is that of the base duration, under which no animation is started. |
| AnimationTicks.KindLasts | sway/animation_manager.c:160-206 | An animation without delay is on the list for ceil(kind duration / tick) ticks. |
| Animation.Animation.Advance | sway/animation_manager.c:95-115 | One round of the timer on an animation's fields. |
| Animation.AnimationManager.Timer | sway/animation_manager.c:93-116 | Every animation on the list is moved by exactly one tick; those finished leave, the others keep their order; membership stays equivalent to `initialized`. |
| Animation.AnimationManager.Add | sway/animation_manager.c:127-137 | The animation restarts at the front of the list and is on it once, wherever it was before; the others keep their order. |
| Animation.AnimationManager.Start | sway/desktop/transaction.c:1571-1609 | An animation of a kind is started with that kind's scale and its delay as a fraction of the kind's duration, or nothing happens because the kind has none; so all on the list are of kinds with a duration. |
| Animation.AnimationManager.TimerKeepsKinds | sway/animation_manager.c:93-116 | The timer keeps that. |
| Animation.AnimationManager.Unlink | sway/animation_manager.c:129-131 | Exactly the animation's entry is removed. |
| Bindings.Binding.Conflicts | sway/commands/bind.c:64-105 | Comparing field by field and key by key says yes exactly if input, type, conflicting flags, group, modifiers and the multiset of keys agree. |
| KeyTranslation.SortedKeysEqual | sway/commands/bind.c:94-102 | Sorted keys are equal one by one iff they are the same keys: why the comparison may rely on the order. |
| Bindings.Upsert | sway/commands/bind.c:266-278 | The list's contents become those after an insertion or update, and the binding replaced is the one that was displaced. |
| Bindings.Mode.Bind | sway/commands/bind.c:280-302 | On the list for its type the binding is inserted or takes the place of the one for the same combination, which is freed; no other list changes. |
| Bindings.Mode.Unbind | sway/commands/bind.c:304-321 | The binding for the same combination leaves its list and is freed with the one given; it is reported missing exactly if there is none. |
| BindingTable.PutIsUpdate | sway/commands/bind.c:266-278 | Inserting keeps combinations distinct and is an update of a finite map. |
| BindingTable.DropIsRemoval | sway/commands/bind.c:304-321 | Removing keeps combinations distinct and takes exactly that combination out of the map. |
| BindingTable.ConflictingIs | sway/commands/bind.c:64-72 | Flags agree exactly if they differ in nothing but translation and repetition. |
| Bindings.Binding.Prepare | sway/commands/bind.c:466-473 | The keys are sorted and translated where asked for, which establishes that keysyms are recorded exactly for translated bindings. |
| Bindings.Binding.Translate | sway/commands/bind.c:696-747 | With every keysym on exactly one key the binding holds the sorted keycodes and remembers the keysyms; otherwise it goes back to the keysyms. |
| Bindings.KeycodeForKeysym | sway/commands/bind.c:660-694 | The count is the number of keys giving the keysym and the code is that of the last of them. |
| KeyTranslation.HasOneCodeIff | sway/commands/bind.c:660-694 | A keysym translates exactly if one key of the keymap gives it, and then to that key's code. |
| KeyTranslation.TranslatedMeans | sway/commands/bind.c:696-747 | A binding whose keysyms each stand on exactly one key ends up with the sorted codes of those keys and remembers the keysyms. |
| KeyTranslation.NotTranslated | sway/commands/bind.c:696-747 | If a keysym stands on no key or on several, the binding goes by its keysyms. |
| KeyTranslation.LeftAlone | sway/commands/bind.c:696-706 | Bindings that ask for no translation, and those for mouse buttons, stay as they are. |
| KeyTranslation.TranslatedOk | sway/commands/bind.c:696-747 | Translation keeps keys sorted, never loses the keysyms a binding was written with, and never crosses between keyboard and mouse. |
| KeyTranslation.RetranslationForgets | sway/commands/bind.c:696-747 | What a keymap makes of a binding does not depend on the keymaps before it. |
| Bindings.TranslateList | sway/config.c:1049-1069 | Every binding is translated once and put on the new list for its kind. |
| Bindings.Mode.TranslateKeysyms | sway/config.c:1083-1097 | Both keyboard lists are replaced by lists with distinct combinations and the right kinds; mouse bindings are untouched; every old binding is on one new list or freed, never both. |
| BindingTable.DistributeConsistent | sway/config.c:1049-1069 | Putting one more binding on its new list keeps everything accounted for, and what is freed was not freed before. |
| BindingTable.FreedIff | sway/commands/bind.c:749-760 | After re-translation exactly those bindings are freed that a later binding for the same combination replaced. |
| BindingTable.GatheredAreLast | sway/commands/bind.c:749-760 | Of all bindings for one combination the last one wins, and no combination is on a list twice. |
| Resize.FindResizeParent | sway/commands/resize.c:45-88 | The loop over the ancestors finds what the search from the inside out finds. |
| Resize.ResizeParentIs | sway/commands/resize.c:45-88 | That is the innermost container that can be resized along the axis, the column where the workspace scrolls, or nothing because there is none. |
| Resize.FoundMeans | sway/commands/resize.c:45-88 | The container found stands among others in a row for sideways resizes and in a column for others, next to one that can pay; a column is resized exactly sideways on a scrolling workspace. |
| Resize.SidewaysOutcome | sway/commands/resize.c:127-224 | Sideways a resize sets the width fractions of all siblings, by their widths, gains and total width, leaves what changes at least 100 pixels wide, and is not refused if that leaves half a pixel more. |
| Resize.UpDownOutcome | sway/commands/resize.c:127-224 | Up and down the same holds of heights and 60 pixels. |
| Resize.FramedMeans | sway/commands/resize.c:176-224 | No resize changes a fraction across its direction. |
| Resize.ResizeTiled | sway/commands/resize.c:90-231 | The container the search finds and its siblings are resized as Outcome says, or the column gets its clamped width. Each sibling's new fraction stands for its size changed by Gain. No other container changes, no fraction across the axis does, and none at all if the resize is refused or nothing was found. All index accesses are in range. Of the tree nothing is asked but that the siblings of the container found share their total. |
| Resize.ResizeSiblings | sway/commands/resize.c:127-224 | For all six axes: refused exactly if a changed container would become too small or the total is not positive; otherwise every sibling's fraction stands for its size changed by Gain, and the fractions across the axis are untouched. |
| Resize.ResizeColumn | sway/commands/resize.c:106-120 | The fraction stands for the new width, clamped between minimum and workspace width. |
| Resize.ResizeFound | sway/commands/resize.c:106-224 | A resize that is refused changes neither the container nor its siblings. |
| Resize.Workspace.AddTiling | sway/tree/workspace.c:923-946 | Adding a container keeps the tree in order: each container once on the list of its parent or of the workspace. |
| TiledResize.GainOf | sway/commands/resize.c:132-192 | For every axis and place: the container grows by the amount; the neighbour at the moved edge pays, or both neighbours half each, or the only one all; the other siblings stay. |
| TiledResize.FitsIff | sway/commands/resize.c:66-88 | A container can be resized along an axis exactly if there is a neighbour to pay for it. |
| TiledResize.AllowedMeans | sway/commands/resize.c:159-175 | A resize that is allowed leaves what changes at least the minimum, one that leaves half a pixel more is allowed, and for whole pixels it is allowed exactly if it leaves the minimum. |
| TiledResize.SpaceConserved | sway/commands/resize.c:159-192 | The siblings give up exactly what the container gains. |
| TiledResize.FractionsConserved | sway/commands/resize.c:176-192 | The fractions of all siblings add up to the sum of the sizes over the total. |
| TiledResize.MinimumKept | sway/commands/resize.c:159-192 | Although the guards round half amounts up, all changed containers stay at or above the minimum, and all others keep their size. |
| TiledResize.ResizeBack | sway/commands/resize.c:159-192 | Resizing back by the same amount restores all sizes. |
| TiledResize.LeftIsRightOfPrevious | sway/commands/resize.c:144-150 | Moving a left or top edge is moving the right or bottom edge of the previous sibling the other way. |
| GestureText.Parse | common/gesture.c:14-90 | The parser accepts a text, with what result, or refuses it, as the grammar says. |
| GestureText.ParsedIff | common/gesture.c:14-90 | A text is read as a gesture exactly if its parts spell it: a type, then a finger count and directions, one of the two, or neither. |
| GestureText.DirectionsOfIs | common/gesture.c:52-88 | Words stand for directions exactly if each is the name of one or `any`, and then for those named. |
| GestureText.ToString | common/gesture.c:162-169 | The printed text splits into type, finger count and directions, and the parser makes of it the gesture itself if it has a type, one to nine fingers and only known directions, and nothing otherwise. |
| GestureText.PrintDirections | common/gesture.c:133-160 | The names of the set bits from low to high with plus signs between them, or `any`. |
| GestureText.RoundTripIff | common/gesture.c:14-90 | A printed gesture is read back as itself exactly if it has a type, one to nine fingers and only known directions; every other printed gesture is refused. |
| SplitString.SplitJoined | common/stringop.c:79-90 | Splitting at a delimiter undoes joining with it. |
| SplitString.SplitAppend | common/stringop.c:79-90 | A delimiter separates: what is in front of it and what is behind it are split independently. |
| GestureMatch.Compare | common/gesture.c:207-223 | The comparison is the difference of the numbers of directions. |
| GestureMatch.MatchIff | common/gesture.c:171-198 | A target matches gestures of its type, with its number of fingers if it has one, that have all its directions or, where asked for, exactly these. |
| GestureMatch.SmallerMatches | common/gesture.c:185-223 | A target with strictly fewer directions compares strictly negative and matches whatever the larger one matches, if types and fingers agree. |
| GestureMatch.FullMatch | common/gesture.c:185-198 | A matching target has as many directions as the gesture exactly if it is an exact match. |
| GestureMatch.FindBinding | sway/input/seatop_default.c:1083-1134 | The binding found is the first perfect one; if there is none, the one before which all others stand back, those for the device first, then exact ones, then those with more directions, then the later ones; none that applies is better. |
| LayoutToggle.Search | sway/commands/layout.c:74-97 | For two or more names: the first valid entry in cyclic order after the current one, or none if no entry visited is valid. |
| LayoutToggle.NeverEnds | sway/commands/layout.c:83-96 | Without a current layout and without a valid entry the loop never ends: its index steps past the one it waits for in every round. |
| LayoutToggle.NextInCircle | sway/commands/layout.c:74-97 | A list of valid names is walked through in a circle. |
| LayoutToggle.GetLayoutToggle | sway/commands/layout.c:50-98 | All three forms of the command. |
| LayoutToggle.AllInTurn | sway/commands/layout.c:55-66 | Toggling through all layouts comes back to each after all the others; from no layout it starts with the first. |
| LayoutToggle.ParseLayoutIff | sway/commands/layout.c:10-25 | A text stands for a layout exactly if it is one of its names, in upper or lower case. |
| LayoutToggle.ToggleSplitIs | sway/commands/layout.c:32-48 | Between the two split layouts toggling goes back and forth; from others it goes to the split used before, the default one, or along the longer side of the output. |

## Left out

- IpcServer.IpcServer.SendEvent: the list holds clients as values, so that two entries for one object are not
  captured, and deleting during a broadcast is not shown for the client objects with their buffers
  (`IpcClients.IpcClient`), on which sending does what it does on values.
- IpcLines.JoinLines: commands that contain a NUL, at which `strtok` stops, are excluded.
- IpcClients.IpcClient.HandleCommand: what the commands do, among it replies that overflow the queue of
  the very client being handled, is not modelled.
- IpcRead.ChunkingIndependence: the number of waiting bytes is unbounded, while the code keeps it in an `int`.
- SessionLock.LockServer.HandleNewSurface: finding the lock output of a surface is left to the caller, who
  gives its number; drawing, configuring and sending focus to seats are not part of this model.
- Unquote.UnescapeString: strings that end in an unpaired backslash are excluded, since the code reads
  behind them.
- ConfigCommand.PrepareArguments: a command whose first word is itself a variable, and the table of
  handlers, are not modelled; words that end in an unpaired backslash are excluded.
- ConfigReader.ReadConfig: lines end in a newline; line numbers, error texts and the copy of the file for
  later display are left out.
- ConfigItems.SuccessIff: a block named `<commands>` at top level, which accepts no commands, counts as not
  well formed.
- ExecuteCommand.PrepareArguments: criteria in front of a command and the table of handlers are left out;
  whether the handler is that of `set` is a parameter.
- Includes.Loader.LoadIncludes: word expansion, `chdir` and `realpath` are one function of the including
  file and the word.
- Variables.SameResultIff: names with backslashes or further dollar signs are covered by SeesOriginalIff, which is
  about the state of the look-back, and HarmlessMeansBySource alone.
- Bezier.EaseMonotone: no converse for the eased value, which only depends on the curve at the points of
  a grid; the conditions are exact for the curve.
- Bezier.EasingAccuracy: rounding to `float` is not modelled, here and in all animation arithmetic.
- Animation.AnimationManager.Start: scrolling and switching workspaces start animations with scales of
  their own, which are not part of this model.
- Animation.AnimationManager.Timer: rearming the timer and the update callback are left out.
- Bindings.Mode.Bind: parsing of the command's options and key names is left out; a binding arrives as
  parsed. Masks of flags and modifiers are sets and numbers.
- Bindings.Mode.TranslateKeysyms: one mode; the loop over all modes does the same to each.
- Resize.ResizeTiled: the siblings of the container found share their total, as they do once they were
  arranged along the axis; arranging
  afterwards, hidden scratchpad containers and floating containers (`resize_adjust_floating`) are left out.
- GestureText.Parse: error texts are left out; a bit field is the set of its set bits.
- LayoutToggle.GetLayoutToggle: applying the layout to container and workspace is left out.
- Criteria other than urgent, movement and focus of containers, rendering, JSON, seats, outputs,
  the bar's and the notification program's own loops.
- Failing allocation, logging, locale and single-setting command handlers.
