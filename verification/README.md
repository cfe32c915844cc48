# Proofs about faux

This project models the parts of the faux repository that are hardest to get right and proves what
they promise. Each model follows the code: the same branches, the same edge cases, the same constants.
`dafny verify dfyconfig.toml` checks everything.

## What is modelled

- **The shared-memory channel** (`Channel*.dfy`, `HalfChannel.dfy`). A ring allocator and FIFO between
  one sender and one receiver, over the bytes of the shared buffer. `ChannelModel` is a transition
  system in which sender and receiver take single shared-memory steps in any order; `HalfChannel` is
  the code with its fields, array and loops; `ChannelRefinement` shows that whole calls of the code are
  runs of the transition system, and `ChannelAnswers` what they answer, told on chunks and cache lines.
  Messages may be freed in any order, and freeing clears one cache line per step, from either end. A
  run is *disciplined* when the collector passes only chunks that have been freed completely,
  in a full buffer everything up to the chunk at offset 0, or stops at that chunk and the request has no
  room, and when the receiver does not poll a full buffer of which everything has been received and the
  oldest message not been freed. Both are shown to be exactly what is needed. The buffer is a multiple of
  the cache line and below 65536 bytes, payloads are not empty, and at first no cache line looks ready.
- **Kconfig formulas** (`Kconfig*.dfy`). Tristate formulas with min, max and 2-x, and the rewriting of
  common/kconfig/expr.c. Trees are values; where the code follows a pointer into a tree it is rewriting,
  the model uses paths into the tree. An environment is well-formed when y, m, n have their values,
  boolean symbols are never m, the text of a boolean or tristate symbol follows its value and distinct
  constants have distinct texts.
- **The dependency check** (`KconfigDeps.dfy`). The depth-first walk with two flags, warnings and
  unwinding. Roots are the symbols `for_all_symbols` visits, those whose type is not S_OTHER.
- **Configuration text** (`ConfigText.dfy`). Escaping, unescaping in place, lines and files. Names hold
  no space, equals sign or newline, strings no newline.
- **SGLIB** (`RedBlack.dfy`, `RedBlackHeap.dfy`, `TreeWalk.dfy`, `Quicksort.dfy`). Red-black trees on
  values and on cells with pointers, the traversal without recursion, and quicksort on an array with
  its stacks.
- **Files over a block pool** (`File*.dfy`). Chunked copying against a flat sequence of bytes, single
  files, any number of files as a transition system, and the two classes with their loops.
- **The cooperative scheduler** (`Thread*.dfy`) and **the reader-writer lock**
  (`ReaderWriterLock.dfy`). Both are transition systems; the scheduler also has its classes. A run of
  the scheduler is disciplined when only live threads that are neither running nor in a list are
  scheduled or switched to, and only a running thread yields, swaps, waits, returns or stops. Creating,
  scheduling and notifying are possible before threading starts.

Where the code calls `error` or fails an assertion, the methods return a flag that says so.

Some predicates end in `<==> true`. That changes nothing about what they say: it keeps a long
conjunction together as one fact where it is proved, instead of one obligation per conjunct.

`Options.dfy` holds the one option type. `Runs.dfy` defines runs of a transition system and the induction
over them that all protocols share.

## Findings

Some properties one would expect do not hold of the code as it is. Each has a lemma with the input or
the run that shows it and one that says exactly when it holds.

- A full channel buffer can be collected from the wrong end: `OverlapIsReachable`, `CollectionExact`.
- `channel_free` clears a message from its first line up, and the collector can reuse the others before
  they are cleared; from the last line down it could not: `UpwardsRace`, `CollectionExact`,
  `DownwardsIsSafe`.
- A closed channel leaves its messages in the buffer, and the next channel on it delivers them:
  `StaleDelivery`, `ReuseExact`.
- An allocation can be turned down by an empty buffer that would hold the message: `EmptyTurnsDown`,
  `EmptyAnswer`, `AllocateExact`.
- A receiver that has received everything in a full buffer and freed nothing gets the oldest message
  again: `RedeliveryIsReachable`, `RedeliversOldest`, `PollExact`.
- `expr_eq` does not find every formula equal to itself: `NotReflexive`, `ReflexiveExact`, `ExprEqExact`.
- Duplicate elimination can change a formula that is m: `EliminateDupsLosesMod`, `AbsorbExact`,
  `EliminateDupsExact`, `EliminateDupsKeeps`.
- Lowering a comparison through a negation is wrong for m, and so is `expr_trans_bool` below one:
  `TransCompareNotWrong`, `TransCompareNotExact`, `TransCompareExact`, `TransBoolUnderNot`. So an entry
  can be nested below a symbol and be visible although the symbol is n and invisible: `NestingFails`,
  `VisibleExact`, `NestingSound`.
- A write that finds no space still records the new size: `FailedWriteUncovers`, `WriteExact`.
- When the block size does not divide the partition, the free counter of the buffer cache is wrong and
  the last block of a server runs into the partition of the next: `CounterOff`, `CounterExact`,
  `NeighboursExact`.
- Reads and writes whose end wraps around at 64 bits run past the blocks of the file:
  `WrappedRead`, `WrappedWrite`, `MachineReadExact`, `MachineWriteExact`.
- A configuration with a line longer than the buffer is not read back: the value is lost, and the rest
  of the line can set another symbol: `LongLineRead`, `FileExact`, `ValuesExact`.
- The comment of `threadSchedule` forbids only runnable threads; scheduling a thread that waits on a
  condition, or switching or swapping to one that is ready, lets a dead thread be scheduled:
  `ScheduleWaiting`, `SwitchToReady`, `SwapToListed`, and `RunSafe` for runs without these.

Three promises made in comments are confirmed: 64 stack slots do for 2^64 elements
(webserver/sglib.h:90), there are never more contexts than threads
(messaging/include/threading.h:40-44), and reverting the loop of `channel_free` avoids the race with
`channel_allocate` (messaging/include/channel.h:329).

## Model

| member | source | states |
|---|---|---|
| ChannelTheorems.RingSafety | messaging/include/channel.h:106-318 | After every disciplined run from a fresh channel: the chunks follow each other around the ring from just behind tail up to head, they fill the buffer exactly when tail says it is full, no two overlap, next stands on a chunk boundary or at head, and no free cache line looks ready |
| ChannelTheorems.ReuseExact | messaging/channel.cpp:121-129 | A buffer that has been in use can be set up for a fresh channel if and only if no chunk in it is open, sent or taken, as long as the receiver is not just freeing a message |
| ChannelRefinement.StaleDelivery | messaging/channel.cpp:369-384 | A channel with one message sent and not received: on a new channel set up on the same buffer the first receive delivers that message, although nothing was sent |
| ChannelTheorems.AllocateAvoids | messaging/include/channel.h:198-318 | A step of an allocation leaves every chunk that has not been freed in place and makes no two chunks overlap |
| ChannelTheorems.Fifo | messaging/include/channel.h:341-472 | After every disciplined run, under every interleaving, the k-th payload delivered is the k-th message in allocation order, byte for byte as it was sent |
| ChannelTheorems.HeldUntilFreed | messaging/include/channel.h:320-339 | A message that has been handed over and not freed still stands in the buffer as it was delivered |
| ChannelTheorems.StepExtends | messaging/include/channel.h:341-472 | Every step only appends deliveries and never changes a message once it has been sent, so nothing is delivered twice |
| ChannelTheorems.ReceiveDelivers | messaging/include/channel.h:435-472 | Once the next message has been sent, the three steps of a receive hand over exactly that message |
| ChannelTheorems.SentinelIsSkipped | messaging/include/channel.h:369-399 | The receiver passes a wrap sentinel, clears its ready mark and wraps to offset 0 without delivering anything |
| ChannelTheorems.CollectionExact | messaging/include/channel.h:106-154 | The next turn of the collector keeps every unfreed chunk if and only if it is safe: what it passes has been freed completely, in a full buffer everything up to the chunk at offset 0, or that chunk does not look freed and the request cannot be placed |
| ChannelTheorems.DownwardsIsSafe | messaging/include/channel.h:320-339 | If the ready flags of a message are cleared from its last line down, the collector needs no discipline about messages that are being freed: every such run is a run of the channel, with all its guarantees |
| ChannelRefinement.UpwardsRace | messaging/include/channel.h:320-339 | Cleared from the first line up, as the code does: with a buffer of three lines the collector takes a half cleared message for freed, two calls of channel_allocate reuse its lines, and the line still to be cleared holds the header of the second message |
| ChannelTheorems.PollExact | messaging/include/channel.h:369-399 | A poll takes an old message for a new one if and only if the buffer is full and everything in it has been received while the oldest message is unfreed |
| ChannelTheorems.RedeliversOldest | messaging/include/channel.h:435-472 | In that one situation the oldest message is delivered a second time |
| ChannelTheorems.FullTurn | messaging/include/channel.h:125-154 | On a full buffer a turn of the collector looks at the header of the chunk at offset 0 and at no other |
| ChannelTheorems.StepInv | messaging/include/channel.h:106-472 | Every single step of sender or receiver, each line of a free included, keeps the invariant of ring, headers, numbering and delivery log |
| ChannelInvariant.InitInv | messaging/channel.cpp:121-129 | A channel that has just been set up satisfies the invariant, whatever bytes the buffer holds as long as no cache line looks ready |
| ChannelRefinement.GcRefines | messaging/include/channel.h:106-154 | The collection loop of the code is a sequence of steps of the protocol, stops within one turn per chunk, moves tail as the protocol does, and leaves exactly the chunks from the first unfreed one on |
| ChannelRefinement.AllocateRefines | messaging/include/channel.h:198-318 | Whenever its collections pass only what has been freed, or there is nothing to collect for, a whole call of channel_allocate is a sequence of protocol steps with the same head, tail and memory; it returns NULL or the payload of a chunk that is new in the log, and AllocateExact says which |
| ChannelAnswers.AllocateExact | messaging/include/channel.h:198-318 | With the chunks that are left once everything freed at the old end is collected: channel_allocate returns the payload at the head if the lines from there on are in the buffer and free, otherwise the one at offset 0 if the lines there are free and before the head, and NULL exactly if neither is so or the message is too long; after NULL the head is 0 if both ends of the buffer are free, and where it was otherwise |
| ChannelAnswers.RoomExact | messaging/include/channel.h:227-247 | The tests on head and tail find room at the head, or at offset 0, exactly when the lines there belong to no chunk |
| ChannelAnswers.MessageSizeExact | messaging/include/channel.h:91-104 | The size is 0 exactly for a message that does not leave one line of the buffer, and otherwise the least number of whole cache lines that holds payload and header |
| ChannelAnswers.EmptyAnswer | messaging/include/channel.h:227-258 | In an empty buffer a message is turned down if and only if it fits neither behind the head nor before it, and then the head goes back to 0 |
| ChannelAnswers.EmptyTurnsDown | messaging/include/channel.h:227-258 | With a buffer of four lines, after two messages of one line each have been sent, received and freed, a message of three lines is turned down |
| ChannelRefinement.TurnedDown | messaging/include/channel.h:198-318 | While the chunk at offset 0 of a full buffer is in use, a request without room is answered with NULL and changes nothing |
| ChannelRefinement.ReceiveRefines | messaging/include/channel.h:369-472 | A whole call of channel_receive, sentinels included, is a sequence of protocol steps and hands over what the protocol delivers; ReceiveExact says when that is something |
| ChannelAnswers.ReceiveExact | messaging/include/channel.h:435-472 | With k the first chunk from the receiver on that is not a sent sentinel: channel_receive returns a message if and only if chunk k has been sent, and then the payload and size of chunk k with next behind it; otherwise next stays at chunk k |
| ChannelRefinement.PollRefines | messaging/include/channel.h:369-412 | A whole call of channel_poll, sentinels included, is a sequence of protocol steps that delivers nothing; a size it returns is that of the next message in allocation order |
| ChannelAnswers.PollExactly | messaging/include/channel.h:369-412 | channel_poll returns the size of that chunk if it has been sent, and 0 otherwise |
| ChannelRefinement.PassSentinels | messaging/include/channel.h:369-399 | The retry loop stops within one turn per chunk; it passes exactly the sentinels up to the first other header and changes no chunk behind them |
| ChannelRefinement.SendRefines | messaging/include/channel.h:341-367 | channel_send is the send step of the protocol |
| ChannelRefinement.FreeRefines | messaging/include/channel.h:320-339 | A whole call of channel_free, in either order of the lines, is a sequence of protocol steps that stays inside the buffer, clears the ready mark of every line of the message and leaves it freed |
| ChannelRefinement.ClearRefines | messaging/include/channel.h:331-334 | The loop of channel_free from any line on: one step per line, and in the end exactly the lines that were left are cleared |
| ChannelRefinement.OverlapIsReachable | messaging/include/channel.h:215-229 | With a buffer of two lines the code reaches, from a fresh channel, a full buffer in which one more turn of the collector gives up an unfreed message: the discipline about full buffers is needed |
| ChannelRefinement.RedeliveryIsReachable | messaging/include/channel.h:435-472 | With a buffer of two lines, two messages sent and received and none freed lead from a fresh channel to the situation of RedeliversOldest |
| HalfChannelCode.HalfChannel.Gc | messaging/include/channel.h:106-154 | The loop over the shared array moves tail to where the specified collection stops and changes nothing else |
| HalfChannelCode.HalfChannel.GcStep | messaging/include/channel.h:126-152 | One turn of the loop on the bytes of the buffer is one turn of the specified collector |
| HalfChannelCode.HalfChannel.Allocate | messaging/include/channel.h:198-318 | The imperative allocation leaves exactly the fields and bytes and returns the offset, or -1 for NULL, that AllocateRefines and AllocateExact are about |
| HalfChannelCode.HalfChannel.Send | messaging/include/channel.h:341-367 | Stores the size in the header of the message and changes no other byte |
| HalfChannelCode.HalfChannel.Receive | messaging/include/channel.h:369-472 | Polling, skipping sentinels and taking leave the next and bytes and return the payload and size that ReceiveRefines and ReceiveExact are about |
| HalfChannelCode.HalfChannel.Free | messaging/include/channel.h:320-339 | The loop clears the ready mark of every cache line of the message and no other byte |
| KconfigExpr.WellFormedExists | common/kconfig/symbol.c:618-690 | For every tristate symbol and every value there is a well-formed environment in which the symbol has that value |
| KconfigExpr.EliminateYnSound | common/kconfig/expr.c:235-316 | Removing constants keeps the value in every well-formed environment |
| KconfigExpr.EliminateYnFolds | common/kconfig/expr.c:235-316 | Afterwards no connective has a constant operand left; a formula without one stays as it is, any other one shrinks |
| KconfigEq.Cancel | common/kconfig/expr.c:135-166 | Cancelling leaves a chain a chain of the same kind and never enlarges either formula, which is why its recursion ends |
| KconfigEq.CancelFactors | common/kconfig/expr.c:135-166 | What is cancelled is a common factor: each formula is worth the factor combined with what is left of it |
| KconfigEq.ExprEqSound | common/kconfig/expr.c:193-233 | Formulas found structurally equal have the same value in every environment |
| KconfigKeys.ExprEqExact | common/kconfig/expr.c:193-233 | For formulas without y or n as an operand: two formulas are found equal if and only if they differ only in the order and the grouping of their chains, and no chain of theirs has two interned constants |
| KconfigKeys.PermutedEqual | common/kconfig/expr.c:193-233 | Chains whose operands are permutations of one another are found equal if and only if no chain in them has two constants |
| KconfigKeys.ReflexiveExact | common/kconfig/expr.c:193-233 | A formula is found equal to itself if and only if no chain of it, at any depth, has two constants |
| KconfigKeys.NotReflexive | common/kconfig/expr.c:193-233 | The conjunction of any two interned constants is not found equal to itself |
| KconfigKeys.CancelKeys | common/kconfig/expr.c:135-166 | Cancelling is subtraction: each chain loses exactly the operands the other one has, as often as it has them, and keeps its constants |
| KconfigEq.EliminateEqFactors | common/kconfig/expr.c:168-188 | A factor k under the connective of the first formula and then a factor j under that of the second are removed from both formulas, and nothing else |
| KconfigEq.EliminateEqImplies | common/kconfig/menu.c:263-278 | When the second formula is reduced to y, the first one never exceeds the second one |
| KconfigKeys.EliminateEqExact | common/kconfig/expr.c:168-188 | For a conjunction and a formula without y or n as an operand: the second is reduced to y if and only if every factor of it is a factor of the first, as often, and none is a constant |
| KconfigEq.ExtractFactors | common/kconfig/expr.c:852-879 | Extraction splits both formulas into the extracted part and the rest, joined by the same connective |
| KconfigEq.ExtractedBounds | common/kconfig/expr.c:830-850 | If extraction leaves nothing of the first formula, it bounds the second one: from above for AND, from below for OR |
| KconfigKeys.ExtractExact | common/kconfig/expr.c:830-879 | Extraction leaves nothing of the first formula if and only if every operand of it is an operand of the second, as often |
| KconfigTransform.DeMorganShrinks | common/kconfig/expr.c:640-775 | The formula a De Morgan rule builds is smaller in the weight that justifies transforming it again |
| KconfigTransform.Transform | common/kconfig/expr.c:640-775 | Terminates although it transforms its own De Morgan output, and never adds weight |
| KconfigTransform.TransformSound | common/kconfig/expr.c:640-775 | Keeps the value in every well-formed environment |
| KconfigTransform.TransformIsNormal | common/kconfig/expr.c:640-775 | In the result NOT stands only before non-constant symbols and no boolean symbol is compared with y, m or n |
| KconfigTransform.NormalIffFixed | common/kconfig/expr.c:640-775 | A formula is in that form if and only if the transformation leaves it alone |
| KconfigTransform.TransformIdempotent | common/kconfig/expr.c:640-775 | Transforming twice is transforming once |
| KconfigMerge.MergeSound | common/kconfig/expr.c:350-506 | Whatever rule joins two operands, the joined formula has the value of the two under their connective, in every well-formed environment |
| KconfigMerge.MergeSize | common/kconfig/expr.c:350-506 | The joined operand is no larger than the first one and starts no new chain of the same kind, so joining cannot go on for ever |
| KconfigMerge.MergeExact | common/kconfig/expr.c:350-506 | Two operands are joined if and only if they are equal or make one of the documented pairs, in either order: for OR a=b and a=c with two of y, m and n for a tristate a, or a and NOT a for a boolean a; for AND a!=b and a!=c likewise, a=b and a!=c for constants, or a with a=y, a!=n or a!=m |
| KconfigDups.Dups1Sound | common/kconfig/expr.c:508-558 | The first pass keeps the value in every well-formed environment |
| KconfigDups.Dups1Counts | common/kconfig/expr.c:508-558 | If the first pass counts no change the tree is unchanged; if it counts one, a constant is left for folding to remove |
| KconfigDups.Dups1Complete | common/kconfig/expr.c:508-558 | When the first pass counts no change, no two operands of a chain could have been joined, at any depth; MergeExact says which could |
| KconfigDups.Dups2Sharper | common/kconfig/expr.c:560-614 | The second pass can only move the value away from m |
| KconfigDups.AbsorbExact | common/kconfig/expr.c:560-614 | When the second pass absorbs an operand, also one the nested pass has rewritten before, the value of the chain survives if and only if it was not m |
| KconfigDups.RoundShrinks | common/kconfig/expr.c:616-638 | A round that counts a change leaves a strictly smaller tree once constants are folded; any other round changes nothing |
| KconfigDups.EliminateDupsLoop | common/kconfig/expr.c:616-638 | The endless loop terminates and computes the fixed point of the rounds, which EliminateDupsIrredundant is about |
| KconfigDups.EliminateDupsSharper | common/kconfig/expr.c:616-638 | The whole elimination keeps the value in every well-formed environment in which the formula is not m |
| KconfigDups.EliminateDupsTwoValued | common/kconfig/expr.c:616-638 | It keeps the value in every environment in which no symbol is m |
| KconfigDups.EliminateDupsExact | common/kconfig/expr.c:616-638 | When some round absorbs an operand of the outermost chain, the result is y or n everywhere, so the value survives if and only if it was not m |
| KconfigDups.EliminateDupsKeeps | common/kconfig/expr.c:616-638 | When the second pass never counts a change, the value survives everywhere |
| KconfigDups.EliminateDupsComplete | common/kconfig/expr.c:616-638 | In the result no two operands of a chain can be joined, by the rules MergeExact lists |
| KconfigIrredundant.EliminateDupsIrredundant | common/kconfig/expr.c:616-638 | In the result, at every depth outside negations: no two operands of a chain are equal, no two make one of the documented pairs, and no operand that is a chain has its negation made of operands of the chain it is in |
| KconfigIrredundant.NoKeyTwice | common/kconfig/expr.c:616-638 | No two operands of a chain of the result are the same up to order and grouping, unless one of them has a chain with two constants |
| KconfigIrredundant.Dups2Complete | common/kconfig/expr.c:560-614 | When the second pass counts no change, extraction of the negation of an operand that is a chain leaves something at every other location |
| KconfigDups.EliminateDupsLosesMod | common/kconfig/expr.c:560-614 | For every tristate symbol a, the formula (n OR a) AND NOT a is rewritten to n, although it is m where a is m |
| KconfigMenu.TransCompareSound | common/kconfig/expr.c:881-940 | For target y or n the lowered comparison is y exactly when the formula compares so, wherever no negated subterm is m |
| KconfigMenu.TransCompareRounds | common/kconfig/expr.c:881-940 | For every formula whose plain symbols have the text of their value: the lowered comparison with n compares the value the formula has when every m symbol counts as y, the one with y the value it has when every m symbol counts as n |
| KconfigMenu.TransCompareExact | common/kconfig/expr.c:881-940 | The lowered comparison is right if and only if the formula is not an m that is rounded to what it is compared with |
| KconfigMenu.TransCompareNotExact | common/kconfig/expr.c:912-913 | Lowering through a negation is right if and only if the negated formula is not m |
| KconfigMenu.TransCompareNotWrong | common/kconfig/expr.c:912-913 | For every tristate symbol a at m, NOT a = n is lowered to a != n, which is y, although NOT a is m |
| KconfigMenu.TransBoolKeepsNo | common/kconfig/expr.c:321-345 | On transformed formulas the rewriting keeps the answer to whether the value is n |
| KconfigMenu.TransBoolExact | common/kconfig/expr.c:321-345 | The rewriting leaves no comparison a != n with a tristate a at any depth, and changes a formula if and only if it has one |
| KconfigMenu.TransBoolUnderNot | common/kconfig/expr.c:321-345 | Under a negation it keeps that answer if and only if the compared symbol is not m |
| KconfigMenu.DependsSymbolSound | common/kconfig/expr.c:801-828 | A formula that depends on a symbol in this sense is n whenever the symbol, of whatever type, is n by its value and its text; for boolean and tristate symbols the value alone decides |
| KconfigMenu.DependsSymbolExact | common/kconfig/expr.c:801-828 | A formula depends on a symbol s if and only if one of its conjuncts is s, s=y, s=m or s!=n |
| KconfigMenu.ContainsSymbolExact | common/kconfig/expr.c:777-799 | A formula contains a symbol if and only if putting another one in its place changes the formula |
| KconfigMenu.VisibleRounds | common/kconfig/menu.c:259-261 | For conditions whose plain symbols have the text of their value: the normalised visibility condition is y or n, and it is the value the condition has when every m symbol counts as y |
| KconfigMenu.VisibleExact | common/kconfig/menu.c:269-270 | For such conditions it says whether the entry is visible if and only if the condition is not an m that becomes n when m symbols count as y, which takes a negated subterm that is m |
| KconfigMenu.NestingSound | common/kconfig/menu.c:263-279 | For such conditions: an entry that menu_finalize nests below a symbol and that is y, or visible with no negated subterm at m, or visible and still so when every m symbol counts as y, has a parent whose symbol is set or whose prompt is visible; nothing is asked of negations in the prompt condition of the parent |
| KconfigMenu.NestingFails | common/kconfig/menu.c:263-279 | For all tristate symbols a at m and s at n: the entry with condition NOT a AND s = n is nested below s with prompt condition a = n, and it is visible although s is n and its prompt is not visible |
| KconfigDeps.Symbols.CheckAll | common/kconfig/zconf.tab.c:1958-1960 | Over the whole pass a warning is printed if and only if a cycle of dependencies is reachable from a symbol that is checked, and, when the symbols that are not checked have no formulas, if and only if the graph has a cycle at all; every printed line is a cycle, read backwards |
| KconfigDeps.Symbols.CheckDeps | common/kconfig/symbol.c:790-829 | One call keeps the state of the walk; a top-level call returns NULL; without a report everything the symbol depends on has been read in full |
| KconfigDeps.Symbols.CheckExpr | common/kconfig/symbol.c:760-788 | Reads the symbols of a formula in order up to the first report |
| KconfigDeps.Symbols.CheckFormulas | common/kconfig/symbol.c:803-818 | Reads the reverse dependency and the properties up to the first report, leaving out choices, selects and the values of anything but defaults |
| KconfigDeps.Symbols.CheckProperty | common/kconfig/symbol.c:808-817 | Reads the visibility of a property, and its value if it is a default of a symbol that is no choice; nothing of choices and selects |
| KconfigDeps.Symbols.CheckProperties | common/kconfig/symbol.c:807-818 | Reads the properties in order up to the first report |
| KconfigDeps.Symbols.Begin | common/kconfig/symbol.c:802-802 | A symbol that is neither checked nor being checked gets both flags and joins the path |
| KconfigDeps.Symbols.Leave | common/kconfig/symbol.c:826-827 | A symbol whose dependencies have all been read leaves the path and comes after them in the order |
| KconfigDeps.Symbols.Report | common/kconfig/symbol.c:795-798 | Running into a symbol that is being checked opens a line, and a cycle is reachable |
| KconfigDeps.Symbols.Unwind | common/kconfig/symbol.c:819-828 | A report prints the symbols it passes and ends at the symbol it started from, where the line has become a cycle |
| KconfigDeps.NoLasso | common/kconfig/symbol.c:799-818 | If the symbols can be listed with every symbol after all it depends on, no cycle is reachable from them |
| KconfigDeps.AnyCycle | common/kconfig/zconf.tab.c:1958-1960 | When the symbols that are not checked have no formulas, as y, m and n, a cycle is reachable from the others if and only if the graph has one |
| KconfigDeps.EdgeExact | common/kconfig/symbol.c:803-818 | A symbol depends on another one if and only if its reverse dependency contains it, or the condition of a property that is neither a choice nor a select, or the value of a default and the symbol is no choice |
| ConfigText.RoundTrip | common/kconfig/confdata.c:205-218 | Unescaping an escaped string up to its closing quote gives the string back, whatever follows |
| ConfigText.CutIsInvalid | common/kconfig/confdata.c:208-218 | An escaped string cut anywhere before its closing quote is invalid |
| ConfigText.WriteEscaped | common/kconfig/confdata.c:489-503 | The loop of conf_write writes the escaped string |
| ConfigText.Unquote | common/kconfig/confdata.c:205-218 | The loop that deletes backslashes in place leaves exactly the unescaped string in the buffer, with its NUL, or finds the string invalid |
| ConfigText.ReadInPlace | common/kconfig/confdata.c:134-233 | The body of the reading loop on its buffer of 1024 bytes assigns what the specification of a line says, for every line but a last one that is a single # |
| ConfigText.ReadSettingInPlace | common/kconfig/confdata.c:165-233 | The case of a line that begins with C: name, equals sign, newline and value in place |
| ConfigText.ReadUnsetInPlace | common/kconfig/confdata.c:138-164 | The case of a line that begins with # |
| ConfigText.ReadValueInPlace | common/kconfig/confdata.c:185-232 | The value behind the equals sign, strings unescaped in place |
| ConfigText.FindChar | common/kconfig/confdata.c:170-174 | The first such character before the terminating NUL |
| ConfigText.WriteSpecials | common/kconfig/confdata.c:497-502 | The inner loop writes each quote or backslash after a backslash |
| ConfigText.FindSpecial | common/kconfig/confdata.c:208-208 | Finds the next quote or backslash before the end of the string |
| ConfigText.DeleteAt | common/kconfig/confdata.c:213-213 | Removes one character and moves the rest up, terminator included |
| ConfigText.LineExact | common/kconfig/confdata.c:134-233 | The line written for a string, y, m or n is read back as the same assignment if and only if it fits the buffer; the first 1023 characters of a longer line assign nothing, and what follows them is read as further lines |
| ConfigText.FileRoundTrip | common/kconfig/confdata.c:452-504 | A file of lines that fit is read back as the same list of assignments |
| ConfigText.FileExact | common/kconfig/confdata.c:134-233 | A file is read back as the list of assignments it was written from if and only if every line fits the buffer |
| ConfigText.ValuesExact | common/kconfig/confdata.c:134-233 | Every symbol that was written, once each, gets its value back if and only if every line fits the buffer, although a symbol that has been assigned is not assigned again |
| ConfigText.FirstWins | common/kconfig/confdata.c:165-204 | In a file of settings that fit their lines a symbol has a value if and only if some line gives it one, and then that of the first such line; for a boolean or tristate symbol y, n and, if it is tristate, m behind the equals sign give a value, n the value n, and anything else none |
| ConfigText.SettingFirst | common/kconfig/confdata.c:165-204 | A setting that fits is read by itself, whatever follows it |
| ConfigText.ReadFits | common/kconfig/confdata.c:134-233 | Whatever a file contains, a string, y or m read from it has a line that fits the buffer |
| ConfigText.EscapeShrinks | common/kconfig/confdata.c:205-218 | A string that was read takes no more room when it is escaped again than it took in the file |
| ConfigText.LongLineRead | common/kconfig/confdata.c:134-233 | A string of 1013 characters followed by an assignment in its own text: on reading, the string is lost and the other symbol is set |
| RedBlack.AddCorrect | webserver/sglib.h:1628-1719 | On a red-black tree in order, insertion gives a red-black tree in order whose in-order sequence has exactly the new element added, after all smaller and before all greater ones |
| RedBlack.AddRecursiveInserts | webserver/sglib.h:1628-1645 | On any tree insertion adds the element at the place its search ends and moves nothing else |
| RedBlack.FixInsertionSound | webserver/sglib.h:1447-1484 | The repair after an insertion restores colours and black heights |
| RedBlack.DeleteCorrect | webserver/sglib.h:1647-1724 | On a red-black tree in order, deletion fails an assertion if and only if the element is not there; otherwise it removes exactly that element and keeps order, colours, black heights and the black root |
| RedBlack.DeleteRecursiveSound | webserver/sglib.h:1670-1713 | The recursive deletion reports a lower depth exactly when the black height fell by one, and never reaches an assertion for an element its search finds |
| RedBlack.DeleteRightmostSound | webserver/sglib.h:1647-1668 | The same for taking out the rightmost element |
| RedBlack.FixDeletionSound | webserver/sglib.h:1486-1604 | The repair of a side that is one too short ends with equal black heights and reports exactly whether the whole tree became one shorter; its assertions hold |
| RedBlack.OrderedIffIncreasing | webserver/sglib.h:1626-1645 | A tree is in order if and only if its in-order sequence is increasing |
| RedBlack.ByComparator | webserver/sglib.h:1636-1636 | Any comparator that is a total preorder, with addresses deciding between equals, orders all elements strictly |
| RedBlackHeap.Rotate | webserver/sglib.h:1462-1469 | Relinking two cells in place gives the rotated tree of the same cells and touches no other tree |
| RedBlackHeap.RotateTwice | webserver/sglib.h:1470-1480 | The double rotation in place gives the rotated tree of the same cells |
| RedBlackHeap.FixBelowRed | webserver/sglib.h:1499-1556 | The repair below a red sibling in place gives the specified tree with the same cells |
| RedBlackHeap.AddRecursive | webserver/sglib.h:1628-1645 | The recursive insertion in place gives the specified tree of the old cells and the new one |
| RedBlackHeap.FixInsertion | webserver/sglib.h:1447-1484 | Relinking and recolouring in place gives the specified tree of the same cells |
| RedBlackHeap.Add | webserver/sglib.h:1628-1719 | Insertion in place gives the specified tree; its cells are the old ones and the new one, and a red-black tree in order without that address stays a red-black tree in order |
| RedBlackHeap.FixDeletion | webserver/sglib.h:1486-1604 | The repair in place gives the specified tree and flag with the same cells |
| RedBlackHeap.DeleteRightmost | webserver/sglib.h:1647-1668 | Takes the rightmost cell out of the tree and hands it back |
| RedBlackHeap.DeleteRecursive | webserver/sglib.h:1670-1713 | Deletion in place fails its assertion if and only if the search does not find the element, with nothing changed; otherwise it gives the specified tree and flag, and takes out one cell the order cannot tell from the element |
| RedBlackHeap.Delete | webserver/sglib.h:1721-1724 | On a red-black tree in order deletion succeeds if and only if the cell is in the tree; it takes out exactly that cell and leaves a red-black tree in order |
| TreeWalk.MapOnElements | webserver/sglib.h:729-771 | The traversal stops at its assertion if and only if the tree has 128 levels or more; otherwise it visits the recursive preorder, inorder or postorder sequence, although the command destroys each element it visits |
| TreeWalk.Descend | webserver/sglib.h:745-758 | The push-down loop visits what the order asks for on the way down and leaves what is still to come unchanged |
| TreeWalk.Climb | webserver/sglib.h:759-769 | The way up visits what the order asks for and ends at the next right subtree or at the end |
| TreeWalk.Enter | webserver/sglib.h:746-756 | One turn of the push-down loop saves the right subtree before the command may destroy the node |
| TreeWalk.Pass | webserver/sglib.h:760-765 | One turn of the way up visits the node if the order asks for it at this pass, and uses nothing of it afterwards |
| TreeWalk.InOrderIsInOrder | webserver/sglib.h:773-775 | Inorder visits the elements in the order of the tree |
| TreeWalk.RedBlackFits | webserver/sglib.h:1945-1947 | No red-black tree of fewer than 2^63 nodes has 128 levels |
| TreeWalk.HeightBelow | webserver/sglib.h:1945-1947 | The height of a tree with the colour rules is at most twice its black height, and one more if its root is red |
| TreeWalk.SizeAbove | webserver/sglib.h:1945-1947 | A tree of equal black heights h has at least 2^h - 1 nodes |
| Quicksort.Sort | webserver/sglib.h:88-153 | For any comparator that is a total preorder the first max elements end up in order, are the elements that were there, and nothing behind them changes; the loops terminate and stay inside 64 stack slots for up to 2^64 elements |
| Quicksort.Partition | webserver/sglib.h:102-124 | Puts the pivot where nothing before it is greater and nothing after it is smaller, and disturbs no order known before |
| Quicksort.Narrow | webserver/sglib.h:101-146 | One partition: the larger part goes on the stack, the smaller one is next, and every pair outside a common part is in order |
| Quicksort.Approach | webserver/sglib.h:105-124 | One turn of the loop over the two indices brings them closer, or exchanges a greater element with a smaller one, and ends with the pivot in place when they meet |
| Quicksort.ExchangeBoth | webserver/sglib.h:117-121 | A greater element and a smaller one change places and the indices move on, without disturbing an order known before |
| Quicksort.ScanUp | webserver/sglib.h:106-106 | Passes the elements that are not greater than the pivot and stops at the first one that is |
| Quicksort.ScanDown | webserver/sglib.h:112-112 | Passes the elements that are not smaller than the pivot and stops at the first one that is |
| Quicksort.SortPair | webserver/sglib.h:147-151 | Two remaining elements are put in order |
| Quicksort.Pop | webserver/sglib.h:97-151 | One turn of the outer loop sorts the topmost segment except for the smaller segments it stacks |
| Quicksort.TidySplit | webserver/sglib.h:127-138 | Stack slot k still holds at most max / 2^k elements after a push |
| Quicksort.RoomToPush | webserver/sglib.h:91-93 | As long as there is a segment to split there is a free slot |
| Quicksort.ExchangeRanked | webserver/sglib.h:106-122 | Exchanging two elements of one open segment disturbs no order known before |
| Quicksort.SplitRanked | webserver/sglib.h:125-145 | Once its pivot is in place the two sides of a segment can be sorted separately |
| FileBlocks.WriteBytesFlat | sys/fs/file.cpp:169-179 | The chunks of a write together change exactly the bytes from offset on in the flat contents |
| FileBlocks.ReadBytesFlat | sys/fs/file.cpp:134-143 | The chunks of a read together are the slice of the flat contents |
| FileBlocks.WriteBytesElsewhere | sys/fs/file.cpp:169-179 | The chunks of a write change no block outside the file |
| FileModel.WriteRefines | sys/fs/file.cpp:155-188 | A write that gets its blocks returns the count and acts on the flat contents: extended if needed, then changed in [offset, offset+count) and nowhere else; with fewer than 2^64 bytes in blocks the 64-bit code does exactly that |
| FileModel.WriteExact | sys/fs/file.cpp:155-167 | The block count matches the size after a write if and only if the write needed no block or got them; a failed write still records the new size |
| FileModel.FailedWriteUncovers | sys/fs/file.cpp:162-167 | A one-byte write to an empty file with an empty pool: the size becomes 1 without a block |
| FileModel.ReadRefines | sys/fs/file.cpp:126-153 | A read returns exactly the slice of the flat contents, clamped to the size |
| FileModel.ReadCountExact | sys/fs/file.cpp:130-132 | The count is clamped correctly if and only if the offset is past the end or offset+count does not wrap around at 64 bits |
| FileModel.MachineReadExact | sys/fs/file.cpp:126-153 | With 64-bit sums, a read inside the file whose end wraps around runs past the last block, and every other read returns the specified bytes |
| FileModel.MachineWriteExact | sys/fs/file.cpp:155-188 | With 64-bit sums, a write does what it should if and only if its end does not wrap around; otherwise it runs past the last block, or finds no space and records a size below its own offset |
| FileModel.WrappedRead | sys/fs/file.cpp:130-143 | A file of two bytes in one block: a read at 1 of 2^64 - 1 bytes runs past the block |
| FileModel.WrappedWrite | sys/fs/file.cpp:160-179 | The same file: a write of two bytes at 2^64 - 1 skips the growth and runs past the block |
| FileModel.TruncateRefines | sys/fs/file.cpp:231-260 | Truncation keeps the first bytes, extends with what the new blocks hold, fails exactly when blocks are missing, and then changes nothing |
| FileModel.CounterExact | sys/fs/buffer_cache.cpp:22-47 | The free counter starts as the length of the free list if and only if the block size divides the partition |
| FileModel.CounterOff | sys/fs/buffer_cache.cpp:22-47 | Five bytes in blocks of two: the list has three blocks, the last of them reaching beyond the memory, and the counter says two |
| FileModel.PartitionApart | sys/fs/buffer_cache.cpp:36-46 | When it does, the blocks lie inside the memory and do not overlap |
| FileModel.PartitionTiled | sys/fs/buffer_cache.cpp:36-46 | Then the blocks of server id lie between id and id + 1 times the partition size, and every byte between is in a block |
| FileModel.ServersApart | sys/fs/buffer_cache.cpp:36-46 | Then no block of one server overlaps a block of another |
| FileModel.NeighboursExact | sys/fs/buffer_cache.cpp:36-46 | The blocks of two neighbouring servers are apart if and only if the block size divides the partition |
| FileSystem.BlocksConserved | sys/fs/file.cpp:64-101 | In every run over any number of files each block of the partition is in exactly one place, the free list, one file's live blocks or one file's orphans; the counter is the length of the list; every file has ceil(size / block size) blocks |
| FileSystem.Isolated | sys/fs/file.cpp:155-188 | Writing one file changes nothing another file contains |
| FileSystem.StepRefines | sys/fs/file.cpp:155-260 | Every operation on a file does on the contents of all files what it does on flat byte sequences |
| FileSystem.RunRefines | sys/fs/file.cpp:126-260 | Every run of operations is a run on flat byte sequences with the same contents after it |
| FileSystem.ReadAfterRun | sys/fs/file.cpp:126-153 | A read of any file after any run returns what a read of the flat byte sequence returns after the answering flat run |
| FileSystem.WritesDoNotWrap | sys/fs/file.cpp:155-188 | In a partition of fewer than 2^64 bytes every write of a run does what the 64-bit code does |
| FileSystem.FreshInv | sys/fs/buffer_cache.cpp:22-47 | A server whose partition is divided by the block size starts with every block free |
| FileCode.CopyIn | sys/fs/file.cpp:174-174 | Copies the bytes to their place and changes no other byte |
| FileCode.File.Chunk | sys/fs/file.cpp:170-173 | Where the byte at an offset is, and how many of the wanted bytes lie in the same block |
| FileCode.File.CopyOut | sys/fs/file.cpp:134-143 | The loop of a read returns the bytes of its chunks in order |
| FileCode.File.CopyAll | sys/fs/file.cpp:169-179 | The loop of a write leaves the memory its chunks specify |
| FileCode.BufferCache.constructor | sys/fs/buffer_cache.cpp:22-47 | The loop carves the list of blocks that PartitionTiled and ServersApart are about |
| FileCode.BufferCache.Get | sys/fs/buffer_cache.cpp:56-67 | Takes blocks from the front of the list and counts them, or returns none |
| FileCode.BufferCache.Put | sys/fs/buffer_cache.cpp:69-73 | Puts blocks back at the front of the list and counts them |
| FileCode.File.Grow | sys/fs/file.cpp:88-101 | Appends the missing blocks to the file, or reports failure with file and pool unchanged |
| FileCode.File.Shrink | sys/fs/file.cpp:75-86 | Moves the blocks past the new size to the orphans |
| FileCode.File.Read | sys/fs/file.cpp:126-153 | With the 64-bit sum of the code, the copying loop returns the bytes MachineRead specifies, or would index past the block list |
| FileCode.File.Write | sys/fs/file.cpp:155-188 | With the 64-bit sum of the code, growth and the copying loop leave the memory, pool, blocks and size and return the result MachineWrite specifies, or would index past the block list |
| FileCode.File.Truncate | sys/fs/file.cpp:231-260 | Leaves the specified pool, blocks and size |
| FileCode.File.Close | sys/fs/file.cpp:64-73 | The destructor returns live blocks and orphans to the pool |
| ThreadOwnership.RunSafe | messaging/threading.cpp:35-242 | After every disciplined run, which may create, schedule, notify and switch before threading starts, no context has two owners, the running thread has one, the free lists hold no duplicates, and no disciplined next step fails an assertion |
| ThreadOwnership.StepOk | messaging/threading.cpp:35-252 | Every disciplined step keeps the invariant and fails no assertion |
| ThreadOwnership.MakeContextPools | messaging/threading.cpp:86-105 | Making a context for a live thread never fails either assertion, and its owner is alone with it |
| ThreadOwnership.EnoughContexts | messaging/threading.cpp:95-96 | There are at least as many free contexts as free threads, and more when some live thread has none |
| ThreadOwnership.HandOverOk | messaging/threading.cpp:67-79 | Handing over moves the context of the current thread to the next one, which runs, and ends the current thread; no list and no other thread changes, and ownership stays exclusive |
| ThreadOwnership.SwitchOk | messaging/threading.cpp:146-165 | Switching always finds a context for the next thread, which runs with the one it had if it had one; the thread that was current is dead, and no list and no other thread changes |
| ThreadOwnership.YieldOk | messaging/threading.cpp:199-221 | A yield ends in error if and only if the thread pool has fewer threads than it has to create. Otherwise the first ready thread runs and leaves the list, a runnable caller becomes the last ready one, and no other list and no other thread changes; with nobody ready a runnable caller goes on and everything stays, and for another one a thread runs that was free |
| ThreadOwnership.ScheduleOk | messaging/threading.cpp:193-197 | There is always room in the ready list for a live thread that is in no list |
| ThreadOwnership.WaitOk | messaging/threading.cpp:230-233 | The list of the condition has room; when the wait does not end in error the caller is its last element, the first ready thread runs, or a free one if none is ready, and no other list and no other thread changes |
| ThreadOwnership.NotifyOk | messaging/threading.cpp:235-242 | Notifying moves exactly the first waiting thread to the end of the ready list, does nothing for an empty list, and keeps the invariant |
| ThreadOwnership.CreateOk | messaging/threading.cpp:167-179 | Creation ends in error if and only if the pool is empty; otherwise the new thread was dead, is in no list and has no context |
| ThreadOwnership.SwapOk | messaging/threading.cpp:132-144 | Swapping to a live thread in no list fails no assertion, gives it a context and keeps every other thread as it was |
| ThreadOwnership.MainLoopOk | messaging/threading.cpp:58-84 | A turn of the main loop ends in error if and only if nothing is ready and the pool is empty. Otherwise the thread asked for runs, or the first ready one, which leaves the list, or the last free one; the thread of the loop is dead and nothing else changes |
| ThreadOwnership.EnterMainOk | messaging/threading.cpp:213-220 | Entering the main loop from a yield ends in error exactly when the threads it needs are missing. Otherwise the thread asked for, the first ready one or a free one runs, and no other thread changes: the one created for the loop is gone again |
| ThreadOwnership.StartOk | messaging/threading.cpp:109-121 | Starting ends in error exactly when threads are missing; otherwise the first ready thread, or a free one if none is ready, runs with a context and nothing else changes |
| ThreadOwnership.StopOk | messaging/threading.cpp:123-130 | Stopping ends in error if and only if a thread is ready; otherwise the running thread dies, none is running, and the invariant is kept |
| ThreadOwnership.SwitchToReady | messaging/threading.cpp:146-165 | From every such state without ready threads: a new thread that is scheduled and then switched to while it is still ready can end and is then both the next thread to run and the next one to be created, so switching to a listed thread has to be excluded |
| ThreadOwnership.SwapToListed | messaging/threading.cpp:132-144 | The same for swapping to a thread that is still ready |
| ThreadOwnership.ScheduleWaiting | messaging/threading.cpp:193-197 | From every such state with a waiting thread that has run: scheduling it, as the comment of threadSchedule allows because it is not runnable, lets it run and end while it is still the next thread a notification makes ready |
| ThreadOwnership.WaitsForOther | messaging/threading.cpp:230-233 | A thread that makes another one ready and waits leads to such a state |
| ThreadOwnership.JustStarted | messaging/threading.cpp:109-121 | Right after starting there is a running thread, nothing is ready and more than one thread is free, so these runs exist |
| ThreadOwnership.InitOk | messaging/threading.cpp:24-31 | The initial state satisfies the invariant |
| ThreadCode.Pool.constructor | common/include/pool.hpp:8-13 | All elements are free, once each |
| ThreadCode.Pool.Allocate | common/include/pool.hpp:18-25 | Takes the last free element, or returns NULL exactly when there is none |
| ThreadCode.Pool.Free | common/include/pool.hpp:27-30 | Appends the element to the free list |
| ThreadCode.ThreadList.Push | messaging/include/threading.h:171-182 | Appends to the queue, or refuses exactly when it holds 128 threads |
| ThreadCode.ThreadList.Pop | messaging/include/threading.h:184-188 | Removes the front of the queue and nothing else |
| ThreadCode.ThreadList.Front | messaging/include/threading.h:190-192 | The oldest thread of the queue |
| ThreadCode.Threading.constructor | messaging/threading.cpp:24-31 | Both pools are full, nothing is running or ready |
| ThreadCode.Threading.Create | messaging/threading.cpp:167-179 | On the arrays: the last free thread is taken and has no context, or the call ends in error, as specified by the state function that CreateOk is about |
| ThreadCode.Threading.Destroy | messaging/threading.cpp:45-50 | On the arrays: the thread and its context, if any, go back to their pools, which have room for them |
| ThreadCode.Threading.MakeContext | messaging/threading.cpp:86-105 | On the arrays: the thread owns the last free context, or keeps its own; both assertions of the code hold |
| ThreadCode.Threading.Swap | messaging/threading.cpp:132-144 | The state afterwards is the one SwapOk is about; no thread ends |
| ThreadCode.Threading.Switch | messaging/threading.cpp:146-165 | The state afterwards is the one SwitchOk is about, for every state with the invariant |
| ThreadCode.Threading.EndCurrent | messaging/threading.cpp:154-156 | The current thread, if there is one, and its context go back to their pools, and the thread that is switched to stays alive |
| ThreadCode.Threading.Schedule | messaging/threading.cpp:193-197 | The thread is appended to the ready list and nothing else changes, or the call ends in error because the list is full |
| ThreadCode.Threading.GetRunnable | messaging/threading.cpp:35-43 | The front of the ready list, or a new thread when the list is empty, or an error when there is none |
| ThreadCode.Threading.HandOver | messaging/threading.cpp:67-79 | Moving the context field from the current thread to the next and destroying the current one gives the state HandOverOk is about |
| ThreadCode.Threading.MainLoop | messaging/threading.cpp:58-84 | One turn of the main loop gives the state, or the error, MainLoopOk is about |
| ThreadCode.Threading.EnterMain | messaging/threading.cpp:213-220 | Creating a thread for the main loop, swapping to it and its first turn give the state, or the error, EnterMainOk is about |
| ThreadCode.Threading.Yield | messaging/threading.cpp:199-221 | The state afterwards, or the error, is the one YieldOk is about |
| ThreadCode.Threading.SwapToReady | messaging/threading.cpp:212-220 | The first ready thread is taken off the list and runs, through the main loop if it has no context; or the call ends in error |
| ThreadCode.Threading.CondWait | messaging/threading.cpp:230-233 | The current thread joins the end of the list of the condition, unless that is full, and yields |
| ThreadCode.Threading.CondNotify | messaging/threading.cpp:235-242 | The first thread of the list leaves it and becomes ready, or scheduling it ends in error; an empty list changes nothing |
| ReaderWriterLock.Exclusion | libs/utilities/lock.c:32-88 | For any number of threads and any interleaving of single steps: while one thread writes no other writes or reads, and num_readers is the number of threads between their increment and decrement |
| ReaderWriterLock.StepInv | libs/utilities/lock.c:32-88 | Every step keeps: one holder of the spin lock if it is taken, loaded counts up to date, no readers while someone writes |
| ReaderWriterLock.SomebodyCanGo | libs/utilities/lock.c:32-88 | Whenever some thread is inside a call, some thread can take a step |
| ReaderWriterLock.WriteGranted | libs/utilities/lock.c:70-83 | With the spin lock free, AcquireWrite alone holds the lock after two steps if no thread is inside, and otherwise spins again after three, nothing else being changed |
| ReaderWriterLock.TryWriteGranted | libs/utilities/lock.c:57-68 | TryWrite alone holds the lock if the spin lock is free and no thread is inside; otherwise, and only then, it fails and changes nothing |
| ReaderWriterLock.ReadGranted | libs/utilities/lock.c:32-47 | TryRead fails, changing nothing, only if the spin lock is taken; otherwise it and AcquireRead, alone, end with the thread reading, the count one higher and the spin lock free |
| ReaderWriterLock.ReadReleased | libs/utilities/lock.c:49-55 | ReleaseRead alone ends with the thread outside, the count one lower and the spin lock free |
| ReaderWriterLock.WriteReleased | libs/utilities/lock.c:85-88 | ReleaseWrite frees the spin lock in one step and leaves the count |
| ReaderWriterLock.HolderUndisturbed | libs/utilities/lock.c:32-88 | Whatever other threads do, a thread that holds the spin lock keeps it and finds the count unchanged, so a call decides by the count it found |

## Left out

- Channels with several senders, endpoints, accept and connect, and the dispatcher.
- The scratch, SSE, prefetch and NO_ALLOCATOR variants of the channel, memory fences, and shared memory set-up: every shared write is one step in program order.
- Nodes of type E_RANGE, E_CHOICE and E_LIST, and the freeing and counting of nodes in expr.c; formulas are values and not nodes that are relinked, so the model does not capture sharing of nodes.
- KconfigMenu.TransCompareSound: only for targets y and n; for m the code hands chains on unchanged, and nothing is promised.
- KconfigKeys.ExprEqExact: not for formulas with an operand y or n, which folding removes before; with them `expr_eq` also finds formulas equal that fold to the same constant.
- KconfigDups.Dups2Sharper: not equality of values, because the second pass does change a formula that is m; `AbsorbExact` says when.
- ConfigText.ReadInPlace: a last line that is a single # without a newline, for which the code looks at bytes of the line before it.
- Warnings about unknown or repeated symbols, choices, and S_INT and S_HEX values in configuration files; the header file written beside the configuration.
- HalfChannelCode.HalfChannel.Allocate: its precondition says that the collections inside it stop within some number of turns; `AllocateRefines` proves that of every reachable state.
- RedBlackHeap.DeleteRecursive: for an element the search finds, its precondition says that the repairs do not fail; `DeleteRecursiveSound` proves that of every tree with the colour rules.
- The other containers and sorts of sglib.h.
- Quicksort.Sort: indices are unbounded integers, while the macro uses int.
- TreeWalk.MapOnElements: the command is any change to the fields of the element it is given and to nothing else.
- FileSystem.RunRefines: sizes and offsets are unbounded; for a partition below 2^64 bytes `WritesDoNotWrap` shows that the writes are those of the 64-bit code, and `MachineReadExact` says which reads are.
- File::blocks, File::capacity, the size setter, zeroing of new blocks, time stamps, directories, pipes and links.
- The partition size of the buffer cache as a 32-bit int.
- What is on the stack of a context: a context is a token that can be owned.
- ThreadOwnership.RunSafe: a thread whose target returns outside the main loop ends the process; the model lets it go on to the main loop, which only adds runs.
- The links a destroyed thread still holds: a dead thread has no context in the model, while the code leaves its field as it was.
- The spin lock itself: acquiring it is one atomic step, and fairness is not modelled.
