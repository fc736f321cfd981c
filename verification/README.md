# Verified models of the vendored command-line and async cores

The repository vendors two libraries whose state handling is delicate: click's command line (`apps/api/pkgs/click`)
and anyio's run-time helpers (`apps/api/pkgs/anyio`). This project models their hardest parts and proves what they
keep. Everything is checked by `dafny verify dfyconfig.toml`.

* **Command line.** `Unpack` is the two-ended distribution of positionals; `Parser` the option parser as functions
  from state to state, with `OptionParser` the same as objects updated in place; `ParserLaws`, `UnknownLaws`,
  `ParseLaws` and `Spelling` its invariants, conservation and spelling equivalences; `CommandLines` the round trip from
  what is written to what is read, `Refusals` what is refused; `Chain` the chain loop of `Group.invoke`.
* **Parameters.** `ParamOrder` is the processing order; `Arbitration` and `ArbitrationLaws` are `process_value`,
  `handle_parse_result` and the loop of `parse_args`, where parameters compete for one name; `RequiredLaws` says which
  values are taken and refused, and `CommandParams` ties all this to the parser's result.
* **Contexts.** `ContextStack` and `ContextObject` are the thread's stack, depths, scopes and close callbacks.
* **Cache.** `OrderedDict`, `Cache`, `CacheFlights`, `CacheOrder`, `CacheRecency`, `CacheObject` and `CacheKey`
  are `AsyncLRUCacheWrapper`: the code between two awaits is one atomic step, the lock an abstract mutex.
* **Worker processes.** `ProcessPool` is checkout, pruning and return; `ReplyFraming` the reply protocol with the
  buffered stream that reads it.
* **Portal.** `Portal` is the reference-counted `BlockingPortalProvider`, with the shutdown outside the lock.
* **Small pieces.** `RunVars` is `RunVar` with its tokens; `ShortHelp` is `make_default_short_help`.
* **Shared.** `CliValues` holds values, options and errors; `Subsequences` holds facts about sequences.

## How to read it

Code that updates state is a class with methods; each method's contract gives the whole new state through a
specification function (`Parser.OptionStep`, `AsyncCache.Acquire`, `ContextStack.Exit` and so on), and what the source
promises is then proved about runs of those functions. A `Main result` comment marks the theorems.

## Where the code departs from what it says

* `parser.py:370-373` says that an injected value is always fully consumed, and `parser.py:339-357` states the
  invariant that rests on it. Both hold exactly for parsers whose value-taking options have `nargs` 1, or `nargs` above 1
  and a value that cannot be omitted (`ConservationExactly`). An option that may omit its values and needs several
  leaves the injected text behind as a positional. With unknown options ignored the condition is narrower
  (`UnknownConservationExactly`), because the unknown letters of a cluster become a new token.
* In resilient parsing a callback that raises skips the restoration in `core.py:2469-2478`. Names that were unset stay
  None, and a later parameter of the same name loses its value (`RunSettles`, `RaisingCallbackLosesValue`).
* `Context.__exit__` does not pop the stack when a close callback raises (`StackRestoredExactly`, `ExitPopsExactly`).
* The bounded cache can evict the entry of a key that a call is still busy with, and the cache with a ttl can renew one.
  These two steps are exactly what makes the cache compute a key twice at once or raise KeyError (`HarmlessNeverFails`,
  `HarmfulCanFail`). A failed call leaves `_currsize` and its placeholder behind (`SizeExactly`, `RetryDriftsExactly`).
* Pruning the worker pool kills expired workers without the guard for exited ones that `to_process.py:82-87` has. When
  one of them has exited, the call fails and two workers stay in the set for good (`CheckOutPrunes`, `CheckOutBreaks`).
* `to_process.py:156` reads the worker's greeting with one `receive`, which may return less than it asks for. A worker
  whose greeting comes in pieces is then given up (`FirstCall`).
* `BlockingPortalProvider` documents exactly one running portal while threads are inside. A second one can be
  shutting down at that time (`OnlyOneExactly`, `TwoAtOnce`), and a failed start-up blocks the provider for good
  (`FailedStartPoisons`).
* `RunVar.set` accepts NO_VALUE_SET as a value; a later reset takes it for absence (`MapRestoredExactly`).

## Model

| member | source | states |
|---|---|---|
| Unpack.UnpackArgs | apps/api/pkgs/click/parser.py:51-108 | the loop over the `nargs` list, popping at either end and turning the back slots round, returns exactly the declarative split for every argument list and every `nargs` list, zero entries and a second wildcard included |
| Unpack.FetchMany | apps/api/pkgs/click/parser.py:68-88 | fetching n values pops them one by one from the chosen end and yields UNSET once they run out |
| Unpack.TakeSlot | apps/api/pkgs/click/parser.py:83-92 | one slot: a single value, or a tuple that is turned round when it was read from the back |
| Unpack.SplitConserves | apps/api/pkgs/click/parser.py:51-108 | the strings in the slots followed by the rest are the arguments: none invented, dropped, duplicated or moved |
| Unpack.SplitFailsExactly | apps/api/pkgs/click/parser.py:94-96 | the split fails (Python's TypeError) if and only if two entries are negative |
| Unpack.SlotIsSlice | apps/api/pkgs/click/parser.py:51-108 | each slot by position: slots before the wildcard hold arguments counted from the front, slots after it arguments counted from the back in original order, the wildcard what lies between |
| Unpack.WildcardFull | apps/api/pkgs/click/parser.py:51-108 | a wildcard that receives anything implies that no slot holds UNSET |
| Parser.SplitOpt | apps/api/pkgs/click/parser.py:111-117 | prefix and remainder make up the option name; the prefix is empty exactly before a letter, a digit or nothing, double where the name repeats its first character, and otherwise single |
| Parser.StepWeight | apps/api/pkgs/click/parser.py:323-337 | with a token weighing its length plus one, every pass of the option loop strictly lowers the weight of `rargs` and never raises that of `largs` and `rargs` together, for any registered table |
| Parser.MatchShortWeight | apps/api/pkgs/click/parser.py:389-427 | a cluster gives back less than it takes even when it reports unknown letters in `largs` and re-injects a tail into `rargs` |
| Parser.FindEquals | apps/api/pkgs/click/parser.py:474-477 | the name ends at the first `=` |
| ParserLaws.AddOptionValid | apps/api/pkgs/click/parser.py:261-284 | `add_option` refuses exactly the names without an option prefix, and otherwise keeps short names, long names and prefixes consistent |
| ParserLaws.BuiltValid | apps/api/pkgs/click/parser.py:261-292 | whatever is declared on a new parser, in any order, the tables stay consistent |
| ParserLaws.BuiltFinds | apps/api/pkgs/click/parser.py:261-292 | a parser knows every name as the last option declared with it and no other name, knows the two prefixes it starts with and those of its names, and has its arguments in order of declaration |
| ParserLaws.HeadsKeepInvariant | apps/api/pkgs/click/parser.py:339-357 | for parsers that meet the condition of ConservationExactly, at every loop head of every run `rargs` is a tail of the original arguments, optionally behind one re-injected piece that looks like an option, and, with `ignore_unknown_options` off, `largs` is a subsequence of what was read, empty when interspersing is off |
| ParserLaws.LoopConserves | apps/api/pkgs/click/parser.py:323-357 | under the same condition a successful run leaves `rargs` an exact tail of the arguments and, with `ignore_unknown_options` off, `largs` a subsequence of what came before it |
| ParserLaws.ConservationExactly | apps/api/pkgs/click/parser.py:369-377 | with `ignore_unknown_options` off, every successful run on every argument list conserves positionals if and only if each value-taking option that a command line can reach has `nargs` 1, or `nargs` above 1 and a value it cannot omit: the exact condition under which an injected value is fully consumed |
| ParserLaws.LoopConservesChars | apps/api/pkgs/click/parser.py:323-427 | for every parser, also with unknown options ignored and also when parsing fails, the text of `largs` and `rargs` arises from that of the arguments by deleting characters |
| UnknownLaws.UnknownConservationExactly | apps/api/pkgs/click/parser.py:389-427 | with `ignore_unknown_options` on, every successful run conserves positionals if and only if no unknown letter can share a cluster with a short option, no flag can open a cluster, and every value-taking option that can be reached has a value it cannot omit |
| UnknownLaws.CarefulLoop | apps/api/pkgs/click/parser.py:323-337 | for such parsers the positionals and what is left to read are, at the end, a subsequence of those at any loop head |
| UnknownLaws.LoopCollects | apps/api/pkgs/click/parser.py:323-337 | in every successful run the positionals are, in order, the words read and what the option tokens pass on: unknown long options whole, and every unknown letter of a cluster, also where an option behind it takes the rest |
| UnknownLaws.FreeInvents | apps/api/pkgs/click/parser.py:422-427 | an unknown letter in front of an option in a cluster makes a positional that was not on the command line |
| UnknownLaws.FlagInvents | apps/api/pkgs/click/parser.py:422-427 | so does a flag in front of unknown letters |
| UnknownLaws.LongOmits | apps/api/pkgs/click/parser.py:450-460 | so does a long option that may omit its one value |
| UnknownLaws.ShortOmits | apps/api/pkgs/click/parser.py:405-412 | so does a short one |
| ParseLaws.ProcessArgumentsRecords | apps/api/pkgs/click/parser.py:317-318 | every declared argument accepts its slot and is recorded once, in declaration order; destinations of no argument keep their values |
| ParseLaws.ProcessArgumentsStores | apps/api/pkgs/click/parser.py:187-209 | each destination holds the value of the last argument declared for it, from that argument's own slot |
| ParseLaws.ArgumentPhaseConserves | apps/api/pkgs/click/parser.py:312-321 | the positional phase hands out `largs` followed by `rargs`, all of it, once and in order; the destinations show all of it if and only if no argument that received something shares its destination with a later one |
| ParseLaws.ParseConserves | apps/api/pkgs/click/parser.py:294-321 | after a successful `parse_args` the positional values in declaration order followed by the leftovers are a subsequence of the command line, for parsers that meet the condition of ConservationExactly, or with unknown options passed on that of UnknownConservationExactly |
| CommandLines.FetchConserves | apps/api/pkgs/click/parser.py:429-467 | a fetch of `nargs` >= 1 fails exactly when there are too few tokens and the value may not be omitted; an omitted value leaves `rargs` alone, and any other holds the first `nargs` tokens in order, as a text or a tuple, and leaves the rest |
| CommandLines.LoopReads | apps/api/pkgs/click/parser.py:323-499 | the option loop reads a line of options, values and words as it was written: words collected in order, each destination with the last, all or the number of the values given for it, options recorded in order of use |
| CommandLines.ParsesBack | apps/api/pkgs/click/parser.py:294-321 | round trip: options with their values and the words for the arguments, written out in any order, parse back to exactly what was written: every destination and no other, the arguments' shares, the leftovers and the order |
| Refusals.TokenRefused | apps/api/pkgs/click/parser.py:303-310 | a parse that comes to an option token that is unknown, has a value where none is taken or too few values ends there: the error is raised, or in resilient parsing what was collected is returned |
| Refusals.LetterRefused | apps/api/pkgs/click/parser.py:389-404 | so does one that comes to a cluster with an unknown letter behind flags; resilient parsing keeps what the flags have set |
| Refusals.ClashRefused | apps/api/pkgs/click/parser.py:165-178 | a flag that counts on, or appends to, a destination of another kind raises Python's own error, in resilient parsing too |
| Refusals.ReturnedIsComplete | apps/api/pkgs/click/parser.py:294-321 | outside resilient parsing a parse that returns has processed every declared argument, in order and last, and none shows an incomplete tuple |
| Refusals.IncompleteRefused | apps/api/pkgs/click/parser.py:187-203 | words that end in the middle of an argument's tuple are refused in that argument's name, or swallowed in resilient parsing |
| Refusals.TwoUnlimited | apps/api/pkgs/click/parser.py:94-96 | two unlimited arguments raise TypeError, in resilient parsing too |
| Spelling.LongSpelling | apps/api/pkgs/click/parser.py:359-387 | `name=value` and `name value` lead to the same outcome, with omitted values and errors included |
| Spelling.ClusterSpelling | apps/api/pkgs/click/parser.py:389-427 | `-abcVALUE` and `-a -b -c VALUE` lead to the same outcome, and so do a cluster of flags and its flags one by one (Guideline 5 of section 12.2 of IEEE Std 1003.1-2017) |
| Spelling.DashDash | apps/api/pkgs/click/parser.py:327-330 | what precedes an effective `--` is parsed as if nothing followed, and all that follows is handed on verbatim (Guideline 10), for parsers whose value-taking options have `nargs` 0 or 1, or more and a value they cannot omit |
| Spelling.DashDashExactly | apps/api/pkgs/click/parser.py:327-330 | that condition, read of the options a command line can reach, is exact: any other parser, with the default settings or else without a long option that is a prefix alone, has a command line on which what follows the `--` changes what precedes it |
| OptionParserObjects.ParsingState.constructor | apps/api/pkgs/click/parser.py:212-217 | a parse starts with nothing collected and all arguments to read |
| OptionParserObjects.OptionParser.constructor | apps/api/pkgs/click/parser.py:237-259 | a new parser knows `-` and `--` and no options |
| OptionParserObjects.OptionParser.AddOption | apps/api/pkgs/click/parser.py:261-284 | the two loops over the names register exactly what the specification registers, or nothing at all |
| OptionParserObjects.OptionParser.AddArgument | apps/api/pkgs/click/parser.py:286-292 | an argument joins the end of the list |
| OptionParserObjects.OptionParser.Process | apps/api/pkgs/click/parser.py:165-178 | the state after one option is processed, for all five actions |
| OptionParserObjects.OptionParser.GetValueFromState | apps/api/pkgs/click/parser.py:429-467 | the value fetched and what remains of `rargs`, or the error with the state untouched |
| OptionParserObjects.OptionParser.MatchLongOpt | apps/api/pkgs/click/parser.py:359-387 | long options in place: injection, fetch, process |
| OptionParserObjects.OptionParser.MatchShortOpt | apps/api/pkgs/click/parser.py:389-427 | the loop over the letters of a cluster, with its early stop, leaves the state the recursive specification gives |
| OptionParserObjects.OptionParser.ProcessOpts | apps/api/pkgs/click/parser.py:469-499 | a long match is tried first, and a failed one falls back to letters, an error or `largs` |
| OptionParserObjects.OptionParser.ProcessArgsForOptions | apps/api/pkgs/click/parser.py:323-337 | the loop over `rargs` ends, for every parser and every list, in the specified state |
| OptionParserObjects.OptionParser.ProcessArgsForArgs | apps/api/pkgs/click/parser.py:312-321 | the positional phase in place |
| OptionParserObjects.OptionParser.ParseArgs | apps/api/pkgs/click/parser.py:294-310 | a whole parse: the outcome, and that resilient parsing swallows usage errors only |
| Chain.LeftoversTail | apps/api/pkgs/click/parser.py:294-310 | what a parser leaves over is a tail of `largs` and `rargs`, or the collected `largs` after a swallowed error |
| Chain.LeftoversWeight | apps/api/pkgs/click/parser.py:294-310 | what a parser leaves over never weighs more than what it was given |
| Chain.MakeContexts | apps/api/pkgs/click/core.py:1887-1899 | the first loop makes the contexts of the chain in order, up to the first error |
| Chain.InvokeChain | apps/api/pkgs/click/core.py:1887-1905 | the loop over the remaining arguments ends for every list; every context is made before any command is invoked, and none is invoked if one cannot be made; one result per resolved command, in order |
| Chain.SubLeftovers | apps/api/pkgs/click/core.py:1888-1899 | what a chained command leaves over is a tail of what it was given, nothing after a swallowed error, if its parser meets the condition of ConservationExactly with `ignore_unknown_options` off |
| Chain.ChainSegments | apps/api/pkgs/click/core.py:1887-1899 | for such commands the command line is cut into consecutive segments, one per command and in order, each beginning with its command's name, that concatenate to the whole line |
| Chain.SegmentsParse | apps/api/pkgs/click/core.py:1887-1899 | conversely, segments put together are read back as exactly those invocations, and what stops the chain behind them (an unknown name, help asked for, a usage error, arguments the command rejects) is the answer |
| ParamOrder.SortedPermutes | apps/api/pkgs/click/core.py:116-140 | the processing order is a permutation of the declarations |
| ParamOrder.SortedByKey | apps/api/pkgs/click/core.py:116-140 | eager parameters precede the others, and an earlier first invocation precedes a later one or none |
| ParamOrder.SortedStable | apps/api/pkgs/click/core.py:116-140 | parameters with equal keys keep their order of declaration, repeated ones included |
| ParamOrder.SortedIsProcessingOrder | apps/api/pkgs/click/core.py:116-140 | for distinct declarations the sorted list is: eager before others, in each group the invoked ones by first invocation and then the rest as declared |
| ParamOrder.OrderUnique | apps/api/pkgs/click/core.py:116-140 | only one arrangement of the same parameters has that order |
| Arbitration.Context.Process | apps/api/pkgs/click/core.py:2398-2480 | `process_value` in place: conversion, missing values, and the callback under hidden unset names, with what it leaves in `ctx.params` when it raises |
| Arbitration.Context.HandleResult | apps/api/pkgs/click/core.py:2581-2607 | `handle_parse_result` in place: errors propagate or, in resilient parsing, turn into UNSET; the name is written only if it is absent or unset |
| Arbitration.Context.HideUnset | apps/api/pkgs/click/core.py:1229-1240 | the loop over the items turns every UNSET into None and changes nothing else |
| Arbitration.Context.ParseArgs | apps/api/pkgs/click/core.py:1226-1240 | the parameter loop, stopping at the first error, and the final pass |
| ArbitrationLaws.NoCallbackSeesUnset | apps/api/pkgs/click/core.py:2443-2468 | in any run, resilient or not and whatever its callbacks do, none is given UNSET, neither in the map nor as its value, since the constructor leaves no boolean flag unset |
| ArbitrationLaws.ProcessKeepsExactly | apps/api/pkgs/click/core.py:2449-2478 | with a callback that leaves `ctx.params` alone, the map comes back unless the callback raised while unset names were hidden |
| ArbitrationLaws.RunSettles | apps/api/pkgs/click/core.py:2464-2478 | for any callbacks, also such as rewrite `ctx.params`: a name ends with what the last callback rewriting it left, if that is a value, and otherwise with the first value set from there on, unless a raising callback came between; and it is unset at the end exactly when it was left unset or first written since then and neither happened |
| ArbitrationLaws.FirstValueExactly | apps/api/pkgs/click/core.py:2593-2605 | a name that no callback rewrites is present exactly when an exposed parameter carries it, and shows the first value set, or None, unless a raising callback came between the first writer and that value and the value was not None |
| ArbitrationLaws.SeenByCallback | apps/api/pkgs/click/core.py:2449-2463 | what a later callback is shown is what those rules make of the parameters processed before it, in any run |
| ArbitrationLaws.ParsedParams | apps/api/pkgs/click/core.py:1226-1240 | after `parse_args`, resilient or not, no UNSET is left; a name that no callback rewrites is there exactly when an exposed parameter carries it, and holds the first value set in processing order, or None, but for what resilient parsing loses |
| RequiredLaws.FailsExactly | apps/api/pkgs/click/core.py:2398-2447 | outside resilient parsing a run fails exactly at its last step, because the parameter is refused (a value that does not convert, or none although one is required) or because its callback raises |
| RequiredLaws.FailsIfRefused | apps/api/pkgs/click/core.py:2416-2441 | with callbacks that do not raise, or none, it fails if and only if some parameter is refused, whatever the order |
| RequiredLaws.RequiredHaveValues | apps/api/pkgs/click/core.py:2440-2441 | in a run that has not failed every required parameter has a value that is neither unset nor, with several values, empty; so has its callback been given one |
| RequiredLaws.MissingFails | apps/api/pkgs/click/core.py:2440-2441 | a run fails where a required parameter is given nothing on the command line and has no fallback |
| RequiredLaws.CallbacksAnswer | apps/api/pkgs/click/core.py:2443-2468 | every callback is asked with the processed value of its own parameter, None for unset, and its answer is what the parameter's step has |
| CommandParams.WholeParse | apps/api/pkgs/click/core.py:1219-1240 | from command line to `ctx.params`: the parser's invocations make the processing order, the parser's values are consumed, and each name that no callback rewrites ends as in ParsedParams |
| CommandParams.AloneKeepsValue | apps/api/pkgs/click/core.py:1219-1240 | a parameter without callback, alone with a name that no callback rewrites, ends with what the parser stored for it, or its fallback, converted; with None where resilient parsing swallows that it fails |
| CommandParams.ArgumentReaches | apps/api/pkgs/click/core.py:1219-1240 | a positional argument alone with such a name ends with what the split of the positionals gave it, read and converted, in resilient parsing too |
| CommandParams.LineReaches | apps/api/pkgs/click/core.py:1219-1240 | from end to end: a parameter alone with such a name ends, once its line was written and parsed, with what the line supplies for it (the values of its option, the share of its argument), read and converted, or with its fallback |
| CommandParams.CommandFailsExactly | apps/api/pkgs/click/core.py:1226-1240 | outside resilient parsing a command whose callbacks do not raise fails if and only if it refuses one of its declared parameters |
| CommandParams.StepValue | apps/api/pkgs/click/core.py:2297-2342 | each step of a parse that succeeds has the converted value of its own parameter, or UNSET where resilient parsing swallows that it fails |
| CommandParams.RaisingCallbackLosesValue | apps/api/pkgs/click/core.py:2582-2605 | a concrete resilient parse in which a value given for a name is lost because another callback raised |
| ContextStack.DepthsRestored | apps/api/pkgs/click/core.py:476-531 | for every nest of `with`, `scope`, registering, closing, raising and catching, over any number of contexts, every depth comes back |
| ContextStack.StackGrowth | apps/api/pkgs/click/globals.py:44-51 | nothing below the entry point is popped, and each exit whose callbacks raise leaves one context behind |
| ContextStack.StackRestoredExactly | apps/api/pkgs/click/core.py:481-493 | over any run the stack comes back if and only if, at each exit the run comes to, the context is not at its outermost or its earliest registered entry that is not quiet does not raise |
| ContextStack.UnwindExactly | apps/api/pkgs/click/core.py:635-639 | closing raises if and only if the earliest registered entry that is not quiet is one that raises |
| ContextStack.ExitPopsExactly | apps/api/pkgs/click/core.py:481-493 | an exit pops its context unless it is the outermost one and closing raises, read from what is registered before it |
| ContextStack.EscapesExactly | apps/api/pkgs/click/core.py:481-531 | over any run an exception comes out exactly if the code raises it or a close callback does, and nothing catches it and no outermost block it passes has something registered that is not quiet |
| ContextStack.SuppressedExactly | apps/api/pkgs/click/core.py:635-639 | closing suppresses exactly if some registered resource does |
| ContextStack.CalmRunRestores | apps/api/pkgs/click/core.py:476-493 | where no registered callback raises, the stack comes back whatever the code itself raises |
| ContextStack.RaisingCloseLeaves | apps/api/pkgs/click/core.py:487-493 | a concrete block after which its context is still current |
| ContextStack.RunDisciplined | apps/api/pkgs/click/core.py:604-639 | over any run each context's callbacks run last first, each registration at most once, and those not run are exactly the pending ones |
| ContextStack.NestedDefers | apps/api/pkgs/click/core.py:518-531 | while a context is entered outside, nothing inside runs its callbacks unless it closes the context by name; they are collected in order |
| ContextStack.NoCleanupDefers | apps/api/pkgs/click/core.py:524-531 | a `scope(cleanup=False)` runs no callback as it ends, at any depth and whatever its body does; so none runs at all unless the body closes the context by name |
| ContextStack.OutermostRunsAll | apps/api/pkgs/click/core.py:487-493 | the outermost block runs, as it ends, every callback then pending, last first, however its body ends, and leaves nothing registered; unless the body closes the context by name these are all that were pending before or registered inside; `scope()` is the same as `with ctx` |
| ContextObjects.Local.PushContext | apps/api/pkgs/click/globals.py:44-46 | pushing appends to the thread's stack |
| ContextObjects.Local.PopContext | apps/api/pkgs/click/globals.py:49-51 | popping removes the last context, or fails on an empty stack |
| ContextObjects.Context.Enter | apps/api/pkgs/click/core.py:476-479 | depth and stack grow by one |
| ContextObjects.Context.CallOnClose | apps/api/pkgs/click/core.py:604-614 | the callback joins the end of the exit stack |
| ContextObjects.Context.CloseWithExceptionInfo | apps/api/pkgs/click/core.py:623-639 | the loop that unwinds the exit stack runs every entry, last first, and leaves it empty |
| ContextObjects.Context.Exit | apps/api/pkgs/click/core.py:481-493 | depth falls by one, callbacks run at zero, and the stack is popped unless they raised |
| ContextObjects.Execute | apps/api/pkgs/click/core.py:476-531 | user code over the objects does to their fields what the model's run does to its state |
| AsyncCache.UnboundedCoherent | apps/api/pkgs/anyio/functools.py:171-221 | with `maxsize=None` and no ttl, under every interleaving, failure and cancellation: at most one wrapped call per key in flight, at most one success per key, every completed call returns that value, `_misses` counts the calls started and `_hits` the calls served without computing |
| AsyncCache.BeginExactly | apps/api/pkgs/anyio/functools.py:171-199 | exactly when starting a call keeps waiting calls and placeholders in agreement, for any `maxsize` and any ttl |
| AsyncCache.AcquireExactly | apps/api/pkgs/anyio/functools.py:201-210 | exactly when acquiring the lock does, eviction included |
| AsyncCache.StepKeepsLocksExactly | apps/api/pkgs/anyio/functools.py:171-221 | for any `maxsize` and any ttl, a step keeps calls and placeholders in agreement if and only if it is harmless: it neither evicts a busy key's entry nor renews a busy key's expired one |
| CacheFlights.HarmlessNeverFails | apps/api/pkgs/anyio/functools.py:171-221 | for any `maxsize`, any ttl and any interleaving, failures and cancellations included: a run whose steps are all harmless has at most one wrapped call per key in flight and no KeyError |
| CacheFlights.HarmfulCanFail | apps/api/pkgs/anyio/functools.py:184-210 | conversely, whatever harmless run comes before, an enabled step that is not harmless can be continued to two wrapped calls of one key in flight or a KeyError |
| CacheFlights.AlwaysOwned | apps/api/pkgs/anyio/functools.py:178-189 | in every reachable state, harmful steps included, a lock belongs to one key: calls at one lock have one key, and no two placeholders share a lock |
| CacheFlights.CurrsizeBounded | apps/api/pkgs/anyio/functools.py:204-208 | in every run `_currsize` never exceeds `maxsize` |
| CacheOrder.EntriesInOrder | apps/api/pkgs/anyio/functools.py:171-221 | in every run, for any `maxsize`, any ttl and any interleaving, the entries stand in the order of their last touches, where an insertion, a hit before the lock and a hit under it are touches and a renewal is none |
| CacheOrder.EvictsOldest | apps/api/pkgs/anyio/functools.py:204-206 | so in every run an eviction removes the one entry touched longest ago, and no other step removes any |
| AsyncCache.EvictionRunsTwice | apps/api/pkgs/anyio/functools.py:205-206 | a concrete bounded run with two wrapped calls of one key in flight |
| AsyncCache.EvictionLosesKey | apps/api/pkgs/anyio/functools.py:203 | a concrete bounded run in which a waiting call meets a KeyError |
| AsyncCache.ExpiryRunsTwice | apps/api/pkgs/anyio/functools.py:184-191 | a concrete run with a ttl in which a waiter on the old lock and the holder of the new one compute side by side |
| CacheRecency.CallRefines | apps/api/pkgs/anyio/functools.py:142-221 | a call that runs alone and does not fail does to the entries exactly what a recency list prescribes: a live record moves to the end, a stale one is renewed in place, a new one is appended at the cost of the first when full; and it counts one hit or one miss |
| CacheRecency.VictimIsOldest | apps/api/pkgs/anyio/functools.py:205-206 | in a full cache a new key drives out exactly the record touched longest ago |
| CacheRecency.ServeAgrees | apps/api/pkgs/anyio/functools.py:142-221 | over any sequence of such calls each returns what the wrapped function would, `_currsize` equals the number of entries and is at most `maxsize`, the entries stand in order of last touch, and hits and misses add up to the calls |
| CacheRecency.SizeExactly | apps/api/pkgs/anyio/functools.py:203-214 | when calls may fail, `_currsize` goes on counting the entries if and only if the call does not meet a placeholder left behind by a failed one, save where it evicts and restores that placeholder |
| CacheRecency.RetryDriftsExactly | apps/api/pkgs/anyio/functools.py:205-210 | a call for a new key that fails and is made again leaves `_currsize` one too high if and only if `maxsize` is not 1 (nor 0) |
| CacheObject.AsyncLRUCacheWrapper.constructor | apps/api/pkgs/anyio/functools.py:106-122 | a new cache; a negative `maxsize` counts as 0 |
| CacheObject.AsyncLRUCacheWrapper.BeginCall | apps/api/pkgs/anyio/functools.py:142-199 | the stretch up to the first await, on the fields |
| CacheObject.AsyncLRUCacheWrapper.LockAcquired | apps/api/pkgs/anyio/functools.py:201-210 | the stretch from the lock to the wrapped call |
| CacheObject.AsyncLRUCacheWrapper.WrappedReturned | apps/api/pkgs/anyio/functools.py:211-221 | the stretch after the wrapped call returned |
| CacheObject.AsyncLRUCacheWrapper.Abandoned | apps/api/pkgs/anyio/functools.py:201-210 | nothing is undone when the wrapped call raises |
| CacheObject.AsyncLRUCacheWrapper.CallAlone | apps/api/pkgs/anyio/functools.py:142-221 | a whole undisturbed call returns the wrapped function's value and refines the recency list |
| CacheObject.AsyncLRUCacheWrapper.CacheInfo | apps/api/pkgs/anyio/functools.py:124-127 | the five numbers reported |
| CacheKey.EqualKeys | apps/api/pkgs/anyio/functools.py:149-158 | equal keys imply equal calls, if callers do not pass the sentinel |
| CacheKey.SameKeys | apps/api/pkgs/anyio/functools.py:149-158 | equal calls get equal keys |
| CacheKey.KeyDecides | apps/api/pkgs/anyio/functools.py:149-158 | so keys are equal if and only if positional values, ordered keyword arguments and, in typed mode, all types agree |
| CacheKey.SentinelCollides | apps/api/pkgs/anyio/functools.py:150-152 | with the sentinel as an argument two different calls share a key |
| OrderedDict.PutValid | apps/api/pkgs/anyio/functools.py:181 | a store keeps keys distinct and in step with the values |
| OrderedDict.MoveToEndValid | apps/api/pkgs/anyio/functools.py:195 | so does moving a key to the end |
| OrderedDict.PopFirstValid | apps/api/pkgs/anyio/functools.py:206 | so does popping the first |
| ProcessPool.WorkerPool.Checkout | apps/api/pkgs/anyio/to_process.py:116-147 | the search from the right for a live process and the pruning from the left, in place, with a kill that raises for an exited worker: which process is found, which are killed, what remains, and that `workers.remove` does not fail |
| ProcessPool.WorkerPool.Prune | apps/api/pkgs/anyio/to_process.py:130-139 | the inner loop removes the idle workers before the first young one, or breaks off at the first that has exited, which is then off the deque but still a worker |
| ProcessPool.WorkerPool.GiveBack | apps/api/pkgs/anyio/to_process.py:185-187 | a process goes back to the right end, and only while it is still a worker |
| ProcessPool.WorkerPool.Discard | apps/api/pkgs/anyio/to_process.py:80-82 | a broken process is no longer a worker |
| ProcessPool.WorkerPool.Add | apps/api/pkgs/anyio/to_process.py:180 | a started process becomes a worker |
| ProcessPool.AlwaysSound | apps/api/pkgs/anyio/to_process.py:116-187 | in every reachable state, with processes exiting at any time and checkouts broken off by them: idle workers are distinct, are workers, are not in use and are sorted by idle time; no process serves two tasks; every worker is idle, in use or lost, and no killed process is one |
| ProcessPool.CheckOutOwned | apps/api/pkgs/anyio/to_process.py:116-147 | a checkout keeps that ownership, completed or broken off |
| ProcessPool.FinishedOwned | apps/api/pkgs/anyio/to_process.py:182-187 | so does finishing a call |
| ProcessPool.CheckOutBreaks | apps/api/pkgs/anyio/to_process.py:136-138 | a checkout that breaks off loses the exited worker and the live one it had found: both stay workers for good |
| ProcessPool.ExitedWorkerBreaks | apps/api/pkgs/anyio/to_process.py:136-138 | a concrete run after which a checkout raises: of two idle workers the expired one has exited |
| ProcessPool.CheckOutPrunes | apps/api/pkgs/anyio/to_process.py:116-147 | in every reachable state a checkout ends without raising if and only if no worker before the first young one has exited; then it obtains the most recently used live process and leaves no idle worker at or over the limit |
| ReplyFraming.WriteReplies | apps/api/pkgs/anyio/to_process.py:257-258 | the writer's loop produces the concatenated frames |
| ReplyFraming.DecodeEncoded | apps/api/pkgs/anyio/to_process.py:72-79 | reading a written frame, with any bytes behind it, gives the frame and those bytes |
| ReplyFraming.ParseWritten | apps/api/pkgs/anyio/to_process.py:257 | decimal lengths survive printing and parsing |
| ReplyFraming.HeaderParses | apps/api/pkgs/anyio/to_process.py:73-79 | a written header is accepted and read as it was meant |
| ReplyFraming.HeaderExactly | apps/api/pkgs/anyio/to_process.py:73-79 | the reader accepts exactly the headers of a known status, one space and a decimal number, and takes them for that status and number |
| ReplyFraming.DecodeExactly | apps/api/pkgs/anyio/to_process.py:72-79 | a frame is read exactly where such a header, a newline and as many bytes as it says stand in front |
| ReplyFraming.Pipe.Reply | apps/api/pkgs/anyio/to_process.py:257-258 | the two writes of one reply append its frame |
| ReplyFraming.Pipe.Receive | apps/api/pkgs/anyio/streams/buffered.py:106-113 | the transport hands over a nonempty piece of what is left, as long as it likes |
| ReplyFraming.BufferedReceiveStream.ReceiveExactly | apps/api/pkgs/anyio/streams/buffered.py:88-113 | exactly the next bytes of the stream, however it is cut into chunks, or IncompleteRead if there are too few |
| ReplyFraming.BufferedReceiveStream.Find | apps/api/pkgs/anyio/streams/buffered.py:133 | the first occurrence at or after the offset, or -1 |
| ReplyFraming.BufferedReceiveStream.ReceiveUntil | apps/api/pkgs/anyio/streams/buffered.py:115-151 | the bytes before the first delimiter in the whole stream, although the search resumes at a moving offset; otherwise which error, and when |
| ReplyFraming.BufferedReceiveStream.ReceiveReply | apps/api/pkgs/anyio/to_process.py:69-79 | one reply is read as the decoder reads the stream |
| ReplyFraming.BufferedReceiveStream.ReceiveReplies | apps/api/pkgs/anyio/to_process.py:69-79 | with one reader for many replies: exactly the frames written are read and nothing is left over, for arbitrary payload bytes |
| ReplyFraming.FirstCall | apps/api/pkgs/anyio/to_process.py:149-171 | the first call of a worker: greeting, reply to the initialisation and its own reply through one reader; it gets its own reply exactly when the greeting arrives whole and the initialisation does not fail, and then nothing is left over |
| ReplyFraming.Calls | apps/api/pkgs/anyio/to_process.py:116-175 | a worker's life: the first call as in FirstCall, each later one with a new reader; each gets its own reply, and no byte is left in the pipe or in a reader that is dropped, however the pipe cuts the bytes up |
| ReplyFraming.HeadersFit | apps/api/pkgs/anyio/to_process.py:72 | the 50-byte limit excludes no payload below ten to the 39 bytes |
| Portal.BlockingPortalProvider.Enter | apps/api/pkgs/anyio/from_thread.py:468-477 | entering in place, with a start-up that succeeds or raises |
| Portal.BlockingPortalProvider.Leave | apps/api/pkgs/anyio/from_thread.py:479-493 | leaving in place: which portal is to be shut down |
| Portal.AlwaysSound | apps/api/pkgs/anyio/from_thread.py:468-496 | for any number of threads with successful start-ups, at every moment `_leases` equals the holders, a current portal exists exactly when it is positive, and every portal started is current, closing, or exited once |
| Portal.HoldersAreSafe | apps/api/pkgs/anyio/from_thread.py:468-496 | no holder's portal is shut down under it, and when all have gone every portal started has been exited exactly once |
| Portal.RunningExactly | apps/api/pkgs/anyio/from_thread.py:446-449 | the portals running are the current one and those being shut down |
| Portal.OnlyOneExactly | apps/api/pkgs/anyio/from_thread.py:446-449 | while a thread is inside, exactly one portal is running if and only if no shutdown is under way |
| Portal.TwoAtOnce | apps/api/pkgs/anyio/from_thread.py:446-449 | a concrete run with two portals running side by side |
| Portal.EnterExactly | apps/api/pkgs/anyio/from_thread.py:468-477 | entering keeps the provider sound if and only if the start-up succeeds or none is needed |
| Portal.FailedStartPoisons | apps/api/pkgs/anyio/from_thread.py:470-474 | after one failed start-up every later entry raises |
| ShortHelp.MakeDefaultShortHelp | apps/api/pkgs/click/utils.py:59-106 | the whole text function equals the declarative short form of the first paragraph's words |
| ShortHelp.Truncate | apps/api/pkgs/click/utils.py:77-106 | the two loops with their running length: the first sentence if it fits, otherwise the longest line of words that fits with the suffix |
| ShortHelp.FirstParagraph | apps/api/pkgs/click/utils.py:62-65 | the text before the first blank line |
| ShortHelp.FirstParagraphOnly | apps/api/pkgs/click/utils.py:62-65 | what stands behind the first blank line never matters: the answer for the text is the answer for its first paragraph |
| ShortHelp.KeptConserves | apps/api/pkgs/click/utils.py:68-75 | the words kept of a paragraph are all its letters, in order, but for one opening marker |
| ShortHelp.FirstSentenceShown | apps/api/pkgs/click/utils.py:80-96 | the first sentence, up to the first word that ends with a dot, is the answer wherever it fits, and so is the whole text where no word does |
| ShortHelp.WordsConserve | apps/api/pkgs/click/utils.py:68 | splitting drops white space and nothing else |
| ShortHelp.WordsOfJoin | apps/api/pkgs/click/utils.py:68 | splitting undoes joining |
| ShortHelp.ShortLength | apps/api/pkgs/click/utils.py:77-106 | at most max(`max_length`, 3) characters, for every text and every limit |
| ShortHelp.ShortKeepsMost | apps/api/pkgs/click/utils.py:98-106 | with the suffix, the words kept are the longest proper prefix that fits with it |
| ShortHelp.TwiceExactly | apps/api/pkgs/click/utils.py:59-106 | shortening a shortened text changes nothing if and only if that text does not start with a marker word of its own |
| RunVars.RunVar.Get | apps/api/pkgs/anyio/lowlevel.py:157-170 | the value set, the caller's alternative, the default, or LookupError |
| RunVars.RunVar.Set | apps/api/pkgs/anyio/lowlevel.py:172-176 | the value is stored on this event loop only, and the fresh token remembers what was there |
| RunVars.RunVar.Reset | apps/api/pkgs/anyio/lowlevel.py:178-193 | a foreign or used token is refused with nothing changed; otherwise the old value or its absence is put back and the token is used up |
| RunVars.EventLoops.Current | apps/api/pkgs/anyio/lowlevel.py:142-149 | each event loop has a dictionary, made when first asked for |
| RunVars.RefusedAttemptsAreInert | apps/api/pkgs/anyio/lowlevel.py:178-183 | any program runs as it would if each attempt that is refused at its moment, and no other, were a bare exception |
| RunVars.EscapesExactly | apps/api/pkgs/anyio/lowlevel.py:115-121 | over any run an exception comes out exactly if the code raises it, an attempt is refused, or a block ends whose token is used up already; the end of a block swallows none |
| RunVars.TokensUsedOnce | apps/api/pkgs/anyio/lowlevel.py:178-193 | whatever a program attempts, no token is accepted twice, and every token issued by a block is used up when the block is over |
| RunVars.NestedRestores | apps/api/pkgs/anyio/lowlevel.py:115-121 | after any nested use in which all further attempts are refused, whatever is raised, every variable holds what it held and every token issued is used up |
| RunVars.MapRestoredExactly | apps/api/pkgs/anyio/lowlevel.py:172-193 | over any nested use, on any number of variables, the map itself comes back, absences included, if and only if the run comes to no block on a variable that has the sentinel stored |

## Left out

Command line:

- Parser.SplitOpt: letters and digits are ASCII; `str.isalnum` also accepts other alphabets, which matters only for option names spelled in them.
- `token_normalize_func` is the identity, and the suggestions of `get_close_matches`, which only affect an error's text, are not modelled.
- Lists passed in by the caller are values, so the emptying of the caller's own list by `rargs.pop` and two options sharing one constant list object are not captured.
- A declared constant is opaque, so counting onto it and appending to it are taken to fail; `True` as the starting value of a counter (Python adds 1 to it) and unknown actions (ValueError) are not modelled.
- Spelling.DashDashExactly: leaves out parsers that have a long option which is a bare prefix such as `-` and are not interspersed or pass unknown options on; DashDash covers them.
- ParserLaws.HeadsKeepInvariant: is stated under the condition that ConservationExactly proves exact; so are ParserLaws.LoopConserves, Chain.SubLeftovers and Chain.ChainSegments, while termination and one result per command (InvokeChain) hold for all.
- Chain.InvokeChain: running a command is a function of its context, so what a command does to the outside is not part of the result.
- CommandLines.ParsesBack: an option is written by a name of its own with its values behind it, and options that share a destination are of one kind; LongSpelling and ClusterSpelling give the other spellings, ClashRefused what mixed kinds come to.
- In chain mode, a name that is no command is one error: the second parse that looks for options of the group before reporting it, and the AssertionError in resilient parsing, are not told apart.
- The help and error texts, shell completion, type conversion, prompts, environment variables, default maps and callable defaults are parameters (`read`, `fallback`, `convert`, `accepts`) or absent.

Parameters and contexts:

- ParamOrder.SortedIsProcessingOrder: needs distinct declarations; for repeated ones SortedPermutes, SortedByKey and SortedStable determine the order.
- ArbitrationLaws.ParsedParams: and CommandParams.WholeParse speak of names that no callback rewrites; ArbitrationLaws.RunSettles says what becomes of the others.
- CommandParams.AloneKeepsValue: and CommandParams.ArgumentReaches take such a name too, carried by one parameter without callback.
- Arbitration.Context.Process: a callback sees the parameter map and its value only; the extra `with ctx` around a masked callback is covered by ContextStack.
- Arbitration.Context.HandleResult: prompts, environment variables and default maps are folded into a parameter's fallback value.
- Close callbacks that themselves register callbacks or enter contexts are not modelled; Python's ExitStack is taken at its documentation.

Cache, pool, portal:

- `cache_clear`, several event loops, method binding and weak references to the wrapper are not modelled.
- The checkpoint after a hit is not a step of its own, so a cancellation there is not seen; it would change nothing but the answer.
- CacheRecency.ServeAgrees: is about calls made one after the other that do not fail; failing ones are covered by SizeExactly and CurrsizeBounded, concurrent ones by HarmlessNeverFails and HarmfulCanFail.
- ProcessPool.WorkerPool.Prune: killing an exited worker raises, as with the asyncio backend; the process objects of asyncio and trio themselves are not part of this model.
- Processes are numbers that the operating system never reuses; pickling is an opaque byte payload; the limiter, starting the process, shutdown at exit and kill signals are not modelled.
- ReplyFraming.BufferedReceiveStream.ReceiveReply: a length in a reply header is a run of decimal digits, which is all the worker writes; other spellings that Python's `int` accepts are treated as malformed.
- The portal's own event loop and calls into it, and the result of shutting it down, are not modelled.

Small pieces:

- A variable's event loop is a parameter of each operation; the failure when none is running is not modelled.
- White space in ShortHelp is the list of characters that `str.split` uses; words are sequences of code points.
