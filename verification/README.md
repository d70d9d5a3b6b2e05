# vlr-util in Dafny

A model of the algorithms and in-memory protocols of the C++ utility library `vlr-util`, with proofs of
what they promise. `dafny verify dfyconfig.toml` checks everything.

What is modelled, one group of modules per part of the library:

- `Levenshtein`, `LevenshteinMetric`, `CloseEnough`: the weighted edit distance. The one-row dynamic program
  runs on an array that it overwrites in place; the specification is the least cost over all edit scripts
  and, independently, over all chains of single-character rewrites.
- `ShiftRegister`, `Crc32`, `Crc32Detection`: the table-driven CRC-32, against the bit-at-a-time shift register
  of RFC 1952, section 8, and what it detects.
- `Splitter`, `StringCompare`, `OptionNames`: splitting at delimiters, string order and equality, and the
  name matching built on both.
- `SpecifiedValue`, `AppOptions`, `AppOptionRuns`: the option store, a map of specified values with a lazily
  filled cache that also holds negative results, typed values and qualifiers.
- `ContextStacks`, `ThreadOperationContext`: per-thread stacks of weak references whose owners may die in any
  order. `ContextStacks` has the data as values, `ThreadOperationContext` the classes.
- `InstanceCollections`, `SharedInstanceRegistrar`: a map and an ordered vector that must agree, with destructors
  that call back. `InstanceCollections` has the two collections as values.
- `MultiSz`, `LineSearch`, `RegexCache`, `MruCache`: a codec, a greedy search, a cache with two lock sections and a
  bounded cache. `Wrappers` holds the option type that they share.

Objects that the source updates are classes here, and each of their methods is proved against functions on
values; the lemmas are about those functions. A public operation that the source runs under one lock is one
method, so an invariant that every method keeps holds after every interleaving of calls. Where a lock is taken
twice (`RegexCache`) the sections are steps of a state machine and the theorem is about every run. Where an
operation iterates over a hash table the order is a nondeterministic choice.

Reading of the source:

- Costs are non-negative reals; characters are `char`, with upper-casing as in the C locale; code units of a
  MultiSZ buffer are characters.
- A weak reference can be locked exactly while its context is in the set `live`; the id of a context or an
  instance stands for object identity.
- Whether something outside the registrar owns an instance too is left open: when the registrar or another owner
  lets go of an instance that neither collection refers to, its destructor may run or not.
- Conversions between option value types and regex compilation are partial functions that the caller supplies.

Properties that turned out false of the code, each with a failing input and the exact condition under which the
code does meet them:

- The swap of the edit distance hands the substitution cost its arguments in the other order (`SwapNoticed`). For
  all strings to get the optimum under the caller's own cost function, that function must be symmetric up to the
  price of a deletion and an insertion, and that is also enough (`SwapUnnoticedIff`).
- The distance with fixed costs is no metric when deletions cost more than insertions (`UnequalCostsAreNoMetric`);
  it is one exactly for positive costs with insert equal to delete (`MetricIff`).
- `Compare` calls two views equal that start at one address and differ in length (`SharedAddressTies`), and its
  case-sensitive form does not see beyond a NUL (`NulHidesTheRest`). Its zero is equality exactly unless one of
  these two cases is at hand (`CompareAgreesIff`).
- Ending a lifetime pops by value and may take another context of equal value off the stack
  (`EqualValuesLoseALiveContext`); the stacks stay right exactly when that pop is harmless (`EndTracked`).
- Clear-all of the registrar erases by the instance's own name and leaves an alias behind (`AliasStays`);
  it empties the map exactly when every registered name is an own name (`ClearsAllIff`).
- The empty list does not survive the MultiSZ round trip (`EmptyListNeedsTwoUnits`); exactly the nonempty lists of
  nonempty NUL-free strings do (`RoundTripIff`).
- A key that is added to the MRU cache while it is held can lose its value (`AddedTwiceIsLost`); the map holds
  all listed keys exactly when no key has a kept and a dropped place (`FullAfterTruncationIff`). Over any run under
  one limit, a key is held exactly if its newest addition is among the last ones up to the limit and no older addition
  of it has left the list since (`HeldIff`).
- Qualifiers that are cleared can come back with the next access (`ClearedQualifiersReappear`). A value is handed
  out without any exactly if its name was cached when they were cleared, or it carried none (`ClearThenAccess`).
- An option that is asked for as two types throws at the second read although its value converts to both
  (`SecondTypeThrows`). For any store the read after an access throws exactly if the name was cached and the cached
  value's slot held another type (`AccessThenRead`).
- Two spellings of one option name share one typed slot, so reading one can throw after an access to the other
  (`SecondSpellingTakesTheSlot`). It throws exactly if that access was the first to its spelling, the names match,
  the value converts, and the types differ (`AccessThenReadOther`).

Where the code and its documentation disagree, the model follows the code:

- `vlr-util/AppOptions.h:99` promises S_FALSE for an option that is not specified; the code returns S_OK with
  a null value.
- `vlr-util/ThreadOperationContext.cpp:162` logs a failed pop and returns a success with nuance also after a normal
  pop that leaves older contexts on the stack.
- `vlr-util/util.crc32.h:69` leaves open whether the wide overload is right; it is the CRC of the low bytes.
- `vlr-util/util.MRUCache.h` calls itself most recently used, but a hit does not move its key: it keeps the most
  recently added.

## Model

| member | source | states |
|---|---|---|
| Levenshtein.GeneralizedLevenshteinDistanceCustomCost | vlr-util/util.LevenshteinDistance.h:14-52 | for all strings and non-negative costs the one-row loop returns the least cost of an edit script, under the caller's delta or, after the swap, under the transposed delta |
| Levenshtein.NoScriptIsCheaper | vlr-util/util.LevenshteinDistance.h:34-48 | no edit script costs less than the recurrence says |
| Levenshtein.SomeScriptAttains | vlr-util/util.LevenshteinDistance.h:34-48 | some edit script costs exactly what the recurrence says |
| Levenshtein.DistIsOptimum | vlr-util/util.LevenshteinDistance.h:14-52 | the recurrence is the optimum over all edit scripts |
| Levenshtein.ZeroDeltaShortcut | vlr-util/util.LevenshteinDistance.h:41-43 | taking the old diagonal at delta zero gives the same cell as the three-way minimum, for any non-negative costs and any delta |
| Levenshtein.CellRecurrence | vlr-util/util.LevenshteinDistance.h:29-48 | every table cell follows from its neighbours as the loops compute it, shortcut included |
| Levenshtein.DistReversed | vlr-util/util.LevenshteinDistance.h:21-23 | exchanging the strings, insert with delete, and the arguments of delta changes no distance |
| Levenshtein.SwapOptimum | vlr-util/util.LevenshteinDistance.h:21-23 | the recursive call of the swap computes the distance under the transposed delta |
| Levenshtein.SwapUnnoticed | vlr-util/util.LevenshteinDistance.h:21-23 | the swap still gives the optimum when delta, capped at a deletion plus an insertion, is symmetric on the strings' characters |
| Levenshtein.SwapUnnoticedIff | vlr-util/util.LevenshteinDistance.h:21-40 | all calls give the optimum under the caller's delta exactly when the capped delta is symmetric |
| Levenshtein.SwapNoticed | vlr-util/util.LevenshteinDistance.h:21-40 | with an asymmetric delta the call on "aa" and "b" returns 2 where 1 is the optimum |
| LevenshteinMetric.GeneralizedLevenshteinDistance | vlr-util/util.LevenshteinDistance.h:54-72 | the fixed-cost wrapper returns the optimum under its own costs, whichever string is longer: the least price of a chain that counts insertions, deletions and replacements by another character |
| LevenshteinMetric.DistIsLeastPrice | vlr-util/util.LevenshteinDistance.h:54-72 | the distance is the least of insert cost times insertions plus delete cost times deletions plus replace cost times replacements by another character, over all rewrite chains |
| LevenshteinMetric.OneEdit | vlr-util/util.LevenshteinDistance.h:62-65 | an insertion, a deletion and a replacement each cost what the caller says, a replacement at most a deletion and an insertion |
| LevenshteinMetric.DefaultCosts | vlr-util/util.LevenshteinDistance.h:54-60 | by default one edit costs one |
| LevenshteinMetric.DistZeroIff | vlr-util/util.LevenshteinDistance.h:54-72 | the distance is zero exactly for strings of one length that match position by position at no cost |
| LevenshteinMetric.ScriptsCompose | vlr-util/util.LevenshteinDistance.h:14-52 | scripts that meet in a middle string compose without costing more |
| LevenshteinMetric.TriangleInequality | vlr-util/util.LevenshteinDistance.h:54-72 | a detour over a third string never pays |
| LevenshteinMetric.MetricIff | vlr-util/util.LevenshteinDistance.h:54-72 | with fixed costs the distance is a metric exactly for positive costs with insert equal to delete, the defaults among them |
| LevenshteinMetric.UnequalCostsAreNoMetric | vlr-util/util.LevenshteinDistance.h:54-72 | with a dearer deletion the empty string and "a" have two distances |
| LevenshteinMetric.CheapestChain | vlr-util/util.LevenshteinDistance.h:14-52 | the distance is the least cost of a chain of in-place single-character rewrites |
| CloseEnough.DoCandidateEvalViaLevenshteinDistance | vlr-util/CloseEnough.cpp:103-127 | the transform cost is the least of 0.8 per addition, 0.8 per removal and 1.0 per change to anything but the other case of a letter, over all chains; zero exactly for strings equal up to the case of letters |
| CloseEnough.OneTransform | vlr-util/CloseEnough.h:22-24 | one addition or removal costs 0.8, one change 1.0, a change of case nothing |
| CloseEnough.CaseChangesNoCost | vlr-util/CloseEnough.cpp:107-119 | changing letter case in either string changes no transform cost |
| CloseEnough.CostIsSymmetric | vlr-util/CloseEnough.cpp:122-127 | the transform cost is the same in both directions |
| ShiftRegister.RegisterLinear | vlr-util/util.crc32.h:61-67 | the register is linear in its preset and the message |
| ShiftRegister.ClearedIff | vlr-util/util.crc32.h:61-67 | up to 32 bits clear a register exactly when they are its own coefficients |
| ShiftRegister.BurstClearsIff | vlr-util/util.crc32.h:61-67 | a difference within 33 bits clears the register exactly when it is the generator pattern |
| Crc32.TableEntry | vlr-util/util.crc32.h:13-57 | every literal table entry is eight register steps of its index |
| Crc32.BitsWordStep8 | vlr-util/util.crc32.h:13-57 | eight word steps are eight steps of the shift register |
| Crc32.TableAt | vlr-util/util.crc32.h:13-65 | looking up the table gives eight shift-register steps of the index |
| Crc32.EightBits | vlr-util/util.crc32.h:65 | taking in a byte's bits one by one is moving down by eight and adding the steps of the low part |
| Crc32.LoopPass | vlr-util/util.crc32.h:64-65 | one pass of the loop takes in exactly the eight bits of the low byte of a character, sign extension included |
| Crc32.Crc32Narrow | vlr-util/util.crc32.h:61-67 | the loop returns the RFC 1952 CRC of every byte string |
| Crc32.Crc32Wide | vlr-util/util.crc32.h:71-77 | the wide overload returns the CRC of the low bytes |
| Crc32.CrcIsUnique | vlr-util/util.crc32.h:61-67 | the specification fixes one word for every message |
| Crc32.CheckValue | vlr-util/util.crc32.h:61-67 | the digits from one to nine have the CRC 0xcbf43926, which fixes preset, complement, polynomial and bit order |
| Crc32.EmptyCrc | vlr-util/util.crc32.h:63-66 | the empty message has the CRC zero |
| Crc32.CrcExists | vlr-util/util.crc32.h:61-67 | every message has a CRC |
| Crc32Detection.OwnCrcResidue | vlr-util/util.crc32.h:61-67 | a message followed by its own CRC, low byte first, has the CRC 0x2144df1c, whatever the message |
| Crc32Detection.OwnCrcIff | vlr-util/util.crc32.h:61-67 | four bytes behind a message give that value exactly if they are its CRC |
| Crc32Detection.SameCrcIff | vlr-util/util.crc32.h:61-67 | two messages of one length have one CRC exactly when their difference clears the register |
| Crc32Detection.BurstUnnoticedIff | vlr-util/util.crc32.h:61-67 | a burst error within 33 bits goes unnoticed exactly when it is the generator pattern, in messages of any length |
| Crc32Detection.FourBytesNoticed | vlr-util/util.crc32.h:61-67 | any change within four neighbouring bytes changes the CRC, a change of one byte above all |
| Crc32Detection.CrcAffine | vlr-util/util.crc32.h:61-67 | the CRC is affine under exclusive or |
| Splitter.SplitStringAtDelimiter | vlr-util/strings.split.h:109-191 | the scan appends the fields of the string, empty ones as the three options ask |
| Splitter.FieldsRebuild | vlr-util/strings.split.h:136-188 | there is one delimiter-free field more than there are delimiters, and interleaving them rebuilds the string |
| Splitter.FieldsAreUnique | vlr-util/strings.split.h:136-188 | delimiter-free strings interleaved with delimiters are the fields of the outcome |
| Splitter.AllOptionsRebuild | vlr-util/strings.split.h:103-188 | with all options on the elements of a nonempty string rebuild it |
| Splitter.EmptyStringHasNoElement | vlr-util/strings.split.h:136-188 | the empty string has no element under any options |
| Splitter.DefaultIsRuns | vlr-util/strings.split.h:109-191 | with the default options the elements are the maximal delimiter-free runs in order |
| Splitter.SplitAtDelimiter | vlr-util/strings.split.h:109-191 | by default the elements on the two sides of a delimiter follow one another |
| Splitter.SplitIsReported | vlr-util/strings.split.h:103-188 | of a string with delimiters every nonempty field is an element, and an empty first, last or inner one exactly if the option for its place is on |
| Splitter.NoDelimiterNoSplit | vlr-util/strings.split.h:136-188 | a nonempty string without delimiters is its only element under any options |
| Splitter.DelimitsIff | vlr-util/strings.split.h:20-88 | exactly the specified characters split, and with an empty specification exactly the two slashes |
| Splitter.GetTrimmedStringView | vlr-util/strings.split.h:225-246 | what is left starts and ends with characters to keep, and only characters to trim are gone |
| Splitter.TrimmedIsUnique | vlr-util/strings.split.h:225-246 | there is only one such rest |
| StringCompare.StringViewCompareCI_ToShorterLength_Compat | vlr-util/StringCompare.h:350-369 | the loop returns the sign at the first folded difference within the common length |
| StringCompare.CompareIsLex | vlr-util/StringCompare.h:323-344 | on NUL-free views over distinct buffers the comparison is lexicographic order of the (folded) characters |
| StringCompare.AreEqualIff | vlr-util/StringCompare.h:419-452 | equality holds exactly for equal (folded) characters, NULs, null views and shared buffers included |
| StringCompare.EqualWithoutCaseIff | vlr-util/StringCompare.h:350-369 | without case, views are equal exactly if they agree character by character up to the two cases of the 26 letters |
| StringCompare.LettersInOrder | vlr-util/StringCompare.h:350-369 | without case letters sort by the alphabet and before an underscore; with case upper case sorts before an underscore and lower case behind it |
| StringCompare.PrefixComesFirst | vlr-util/StringCompare.h:323-344 | a string sorts before its continuations |
| StringCompare.CompareAgreesIff | vlr-util/StringCompare.h:521-556 | for any two views, NULs included, the zero of Compare is AreEqual except in exactly two cases: two lengths at one address, or case-sensitive strings of one length that differ only behind a NUL |
| StringCompare.CompareCSZeroIff | vlr-util/StringCompare.h:323-344 | case-sensitive Compare is zero exactly for equal lengths and equal parts before a NUL |
| StringCompare.SharedAddressTies | vlr-util/StringCompare.h:524-528 | a string and its own beginning compare as zero but are not equal |
| StringCompare.NulHidesTheRest | vlr-util/StringCompare.h:323-344 | two strings that differ behind a NUL compare as zero but are not equal |
| StringCompare.CompareIsOrder | vlr-util/StringCompare.h:521-556 | on distinct buffers case-sensitive Compare orders all strings by the part before a NUL and then by length |
| StringCompare.StrictWeakOrder | vlr-util/StringCompare.h:803-823 | both function objects are strict weak orders on all strings over distinct buffers, NULs included; ties are equality if the strings are NUL-free or case is ignored |
| StringCompare.StringFindIndexOfSubstring | vlr-util/StringCompare.h:741-767 | the search returns the least matching index, or npos exactly when there is none |
| OptionNames.PopulateOptionNameElements | vlr-util/AppOptionSpecifiedValue.cpp:61-73 | a name is split at colons and dots without empty parts |
| OptionNames.CheckElementsMatch | vlr-util/AppOptionSpecifiedValue.cpp:75-94 | element lists match exactly when they agree element by element up to case, whether or not the views share a buffer |
| OptionNames.CheckOptionNameMatch | vlr-util/AppOptionSpecifiedValue.cpp:113-125 | the match is equality of name keys, the relation that scan and invalidation share; it holds exactly if the runs without colon or dot agree one by one up to the case of letters |
| OptionNames.MatchesIffRunsAgree | vlr-util/AppOptionSpecifiedValue.cpp:61-125 | names match exactly when their maximal delimiter-free runs agree up to case |
| OptionNames.MatchesIffPartsEqual | vlr-util/AppOptionSpecifiedValue.cpp:61-125 | the same without the folding: names match exactly when their runs are equal up to the two cases of the 26 letters |
| OptionNames.DelimiterIff | vlr-util/AppOptionSpecifiedValue.cpp:67 | exactly the colon and the dot separate parts |
| OptionNames.CaseIsIgnored | vlr-util/AppOptionSpecifiedValue.cpp:79-87 | letter case never decides a match |
| OptionNames.DelimitersAreIgnored | vlr-util/AppOptionSpecifiedValue.cpp:67-69 | neither the kind nor the number of delimiters decides a match |
| SpecifiedValue.CSpecifiedValue.CheckForOptionMatch | vlr-util/AppOptionSpecifiedValue.cpp:96-111 | a match records the normalized name, a mismatch changes nothing |
| SpecifiedValue.ExtractedHasType | vlr-util/AppOptionSpecifiedValue.h:163-182 | an extracted value has the type asked for, and extracting it again as that type gives it back |
| SpecifiedValue.OwnTypeOnly | vlr-util/AppOptionSpecifiedValue.h:163-182 | where no conversion succeeds, exactly the values that hold the type asked for are extracted |
| SpecifiedValue.CSpecifiedValue.CacheOptionValueAs | vlr-util/AppOptionSpecifiedValue.h:184-209 | the slot gets what extraction would give, and stays as it was when that fails |
| SpecifiedValue.CachedReadsAgree | vlr-util/AppOptionSpecifiedValue.h:163-234 | once a value is cached as a type, extraction, the copying read and the inline read agree; without a conversion extraction fails and the reads see what was there before |
| SpecifiedValue.CSpecifiedValue.GetCachedValueInline | vlr-util/AppOptionSpecifiedValue.h:225-234 | the inline read throws exactly when the slot has another type |
| AppOptions.CoherentAfterAdd | vlr-util/AppOptions.cpp:35-76 | adding or replacing a value and dropping the matching entries keeps every cached result, negative ones too, what a fresh scan could give |
| AppOptions.CoherentAfterClear | vlr-util/AppOptions.cpp:229-245 | so does clearing a value |
| AppOptions.CoherentChoice | vlr-util/AppOptions.h:146-160 | the first value found, or null if none, is what a fresh scan could give |
| AppOptions.CAppOptions.constructor | vlr-util/AppOptions.cpp:6-10 | an empty store is coherent and its callers disciplined |
| AppOptions.CAppOptions.PopulateCollection_NameMatch | vlr-util/AppOptions.cpp:12-33 | finds exactly the specified values whose native name matches |
| AppOptions.CAppOptions.PopulateCollection | vlr-util/AppOptions.h:178-202 | finds exactly those that also convert, caches their conversion, and leaves the slot of every other value alone |
| AppOptions.CAppOptions.HandleOptionInitialAccess | vlr-util/AppOptions.h:140-176 | a first access enters a candidate or null and attaches the stored qualifiers; it overwrites the slots of exactly the values that match and convert |
| AppOptions.CAppOptions.PopulateSpecifiedValueForOption | vlr-util/AppOptions.h:204-234 | null exactly when no specified value matches and converts to the type of the first access, else such a value; a later access returns the same entry and writes no slot; with one type and one spelling per name class the inline read cannot throw and the stored qualifiers are attached |
| AppOptions.CAppOptions.ClearAllPrePopulatedSpecifiedValuesOnValueAdd | vlr-util/AppOptions.cpp:35-61 | drops exactly the cache entries whose name matches; all others stay as they are |
| AppOptions.CAppOptions.AddSpecifiedValue | vlr-util/AppOptions.cpp:63-76 | specifies the value, drops exactly the entries whose name matches and leaves the others as they are, reports a replacement, and keeps the store coherent |
| AppOptions.CAppOptions.ClearSpecifiedValue | vlr-util/AppOptions.cpp:229-245 | removes the value by name, drops exactly the entries whose name matches and leaves the others as they are; nothing changes if there was none |
| AppOptions.CAppOptions.ClearAllSpecifiedValues | vlr-util/AppOptions.cpp:247-255 | empties both maps and keeps the qualifiers |
| AppOptions.CAppOptions.FindSpecifiedValueByName | vlr-util/AppOptions.cpp:78-93 | what is found is specified under exactly this name, and nothing is found only if no specified value has the name; an error for the empty name |
| AppOptions.CAppOptions.FindSpecifiedValuesMatchingNormalizedName | vlr-util/AppOptions.cpp:95-102 | finds all matching values and leaves the store coherent |
| AppOptions.CAppOptions.PopulatePrePreparedSpecifiedValueForOption | vlr-util/AppOptions.cpp:104-119 | what an earlier access prepared, a cached null included, is still what a fresh scan for its type could give, and for callers that keep to one type and spelling it is typed and qualified |
| AppOptions.CAppOptions.ClearPrePopulatedSpecifiedValueForOption | vlr-util/AppOptions.cpp:121-129 | drops the entry of exactly this spelling |
| AppOptions.CAppOptions.SetAppOptionQualifiers | vlr-util/AppOptions.cpp:131-162 | stores qualifiers and hands them to the cached value of the name and no other |
| AppOptions.CAppOptions.ClearAppOptionQualifiers | vlr-util/AppOptions.cpp:164-190 | takes them from the store and from the cached value of the name and no other |
| AppOptions.CAppOptions.OthersUntouched | vlr-util/AppOptions.h:140-176 | with one spelling per name class a first access meets no value cached for another name |
| AppOptions.CAppOptions.NoSharing | vlr-util/AppOptions.cpp:141-157 | with one spelling per name class no value is cached for two names |
| AppOptionRuns.AddThenFindPrepared | vlr-util/AppOptions.cpp:35-119 | adding a value changes nothing prepared for a name that does not match, and leaves nothing prepared for one that does |
| AppOptionRuns.ClearThenFindPrepared | vlr-util/AppOptions.cpp:35-245 | clearing one does the same if a value of its name was there, and else changes nothing |
| AppOptionRuns.ClearThenAccess | vlr-util/AppOptions.cpp:164-190 | after a clearing the next access hands out a value without qualifiers exactly if the name was cached or the value carried none |
| AppOptionRuns.ClearedQualifiersReappear | vlr-util/AppOptions.cpp:121-190 | qualifiers cleared while their value is out of the cache come back with the next access |
| AppOptionRuns.AccessThenRead | vlr-util/AppOptions.h:204-234 | in any store the inline read of the value an access returns throws exactly if the name was cached and the cached value's slot held another type |
| AppOptionRuns.SecondTypeThrows | vlr-util/AppOptionSpecifiedValue.h:225-234 | a run in which it does: one spelling asked for as two types the value converts to |
| AppOptionRuns.AccessThenReadOther | vlr-util/AppOptions.h:178-202 | an access makes the inline read of a value cached for another name throw exactly if it is a first access, the names match, the value converts and the types differ |
| AppOptionRuns.SecondSpellingTakesTheSlot | vlr-util/AppOptions.h:178-202 | a run in which it does |
| ContextStacks.LiveWithPop | vlr-util/ThreadOperationContext.cpp:117-152 | a pop takes the newest live context of the name, if it is by name alone or the values agree, and no other live context |
| ContextStacks.PopByPlace | vlr-util/ThreadOperationContext.cpp:112-152 | all above the topmost live context of the name goes, and the context itself unless another value was to be popped; without one the stack is emptied |
| ContextStacks.ReportAfterPop | vlr-util/ThreadOperationContext.cpp:92-165 | after a pop that takes the newest living context of a name the next older one is reported for it, or none; other names are as before |
| ContextStacks.LiveWithPrune | vlr-util/ThreadOperationContext.cpp:177-196 | pruning loses no live context |
| ContextStacks.StackOfPush | vlr-util/ThreadOperationContext.cpp:74-90 | a push changes the stack of its own key only |
| ContextStacks.StackOfPop | vlr-util/ThreadOperationContext.cpp:99-151 | a pop changes the stack of its own key only |
| ContextStacks.StackOfPrune | vlr-util/ThreadOperationContext.cpp:167-206 | dropping empty entries changes no other key's stack |
| ContextStacks.ReportIsCurrent | vlr-util/ThreadOperationContext.cpp:178-193 | the list holds exactly the newest live context of every key that has one |
| ContextStacks.ReportOncePerName | vlr-util/ThreadOperationContext.cpp:169-193 | the list holds every name once |
| ContextStacks.ReportInOrder | vlr-util/ThreadOperationContext.cpp:169-193 | the list follows the order of the entries |
| ContextStacks.PushKeepsOrder | vlr-util/ThreadOperationContext.cpp:62-72 | a new name gets the last entry, and the others keep their places |
| ContextStacks.ReportAfterPrune | vlr-util/ThreadOperationContext.cpp:195-206 | a repeated query returns the same list |
| ContextStacks.PushTracked | vlr-util/ThreadOperationContext.cpp:74-90 | a push keeps the stacks equal to the living contexts of the history |
| ContextStacks.PruneTracked | vlr-util/ThreadOperationContext.cpp:167-206 | so does a query |
| ContextStacks.EndTracked | vlr-util/ThreadOperationContext.cpp:11-19 | the end of a lifetime does so exactly when its pop takes no other context |
| ContextStacks.DistinctIsHarmless | vlr-util/ThreadOperationContext.cpp:137-147 | with distinct values among live contexts of one name lifetimes may end in any order |
| ContextStacks.EqualValuesLoseALiveContext | vlr-util/ThreadOperationContext.cpp:137-151 | with equal values, ending the older lifetime first loses the newer context |
| ThreadOperationContext.CPerThreadContext.FindActiveContext | vlr-util/ThreadOperationContext.cpp:40-72 | the first entry of the key, added at the end if it has to exist |
| ThreadOperationContext.CPerThreadContext.PushContext | vlr-util/ThreadOperationContext.cpp:74-90 | pushes onto the stack of the context's name, an error for null |
| ThreadOperationContext.CPerThreadContext.PopContext | vlr-util/ThreadOperationContext.cpp:92-165 | drops dead and foreign entries, then a live one whose value agrees, and reports an emptied stack |
| ThreadOperationContext.PopSucceedsIff | vlr-util/ThreadOperationContext.cpp:99-164 | a pop reports success exactly if the name had an entry and no reference, dead ones included, is left on its stack |
| ThreadOperationContext.CPerThreadContext.CountToTruncate | vlr-util/ThreadOperationContext.cpp:177-196 | counts the dead references on top of a stack |
| ThreadOperationContext.CPerThreadContext.PopulateThreadOperationContext | vlr-util/ThreadOperationContext.cpp:167-209 | lists the topmost live context of every entry, truncates the stacks and removes the empty entries |
| ThreadOperationContext.CThreadOperationContext.GetCurrentThreadContext | vlr-util/ThreadOperationContext.cpp:219-248 | finds or makes the thread's entry without changing any thread's stacks |
| ThreadOperationContext.CThreadOperationContext.ClearCurrentThreadContext | vlr-util/ThreadOperationContext.cpp:250-259 | drops the thread's own entry and no other |
| ThreadOperationContext.CThreadOperationContext.PopulateThreadOperationContext | vlr-util/ThreadOperationContext.cpp:261-286 | lists exactly the newest context of every name whose lifetime has not ended; asking again gives the same list; dropping the map entry loses none; other threads are untouched |
| ThreadOperationContext.CThreadOperationContext.PushContext | vlr-util/ThreadOperationContext.cpp:288-306 | a new context on this thread's stack only |
| ThreadOperationContext.CThreadOperationContext.PopContext | vlr-util/ThreadOperationContext.cpp:308-327 | pops on this thread's stack only; by name, the next older living context of the name is then reported, or none, and other names are as before |
| ThreadOperationContext.CThreadOperationContext.AddOperationContext | vlr-util/ThreadOperationContext.cpp:21-38 | the new context is the one reported for its name, and the stacks of all threads stay right |
| ThreadOperationContext.CThreadOperationContext.EndLifetime | vlr-util/ThreadOperationContext.h:76-92 | pops, then releases; the stacks of all threads stay right exactly when the pop takes no other context, and so whenever live contexts of one name on the thread have distinct values |
| ThreadOperationContext.CThreadOperationContext.DistinctLivesEndSafely | vlr-util/ThreadOperationContext.cpp:11-19 | with distinct values every lifetime ends safely on its own thread |
| InstanceCollections.ListsIff | vlr-util/SharedInstanceRegistrar.h:43-45 | taking off the newest entry from both again and again ends empty exactly if both hold the same names, each once, with the same instances |
| InstanceCollections.TidyIff | vlr-util/SharedInstanceRegistrar.cpp:56-70 | what clear-all needs to empty both collections is that they agree and that every entry, and all that its destructor registers at any depth, is registered under its own name |
| InstanceCollections.AgreePlaced | vlr-util/SharedInstanceRegistrar.cpp:100-123 | setting an instance keeps map and vector in agreement |
| InstanceCollections.AgreeRemoved | vlr-util/SharedInstanceRegistrar.cpp:125-144 | removing one keeps them in agreement |
| InstanceCollections.AgreeCount | vlr-util/SharedInstanceRegistrar.cpp:93-98 | in agreement both have one size |
| InstanceCollections.ClearsAllIff | vlr-util/SharedInstanceRegistrar.cpp:56-70 | erasing by own names empties the map exactly when every registered name is an own name |
| InstanceCollections.AliasStays | vlr-util/SharedInstanceRegistrar.cpp:69 | an instance registered under another name stays in the map |
| InstanceCollections.AgreeIsCalm | vlr-util/SharedInstanceRegistrar.cpp:25-27 | while the collections agree, the map never lets go of the last reference |
| InstanceCollections.PlacedAccounts | vlr-util/SharedInstanceRegistrar.cpp:100-123 | a placement adds one registration, or none of an instance already in its place, and takes off what it replaces |
| SharedInstanceRegistrar.CSharedInstanceRegistrar.PopulateSharedInstance | vlr-util/SharedInstanceRegistrar.h:88-124 | returns the instance of the name if it has the type, fails without a change if not, else registers a new one last, once; the agreement is kept under any name |
| SharedInstanceRegistrar.CSharedInstanceRegistrar.SetSharedInstance | vlr-util/SharedInstanceRegistrar.cpp:14-30 | an error for null; else both collections hold the instance in the name's old place or last, and a replaced one is released, once; under own names the agreement is kept whatever destructors do; an instance that no destructor registers is registered at most by this call |
| SharedInstanceRegistrar.CSharedInstanceRegistrar.ClearSharedInstance | vlr-util/SharedInstanceRegistrar.cpp:32-50 | the name leaves both collections, and the instance is released after that, once; under own names the agreement is kept whatever destructors do; an instance that no destructor registers is not registered |
| SharedInstanceRegistrar.CSharedInstanceRegistrar.Run | vlr-util/SharedInstanceRegistrar.cpp:35-38 | whatever a destructor asks for, under any names, terminates and loses no registration; a single call does what it says as far as no further destructor interferes; under own names it keeps the agreement; if neither it nor any registered instance's destructor leads to a registration of an instance, that instance gets none |
| SharedInstanceRegistrar.CSharedInstanceRegistrar.ClearAllSharedInstances | vlr-util/SharedInstanceRegistrar.cpp:52-73 | terminates with nothing ordered although destructors register further instances under any names; every instance has then been released as often as it was ever registered, so exactly once for each place it had if no destructor leads to a registration of it; under own names the map is empty too; without call backs the newest is released first and exactly the own names leave the map |
| SharedInstanceRegistrar.CSharedInstanceRegistrar.LetGo | vlr-util/SharedInstanceRegistrar.cpp:35-38 | letting go of an instance that a collection still refers to, or whose destructor is quiet, changes nothing |
| SharedInstanceRegistrar.CSharedInstanceRegistrar.TakeNewest | vlr-util/SharedInstanceRegistrar.cpp:58-69 | the newest instance leaves both collections by its own name; under own names it is the very next to be released |
| SharedInstanceRegistrar.CSharedInstanceRegistrar.CheckSharedInstanceCached | vlr-util/SharedInstanceRegistrar.cpp:75-91 | finds what the map holds, in agreement what the ordered collection holds under the name |
| SharedInstanceRegistrar.CSharedInstanceRegistrar.GetSharedInstanceCount | vlr-util/SharedInstanceRegistrar.cpp:93-98 | counts the map, in agreement the entries of the ordered collection |
| SharedInstanceRegistrar.CSharedInstanceRegistrar.EnsureSharedInstanceInOrderedCollection | vlr-util/SharedInstanceRegistrar.cpp:100-123 | replaces in place or appends |
| SharedInstanceRegistrar.CSharedInstanceRegistrar.RemoveSharedInstanceFromOrderedCollection | vlr-util/SharedInstanceRegistrar.cpp:125-144 | removes the name's entry and hands out its instance |
| MultiSz.ToStructuredData | vlr-util/util.data_adaptor.MultiSZ.h:103-155 | the index loops deliver the parse of the span, also before a failure, and never read outside it |
| MultiSz.ToStrings | vlr-util/util.data_adaptor.MultiSZ.h:157-174 | delivers nothing from a malformed span |
| MultiSz.UnsizedToStructuredData | vlr-util/util.data_adaptor.MultiSZ.h:69-84 | delivers the same strings from a terminated list |
| MultiSz.ToMultiSz | vlr-util/util.data_adaptor.MultiSZ.h:176-209 | the buffer is sized beforehand and filled exactly with the print of the list |
| MultiSz.ParseIff | vlr-util/util.data_adaptor.MultiSZ.h:103-155 | a span parses to a list exactly when it has two code units and starts with the list's print, whose strings are nonempty and NUL-free |
| MultiSz.ParsesIff | vlr-util/util.data_adaptor.MultiSZ.h:112-142 | a span is accepted exactly when it starts with a NUL or has two adjacent ones |
| MultiSz.FailsIff | vlr-util/util.data_adaptor.MultiSZ.h:103-155 | a malformed span delivers exactly its terminated strings, nothing of an unterminated rest, and nothing at all if it is shorter than two code units |
| MultiSz.RoundTrip | vlr-util/util.data_adaptor.MultiSZ.h:103-209 | a nonempty list of nonempty NUL-free strings survives the round trip with trailing data |
| MultiSz.RoundTripIff | vlr-util/util.data_adaptor.MultiSZ.h:103-209 | and no other list survives it in a buffer of its own |
| MultiSz.EmptyListNeedsTwoUnits | vlr-util/util.data_adaptor.MultiSZ.h:112-116 | the print of the empty list is rejected, and accepted with any code unit behind it |
| MultiSz.UnsizedRoundTripIff | vlr-util/util.data_adaptor.MultiSZ.h:69-84 | without the length check the empty list survives too |
| LineSearch.CCaptureConsoleDataAnalysisHelper.DecomposeCaptureDataInfoLines | vlr-util/CaptureConsoleOut.cpp:164-172 | the lines are the maximal runs without a line feed |
| LineSearch.CCaptureConsoleDataAnalysisHelper.GetAsTextLines | vlr-util/CaptureConsoleOut.cpp:174-183 | cached lines are returned as they are, else the captured text is split |
| LineSearch.CCaptureConsoleDataAnalysisHelper.FindMatchingLineIndex_Contains | vlr-util/CaptureConsoleOut.cpp:185-200 | the least index of a matching line from the start index on, npos exactly when there is none |
| LineSearch.ContainsIff | vlr-util/CaptureConsoleOut.cpp:192 | a line contains a pattern exactly if it is something, the pattern and something |
| LineSearch.CCaptureConsoleDataAnalysisHelper.DoesOutputContainContent | vlr-util/CaptureConsoleOut.h:133-136 | true exactly when some line contains the content |
| LineSearch.CCaptureConsoleDataAnalysisHelper.DoesOutputContainSequence | vlr-util/CaptureConsoleOut.h:138-153 | true exactly when lines can be chosen for the patterns, none above the one before |
| LineSearch.GreedyIsComplete | vlr-util/CaptureConsoleOut.h:142-150 | taking the earliest line never spoils a choice for the later patterns |
| RegexCache.RegexCache.SharedSection | vlr-util/RegexCache.cpp:10-18 | refines the shared step of the state machine: the entry if there is one, nothing written |
| RegexCache.RegexCache.ExclusiveSection | vlr-util/RegexCache.cpp:21-45 | refines the exclusive step: the entry becomes the compiled regex, and stays as it was if compilation throws |
| RegexCache.RegexCache.GetCompiledRegex | vlr-util/RegexCache.cpp:8-46 | a call by itself, after any run, returns the compilation of its pattern and leaves it cached |
| RegexCache.RunIsRight | vlr-util/RegexCache.cpp:8-46 | in every interleaving of the sections of any number of threads every call returns the compilation of its own pattern, with success exactly if there is one, and no entry is wrong |
| RegexCache.ReturnedIsCached | vlr-util/RegexCache.cpp:21-45 | what a call has returned for stays cached |
| RegexCache.CompiledOnlyIfMissing | vlr-util/RegexCache.cpp:10-18 | a thread goes on to compile exactly if the pattern is not cached when it looks; a pattern that does not compile is answered from the cache too |
| RegexCache.SecondCompilationChangesNothing | vlr-util/RegexCache.cpp:24-36 | a second compilation of a pattern leaves the cache as it is |
| RegexCache.CompiledTwice | vlr-util/RegexCache.cpp:24 | two threads can both compile one pattern |
| MruCache.CMRUCache.TruncateCacheToMaxSize | vlr-util/util.MRUCache.h:33-44 | the newest keys up to the limit stay, and the dropped keys leave the map |
| MruCache.CMRUCache.SetCacheSize | vlr-util/util.MRUCache.h:46-54 | the invariant holds under the new limit, and a cache that holds exactly the listed keys, each listed once, still does; a run under one limit starts here |
| MruCache.CMRUCache.GetCachedValue | vlr-util/util.MRUCache.h:56-68 | a hit is the value of the key's newest addition, a miss leaves the caller's value |
| MruCache.CMRUCache.AddValueToCache | vlr-util/util.MRUCache.h:70-79 | the list stays a prefix of the history of additions within the limit; a full map stays full exactly when no key has a kept and a dropped place; the cache keeps holding exactly the listed keys as long as no key is added again while it is held; after any run under one limit the map is what the whole history gives |
| MruCache.HeldIff | vlr-util/util.MRUCache.h:33-79 | after any additions under one limit a key is held exactly if its newest addition is among the last ones up to the limit and no older one has left the list since; what is held is the newest value |
| MruCache.FullAfterTruncationIff | vlr-util/util.MRUCache.h:33-44 | truncation keeps the map full exactly when no key has a kept and a dropped place |
| MruCache.AddedTwiceIsLost | vlr-util/util.MRUCache.h:33-79 | a key added twice to a cache of size one is listed but lost |

## Left out

- Levenshtein.GeneralizedLevenshteinDistanceCustomCost: wrap-around of an unsigned cost type and rounding of a floating-point one are not modelled; costs are exact.
- StringCompare.CompareIsLex: folding by a locale other than C, negative `char` values, and the Windows functions `_strnicmp` and `_wcsnicmp`, which also stop at a NUL, are not modelled.
- Crc32.TableAt: the table lookup is a method of its own, where the source indexes the table in the loop. Other operations are split in the same way: `ScanForOption`, `CacheEach`, `RegisterLast`, `AssignInMap`, `PlaceInOrder`, `PutInOrder`, `EraseFromMap`, `TakeOff`, `TakeInHand`, `ClearNewest`, `LetGoUnlessSame`, `PopKeeping`, `PopNewest`, `Release`, `RunFirst`, `PushOnto`, `PopulateFor`, `PopulateAndTidy`, `ReportAndTruncate`, `TruncateAt`, `ClearIfEmpty`, `PopOn`, `PopAndRelease`, `RemoveEmpty`, `AppendAll`, `CountCharacters`, `CopyTerminated`, `MatchesAt` and `PushAndTruncate` are parts of the methods that call them, and `BothSections` is the body of a call.
- AppOptions.CAppOptions.PopulateSpecifiedValueForOption: the clauses on typed values and qualifiers hold for callers that use one spelling and one type for each class of matching names; the rest of the contract holds for all, and `AccessThenRead` says for all when the read throws.
- AppOptions.CAppOptions.HandleOptionInitialAccess: the entering of the chosen value and its qualifiers is a helper method (`Install`), as is the erasing loop of the invalidation (`EraseEntries`).
- SpecifiedValue.CSpecifiedValue.constructor: the name and value setters are left out; changing a value that is already in the store is not modelled.
- SpecifiedValue.CachedReadsAgree: what a failing conversion writes to its out parameter is not modelled, and neither are the conversions themselves.
- ThreadOperationContext.CThreadOperationContext.EndLifetime: contexts are owned by their lifetimes only; a list of contexts that a caller keeps would keep them alive longer.
- ThreadOperationContext.CPerThreadContext.FindActiveContext: names that hold NUL characters, which the comparison of the source may see differently than the map keys, are not modelled.
- SharedInstanceRegistrar.CSharedInstanceRegistrar.SetSharedInstance: the exact new state is stated where no destructor that has something to do runs; otherwise a destructor may change it, within the invariants.
- SharedInstanceRegistrar.CSharedInstanceRegistrar.PopulateSharedInstance: constructors that call the registrar are not modelled.
- SharedInstanceRegistrar.CSharedInstanceRegistrar.ClearSharedInstance: the release after the lock is part of the same step.
- SharedInstanceRegistrar.CSharedInstanceRegistrar.ClearAllSharedInstances: the order of all releases, and which aliases stay, are stated for destructors that do nothing.
- MultiSz.ToMultiSz: the scaling from code units to bytes is not modelled.
- Option metadata, a plain map, and the accessors that hand out references to the store's maps.
- The config file parser, width conversion, number and string conversions and regular expressions: library behaviour.
- Result codes as bit fields, range-checked casts, enumerations, scope guards and string view lifetimes: one-branch facts or C++ type machinery.
- Logging, assertions, registry, file system, console pipes and other system calls.
- The transform steps, threads and sorting of the close-enough evaluation.
