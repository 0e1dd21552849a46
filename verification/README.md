# Verified model of the JVM buildpack's core

This project models the parts of the buildpack that do more than plumbing, and proves what
they are for. `dafny verify dfyconfig.toml` checks all of it.

- **JAR listing** (`JarListing`, `JarOrder`): a producer goroutine walks the roots, 128 workers
  hash JARs, a spawner closes the results channel behind them, and the main loop collects and
  sorts. The goroutines, both unbuffered channels and the wait group are one state machine; a
  scheduler is any sequence of enabled actions, and a send and its receive are one action.
  `process` is any function from a path to a result, and the walk is any list of roots with any
  directory entries and faults. Sorting may return any arrangement that its comparison accepts,
  as an unstable sort may.
- **Memory calculator** (`Size`, `Flags`, `MemoryRegions`, `Float64`, `Calculator`,
  `MemoryCalculator`): a container limit is divided among direct memory, metaspace, code cache,
  thread stacks, head room and heap. Integer arithmetic is 64-bit and wraps where Go's does, also
  in the unchecked multiplication of a parsed size. Head room, low profile and class count go
  through double precision, with every operation rounded as IEEE 754 says. JAVA_TOOL_OPTIONS is a
  sequence of tokens.
- **jimage reader** (`ImageFormat`, `ImageReader`, `ImageEncoding`, `ImageLaws`): one seekable cursor over the
  bytes of `lib/modules`, with header, tables, location attributes and strings read through it.
  Every method equals a pure function of the bytes, and that function inverts an encoder.
- **Provider merge and jlink arguments** (`SecurityProviders`, `JLink`): slices that are padded,
  shifted, filtered and compacted in place, over their backing arrays.
- **Manifest and .sdkmanrc** (`Manifest`, `Sdkman`): three rewriting passes that undo the folding
  of the JAR File Specification, and a line parser.

`Machine`, `Text`, `Sequences` and `Wrappers` hold what these share.

## What turned out not to hold for every input

- Memory is not always conserved. Whatever the calculator is given, a successful result hands out
  only amounts that are not negative, and at most the limit together, exactly when neither a
  planned region nor the thread count is negative and the demand fits in a signed 64-bit integer
  (`Calculator.ConservedIffDemandFits`). Both halves of
  the condition fail on real inputs: `-Xss1T` with 2^24 threads is granted 16 EiB of thread stacks
  in a 1 GiB container (`Calculator.ConservationCanFail`), and `-XX:MaxDirectMemorySize=8388609T`
  is read as a negative size and leaves a heap of more than 8,000,000 TiB
  (`Calculator.NegativeFlagIsAccepted`). Inputs of realistic size always meet it
  (`Calculator.RealisticDemandFits`).
- Below 1 GiB the low profile never turns a success into a failure without overflow
  (`Calculator.LowProfileDominates`). With flags whose sizes wrap it can
  (`Calculator.LowProfileCanFail`, `Calculator.LargeSavingCanFail`);
  `Calculator.LowProfileSucceedsIff` says exactly when, for all flags and limits, in terms of the
  plan: the unscaled sizes, wrapped, have to be able to spare what scaling saves.
- The helper's options are a fixpoint exactly when the calculated metaspace can be printed and the
  sizes of the result can spare what rounding to kibibytes takes off them
  (`MemoryCalculator.OptionsAreAFixpointIff`, for all flags and environments). Without overflow
  that is so (`MemoryCalculator.OptionsAreAFixpoint`). A sum that has wrapped to just -2^63 cannot
  spare anything, and the helper then fails on its own output
  (`MemoryCalculator.RecalculationCanFail`); a negative class count makes every run add the
  metaspace flag again (`MemoryCalculator.NegativeMetaspaceIsNoFixpoint`).
- A parsed size is the number of bytes written exactly when that number fits
  (`Size.ParseIsExactIffItFits`); `16777216T` is read as zero (`Size.SomeSizesWrap`).
- The class test compares a truncated string. It accepts exactly `class` followed by any number
  of continuation bytes (`ImageEncoding.ReadsAsClassIff`), so the class count is never too small,
  and it is right exactly when no entry's extension is `class` with continuation bytes behind it
  (`ImageEncoding.CountIsExactIff`). Well-formed UTF-8 has no such string
  (`ImageEncoding.ClassTestIsExact`); `ImageEncoding.ClassTestCanBeFooled` gives a file without a
  class in which one is counted.
- Unfolding a manifest gives back every header and blank line exactly when no line ended by CR
  is followed by a bare LF (`Manifest.UnfoldInvertsFoldIff`); otherwise a blank line can vanish
  and two headers can become one (`Manifest.BreaksCanMerge`).

## What the code needs from its callers

- The head room percentage and the thread count should not be negative, and neither should a
  limit or a class count; the code accepts negative numbers for all four, and a size may wrap to a
  negative number when it is parsed. None of this is excluded from the exact conditions above,
  which say what follows. `Calculator.NonNegative` collects it for the lemmas about the case
  without overflow.
- What a float64 outside the range of int64 is converted to is up to the machine; the model takes
  it as the parameter `unrepresentable`.
- A provider index of 0 makes the code use slot -1. `SecurityProviders.Configure` reports this
  as the refusal `SlotMinusOne` instead of excluding it. A negative table length in an image
  panics as well and is the error `NegativeLength`.
- `AllRegionsSize` tests the head room but uses the heap; the heap must be set with it.
- The warning for small containers speaks of opting out of the low memory profile. The code
  applies the profile only if BPL_LOW_MEMORY_PROFILE_DISABLED is set to false, and so does the
  model.

## Model

| member | source | states |
|---|---|---|
| `JarOrder.JarTrichotomy` | maven_jar_listing.go:108-118 | Two records that neither precede each other under the three-key comparison are the same record |
| `JarOrder.SortedIsUnique` | maven_jar_listing.go:108-118 | A multiset of records has exactly one sorted arrangement, so the unstable sort has no freedom |
| `JarOrder.SortedIsInOrder` | maven_jar_listing.go:108-118 | Sorted means ascending, character position by character position: by name, then version, then hash |
| `JarListing.StructuredStep` | maven_jar_listing.go:56-130 | Every action keeps the invariant on channels, wait group, spawner and workers |
| `JarListing.TallyConserved` | maven_jar_listing.go:79-127 | Every action that main survives keeps, for each result, the number of copies that are unsent, in hands, or collected |
| `JarListing.WalkFaultIsFirst` | maven_jar_listing.go:57-89 | The fault of the walk is the first root that cannot be resolved or visit that fails, with everything before it in order; there is none if and only if no root and no visit is at fault |
| `JarListing.CleanIff` | maven_jar_listing.go:57-107 | Nothing goes wrong if and only if no root and no visit is at fault and every visited .jar file is processed |
| `JarListing.ListingIsListing` | maven_jar_listing.go:57-120 | The expected listing is ascending and has each record as often as a visit of a file ending in .jar is processed to it |
| `JarListing.ChannelSafety` | maven_jar_listing.go:62-106 | Under every schedule no goroutine sends on a closed channel, closes one twice or drives the wait group negative, and results closes only after paths is closed and all 128 workers are done |
| `JarListing.ListedIsListing` | maven_jar_listing.go:90-120 | Every run that lists returns the records of the visited .jar files, each as often as it is produced, in ascending order, and then neither the walk nor any process failed |
| `JarListing.InterleavingsAgree` | maven_jar_listing.go:102-120 | Any two runs that list return equal sequences |
| `JarListing.FailedHasCulprit` | maven_jar_listing.go:81-107 | A run that fails reports the first fault of the walk or the failure of a visited .jar file |
| `JarListing.DeadlockFree` | maven_jar_listing.go:56-130 | Until main returns, in every reachable state some action is enabled |
| `JarListing.MeasureDecreases` | maven_jar_listing.go:56-130 | Every action lowers a natural-number measure |
| `JarListing.Terminates` | maven_jar_listing.go:56-130 | No schedule is longer than a bound computed from the roots and 128 workers |
| `JarListing.RunsCanEnd` | maven_jar_listing.go:56-130 | From every reachable state a run can be played until nothing more can move |
| `JarListing.EveryRunReturns` | maven_jar_listing.go:52-121 | Every run that cannot be extended has returned: the expected listing in ascending order if nothing goes wrong, and otherwise an error that really happened |
| `Size.PrintThenParse` | calc/size.go:58-105 | For every 64-bit size above minus one kibibyte, printing and parsing leaves its whole kibibytes, and the unit printed is the largest that divides the size |
| `Size.ParsesIffWritten` | calc/size.go:41-82 | A text is a size if and only if, but for white space around it, it is digits of a number below 2^63 and at most one of the letters kKmMgGtT |
| `Size.UnitLetters` | calc/size.go:72-81 | k, m, g and t in either case multiply by 1024 and its second, third and fourth power, and no letter by nothing |
| `Size.ParseIsExactIffItFits` | calc/size.go:65-82 | A parsed size is what the text denotes if and only if that fits in 64 bits |
| `Size.SomeSizesWrap` | calc/size.go:71-80 | A text that denotes 2^64 bytes is accepted and read as zero |
| `Flags.PatternsAreExclusive` | calc/memory_regions.go:50-80 | At most one of the five flag patterns matches a token |
| `Flags.MatchingParsesIff` | calc/heap.go:33-50 | A matching token parses if and only if it has no surrounding white space and its digits fit 64 bits |
| `Flags.ShowThenParse` | calc/stack.go:32-53 | A printed flag is its literal name and the printed size, matches its own pattern and parses to the value in whole kibibytes |
| `Flags.ShownMatchesAtMost` | calc/metaspace.go:26-36 | No pattern but its own matches a printed flag, and not even that one if the size is negative by a kibibyte or more |
| `Flags.ParsesToWritten` | calc/stack.go:32-53 | A token that denotes fewer than 2^63 bytes is read as that number, if it parses |
| `MemoryRegions.NewMemoryRegionsFromFlags` | calc/memory_regions.go:36-85 | The loop succeeds if and only if every matching token parses, and each region is then what its last token says, or its default |
| `MemoryRegions.ReadingSucceedsIff` | calc/memory_regions.go:49-82 | Reading succeeds if and only if every matching token is free of surrounding white space and has digits that fit |
| `MemoryRegions.MaxDirectMemorySizeSetsDirectMemory` | calc/direct_memory.go:27-50 | -XX:MaxDirectMemorySize= in front of any size that parses sets the direct memory to it and nothing else |
| `MemoryRegions.XmxSetsHeap` | calc/heap.go:25-50 | -Xmx in front of any size that parses sets the heap to it and nothing else |
| `MemoryRegions.MaxMetaspaceSizeSetsMetaspace` | calc/metaspace.go:25-50 | -XX:MaxMetaspaceSize= in front of any size that parses sets the metaspace to it and nothing else |
| `MemoryRegions.ReservedCodeCacheSizeSetsCodeCache` | calc/reserved_code_cache.go:27-50 | -XX:ReservedCodeCacheSize= in front of any size that parses sets the code cache to it and nothing else |
| `MemoryRegions.XssSetsStack` | calc/stack.go:27-53 | -Xss in front of any size that parses sets the stack to it and nothing else |
| `MemoryRegions.OtherTokensAreIgnored` | calc/memory_regions.go:49-82 | A token that is none of the five names in front of digits and a unit, but for white space around it, changes nothing |
| `MemoryRegions.OrderOfOtherRegions` | calc/memory_regions.go:49-82 | Interleaving the tokens of different regions differently changes neither the regions nor whether reading succeeds |
| `MemoryRegions.SizesWrap` | calc/memory_regions.go:87-152 | The fixed, non-heap and total sizes are the exact sums wrapped once to 64 bits |
| `Calculator.ApplyLowProfileScaling` | calc/calculator.go:41-68 | Updates stack, code cache and thread count as the specification of the low profile says, in double precision, and nothing else |
| `Calculator.ScaledIsExact` | calc/calculator.go:41-68 | Below 32 TiB the scaling in double precision is the exact quotient of integers, or the minimum |
| `Calculator.HeadRoomIsRounded` | calc/calculator.go:102-105 | Up to 64 TiB the head room computed in double precision is the percentage of the limit up to one byte, and never above the limit |
| `Calculator.HeadRoomIs` | calc/calculator.go:102-105 | A percentage of either sign of a limit of either sign is the exact one up to one byte while the product has at most 57 bits |
| `Calculator.HugeHeadRoom` | calc/calculator.go:102-105 | A head room of 2^64 bytes or more is whatever the machine makes of such a number |
| `Calculator.RunCalculator` | calc/calculator.go:70-145 | The staged computation through a mutable record, with its floating-point steps, equals the calculation specified on values |
| `Calculator.CalculationIs` | calc/calculator.go:70-145 | The whole calculation from tokens to regions or error in plain numbers: defaults, 14,000,000 + 5,800 bytes for each class, the shares of the low profile with their minima, the head room, the heap that is left, and for every error the first group that does not fit in 64-bit arithmetic |
| `Calculator.HeapIsTheRest` | calc/calculator.go:102-125 | A heap that is not the user's is the limit less direct memory, metaspace, code cache, stack times threads and a head room of the given percentage |
| `Calculator.ConservedIffDemandFits` | calc/calculator.go:83-144 | For any flags, limit, head room, threads and class count, a successful result has no negative amount and allocates at most the limit if and only if the plan has no negative amount and its demand fits in 64 bits; a calculated heap then uses the limit up, and no heap is below 32 MiB |
| `Calculator.ConservationCanFail` | calc/memory_regions.go:114-123 | A concrete flag and thread count for which a successful result exceeds the limit |
| `Calculator.NegativeFlagIsAccepted` | calc/size.go:65-82 | A concrete flag that is read as a negative size, so that a 1 GiB container gets a heap above 8,000,000 TiB although the demand fits |
| `Calculator.RealisticDemandFits` | calc/calculator.go:83-142 | Sizes up to 64 TiB, 2^16 threads and 2^31 classes never overflow |
| `Calculator.SucceedsIff` | calc/calculator.go:90-144 | Without overflow the calculation succeeds if and only if everything with at least a minimum heap fits and a user heap is not below the minimum, and then the heap gets all the rest |
| `Calculator.FailureNamesTheGroup` | calc/calculator.go:95-142 | Without overflow each error means exactly that its group is the first that does not fit |
| `Calculator.ScaledIsBetween` | calc/calculator.go:45-67 | A scaled value lies between its minimum and its default |
| `Calculator.LowProfileDominates` | calc/calculator.go:79-144 | Below 1 GiB and without overflow, whenever the unscaled calculation succeeds so does the scaled one, and its heap is not smaller |
| `Calculator.LowProfileSucceedsIff` | calc/calculator.go:79-144 | For any flags and limit, where the unscaled calculation succeeds the scaled one does so if and only if the wrapped sizes of the unscaled plan can spare what scaling saves, and a calculated heap grows by just that |
| `Calculator.SmallSavingSucceedsIff` | calc/calculator.go:79-144 | For limits below 1 GiB and savings below 2^62 the condition is that the sizes less the saving stay in 64 bits and within the limit |
| `Calculator.SavingIsSmall` | calc/calculator.go:41-68 | Scaling saves less than 2^62 bytes, and saves something or nothing unless the stack is negative, for stacks up to 2^53 bytes and 2^32 threads |
| `Calculator.LowProfileCanFail` | calc/calculator.go:79-144 | Two concrete flags whose sizes wrap, for which the unscaled calculation succeeds and the scaled one fails |
| `Calculator.LargeSavingCanFail` | calc/calculator.go:79-144 | One concrete flag, -Xss of 2^60 bytes, for which scaling saves more than 2^64 bytes and turns success into failure |
| `Calculator.ScaledStacks` | calc/calculator.go:45-67 | The stacks of all scaled threads together stay below a fixed share of the limit |
| `Calculator.LowProfileWorks` | calc/calculator.go:70-144 | Without flags and head room the low profile succeeds for every limit from 128 MiB to 1 GiB if the metaspace takes at most a quarter |
| `MemoryCalculator.FirstSourceDecides` | helper/memory_calculator.go:142-170 | The limit comes from the first source that states one, capped at 64 TiB, or is 1 GiB |
| `MemoryCalculator.FirstLimitWins` | helper/memory_calculator.go:237-252 | A size in the first cgroup file is the limit, up to the cap, whatever else is set |
| `MemoryCalculator.LimitFilesAreSizes` | helper/memory_calculator.go:237-252 | A cgroup file states the size it holds and otherwise no limit |
| `MemoryCalculator.LimitFiles` | helper/memory_calculator.go:237-252 | A file holding a number and a line break states that number; max and a missing file state no limit |
| `MemoryCalculator.ClassCountIsRounded` | helper/memory_calculator.go:109-131 | The class count computed through four roundings in double precision is 35 percent of the adjusted number of classes up to one class |
| `MemoryCalculator.ClassesThatCount` | helper/memory_calculator.go:80-131 | The classes are those of JVM, application and agents together, adjusted by a percentage or by a number of classes; a stated count is taken as it is |
| `MemoryCalculator.RunExecute` | helper/memory_calculator.go:52-235 | Counting classes, filling the calculator field by field, calculating and appending flags equals the specified new options |
| `MemoryCalculator.ExecutionIs` | helper/memory_calculator.go:52-235 | The helper from environment and tokens to the new options in plain numbers: it succeeds if and only if the bill fits, and then adds each literal flag that the tokens do not set, in order, with its printed size |
| `MemoryCalculator.CompactHeadersAre` | helper/memory_calculator.go:222-230 | The compact-headers flag is added if and only if the limit is below 1 GiB, the profile is not disabled, Java is 25 or later and no token has the flag anywhere |
| `MemoryCalculator.OutputSaysStackAndCodeCache` | helper/memory_calculator.go:175-220 | Unless the tokens set them, the options say a stack of 1 MiB and a code cache of 240 MiB, or that share of them that the limit is of 1 GiB with their minima if the profile is on |
| `MemoryCalculator.EmittedReadsBack` | helper/memory_calculator.go:204-220 | Reading the user's tokens and the emitted flags gives back the user's regions unchanged and every other region in whole kibibytes |
| `MemoryCalculator.RecalculationSucceedsIff` | calc/calculator.go:70-145 | For any flags, limit and thread count, calculating on the rounded regions of a result succeeds and returns them if and only if its wrapped sizes can spare what rounding takes off |
| `MemoryCalculator.SurvivorsTakeRounding` | calc/calculator.go:70-145 | A loss that is not negative can be spared if the sizes less the loss stay in 64 bits, and, while limit and loss together are below 2^63, only then |
| `MemoryCalculator.RecalculationSucceeds` | calc/calculator.go:70-145 | Without overflow the sizes survive rounding, can spare it, and the rounded regions stay within the limit |
| `MemoryCalculator.RecalculationCanFail` | helper/memory_calculator.go:187-235 | Two concrete flags for which the helper succeeds and then fails on the options it has produced |
| `MemoryCalculator.OptionsAreAFixpointIff` | helper/memory_calculator.go:187-235 | For any flags and environment, running again on the output succeeds and adds nothing if and only if the metaspace can be printed and the sizes can spare the rounding, and then yields the rounded regions |
| `MemoryCalculator.OptionsAreAFixpoint` | helper/memory_calculator.go:187-235 | Without overflow the output is a fixpoint, stays within the limit and keeps a heap of at least 32 MiB |
| `MemoryCalculator.NegativeMetaspaceIsNoFixpoint` | helper/memory_calculator.go:204-220 | If the metaspace calculated is negative by a kibibyte or more the output is never a fixpoint |
| `MemoryCalculator.WrittenIsRead` | calc/memory_regions.go:49-82 | Tokens that write sizes within a bound are read into regions within it, none negative |
| `MemoryCalculator.RealisticOptionsAreAFixpoint` | helper/memory_calculator.go:52-235 | The output is a fixpoint for all tokens that write sizes up to 64 TiB, up to 2^16 threads, up to 100 percent head room and 2^31 classes |
| `ImageReader.NewHeader` | count/header.go:41-76 | Reading the fields one after another equals the header as a function of the bytes |
| `ImageReader.NewTable` | count/redirect.go:33-50 | Seeking and filling the table equals the table as a function of the bytes, errors included |
| `ImageReader.NewImage` | count/image.go:36-69 | The sections read in turn through the shared cursor equal the layout as a function of the bytes |
| `ImageReader.GetLocation` | count/location.go:92-146 | The attribute loop equals the decoder on the bytes wherever the cursor was, and ends on every file |
| `ImageReader.GetString` | count/string.go:37-66 | The two-pass read equals the truncated string on the bytes wherever the cursor was |
| `ImageReader.CountModuleClasses` | count/count_classes.go:99-126 | The count, or the first error, is a function of the file's bytes alone |
| `ImageLaws.HeaderStandsAt` | count/header.go:41-76 | Every header is its seven little-endian integers, two version numbers in the second, and fewer than 28 bytes are none |
| `ImageLaws.ImageStandsAt` | count/image.go:44-68 | For any file below 2 GiB: a negative table length or tables that do not fit fail, and otherwise offsets stand at 28 + 4n, locations at 28 + 8n and strings so many bytes behind |
| `ImageLaws.LocationIs` | count/location.go:92-146 | What comes of any location: its fields by name, unknown attribute for a kind above 7, or end of file |
| `ImageLaws.EntryIs` | count/count_classes.go:108-121 | What comes of any offset entry: no class without extension, an error for a broken location or an unterminated extension, and otherwise the comparison with "class" |
| `ImageLaws.CountIs` | count/count_classes.go:99-126 | The count of any file is the number of entries that are classes, and the first entry that fails makes it fail |
| `ImageEncoding.DecodeInvertsEncode` | count/location.go:92-146 | Wherever an encoded location stands, decoding yields for each kind the last value written modulo 2^32, or zero |
| `ImageEncoding.ImageRoundTrip` | count/image.go:44-68 | Reading a built file gives back its versions and tables, with the locations at 28 + 8n and the strings right behind them |
| `ImageEncoding.ReadsAsClassIff` | count/string.go:42-65 | Exactly which byte strings the truncating read takes for "class" |
| `ImageEncoding.ClassTestIsExact` | count/count_classes.go:113-121 | For well-formed UTF-8 the read equals "class" if and only if the whole string is "class" |
| `ImageEncoding.AsciiIsReadWhole` | count/string.go:42-65 | ASCII strings are read whole |
| `ImageEncoding.ClassesAreCounted` | count/count_classes.go:99-126 | For every built file whose referenced extensions are terminated strings of the pool, the count is the number of offset entries whose extension is "class" followed by any number of continuation bytes |
| `ImageEncoding.CountIsExactIff` | count/count_classes.go:99-126 | The count is never below the number of entries that name "class", and equals it if and only if no entry names "class" with continuation bytes behind it |
| `ImageEncoding.ClassTestCanBeFooled` | count/count_classes.go:113-121 | A concrete file in which no entry names "class" and one class is counted |
| `ImageEncoding.WellFormedNamesAreCounted` | count/count_classes.go:99-126 | If the referenced extensions are well-formed UTF-8 the count is the number of entries that name "class" |
| `SecurityProviders.Providers.Put` | helper/security_providers_configurer.go:59-81 | Padding, shifting and writing in place equals inserting the token into the slots |
| `SecurityProviders.Providers.Squeeze` | helper/security_providers_configurer.go:84-93 | The in-place loop equals the order-preserving filter of the non-empty slots, and ends |
| `SecurityProviders.Configure` | helper/security_providers_configurer.go:56-109 | Succeeds if and only if every index is from 1 to 2^63 - 1, and then writes the non-empty slots as security.provider.1= to n= without holes; otherwise the first token out of that range decides between the number error and the panic |
| `SecurityProviders.InsertKeepsOthersInOrder` | helper/security_providers_configurer.go:67-80 | Whatever slot a token goes to, taken or not, the compacted list gains it behind the lower slots and keeps all others in order |
| `SecurityProviders.SlotsAfterInsert` | helper/security_providers_configurer.go:70-80 | Slot by slot: the token has its own slot, lower slots are as they were or empty, and higher ones have moved up by one if and only if the slot was taken |
| `SecurityProviders.UnnumberedComesLast` | helper/security_providers_configurer.go:60-63 | A provider without an index comes last |
| `SecurityProviders.ProvidersAreConserved` | helper/security_providers_configurer.go:58-93 | For all tokens that are accepted, colliding or not, the names that come out are a permutation of the names that went in |
| `SecurityProviders.DistinctArePlaced` | helper/security_providers_configurer.go:58-81 | With distinct indices, slot i holds exactly the provider numbered i + 1, gaps are empty and the highest index is the last slot |
| `SecurityProviders.OrderDoesNotMatter` | helper/security_providers_configurer.go:58-81 | With distinct indices every permutation of the tokens gives the same slots |
| `SecurityProviders.NumericOrder` | jre.go:152-158 | Numbered providers come out in numeric order even if they arrive sorted as text |
| `JLink.JLink.ValidArgs` | jlink.go:150-174 | Filtering through the array being read equals the pure filter, leaves the array beyond the result as it was, and tells whether modules are named |
| `JLink.MachineFilters` | jlink.go:153-168 | The skip-next loop computes the filter that drops each output option with its successor |
| `JLink.KeptHasNoOutput` | jlink.go:158-163 | No argument with the prefix --output survives |
| `JLink.OptionsInAnyCase` | jlink.go:157-166 | An option is recognised by --output or --add-modules in any mix of cases at its beginning |
| `JLink.KeptInParts` | jlink.go:150-168 | What is in front of the first output option is kept, that option and its value go, and then the same holds of the rest |
| `JLink.JLink.Assemble` | jlink.go:68-80 | Filtering and appending in place equals the assembled argument list |
| `JLink.ModuleListIsNoOption` | jlink.go:176-198 | The default module list is never mistaken for an output option |
| `JLink.NextModule` | jlink.go:188-195 | The default modules are the lines that begin with java. up to their at sign, in order |
| `JLink.JoinedSplits` | jlink.go:196-197 | Splitting the module list at commas gives the modules back |
| `JLink.OneOutputAndSomeModules` | jlink.go:68-80 | A user-configured list ends up with exactly one output option, directly followed by the layer path, and names modules |
| `JLink.AssembledInFull` | jlink.go:68-80 | A default list is kept and followed by --add-modules, the module list, --output and the path; a user list gets --add-modules only if it names no modules |
| `Manifest.PassesAreOneScan` | manifest.go:77-88 | The three replacing passes equal one left-to-right scan, on every input |
| `Manifest.NormalizedFile` | manifest.go:77-88 | What the scan makes of any blank lines and headers, folded anywhere with any mix of line breaks and with or without a last line that has no break: CR and LF of neighbouring lines count as one break |
| `Manifest.UnfoldInvertsFoldIff` | manifest.go:77-88 | The passes give back all headers and blank lines if and only if no CR-ended line is followed by a bare LF, also when the last header is folded and unterminated |
| `Manifest.UnfoldInvertsFold` | manifest.go:77-88 | If no line but the first is blank or folded before its first character, any mix of line breaks is undone |
| `Manifest.BreaksCanMerge` | manifest.go:77-88 | Two concrete files, of which one loses a blank line and the other has two headers joined to one |
| `Sdkman.ReadSdkmanRc` | sdkman.go:34-72 | The loop with early returns equals reading the lines as specified |
| `Sdkman.FailsIff` | sdkman.go:40-65 | Reading fails if and only if some line has non-blank text but no = in front of its comment, and the error names the first such line |
| `Sdkman.FileReadsBack` | sdkman.go:34-72 | Entries in any case printed with any padding, comments and blank lines are read back as the same list, with type and vendor in lower case |

## Left out

- File, zip, tar and keystore access, hashing, certificates, the layer contributors, `Build`,
  `Detect` and `Generate`, JVM version precedence and the one-branch environment helpers.
- What goroutines do after main has returned an error; they may stay blocked, and the claims
  about progress stop there.
- The naming of a JAR from its path: `process` is any function from paths to results.
- shellwords, properties and the provider pattern are libraries or regular expressions outside
  the model; it starts from tokens and bytes. That appending flags to the option string appends
  tokens is assumed. The test whether options mention the compact-headers flag looks at tokens,
  not at the raw string.
- Calculator.CalculationIs: says nothing of a head room whose product with the limit has more than
  57 bits (beyond 2048 percent of 64 TiB), nor of a low profile from 32 TiB on, where float64 rounds.
- MemoryCalculator.RunExecute: the numbers of classes in the JVM, the application and the agents
  are given to it, and JAVA_TOOL_OPTIONS is a list of tokens, not the string they are split from
  and joined to.
- Subnormal numbers, infinities and signed zeros: the products and quotients here are far from them.
- Environment variables that do not parse as numbers or booleans, `/proc/meminfo` parsing and
  `ParseUnit`, log output, warnings and the region strings used in error messages.
- `Location.FullName`, `JarClasses` and nested JARs.
- Case mapping beyond ASCII in jlink arguments: no other character lower-cases to one of the
  characters of the two option names.
- `JarListing` is modelled on values as a state machine over all goroutines, because
  interleavings are its subject; the order of updates within one action is not visible.
- An allocation that fails, for a huge table length or provider index.
