/** The JVM memory calculator (calc/calculator.go): it divides a memory limit among the
    regions, in 64-bit arithmetic, or says which regions do not fit. */
module Calculator {
  import opened Wrappers
  import opened Machine
  import opened Size
  import opened MemoryRegions
  import opened Text
  import Flags
  import Float64

  const CLASS_SIZE: int := 5_800
  const CLASS_OVERHEAD: int := 14_000_000
  const LOW_PROFILE_THRESHOLD: int := GIBI
  const MIN_STACK: int := 256 * KIBI
  const MIN_CODE_CACHE: int := 2496 * KIBI
  const MIN_THREADS: int := 30
  const MIN_HEAP: int := 32 * MEBI
  const DEFAULT_THREADS: int := 250

  datatype ThreadCount = ThreadCount(value: int, provenance: Provenance)

  const DEFAULT_THREAD_COUNT := ThreadCount(DEFAULT_THREADS, Default)

  /** unrepresentable is what the machine makes of a float64 that does not fit in an int64. */
  datatype Calculator = Calculator(
    headRoom: int,
    unrepresentable: int,
    loadedClassCount: int,
    lowProfile: bool,
    threadCount: ThreadCount,
    totalMemory: int)

  datatype Output = Output(memory: Regions, threadCount: ThreadCount)

  datatype Failure = BadFlags | FixedTooLarge | NonHeapTooLarge | AllTooLarge | HeapTooSmall

  // ---- what is computed, on values ----

  /** So many percent of the limit, as float64 has it. */
  function HeadRoomBytes(percent: int, total: int, unrepresentable: int): int {
    Float64.ToInt64(
      Float64.Mul(Float64.Div(Float64.OfInt(percent), Float64.OfInt(100)), Float64.OfInt(total)),
      unrepresentable)
  }

  function ScalingFactor(total: int): (f: Float64.Float)
    ensures f.Valid()
  {
    Float64.Div(Float64.OfInt(total), Float64.OfInt(LOW_PROFILE_THRESHOLD))
  }

  /** default * (total / threshold) as float64 has it, rounded toward zero, but at least min. */
  function Scaled(default: int, total: int, min: int): int {
    var scaled := Float64.ToInt(Float64.Mul(Float64.OfInt(default), ScalingFactor(total)));
    if scaled < min then min else scaled
  }

  function LowProfile(total: int, o: Output): Output {
    var m := o.memory;
    Output(
      m.(stack := if m.stack.provenance == UserConfigured then m.stack
                  else Region(Scaled(DEFAULT_STACK.value, total, MIN_STACK), Calculated),
         codeCache := if m.codeCache.provenance == UserConfigured then m.codeCache
                      else Region(Scaled(DEFAULT_CODE_CACHE.value, total, MIN_CODE_CACHE), Calculated)),
      if o.threadCount.provenance == UserConfigured then o.threadCount
      else o.threadCount.(value := Scaled(DEFAULT_THREADS, total, MIN_THREADS)))
  }

  function CalculatedMetaspace(c: Calculator): Region {
    Region(Add64(CLASS_OVERHEAD, Mul64(CLASS_SIZE, c.loadedClassCount)), Calculated)
  }

  /** The regions with the head room, before the heap is chosen, and the thread count. */
  function Plan(c: Calculator, flags: Regions): (o: Output)
    ensures o.memory.metaspace.Some? && o.memory.headRoom.Some?
    ensures o.memory.heap == flags.heap
  {
    var o := Output(flags, c.threadCount);
    var s := if c.lowProfile then LowProfile(c.totalMemory, o) else o;
    s.(memory := s.memory.(
      metaspace := if s.memory.metaspace.Some? then s.memory.metaspace else Some(CalculatedMetaspace(c)),
      headRoom := Some(Region(HeadRoomBytes(c.headRoom, c.totalMemory, c.unrepresentable), Calculated))))
  }

  /** The three limit checks and the minimum heap, each on the 64-bit size. */
  function Allocate(total: int, o: Output): Result<Output, Failure>
    requires o.memory.metaspace.Some? && o.memory.headRoom.Some?
  {
    var m, t := o.memory, o.threadCount.value;
    if FixedRegionsSize(m, t).value > total then Err(FixedTooLarge)
    else
      var n := NonHeapRegionsSize(m, t).value;
      if n > total then Err(NonHeapTooLarge)
      else
        var m' := if m.heap.Some? then m else m.(heap := Some(Region(Wrap64(total - n), Calculated)));
        if AllRegionsSize(m', t).value > total then Err(AllTooLarge)
        else if m'.heap.value.value < MIN_HEAP then Err(HeapTooSmall)
        else Ok(Output(m', o.threadCount))
  }

  /** The calculation on regions already read from the flags. */
  function CalculateFrom(c: Calculator, flags: Regions): Result<Output, Failure> {
    Allocate(c.totalMemory, Plan(c, flags))
  }

  ghost function Calculate(c: Calculator, tokens: seq<string>): Result<Output, Failure> {
    if AllParse(tokens) then CalculateFrom(c, FromFlags(tokens)) else Err(BadFlags)
  }

  // ---- how it is computed ----

  method ApplyLowProfileScaling(c: Calculator, m: MemoryRegions, threadCount: ThreadCount) returns (t: ThreadCount)
    modifies m
    ensures Output(m.View(), t) == LowProfile(c.totalMemory, Output(old(m.View()), threadCount))
  {
    var scalingFactor := Float64.Div(Float64.OfInt(c.totalMemory), Float64.OfInt(LOW_PROFILE_THRESHOLD));
    assert scalingFactor == ScalingFactor(c.totalMemory);
    hide ScalingFactor, Float64.Mul, Float64.OfInt;
    t := threadCount;
    if m.stack.provenance != UserConfigured {
      var scaled := Float64.ToInt(Float64.Mul(Float64.OfInt(DEFAULT_STACK.value), scalingFactor));
      if scaled < MIN_STACK { scaled := MIN_STACK; }
      m.stack := Region(scaled, Calculated);
    }
    if m.codeCache.provenance != UserConfigured {
      var scaled := Float64.ToInt(Float64.Mul(Float64.OfInt(DEFAULT_CODE_CACHE.value), scalingFactor));
      if scaled < MIN_CODE_CACHE { scaled := MIN_CODE_CACHE; }
      m.codeCache := Region(scaled, Calculated);
    }
    if t.provenance != UserConfigured {
      var scaled := Float64.ToInt(Float64.Mul(Float64.OfInt(DEFAULT_THREADS), scalingFactor));
      if scaled < MIN_THREADS { scaled := MIN_THREADS; }
      t := t.(value := scaled);
    }
  }

  method RunCalculator(c: Calculator, tokens: seq<string>) returns (r: Result<Output, Failure>)
    ensures r == Calculate(c, tokens)
  {
    hide FromFlags, LowProfile, CalculatedMetaspace, NonHeapRegionsSize, AllRegionsSize;
    hide Float64.Mul, Float64.Div, Float64.OfInt;
    var ok, m := NewMemoryRegionsFromFlags(tokens);
    if !ok { return Err(BadFlags); }
    var threadCount := c.threadCount;
    if c.lowProfile {
      threadCount := ApplyLowProfileScaling(c, m, threadCount);
    }
    if m.metaspace.None? {
      m.metaspace := Some(CalculatedMetaspace(c));
    }
    var f := m.FixedSize(threadCount.value);
    ghost var p := Plan(c, FromFlags(tokens));
    assert p.threadCount == threadCount;
    assert p.memory == m.View().(headRoom := Plan(c, FromFlags(tokens)).memory.headRoom);
    if f.value > c.totalMemory { return Err(FixedTooLarge); }
    var percent := Float64.Div(Float64.OfInt(c.headRoom), Float64.OfInt(100));
    var headRoom := Float64.Mul(percent, Float64.OfInt(c.totalMemory));
    m.headRoom := Some(Region(Float64.ToInt64(headRoom, c.unrepresentable), Calculated));
    assert m.View() == p.memory;
    var n := m.NonHeapSize(threadCount.value);
    if n.value > c.totalMemory { return Err(NonHeapTooLarge); }
    if m.heap.None? {
      m.heap := Some(Region(Wrap64(c.totalMemory - n.value), Calculated));
    }
    var a := m.AllSize(threadCount.value);
    if a.value > c.totalMemory { return Err(AllTooLarge); }
    if m.heap.value.value < MIN_HEAP { return Err(HeapTooSmall); }
    return Ok(Output(m.View(), threadCount));
  }

  // ---- when the 64-bit arithmetic can be trusted ----

  predicate Within(r: Region, low: int, high: int) { low <= r.value <= high }

  /** What reading flags yields: each region is the user's or has its default. */
  predicate ReadFromFlags(m: Regions) {
    && (m.directMemory.provenance == UserConfigured || m.directMemory == DEFAULT_DIRECT_MEMORY)
    && (m.heap.Some? ==> m.heap.value.provenance == UserConfigured)
    && (m.metaspace.Some? ==> m.metaspace.value.provenance == UserConfigured)
    && (m.codeCache.provenance == UserConfigured || m.codeCache == DEFAULT_CODE_CACHE)
    && (m.stack.provenance == UserConfigured || m.stack == DEFAULT_STACK)
    && m.headRoom.None?
  }

  predicate RegionsWithin(m: Regions, low: int, high: int) {
    && Within(m.directMemory, low, high) && Within(m.codeCache, low, high) && Within(m.stack, low, high)
    && (m.metaspace.Some? ==> Within(m.metaspace.value, low, high))
    && (m.heap.Some? ==> Within(m.heap.value, low, high))
  }

  /** Regions as any flags set them: each one the user's or the default, within 64 bits. A size
      that wraps when it is parsed may be negative. */
  predicate Parsed(m: Regions) {
    ReadFromFlags(m) && RegionsWithin(m, -TWO_63, TWO_63 - 1)
  }

  lemma FlagIsParsed(k: Flags.Kind, tokens: seq<string>)
    ensures Flagged(k, tokens).Some? ==>
      Flagged(k, tokens).value.provenance == UserConfigured && Within(Flagged(k, tokens).value, -TWO_63, TWO_63 - 1)
  {
    hide Flags.Matches, Wrap64;
  }

  /** Every token list is read into such regions. */
  lemma FlagsAreParsed(tokens: seq<string>)
    ensures Parsed(FromFlags(tokens))
  {
    hide Flagged;
    FlagIsParsed(Flags.DirectMemory, tokens);
    FlagIsParsed(Flags.Heap, tokens);
    FlagIsParsed(Flags.Metaspace, tokens);
    FlagIsParsed(Flags.CodeCache, tokens);
    FlagIsParsed(Flags.Stack, tokens);
  }

  /** No region and no thread count is negative. */
  predicate NoneNegative(o: Output) {
    var m := o.memory;
    && 0 <= m.directMemory.value && 0 <= m.codeCache.value && 0 <= m.stack.value
    && (m.metaspace.Some? ==> 0 <= m.metaspace.value.value)
    && (m.headRoom.Some? ==> 0 <= m.headRoom.value.value)
    && (m.heap.Some? ==> 0 <= m.heap.value.value)
    && 0 <= o.threadCount.value
  }

  /** Nothing the calculator plans with is negative: no flag and no class count has wrapped
      around, and neither the head room nor the thread count was given as a negative number. */
  predicate NonNegative(c: Calculator, flags: Regions) {
    IsInt64(c.totalMemory) && Parsed(flags) && NoneNegative(Plan(c, flags))
  }

  function HeapOr(o: Output, unset: int): int {
    if o.memory.heap.Some? then o.memory.heap.value.value else unset
  }

  /** What everything but the heap asks for, exactly. */
  function NonHeapDemand(c: Calculator, flags: Regions): int {
    NonHeap(Plan(c, flags).memory, Plan(c, flags).threadCount.value)
  }

  /** What the flags, the class count, the threads and the head room ask for, exactly. */
  function Demand(c: Calculator, flags: Regions): int {
    NonHeapDemand(c, flags) + HeapOr(Plan(c, flags), 0)
  }

  /** What an output hands out, exactly. */
  function Allocated(o: Output): int
    requires o.memory.metaspace.Some? && o.memory.headRoom.Some? && o.memory.heap.Some?
  {
    All(o.memory, o.threadCount.value)
  }

  lemma PlanIsNonNegative(c: Calculator, flags: Regions)
    requires NonNegative(c, flags)
    ensures var o := Plan(c, flags);
      0 <= o.threadCount.value && 0 <= o.memory.stack.value * o.threadCount.value
  {
    var o := Plan(c, flags);
    MulMonotone(0, o.memory.stack.value, 0, o.threadCount.value);
  }

  lemma MulMonotone(a: int, b: int, x: int, y: int)
    requires 0 <= a <= b && 0 <= x <= y
    ensures 0 <= a * x <= b * y
  {
    assert a * x <= b * x;
    assert b * x <= b * y;
  }

  /** Memory is conserved exactly when nothing planned is negative and the demand fits in 64
      bits. Whatever the calculator is given, a successful result hands out only amounts that are
      not negative and at most the limit together, if and only if that holds of the plan. The
      heap is never below the minimum, and a heap that was not set by the user then uses up the
      limit to the last byte. */
  lemma ConservedIffDemandFits(c: Calculator, flags: Regions)
    requires IsInt64(c.totalMemory) && Parsed(flags) && CalculateFrom(c, flags).Ok?
    ensures var o := CalculateFrom(c, flags).value;
      && o.memory.metaspace.Some? && o.memory.headRoom.Some? && o.memory.heap.Some?
      && MIN_HEAP <= o.memory.heap.value.value
      && (NoneNegative(o) && Allocated(o) <= c.totalMemory <==>
          NoneNegative(Plan(c, flags)) && Demand(c, flags) < TWO_63)
      && (NoneNegative(Plan(c, flags)) && Demand(c, flags) < TWO_63 && flags.heap.None? ==>
          Allocated(o) == c.totalMemory)
  {
    hide HeadRoomBytes, Scaled;
    var p := Plan(c, flags);
    var o := CalculateFrom(c, flags).value;
    if NoneNegative(p) { PlanIsNonNegative(c, flags); }
    SizesWrap(p.memory, p.threadCount.value);
    SizesWrap(o.memory, o.threadCount.value);
  }

  /** A planned region can be negative although the demand fits: a direct memory of 8388609T is
      read as 2^40 - 2^63, and a 1 GiB container is granted a heap of more than 8,000,000 TiB. */
  lemma NegativeFlagIsAccepted()
    ensures var c := Calculator(0, 0, 0, false, DEFAULT_THREAD_COUNT, GIBI);
            var tokens := ["-XX:MaxDirectMemorySize=8388609T"];
      && Calculate(c, tokens).Ok? && Demand(c, FromFlags(tokens)) < TWO_63
      && var m := Calculate(c, tokens).value.memory;
         && m.directMemory.value == TEBI - TWO_63
         && m.heap.Some? && m.heap.value.value > 8_000_000 * TEBI
  {
    NegativeFlagIsRead();
    hide AllParse, FromFlags, Demand, CalculateFrom;
    NegativeDirectMemory(DEFAULTS.(directMemory := Region(TEBI - TWO_63, UserConfigured)));
  }

  lemma NegativeFlagIsRead()
    ensures var tokens := ["-XX:MaxDirectMemorySize=8388609T"];
      AllParse(tokens) && FromFlags(tokens) == DEFAULTS.(directMemory := Region(TEBI - TWO_63, UserConfigured))
  {
    hide AllParse, FromFlags, Decimal, Flags.Prefix, IsSize, ParseSize;
    var size := Decimal(8388609) + "T";
    NegativeFlagIsWritten();
    PrintedParses(8388609, "T", Tebis);
    assert Wrap64(8388609 * TEBI) == TEBI - TWO_63;
    NoFlags();
    OneMoreSize([], Flags.DirectMemory, size, TEBI - TWO_63);
    assert [] + [Flags.Prefix(Flags.DirectMemory) + size] == [Flags.Prefix(Flags.DirectMemory) + size];
  }

  lemma NegativeFlagIsWritten()
    ensures Flags.Prefix(Flags.DirectMemory) + (Decimal(8388609) + "T") == "-XX:MaxDirectMemorySize=8388609T"
  {
    SevenDigits();
  }

  lemma SevenDigits()
    ensures Decimal(8388609) == "8388609"
  {
    assert Decimal(8) == "8";
    assert Decimal(83) == "83";
    assert Decimal(838) == "838";
    assert Decimal(8388) == "8388";
    assert Decimal(83886) == "83886";
    assert Decimal(838860) == "838860";
  }

  lemma NegativeDirectMemory(flags: Regions)
    requires flags == DEFAULTS.(directMemory := Region(TEBI - TWO_63, UserConfigured))
    ensures var c := Calculator(0, 0, 0, false, DEFAULT_THREAD_COUNT, GIBI);
      && Demand(c, flags) < TWO_63 && CalculateFrom(c, flags).Ok?
      && var m := CalculateFrom(c, flags).value.memory;
         && m.directMemory == flags.directMemory
         && m.heap.Some? && m.heap.value.value > 8_000_000 * TEBI
  {
    hide HeadRoomBytes;
    var c := Calculator(0, 0, 0, false, DEFAULT_THREAD_COUNT, GIBI);
    HeadRoomIsRounded(c.headRoom, c.totalMemory, c.unrepresentable);
    var p := Plan(c, flags);
    SizesWrap(p.memory, DEFAULT_THREADS);
    var heap := Wrap64(GIBI - NonHeapRegionsSize(p.memory, DEFAULT_THREADS).value);
    var m := p.memory.(heap := Some(Region(heap, Calculated)));
    SizesWrap(m, DEFAULT_THREADS);
  }

  /** A demand that does not fit really occurs: -Xss1T with 2^24 threads makes the stacks wrap
      to nothing, and a 1 GiB container is granted 16 EiB of thread stacks. */
  lemma ConservationCanFail()
    ensures var c := Calculator(0, 0, 0, false, ThreadCount(0x100_0000, UserConfigured), GIBI);
            var tokens := [Flags.Show(Flags.Stack, TEBI)];
      && NonNegative(c, FromFlags(tokens)) && Calculate(c, tokens).Ok?
      && var o := Calculate(c, tokens).value;
         o.memory.stack.value * o.threadCount.value == TWO_64 && c.totalMemory == GIBI
  {
    hide FromFlags, AllParse, CalculateFrom, NonNegative, Print, IsSize, ParseSize, Flags.Prefix;
    PrintThenParse(TEBI);
    NoFlags();
    OneMoreSize([], Flags.Stack, Print(TEBI), TEBI);
    assert [] + [Flags.Show(Flags.Stack, TEBI)] == [Flags.Show(Flags.Stack, TEBI)];
    WrappedStacks(DEFAULTS.(stack := Region(TEBI, UserConfigured)));
  }

  lemma WrappedStacks(flags: Regions)
    requires flags == DEFAULTS.(stack := Region(TEBI, UserConfigured))
    ensures var c := Calculator(0, 0, 0, false, ThreadCount(0x100_0000, UserConfigured), GIBI);
      NonNegative(c, flags) && CalculateFrom(c, flags).Ok?
      && CalculateFrom(c, flags).value.memory.stack.value == TEBI
      && CalculateFrom(c, flags).value.threadCount == c.threadCount
  {
    hide HeadRoomBytes;
    var c := Calculator(0, 0, 0, false, ThreadCount(0x100_0000, UserConfigured), GIBI);
    HeadRoomIsRounded(c.headRoom, c.totalMemory, c.unrepresentable);
    var p := Plan(c, flags);
    SizesWrap(p.memory, 0x100_0000);
    var m := p.memory.(heap := Some(Region(Wrap64(GIBI - NonHeapRegionsSize(p.memory, 0x100_0000).value), Calculated)));
    SizesWrap(m, 0x100_0000);
  }

  lemma NoFlags()
    ensures AllParse([]) && FromFlags([]) == DEFAULTS
  {
  }

  lemma HeapFillsUp(total: int, n: int)
    requires IsInt64(total)
    ensures Wrap64(n + Wrap64(total - Wrap64(n))) == total
  {
    WrapOnce(total - Wrap64(n), n);
    WrapOnce(n, total - Wrap64(n));
  }

  /** Success on any plan whatever, in terms of the exact sums, wrapped once. */
  lemma AllocateIff(total: int, o: Output)
    requires o.memory.metaspace.Some? && o.memory.headRoom.Some? && IsInt64(total)
    ensures var n := NonHeap(o.memory, o.threadCount.value);
            var left := Wrap64(total - Wrap64(n));
      && (Allocate(total, o).Ok? <==>
          && Wrap64(Fixed(o.memory, o.threadCount.value)) <= total && Wrap64(n) <= total
          && (o.memory.heap.Some? ==> Wrap64(n + o.memory.heap.value.value) <= total)
          && MIN_HEAP <= HeapOr(o, left))
      && (Allocate(total, o).Ok? ==>
          Allocate(total, o).value == if o.memory.heap.Some? then o
                                      else o.(memory := o.memory.(heap := Some(Region(left, Calculated)))))
  {
    hide Wrap64, Fixed;
    var n := NonHeap(o.memory, o.threadCount.value);
    var left := Wrap64(total - Wrap64(n));
    SizesWrap(o.memory, o.threadCount.value);
    SizesWrap(o.memory.(heap := Some(Region(left, Calculated))), o.threadCount.value);
    HeapFillsUp(total, n);
  }

  lemma SumsAreExact(m: Regions, t: int, total: int)
    requires m.metaspace.Some? && m.headRoom.Some? && IsInt64(total)
    requires NoneNegative(Output(m, ThreadCount(t, Default)))
    requires NonHeap(m, t) + (if m.heap.Some? then m.heap.value.value else 0) < TWO_63
    ensures 0 <= Fixed(m, t) <= NonHeap(m, t)
    ensures Wrap64(Fixed(m, t)) == Fixed(m, t) && Wrap64(NonHeap(m, t)) == NonHeap(m, t)
    ensures m.heap.Some? ==> Wrap64(NonHeap(m, t) + m.heap.value.value) == NonHeap(m, t) + m.heap.value.value
    ensures NonHeap(m, t) <= total ==> Wrap64(total - Wrap64(NonHeap(m, t))) == total - NonHeap(m, t)
  {
    MulMonotone(0, m.stack.value, 0, t);
  }

  /** Without overflow, the calculation succeeds exactly when a user heap is not below the
      minimum and everything together, with at least a minimum heap, fits; it then keeps the
      plan and fills up with heap. */
  lemma SucceedsIff(c: Calculator, flags: Regions)
    requires NonNegative(c, flags) && Demand(c, flags) < TWO_63
    ensures CalculateFrom(c, flags).Ok? <==>
      && MIN_HEAP <= HeapOr(Plan(c, flags), MIN_HEAP)
      && NonHeapDemand(c, flags) + HeapOr(Plan(c, flags), MIN_HEAP) <= c.totalMemory
    ensures CalculateFrom(c, flags).Ok? ==>
      CalculateFrom(c, flags).value == Filled(c, flags)
  {
    hide HeadRoomBytes, Scaled, LowProfile, CalculatedMetaspace, Parsed;
    var p := Plan(c, flags);
    PlanIsNonNegative(c, flags);
    hide Plan;
    AllocateIff(c.totalMemory, p);
    SumsAreExact(p.memory, p.threadCount.value, c.totalMemory);
    hide Allocate, Wrap64, Fixed, NonHeap;
  }

  /** Without overflow, the failure names the first group of regions that is too large: all
      regions together can only be too large with a heap set by the user. */
  lemma FailureNamesTheGroup(c: Calculator, flags: Regions)
    requires NonNegative(c, flags) && Demand(c, flags) < TWO_63 && CalculateFrom(c, flags).Err?
    ensures var p := Plan(c, flags);
      var total, fixed, rest := c.totalMemory, Fixed(p.memory, p.threadCount.value), NonHeapDemand(c, flags);
      match CalculateFrom(c, flags).error
      case BadFlags => false
      case FixedTooLarge => fixed > total
      case NonHeapTooLarge => fixed <= total < rest
      case AllTooLarge => rest <= total && flags.heap.Some? && rest + flags.heap.value.value > total
      case HeapTooSmall => rest <= total && HeapOr(p, total - rest) < MIN_HEAP && rest + HeapOr(p, 0) <= total
  {
    hide HeadRoomBytes, Scaled;
    var p := Plan(c, flags);
    PlanIsNonNegative(c, flags);
    SizesWrap(p.memory, p.threadCount.value);
    SizesWrap(Filled(c, flags).memory, p.threadCount.value);
  }

  /** The plan with the heap set to whatever is left, unless the user set it. */
  function Filled(c: Calculator, flags: Regions): Output {
    var p := Plan(c, flags);
    if flags.heap.Some? then p
    else p.(memory := p.memory.(heap := Some(Region(c.totalMemory - NonHeapDemand(c, flags), Calculated))))
  }

  /** Inputs of realistic size never overflow: sizes up to 64 TiB, 65536 threads, and as many
      classes as a 32-bit counter holds. */
  lemma RealisticDemandFits(c: Calculator, flags: Regions)
    requires 0 <= c.totalMemory <= 64 * TEBI && 0 <= c.headRoom <= 100
    requires 0 <= c.threadCount.value <= 0x1_0000 && 0 <= c.loadedClassCount < TWO_31
    requires ReadFromFlags(flags) && RegionsWithin(flags, 0, 64 * TEBI)
    requires c.lowProfile ==> c.totalMemory < LOW_PROFILE_THRESHOLD
    ensures NonNegative(c, flags) && Demand(c, flags) < TWO_63
  {
    hide HeadRoomBytes, Scaled;
    HeadRoomIsRounded(c.headRoom, c.totalMemory, c.unrepresentable);
    var o := Plan(c, flags);
    ScaledIsBetween(DEFAULT_STACK.value, c.totalMemory, MIN_STACK);
    ScaledIsBetween(DEFAULT_CODE_CACHE.value, c.totalMemory, MIN_CODE_CACHE);
    ScaledIsBetween(DEFAULT_THREADS, c.totalMemory, MIN_THREADS);
    PlanIsNonNegative(c, flags);
    MulMonotone(o.memory.stack.value, 64 * TEBI, o.threadCount.value, 0x1_0000);
  }

  // ---- what a calculation comes to, in plain numbers ----

  function ValueOr(r: Option<Region>, otherwise: int): int {
    if r.Some? then r.value.value else otherwise
  }

  /** 10 MiB unless a flag says otherwise. */
  function DirectMemoryBytes(tokens: seq<string>): int {
    ValueOr(Flagged(Flags.DirectMemory, tokens), 10_485_760)
  }

  /** 14 MB and 5.8 kB for each class unless a flag says otherwise. */
  function MetaspaceBytes(classes: int, tokens: seq<string>): int {
    ValueOr(Flagged(Flags.Metaspace, tokens), Wrap64(14_000_000 + 5_800 * classes))
  }

  /** 240 MiB, or that share of 1 GiB that the limit is but at least 2496 KiB, unless a flag says
      otherwise. */
  function CodeCacheBytes(low: bool, total: int, tokens: seq<string>): int {
    ValueOr(Flagged(Flags.CodeCache, tokens),
            if low then Max(251_658_240 * total / 1_073_741_824, 2_555_904) else 251_658_240)
  }

  /** 1 MiB, or that share but at least 256 KiB, unless a flag says otherwise. */
  function StackBytes(low: bool, total: int, tokens: seq<string>): int {
    ValueOr(Flagged(Flags.Stack, tokens),
            if low then Max(1_048_576 * total / 1_073_741_824, 262_144) else 1_048_576)
  }

  /** The given number of threads, or that share of 250 but at least 30 unless the user gave it. */
  function Threads(low: bool, total: int, given: ThreadCount): int {
    if low && given.provenance != UserConfigured then Max(250 * total / 1_073_741_824, 30) else given.value
  }

  /** Everything but head room and heap. */
  function Bill(c: Calculator, tokens: seq<string>): int {
    DirectMemoryBytes(tokens) + MetaspaceBytes(c.loadedClassCount, tokens)
    + CodeCacheBytes(c.lowProfile, c.totalMemory, tokens)
    + StackBytes(c.lowProfile, c.totalMemory, tokens) * Threads(c.lowProfile, c.totalMemory, c.threadCount)
  }

  /** So many percent of the limit, up to one byte; not more than all of it, and nothing for none. */
  predicate IsHeadRoom(percent: int, total: int, bytes: int) {
    && Trunc(percent * total, 100) - 1 <= bytes <= Trunc(percent * total, 100) + 1
    && (0 <= percent <= 100 && 0 <= total <= 64 * TEBI ==>
        0 <= bytes <= total && (percent == 0 ==> bytes == 0))
  }

  /** Percentages, of either sign, that float64 gets right up to one byte: all up to 2048 percent
      of 64 TiB, and others as far as the product has 57 bits. */
  predicate IsModest(percent: int, total: int) {
    -0x20_0000_0000_0000 < percent < 0x20_0000_0000_0000
    && -0x200_0000_0000_0000 <= percent * total <= 0x200_0000_0000_0000
  }

  lemma HeadRoomIs(percent: int, total: int, unrepresentable: int)
    requires IsModest(percent, total)
    ensures IsHeadRoom(percent, total, HeadRoomBytes(percent, total, unrepresentable))
  {
    Float64.PercentageIsNear(percent, total);
    if 0 <= percent <= 100 && 0 <= total <= 64 * TEBI { HeadRoomIsRounded(percent, total, unrepresentable); }
    hide Float64.Mul, Float64.Div, Float64.OfInt, Float64.ToInt;
  }

  predicate HasRegions(o: Output, c: Calculator, tokens: seq<string>, headRoom: int, heap: int) {
    && o.memory.directMemory.value == DirectMemoryBytes(tokens)
    && ValueOr(o.memory.metaspace, -1) == MetaspaceBytes(c.loadedClassCount, tokens)
    && o.memory.codeCache.value == CodeCacheBytes(c.lowProfile, c.totalMemory, tokens)
    && o.memory.stack.value == StackBytes(c.lowProfile, c.totalMemory, tokens)
    && o.threadCount.value == Threads(c.lowProfile, c.totalMemory, c.threadCount)
    && o.memory.headRoom.Some? && o.memory.headRoom.value.value == headRoom
    && o.memory.heap.Some? && o.memory.heap.value.value == heap
  }

  /** A head room that is far from fitting in 64 bits is whatever the machine makes of it. */
  lemma HugeHeadRoom(percent: nat, total: nat, unrepresentable: int)
    requires percent < 0x20_0000_0000_0000 && percent * total >= 100 * TWO_64
    ensures HeadRoomBytes(percent, total, unrepresentable) == unrepresentable
  {
    Float64.FarPercentage(percent, total);
    hide Float64.Mul, Float64.Div, Float64.OfInt, Float64.ToInt;
  }

  lemma ScaledIs(default: int, total: int, min: int)
    requires IsDefault(default) && total < 32 * TEBI && 0 <= min
    ensures Scaled(default, total, min) == Max(default * total / LOW_PROFILE_THRESHOLD, min)
  {
    hide Scaled;
    if total < 0 {
      NegativeLimitScalesToMinimum(default, total, min);
      MulMonotone(0, default, 0, -total);
    } else {
      ScaledIsExact(default, total, min);
    }
  }

  /** What the plan bills. */
  lemma PlanIsTheBill(c: Calculator, tokens: seq<string>)
    requires c.lowProfile ==> c.totalMemory < 32 * TEBI
    ensures var p := Plan(c, FromFlags(tokens));
      && Fixed(p.memory, p.threadCount.value) == Bill(c, tokens)
      && HasRegions(p.(memory := p.memory.(heap := Some(Region(0, Default)))), c, tokens,
                    HeadRoomBytes(c.headRoom, c.totalMemory, c.unrepresentable), 0)
      && p.memory.heap == Flagged(Flags.Heap, tokens)
  {
    hide Flagged, HeadRoomBytes, Scaled;
    if c.lowProfile {
      ScaledIs(DEFAULT_STACK.value, c.totalMemory, MIN_STACK);
      ScaledIs(DEFAULT_CODE_CACHE.value, c.totalMemory, MIN_CODE_CACHE);
      ScaledIs(DEFAULT_THREADS, c.totalMemory, MIN_THREADS);
    }
    WrapOnce(CLASS_SIZE * c.loadedClassCount, CLASS_OVERHEAD);
    FlaggedByUser(tokens);
  }

  lemma FlaggedByUser(tokens: seq<string>)
    ensures forall k :: Flagged(k, tokens).Some? ==> Flagged(k, tokens).value.provenance == UserConfigured
  {
  }

  /** The whole calculation, from the tokens, in plain numbers: which regions it comes to, or which
      group of them is the first that does not fit in 64-bit arithmetic. */
  lemma CalculationIs(c: Calculator, tokens: seq<string>) returns (headRoom: int)
    requires AllParse(tokens) && IsModest(c.headRoom, c.totalMemory)
    requires IsInt64(c.totalMemory) && (c.lowProfile ==> c.totalMemory < 32 * TEBI)
    ensures IsHeadRoom(c.headRoom, c.totalMemory, headRoom)
    ensures var total, bill := c.totalMemory, Bill(c, tokens);
      var heap := ValueOr(Flagged(Flags.Heap, tokens), Wrap64(total - (bill + headRoom)));
      match Calculate(c, tokens)
      case Ok(o) =>
        && Wrap64(bill) <= total && Wrap64(bill + headRoom) <= total && Wrap64(bill + headRoom + heap) <= total
        && 33_554_432 <= heap && HasRegions(o, c, tokens, headRoom, heap)
      case Err(BadFlags) => false
      case Err(FixedTooLarge) => Wrap64(bill) > total
      case Err(NonHeapTooLarge) => Wrap64(bill) <= total < Wrap64(bill + headRoom)
      case Err(AllTooLarge) => Wrap64(bill + headRoom) <= total < Wrap64(bill + headRoom + heap)
      case Err(HeapTooSmall) =>
        Wrap64(bill + headRoom) <= total && Wrap64(bill + headRoom + heap) <= total && heap < 33_554_432
  {
    hide AllParse, FromFlags, Plan, HeadRoomBytes, Bill, Fixed, Flagged, Wrap64;
    headRoom := HeadRoomBytes(c.headRoom, c.totalMemory, c.unrepresentable);
    HeadRoomIs(c.headRoom, c.totalMemory, c.unrepresentable);
    PlanIsTheBill(c, tokens);
    AllocationIs(c.totalMemory, Plan(c, FromFlags(tokens)));
  }

  /** The checks one after the other, on the exact sums wrapped once. */
  lemma AllocationIs(total: int, o: Output)
    requires o.memory.metaspace.Some? && o.memory.headRoom.Some? && IsInt64(total)
    ensures var f, n := Fixed(o.memory, o.threadCount.value), NonHeap(o.memory, o.threadCount.value);
      var heap := ValueOr(o.memory.heap, Wrap64(total - n));
      match Allocate(total, o)
      case Ok(r) =>
        && Wrap64(f) <= total && Wrap64(n) <= total && Wrap64(n + heap) <= total && MIN_HEAP <= heap
        && r.memory.heap.Some? && r.memory.heap.value.value == heap
        && r.(memory := r.memory.(heap := o.memory.heap)) == o
      case Err(e) =>
        && e != BadFlags
        && (e == FixedTooLarge ==> Wrap64(f) > total)
        && (e == NonHeapTooLarge ==> Wrap64(f) <= total < Wrap64(n))
        && (e == AllTooLarge ==> Wrap64(n) <= total < Wrap64(n + heap))
        && (e == HeapTooSmall ==> Wrap64(n) <= total && Wrap64(n + heap) <= total && heap < MIN_HEAP)
  {
    hide Wrap64;
    var n := NonHeap(o.memory, o.threadCount.value);
    LeftOver(total, n);
    HeapFillsUp(total, n);
    SizesWrap(o.memory, o.threadCount.value);
    SizesWrap(o.memory.(heap := Some(Region(Wrap64(total - n), Calculated))), o.threadCount.value);
  }

  /** Without overflow a heap that is not the user's is what the limit leaves beside the other
      regions, with a head room of the given percentage. */
  lemma HeapIsTheRest(c: Calculator, tokens: seq<string>)
    requires IsModest(c.headRoom, c.totalMemory) && IsInt64(c.totalMemory) && Calculate(c, tokens).Ok?
    ensures var m, t := Calculate(c, tokens).value.memory, Calculate(c, tokens).value.threadCount.value;
      && m.headRoom.Some? && m.heap.Some? && m.metaspace.Some?
      && IsHeadRoom(c.headRoom, c.totalMemory, m.headRoom.value.value)
      && (Flagged(Flags.Heap, tokens).None? ==>
          var rest := c.totalMemory - m.directMemory.value - m.metaspace.value.value - m.codeCache.value
                      - m.stack.value * t - m.headRoom.value.value;
          m.heap.value.value == Wrap64(rest) && (IsInt64(rest) ==> m.heap.value.value == rest))
  {
    hide FromFlags, HeadRoomBytes, LowProfile, CalculatedMetaspace, AllParse, Flagged;
    HeadRoomIs(c.headRoom, c.totalMemory, c.unrepresentable);
    AllocationIs(c.totalMemory, Plan(c, FromFlags(tokens)));
    assert FromFlags(tokens).heap == Flagged(Flags.Heap, tokens) by { HeapFlag(tokens); }
    hide Allocate, Wrap64;
  }

  lemma HeapFlag(tokens: seq<string>)
    ensures FromFlags(tokens).heap == Flagged(Flags.Heap, tokens)
  {
  }

  // ---- the low profile ----

  predicate IsDefault(default: int) {
    default == DEFAULT_STACK.value || default == DEFAULT_CODE_CACHE.value || default == DEFAULT_THREADS
  }

  /** Below 32 TiB the scaling does not round: the defaults have few significant bits and the
      threshold is a power of two. */
  lemma ScalingIsExact(default: int, total: int)
    requires IsDefault(default) && 0 <= total < 32 * TEBI
    ensures Float64.ToInt(Float64.Mul(Float64.OfInt(default), ScalingFactor(total)))
         == default * total / LOW_PROFILE_THRESHOLD
  {
    Float64.Pow2Values();
    hide Float64.Mul, Float64.Div, Float64.OfInt, Float64.Pow2;
    if default == DEFAULT_STACK.value {
      Float64.ProductIsExact(default, 1, 20, total);
    } else if default == DEFAULT_CODE_CACHE.value {
      Float64.ProductIsExact(default, 15, 24, total);
    } else {
      Float64.OneBit();
      Float64.ProductIsExact(default, 250, 0, total);
    }
  }

  lemma ScaledIsExact(default: int, total: int, min: int)
    requires IsDefault(default) && 0 <= total < 32 * TEBI
    ensures Scaled(default, total, min) == Max(default * total / LOW_PROFILE_THRESHOLD, min)
  {
    ScalingIsExact(default, total);
  }

  function Max(a: int, b: int): int { if a < b then b else a }

  lemma NegativeLimitScalesToMinimum(default: int, total: int, min: int)
    requires 0 <= default && 0 <= min && total < 0
    ensures Scaled(default, total, min) == min
  {
    hide Float64.Round;
    var d, f := Float64.OfInt(default), ScalingFactor(total);
    assert f.num <= 0 by { MulMonotone(0, -Float64.OfInt(total).num, 0, Float64.OfInt(LOW_PROFILE_THRESHOLD).den); }
    MulMonotone(0, d.num, 0, -f.num);
    assert d.num * f.num == -(d.num * -f.num);
    assert Float64.Mul(d, f).num <= 0;
  }

  /** Each scaled value lies between its minimum and its default. */
  lemma ScaledIsBetween(default: int, total: int, min: int)
    requires IsDefault(default) && 0 <= min <= default
    ensures min <= Scaled(default, total, min)
    ensures total <= LOW_PROFILE_THRESHOLD ==> Scaled(default, total, min) <= default
  {
    hide ScalingFactor, Float64.Mul, Float64.OfInt;
    if total < 0 {
      NegativeLimitScalesToMinimum(default, total, min);
    } else if total <= LOW_PROFILE_THRESHOLD {
      ScaledIsExact(default, total, min);
      MulMonotone(default, default, total, LOW_PROFILE_THRESHOLD);
    }
  }

  /** The head room is the percentage of the limit up to one byte, and never more than the limit. */
  lemma HeadRoomIsRounded(percent: int, total: int, unrepresentable: int)
    requires 0 <= percent <= 100 && 0 <= total <= 64 * TEBI
    ensures var bytes := HeadRoomBytes(percent, total, unrepresentable);
      && 0 <= bytes <= total
      && percent * total / 100 - 1 <= bytes <= percent * total / 100 + 1
      && (percent == 0 ==> bytes == 0)
  {
    Float64.PercentNear(percent, total);
    hide Float64.ToInt, Float64.Mul, Float64.Div, Float64.OfInt;
  }

  lemma LowProfilePlan(c: Calculator, flags: Regions)
    requires NonNegative(c, flags) && !c.lowProfile && c.totalMemory < LOW_PROFILE_THRESHOLD
    requires c.threadCount.provenance == UserConfigured || c.threadCount == DEFAULT_THREAD_COUNT
    ensures var o, o' := Plan(c, flags), Plan(c.(lowProfile := true), flags);
      && o'.memory.(stack := o.memory.stack, codeCache := o.memory.codeCache) == o.memory
      && 0 <= o'.memory.stack.value <= o.memory.stack.value
      && 0 <= o'.memory.codeCache.value <= o.memory.codeCache.value
      && 0 <= o'.threadCount.value <= o.threadCount.value
    ensures NonHeapDemand(c.(lowProfile := true), flags) <= NonHeapDemand(c, flags)
  {
    hide HeadRoomBytes, Scaled;
    var o, o' := Plan(c, flags), Plan(c.(lowProfile := true), flags);
    ScaledIsBetween(DEFAULT_STACK.value, c.totalMemory, MIN_STACK);
    ScaledIsBetween(DEFAULT_CODE_CACHE.value, c.totalMemory, MIN_CODE_CACHE);
    ScaledIsBetween(DEFAULT_THREADS, c.totalMemory, MIN_THREADS);
    MulMonotone(o'.memory.stack.value, o.memory.stack.value, o'.threadCount.value, o.threadCount.value);
  }

  /** The low profile dominates the defaults: for a limit below 1 GiB and any flags, whenever
      the unscaled calculation succeeds without overflow the scaled one does too, and a
      calculated heap is not smaller. */
  lemma LowProfileDominates(c: Calculator, flags: Regions)
    requires NonNegative(c, flags) && !c.lowProfile && c.totalMemory < LOW_PROFILE_THRESHOLD
    requires c.threadCount.provenance == UserConfigured || c.threadCount == DEFAULT_THREAD_COUNT
    requires Demand(c, flags) < TWO_63 && CalculateFrom(c, flags).Ok?
    ensures var low, plain := CalculateFrom(c.(lowProfile := true), flags), CalculateFrom(c, flags);
      && low.Ok?
      && low.value.memory.heap.Some? && plain.value.memory.heap.Some?
      && low.value.memory.heap.value.value >= plain.value.memory.heap.value.value
  {
    hide HeadRoomBytes, Scaled;
    LowProfilePlan(c, flags);
    SucceedsIff(c, flags);
    SucceedsIff(c.(lowProfile := true), flags);
  }

  /** What scaling takes off the demand. */
  function Saved(c: Calculator, flags: Regions): int {
    NonHeapDemand(c, flags) - NonHeapDemand(c.(lowProfile := true), flags)
  }

  /** Scaling changes nothing but three numbers; the exact sums change by what it saves. */
  lemma SavedIsTheDifference(c: Calculator, flags: Regions)
    requires !c.lowProfile
    ensures var o, o' := Plan(c, flags), Plan(c.(lowProfile := true), flags);
      && o'.memory.heap == o.memory.heap == flags.heap
      && Fixed(o'.memory, o'.threadCount.value) == Fixed(o.memory, o.threadCount.value) - Saved(c, flags)
      && NonHeap(o'.memory, o'.threadCount.value) == NonHeap(o.memory, o.threadCount.value) - Saved(c, flags)
  {
    hide HeadRoomBytes, Scaled;
  }

  /** The heap beside other regions of exact size n: the user's, or what is left. */
  function HeapBeside(total: int, n: int, userHeap: Option<Region>): int {
    if userHeap.Some? then userHeap.value.value else Wrap64(total - Wrap64(n))
  }

  /** The checks of the calculator on exact sizes f of the fixed and n of all non-heap regions. */
  predicate Fit(total: int, f: int, n: int, userHeap: Option<Region>) {
    && Wrap64(f) <= total && Wrap64(n) <= total
    && (userHeap.Some? ==> Wrap64(n + userHeap.value.value) <= total)
    && MIN_HEAP <= HeapBeside(total, n, userHeap)
  }

  /** Sizes that pass the checks still do so less d; d and the sizes count only as far as 64
      bits hold them. */
  predicate Spare(total: int, f: int, n: int, userHeap: Option<Region>, d: int) {
    && Takes(Wrap64(f), Wrap64(d), total)
    && Takes(Wrap64(n), Wrap64(d), total)
    && if userHeap.Some? then Takes(Wrap64(n + userHeap.value.value), Wrap64(d), total)
       else MIN_HEAP <= HeapBeside(total, n, None) + Wrap64(d) < TWO_63
  }

  lemma SparesIff(total: int, f: int, n: int, userHeap: Option<Region>, d: int)
    requires IsInt64(total) && Fit(total, f, n, userHeap)
    ensures Fit(total, f - d, n - d, userHeap) <==> Spare(total, f, n, userHeap, d)
    ensures Fit(total, f - d, n - d, userHeap) ==>
      HeapBeside(total, n - d, userHeap) == HeapBeside(total, n, userHeap) + if userHeap.Some? then 0 else Wrap64(d)
  {
    hide Wrap64, Takes;
    ShiftedSum(f, d, total);
    ShiftedSum(n, d, total);
    if userHeap.Some? {
      var h := userHeap.value.value;
      ShiftedSum(n + h, d, total);
      assert n - d + h == n + h - d;
    } else {
      ShiftedHeap(total, n, d);
    }
  }

  /** The heap left beside smaller regions is larger by d, unless that is too much for 64 bits. */
  lemma ShiftedHeap(total: int, n: int, d: int)
    requires IsInt64(total) && MIN_HEAP <= HeapBeside(total, n, None)
    ensures var left, left' := HeapBeside(total, n, None), HeapBeside(total, n - d, None);
      && (MIN_HEAP <= left' <==> MIN_HEAP <= left + Wrap64(d) < TWO_63)
      && (MIN_HEAP <= left' ==> left' == left + Wrap64(d))
  {
    LeftOver(total, n);
    LeftOver(total, n - d);
    assert total - n + d == total - (n - d);
    WrapOnce(total - n, d);
    WrapOnce(d, Wrap64(total - n));
  }

  lemma LeftOver(total: int, n: int)
    ensures Wrap64(total - Wrap64(n)) == Wrap64(total - n)
  {
    var q := (n + TWO_63) / TWO_64;
    assert Wrap64(n) == n - q * TWO_64;
    WholeTurns(total - n, q);
  }

  /** A plan is allocated exactly when its exact sizes pass the checks. */
  lemma AllocatedIfFit(total: int, o: Output)
    requires o.memory.metaspace.Some? && o.memory.headRoom.Some? && IsInt64(total)
    ensures var f, n := Fixed(o.memory, o.threadCount.value), NonHeap(o.memory, o.threadCount.value);
      && (Allocate(total, o).Ok? <==> Fit(total, f, n, o.memory.heap))
      && (Allocate(total, o).Ok? ==>
          && Allocate(total, o).value.memory.heap.Some?
          && Allocate(total, o).value.memory.heap.value.value == HeapBeside(total, n, o.memory.heap))
  {
    AllocateIff(total, o);
    hide Allocate, Wrap64, Fixed, NonHeap;
  }

  /** The sizes of a plan can spare d. */
  predicate CanSpare(total: int, p: Output, d: int)
    requires p.memory.metaspace.Some? && p.memory.headRoom.Some?
  {
    Spare(total, Fixed(p.memory, p.threadCount.value), NonHeap(p.memory, p.threadCount.value), p.memory.heap, d)
  }

  /** When the low profile succeeds where the defaults do, whatever the flags and the limit and
      also where sizes wrap: exactly when the unscaled sizes can spare what scaling saves. A
      calculated heap then grows by just that. */
  lemma LowProfileSucceedsIff(c: Calculator, flags: Regions)
    requires IsInt64(c.totalMemory) && !c.lowProfile && CalculateFrom(c, flags).Ok?
    ensures var plain, low := CalculateFrom(c, flags).value, CalculateFrom(c.(lowProfile := true), flags);
      && plain.memory.heap.Some?
      && (low.Ok? <==> CanSpare(c.totalMemory, Plan(c, flags), Saved(c, flags)))
      && (low.Ok? ==>
          && low.value.memory.heap.Some?
          && low.value.memory.heap.value.value
             == plain.memory.heap.value.value + if flags.heap.Some? then 0 else Wrap64(Saved(c, flags)))
  {
    hide Plan, Allocate, Saved, Fit, Spare, HeapBeside, Fixed, NonHeap, Wrap64;
    var total, o, o' := c.totalMemory, Plan(c, flags), Plan(c.(lowProfile := true), flags);
    SavedIsTheDifference(c, flags);
    AllocatedIfFit(total, o);
    AllocatedIfFit(total, o');
    SparesIff(total, Fixed(o.memory, o.threadCount.value), NonHeap(o.memory, o.threadCount.value), flags.heap,
              Saved(c, flags));
  }

  /** The same without wrapping d in either direction. */
  predicate SparesPlainly(total: int, p: Output, d: int)
    requires p.memory.metaspace.Some? && p.memory.headRoom.Some?
  {
    var f, n := Fixed(p.memory, p.threadCount.value), NonHeap(p.memory, p.threadCount.value);
    && -TWO_63 <= Wrap64(f) - d <= total
    && -TWO_63 <= Wrap64(n) - d <= total
    && if p.memory.heap.Some? then -TWO_63 <= Wrap64(n + p.memory.heap.value.value) - d <= total
       else MIN_HEAP <= HeapBeside(total, n, None) + d < TWO_63
  }

  /** For savings below 2^62 bytes either way, the sizes only have to stay in 64 bits and within
      the limit. */
  lemma SmallSavingSucceedsIff(c: Calculator, flags: Regions)
    requires 0 <= c.totalMemory < LOW_PROFILE_THRESHOLD && !c.lowProfile && CalculateFrom(c, flags).Ok?
    requires -TWO_63 / 2 < Saved(c, flags) < TWO_63 / 2
    ensures CalculateFrom(c.(lowProfile := true), flags).Ok? <==>
      SparesPlainly(c.totalMemory, Plan(c, flags), Saved(c, flags))
  {
    hide Plan, Allocate, Saved, HeapBeside, Fixed, NonHeap, Wrap64;
    AllocatedIfFit(c.totalMemory, Plan(c, flags));
    LowProfileSucceedsIff(c, flags);
    assert Wrap64(Saved(c, flags)) == Saved(c, flags);
  }

  /** The saving is small for a stack up to 2^53 bytes either way and up to 2^32 threads, and
      it is a saving if the stack is not negative. */
  lemma SavingIsSmall(c: Calculator, flags: Regions)
    requires ReadFromFlags(flags) && !c.lowProfile && c.totalMemory < LOW_PROFILE_THRESHOLD
    requires c.threadCount.provenance == UserConfigured || c.threadCount == DEFAULT_THREAD_COUNT
    requires -0x20_0000_0000_0000 <= flags.stack.value <= 0x20_0000_0000_0000 && 0 <= c.threadCount.value <= TWO_32
    ensures -TWO_63 / 2 < Saved(c, flags) < TWO_63 / 2
    ensures 0 <= flags.stack.value ==> 0 <= Saved(c, flags)
  {
    hide HeadRoomBytes, Scaled;
    var o, o' := Plan(c, flags), Plan(c.(lowProfile := true), flags);
    ScaledIsBetween(DEFAULT_STACK.value, c.totalMemory, MIN_STACK);
    ScaledIsBetween(DEFAULT_CODE_CACHE.value, c.totalMemory, MIN_CODE_CACHE);
    ScaledIsBetween(DEFAULT_THREADS, c.totalMemory, MIN_THREADS);
    StacksSaved(o.memory.stack.value, o'.memory.stack.value, o.threadCount.value, o'.threadCount.value);
    assert Saved(c, flags) == o.memory.codeCache.value - o'.memory.codeCache.value
      + (o.memory.stack.value * o.threadCount.value - o'.memory.stack.value * o'.threadCount.value);
  }

  lemma StacksSaved(s: int, s': int, t: int, t': int)
    requires (s' == s && -0x20_0000_0000_0000 <= s <= 0x20_0000_0000_0000) || 0 <= s' <= s <= MEBI
    requires 0 <= t' <= t <= TWO_32 && (t' == t || t <= DEFAULT_THREADS)
    ensures -TWO_63 / 4 <= s * t - s' * t' <= TWO_63 / 4
    ensures 0 <= s ==> 0 <= s * t - s' * t'
  {
    if s' == s {
      assert s * t - s' * t' == s * (t - t');
      if s >= 0 {
        MulMonotone(s, 0x20_0000_0000_0000, t - t', DEFAULT_THREADS);
      } else {
        MulMonotone(-s, 0x20_0000_0000_0000, t - t', DEFAULT_THREADS);
      }
    } else {
      MulMonotone(s', s, t', t);
      MulMonotone(s, MEBI, t, TWO_32);
    }
  }

  /** Wrapped sizes can break the dominance: with these two flags, a direct memory of
      8796093021718M and -Xmx64M, in 512 MiB, the unscaled sum has wrapped around and fits, the
      scaled one has not. */
  lemma LowProfileCanFail()
    ensures var c := Calculator(0, 0, 0, false, DEFAULT_THREAD_COUNT, 512 * MEBI);
            var tokens := [Flags.Show(Flags.DirectMemory, 8_796_093_021_718 * MEBI), Flags.Show(Flags.Heap, 64 * MEBI)];
      && NonNegative(c, FromFlags(tokens))
      && Calculate(c, tokens).Ok? && Calculate(c.(lowProfile := true), tokens).Err?
  {
    hide FromFlags, AllParse, CalculateFrom, NonNegative, Print, IsSize, ParseSize, Flags.Prefix;
    var direct, heap := 8_796_093_021_718 * MEBI, 64 * MEBI;
    PrintThenParse(direct);
    PrintThenParse(heap);
    NoFlags();
    OneMoreSize([], Flags.DirectMemory, Print(direct), direct);
    var one := [Flags.Show(Flags.DirectMemory, direct)];
    assert [] + one == one;
    OneMoreSize(one, Flags.Heap, Print(heap), heap);
    assert one + [Flags.Show(Flags.Heap, heap)] == [one[0], Flags.Show(Flags.Heap, heap)];
    UnscaledWraps(DEFAULTS.(directMemory := Region(direct, UserConfigured),
                            heap := Some(Region(heap, UserConfigured))));
  }

  lemma UnscaledWraps(flags: Regions)
    requires flags == DEFAULTS.(directMemory := Region(8_796_093_021_718 * MEBI, UserConfigured),
                                heap := Some(Region(64 * MEBI, UserConfigured)))
    ensures var c := Calculator(0, 0, 0, false, DEFAULT_THREAD_COUNT, 512 * MEBI);
      NonNegative(c, flags) && CalculateFrom(c, flags).Ok? && CalculateFrom(c.(lowProfile := true), flags).Err?
  {
    hide HeadRoomBytes, Scaled;
    var c := Calculator(0, 0, 0, false, DEFAULT_THREAD_COUNT, 512 * MEBI);
    HeadRoomIsRounded(c.headRoom, c.totalMemory, c.unrepresentable);
    ScaledIsExact(DEFAULT_STACK.value, c.totalMemory, MIN_STACK);
    ScaledIsExact(DEFAULT_CODE_CACHE.value, c.totalMemory, MIN_CODE_CACHE);
    ScaledIsExact(DEFAULT_THREADS, c.totalMemory, MIN_THREADS);
    var p, p' := Plan(c, flags), Plan(c.(lowProfile := true), flags);
    assert Fixed(p.memory, 250) == TWO_63 + CLASS_OVERHEAD && NonHeap(p.memory, 250) == TWO_63 + CLASS_OVERHEAD;
    assert Fixed(p'.memory, 125) == TWO_63 + CLASS_OVERHEAD - 322_437_120;
    AllocateIff(c.totalMemory, p);
    AllocateIff(c.totalMemory, p');
    hide Allocate, Fixed, NonHeap, Plan;
  }

  /** So can one flag that saves more than 64 bits hold: with -Xss1048576T, read exactly as 2^60,
      the stacks of 250 threads wrap to a negative number and those of the scaled 120 to just
      -2^63, beside which a calculated heap wraps as well. */
  lemma LargeSavingCanFail()
    ensures var c := Calculator(0, 0, 0, false, DEFAULT_THREAD_COUNT, 515_396_076);
            var tokens := [Flags.Show(Flags.Stack, 0x10_0000 * TEBI)];
      && NonNegative(c, FromFlags(tokens)) && Saved(c, FromFlags(tokens)) >= TWO_64
      && Calculate(c, tokens).Ok? && Calculate(c.(lowProfile := true), tokens).Err?
  {
    hide FromFlags, AllParse, CalculateFrom, NonNegative, Saved, Print, IsSize, ParseSize, Flags.Prefix;
    var stack := 0x10_0000 * TEBI;
    PrintThenParse(stack);
    NoFlags();
    OneMoreSize([], Flags.Stack, Print(stack), stack);
    assert [] + [Flags.Show(Flags.Stack, stack)] == [Flags.Show(Flags.Stack, stack)];
    ScaledStacksWrap(DEFAULTS.(stack := Region(stack, UserConfigured)));
  }

  lemma ScaledStacksWrap(flags: Regions)
    requires flags == DEFAULTS.(stack := Region(0x10_0000 * TEBI, UserConfigured))
    ensures var c := Calculator(0, 0, 0, false, DEFAULT_THREAD_COUNT, 515_396_076);
      && NonNegative(c, flags) && Saved(c, flags) >= TWO_64
      && CalculateFrom(c, flags).Ok? && CalculateFrom(c.(lowProfile := true), flags).Err?
  {
    hide HeadRoomBytes, Scaled;
    var c := Calculator(0, 0, 0, false, DEFAULT_THREAD_COUNT, 515_396_076);
    HeadRoomIsRounded(c.headRoom, c.totalMemory, c.unrepresentable);
    ScaledIsExact(DEFAULT_STACK.value, c.totalMemory, MIN_STACK);
    ScaledIsExact(DEFAULT_CODE_CACHE.value, c.totalMemory, MIN_CODE_CACHE);
    ScaledIsExact(DEFAULT_THREADS, c.totalMemory, MIN_THREADS);
    var p, p' := Plan(c, flags), Plan(c.(lowProfile := true), flags);
    var base := 10 * MEBI + CLASS_OVERHEAD;
    assert p'.threadCount.value == 120 && p'.memory.codeCache.value == 120_795_955;
    assert NonHeap(p.memory, 250) == Fixed(p.memory, 250) == base + 240 * MEBI + 250 * 0x10_0000 * TEBI;
    assert NonHeap(p'.memory, 120) == Fixed(p'.memory, 120) == base + 120_795_955 + 120 * 0x10_0000 * TEBI;
    AllocateIff(c.totalMemory, p);
    AllocateIff(c.totalMemory, p');
    hide Allocate, Fixed, NonHeap, Plan;
  }

  /** Stacks of all threads together take less than a quarter of the limit, roughly: both
      factors scale with the limit, so the product is bounded in two ranges. */
  lemma ScaledStacks(total: int)
    requires 128 * MEBI <= total < GIBI
    ensures Scaled(DEFAULT_STACK.value, total, MIN_STACK) * Scaled(DEFAULT_THREADS, total, MIN_THREADS)
         <= if total < 256 * MEBI then total / 16 else total / 4
  {
    hide Scaled;
    ScaledIsExact(DEFAULT_STACK.value, total, MIN_STACK);
    ScaledIsExact(DEFAULT_THREADS, total, MIN_THREADS);
    var stack := Scaled(DEFAULT_STACK.value, total, MIN_STACK);
    var threads := Scaled(DEFAULT_THREADS, total, MIN_THREADS);
    assert threads == 250 * total / GIBI;
    if total < 256 * MEBI {
      assert stack == MIN_STACK;
      MulMonotone(stack, MIN_STACK, threads, 250 * total / GIBI);
    } else {
      MulMonotone(stack, MEBI, threads, 250 * total / GIBI);
    }
  }

  /** With no flags, default threads and no head room, the low profile always works from
      128 MiB up to 1 GiB, as long as the metaspace takes at most a quarter of the limit. These
      are also inputs that meet the conditions of the lemmas above. */
  lemma LowProfileWorks(c: Calculator)
    requires c.lowProfile && c.threadCount == DEFAULT_THREAD_COUNT && c.headRoom == 0
    requires 128 * MEBI <= c.totalMemory < GIBI
    requires 0 <= c.loadedClassCount && CLASS_OVERHEAD + CLASS_SIZE * c.loadedClassCount <= c.totalMemory / 4
    ensures NonNegative(c, FromFlags([])) && Demand(c, FromFlags([])) < TWO_63
    ensures Calculate(c, []).Ok?
    ensures Calculate(c, []).value.memory.heap.Some? && Calculate(c, []).value.memory.heap.value.value >= MIN_HEAP
  {
    hide HeadRoomBytes, Scaled;
    assert FromFlags([]) == DEFAULTS;
    ScaledDefaultsFit(c);
    SucceedsIff(c, DEFAULTS);
    hide NonHeapDemand, NonNegative;
  }

  lemma ScaledDefaultsFit(c: Calculator)
    requires c.lowProfile && c.threadCount == DEFAULT_THREAD_COUNT && c.headRoom == 0
    requires 128 * MEBI <= c.totalMemory < GIBI
    requires 0 <= c.loadedClassCount && CLASS_OVERHEAD + CLASS_SIZE * c.loadedClassCount <= c.totalMemory / 4
    ensures NonNegative(c, DEFAULTS) && NonHeapDemand(c, DEFAULTS) + MIN_HEAP <= c.totalMemory
  {
    hide Scaled, HeadRoomBytes;
    HeadRoomIsRounded(c.headRoom, c.totalMemory, c.unrepresentable);
    ScaledIsBetween(DEFAULT_THREADS, c.totalMemory, MIN_THREADS);
    ScaledIsExact(DEFAULT_CODE_CACHE.value, c.totalMemory, MIN_CODE_CACHE);
    var total := c.totalMemory;
    ScaledStacks(total);
    ScaledIsBetween(DEFAULT_STACK.value, total, MIN_STACK);
    assert Scaled(DEFAULT_CODE_CACHE.value, total, MIN_CODE_CACHE) <= 240 * total / 1024;
    ScaledIsBetween(DEFAULT_CODE_CACHE.value, total, MIN_CODE_CACHE);
  }
}
