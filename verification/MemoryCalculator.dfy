/** The launch-time helper around the calculator (helper/memory_calculator.go): it picks the
    memory limit, runs the calculation on JAVA_TOOL_OPTIONS and appends the flags it chose.
    JAVA_TOOL_OPTIONS is a sequence of tokens here. */
module MemoryCalculator {
  import opened Wrappers
  import opened Machine
  import opened Sequences
  import opened Size
  import opened MemoryRegions
  import opened Calculator
  import Flags
  import Float64
  import Text

  const MAX_JVM_SIZE: int := 64 * TEBI
  const UNSET_TOTAL_MEMORY: int := 9_223_372_036_854_771_712
  const COMPACT_HEADERS := "-XX:+UseCompactObjectHeaders"

  /** A correction of the class count: a percentage, or a number of classes. */
  datatype Adjustment = Percent(percent: nat) | Extra(classes: int)

  /** The class count is stated, or counted in the JVM, the application and the agents. */
  datatype ClassSource = Stated(count: int) | Counted(jvm: int, app: int, agents: int, adjustment: Adjustment)

  /** What the environment supplies besides JAVA_TOOL_OPTIONS. A file that is missing or
      cannot be read is None; available is the memory that /proc/meminfo reports, if it parses. */
  datatype Env = Env(
    headRoom: int,
    unrepresentable: int,
    classes: ClassSource,
    threads: Option<int>,
    limitV1: Option<string>,
    limitV2: Option<string>,
    available: Option<int>,
    lowProfileDisabled: Option<bool>,
    java25OrLater: bool)

  /** The float64 next to 0.35. */
  function ClassLoadFactor(): (f: Float64.Float)
    ensures f.Valid()
  {
    Float64.Round(35, 100)
  }

  function AllClasses(s: ClassSource): int
    requires s.Counted?
  {
    Wrap64(s.jvm + s.app + s.agents + if s.adjustment.Extra? then s.adjustment.classes else 0)
  }

  function AdjustmentFactor(s: ClassSource): nat
    requires s.Counted?
  {
    if s.adjustment.Percent? then s.adjustment.percent else 100
  }

  /** The classes that are expected to be loaded. */
  function LoadedClassCount(s: ClassSource, unrepresentable: int): int {
    match s
    case Stated(n) => n
    case Counted(_, _, _, _) =>
      var factor := Float64.Div(Float64.OfInt(AdjustmentFactor(s)), Float64.OfInt(100));
      var total := Float64.Mul(Float64.OfInt(AllClasses(s)), factor);
      Float64.ToInt64(Float64.Mul(total, ClassLoadFactor()), unrepresentable)
  }

  /** 35 percent of so many percent of n, in whole classes. */
  function Expected(n: nat, percent: nat): nat { n * percent * 35 / 10_000 }

  /** The count is 35 percent of the adjusted number of classes up to one class, although it is
      rounded three times on the way from a factor that is rounded itself. */
  lemma ClassCountIsRounded(s: ClassSource, unrepresentable: int)
    requires s.Counted? && 0 <= AllClasses(s) && AdjustmentFactor(s) < TWO_32
    requires AllClasses(s) * AdjustmentFactor(s) <= 0x200_0000_0000_0000
    ensures var count, exact := LoadedClassCount(s, unrepresentable), Expected(AllClasses(s), AdjustmentFactor(s));
      0 <= count && exact - 1 <= count <= exact + 1
  {
    hide AllClasses, AdjustmentFactor, Expected;
    LoadedShare(AllClasses(s), AdjustmentFactor(s));
    hide Float64.Div, Float64.Mul, Float64.OfInt, Float64.ToInt, ClassLoadFactor;
  }

  /** Which classes count: those of JVM, application and agents, corrected by a percentage or by a
      number of classes; a stated count is taken as it is. */
  lemma ClassesThatCount(jvm: int, app: int, agents: int, percent: nat, extra: int, unrepresentable: int)
    requires 0 <= jvm + app + agents < TWO_63 && percent < TWO_32
    requires (jvm + app + agents) * percent <= 0x200_0000_0000_0000
    requires 0 <= jvm + app + agents + extra <= 0x4_0000_0000_0000
    ensures var n := jvm + app + agents;
      var count := LoadedClassCount(Counted(jvm, app, agents, Percent(percent)), unrepresentable);
      0 <= count && n * percent * 35 / 10_000 - 1 <= count <= n * percent * 35 / 10_000 + 1
    ensures var n := jvm + app + agents + extra;
      var count := LoadedClassCount(Counted(jvm, app, agents, Extra(extra)), unrepresentable);
      0 <= count && n * 35 / 100 - 1 <= count <= n * 35 / 100 + 1
    ensures LoadedClassCount(Stated(extra), unrepresentable) == extra
  {
    hide LoadedClassCount;
    ClassCountIsRounded(Counted(jvm, app, agents, Percent(percent)), unrepresentable);
    ClassCountIsRounded(Counted(jvm, app, agents, Extra(extra)), unrepresentable);
    StatedIsTaken(extra, unrepresentable);
    assert (jvm + app + agents + extra) * 100 * 35 / 10_000 == (jvm + app + agents + extra) * 35 / 100;
  }

  lemma StatedIsTaken(n: int, unrepresentable: int)
    ensures LoadedClassCount(Stated(n), unrepresentable) == n
  {
  }

  lemma LoadedShare(n: nat, percent: nat)
    requires percent < TWO_32 && n * percent <= 0x200_0000_0000_0000
    ensures var factor := Float64.Div(Float64.OfInt(percent), Float64.OfInt(100));
      var total := Float64.Mul(Float64.OfInt(n), factor);
      var loaded := Float64.ToInt(Float64.Mul(total, ClassLoadFactor()));
      0 <= loaded < TWO_63 && Expected(n, percent) - 1 <= loaded <= Expected(n, percent) + 1
  {
    OneIsNear(n);
    Float64.QuotientNear(percent, 100);
    LoadFactorNear();
    hide Float64.Div, Float64.OfInt, Float64.Near, ClassLoadFactor, Expected;
    NearLoadedShare(Float64.OfInt(n), Float64.Div(Float64.OfInt(percent), Float64.OfInt(100)), n, percent);
  }

  lemma NearLoadedShare(count: Float64.Float, factor: Float64.Float, n: nat, percent: nat)
    requires Float64.Near(count, n, 1, 1) && Float64.Near(factor, percent, 100, 1)
    requires count.num >= 0 && factor.num >= 0 && n * percent <= 0x200_0000_0000_0000
    ensures var loaded := Float64.ToInt(Float64.Mul(Float64.Mul(count, factor), ClassLoadFactor()));
      0 <= loaded < TWO_63 && Expected(n, percent) - 1 <= loaded <= Expected(n, percent) + 1
  {
    hide Float64.Mul, Float64.RoundNat, Float64.ToInt, ClassLoadFactor;
    LoadFactorNear();
    Float64.MulIsRoundNat(count, factor);
    Float64.MulNear(count, n, 1, 1, factor, percent, 100, 1);
    var total := Float64.Mul(count, factor);
    Float64.MulIsRoundNat(total, ClassLoadFactor());
    Float64.MulNear(total, n * percent, 100, 4, ClassLoadFactor(), 35, 100, 1);
    hide Float64.Near;
    Float64.ToIntNear(Float64.Mul(total, ClassLoadFactor()), n * percent * 35, 10_000, 7);
  }

  lemma OneIsNear(n: nat)
    ensures Float64.Near(Float64.OfInt(n), n, 1, 1) && Float64.OfInt(n).num >= 0
  {
    Float64.RoundNatError(n, 1);
  }

  lemma LoadFactorNear()
    ensures Float64.Near(ClassLoadFactor(), 35, 100, 1) && ClassLoadFactor().num >= 0
  {
    Float64.RoundNatError(35, 100);
  }

  function LimitFrom(content: Option<string>): int {
    match content
    case None => UNSET_TOTAL_MEMORY
    case Some(text) =>
      match ParseSize(Text.TrimSpace(text))
      case Ok(v) => v
      case Err(_) => UNSET_TOTAL_MEMORY
  }

  function TotalMemory(env: Env): (total: int)
    ensures total <= MAX_JVM_SIZE
  {
    var v1 := LimitFrom(env.limitV1);
    var v2 := if v1 == UNSET_TOTAL_MEMORY then LimitFrom(env.limitV2) else v1;
    var total := if v2 == UNSET_TOTAL_MEMORY && env.available.Some? then env.available.value else v2;
    if total == UNSET_TOTAL_MEMORY then GIBI
    else if total > MAX_JVM_SIZE then MAX_JVM_SIZE
    else total
  }

  function Configured(env: Env): Calculator {
    var total := TotalMemory(env);
    Calculator(
      env.headRoom, env.unrepresentable, LoadedClassCount(env.classes, env.unrepresentable),
      total < LOW_PROFILE_THRESHOLD && env.lowProfileDisabled == Some(false),
      if env.threads.Some? then ThreadCount(env.threads.value, UserConfigured) else DEFAULT_THREAD_COUNT,
      total)
  }

  /** A size in the first cgroup file decides the limit, up to the cap, whatever else is set. */
  lemma FirstLimitWins(env: Env, text: string)
    requires env.limitV1 == Some(text) && IsSize(Text.TrimSpace(text))
    requires Denoted(Text.TrimSpace(text)) < TWO_63 && Denoted(Text.TrimSpace(text)) != UNSET_TOTAL_MEMORY
    ensures TotalMemory(env)
         == if Denoted(Text.TrimSpace(text)) <= MAX_JVM_SIZE then Denoted(Text.TrimSpace(text)) else MAX_JVM_SIZE
  {
    var t := Text.TrimSpace(text);
    SizeIsTrimmed(t);
    var scale := Scale(Groups(t).1);
    assert Text.DecimalValue(Groups(t).0) <= Text.DecimalValue(Groups(t).0) * scale by {
      MulMonotone(Text.DecimalValue(Groups(t).0), Text.DecimalValue(Groups(t).0), 1, scale);
    }
  }

  /** What a cgroup file says: a size, with white space around it or not, is a limit, and anything
      else means that there is none, as does the number that version 1 has for that. */
  lemma LimitFilesAreSizes(text: string)
    ensures LimitFrom(Some(text)) == match ParseSize(text) case Ok(v) => v case Err(_) => 9_223_372_036_854_771_712
  {
    Text.TrimTrimmed(Text.TrimSpace(text));
    hide Text.TrimSpace, IsSize, Groups;
  }

  lemma PaddedSize(size: string)
    requires Text.Trimmed(size)
    ensures ParseSize(size + "\n") == ParseSize(size)
  {
    hide IsSize, Groups;
    Text.TrimPadded("", size, "\n");
    Text.TrimPadded("", size, "");
    assert "" + size + "\n" == size + "\n" && "" + size + "" == size;
    hide Text.TrimSpace;
  }

  /** A number on a line of its own is the limit; the word of version 2 for no limit is none. */
  lemma LimitFiles(n: nat)
    requires n < 0x8000_0000_0000_0000
    ensures LimitFrom(Some(Text.Decimal(n) + "\n")) == n
    ensures LimitFrom(Some("max\n")) == LimitFrom(None) == 9_223_372_036_854_771_712
  {
    hide Text.TrimSpace, Text.Decimal, ParseSize;
    LimitFilesAreSizes(Text.Decimal(n) + "\n");
    LimitFilesAreSizes("max\n");
    DecimalIsTrimmed(n);
    PaddedSize(Text.Decimal(n));
    UnitLetters(n);
    MaxIsNoSize();
  }

  lemma MaxIsNoSize()
    ensures ParseSize("max\n").Err?
  {
    assert Text.Trimmed("max");
    PaddedSize("max");
    Text.TrimTrimmed("max");
    assert "max"[0] == 'm' && !Text.AllDigits("max");
    assert "max\n" == "max" + "\n";
  }

  lemma DecimalIsTrimmed(n: nat)
    ensures Text.Trimmed(Text.Decimal(n))
  {
    var s := Text.Decimal(n);
    assert Text.IsDigit(s[0]) && Text.IsDigit(s[|s| - 1]);
  }

  /** The first of these that states a limit. */
  function FirstSet(sources: seq<int>): Option<int> {
    if sources == [] then None
    else if sources[0] != 9_223_372_036_854_771_712 then Some(sources[0])
    else FirstSet(sources[1..])
  }

  /** The limit comes from the first source that states one, in a fixed order, capped at 64 TiB;
      without any it is 1 GiB. */
  lemma FirstSourceDecides(env: Env)
    ensures var sources := [LimitFrom(env.limitV1), LimitFrom(env.limitV2)]
                           + if env.available.Some? then [env.available.value] else [];
      TotalMemory(env) == match FirstSet(sources)
        case None => 1_073_741_824
        case Some(t) => if t <= 70_368_744_177_664 then t else 70_368_744_177_664
  {
    var v1, v2 := LimitFrom(env.limitV1), LimitFrom(env.limitV2);
    var third := if env.available.Some? then [env.available.value] else [];
    hide LimitFrom;
    assert ([v1, v2] + third)[1..] == [v2] + third;
    assert ([v2] + third)[1..] == third;
    assert FirstSet([v2] + third) == if v2 != UNSET_TOTAL_MEMORY then Some(v2) else FirstSet(third);
    if env.available.Some? {
      assert third[1..] == [];
      assert FirstSet(third) == if third[0] != UNSET_TOTAL_MEMORY then Some(third[0]) else FirstSet([]);
    }
  }

  // ---- emission ----

  /** The flag for region k, unless the user set that region. */
  function Emit(m: Regions, k: Flags.Kind): seq<string>
    requires m.Get(k).Some?
  {
    if m.Get(k).value.provenance != UserConfigured then [Flags.Show(k, m.Get(k).value.value)] else []
  }

  const KINDS: seq<Flags.Kind> := [Flags.DirectMemory, Flags.Heap, Flags.Metaspace, Flags.CodeCache, Flags.Stack]

  function EmitAll(m: Regions, kinds: seq<Flags.Kind>): seq<string>
    requires m.heap.Some? && m.metaspace.Some?
  {
    if kinds == [] then [] else EmitAll(m, kinds[..|kinds| - 1]) + Emit(m, kinds[|kinds| - 1])
  }

  /** The flags for all regions the user did not set, in this order. */
  function Emitted(m: Regions): seq<string>
    requires m.heap.Some? && m.metaspace.Some?
  {
    EmitAll(m, KINDS)
  }

  predicate Contains(s: string, part: string) {
    part <= s || (s != "" && Contains(s[1..], part))
  }

  predicate Mentions(tokens: seq<string>, part: string) {
    exists i :: 0 <= i < |tokens| && Contains(tokens[i], part)
  }

  function CompactHeaders(env: Env, tokens: seq<string>): seq<string> {
    if Configured(env).lowProfile && env.java25OrLater && !Mentions(tokens, COMPACT_HEADERS)
    then [COMPACT_HEADERS] else []
  }

  lemma AllocatedRegionsAreSet(c: Calculator, tokens: seq<string>)
    requires Calculate(c, tokens).Ok?
    ensures Calculate(c, tokens).value.memory.heap.Some? && Calculate(c, tokens).value.memory.metaspace.Some?
  {
  }

  /** The new JAVA_TOOL_OPTIONS. */
  ghost function Execute(env: Env, tokens: seq<string>): Result<seq<string>, Failure> {
    match Calculate(Configured(env), tokens)
    case Err(e) => Err(e)
    case Ok(o) =>
      AllocatedRegionsAreSet(Configured(env), tokens);
      Ok(tokens + Emitted(o.memory) + CompactHeaders(env, tokens))
  }

  method CountClasses(s: ClassSource, unrepresentable: int) returns (count: int)
    ensures count == LoadedClassCount(s, unrepresentable)
  {
    hide Float64.Mul, Float64.Div, Float64.OfInt, Float64.ToInt64, ClassLoadFactor, Wrap64;
    if s.Stated? { return s.count; }
    var staticAdjustment, adjustmentFactor := 0, 100;
    match s.adjustment {
      case Percent(p) => adjustmentFactor := p;
      case Extra(n) => staticAdjustment := n;
    }
    var classes := Wrap64(s.jvm + s.app + s.agents + staticAdjustment);
    var factor := Float64.Div(Float64.OfInt(adjustmentFactor), Float64.OfInt(100));
    var totalClasses := Float64.Mul(Float64.OfInt(classes), factor);
    return Float64.ToInt64(Float64.Mul(totalClasses, ClassLoadFactor()), unrepresentable);
  }

  /** The calculator, filled field by field. */
  method Configure(env: Env) returns (c: Calculator)
    ensures c == Configured(env)
  {
    hide LimitFrom, LoadedClassCount;
    c := Calculator(env.headRoom, env.unrepresentable, 0, false, DEFAULT_THREAD_COUNT, 0);
    var count := CountClasses(env.classes, env.unrepresentable);
    c := c.(loadedClassCount := count);
    if env.threads.Some? {
      c := c.(threadCount := ThreadCount(env.threads.value, UserConfigured));
    }
    var totalMemory := LimitFrom(env.limitV1);
    if totalMemory == UNSET_TOTAL_MEMORY {
      totalMemory := LimitFrom(env.limitV2);
    }
    if totalMemory == UNSET_TOTAL_MEMORY && env.available.Some? {
      totalMemory := env.available.value;
    }
    if totalMemory == UNSET_TOTAL_MEMORY {
      c := c.(totalMemory := GIBI);
    } else if totalMemory > MAX_JVM_SIZE {
      c := c.(totalMemory := MAX_JVM_SIZE);
    } else {
      c := c.(totalMemory := totalMemory);
    }
    if c.totalMemory < LOW_PROFILE_THRESHOLD && env.lowProfileDisabled.Some? {
      c := c.(lowProfile := !env.lowProfileDisabled.value);
    }
  }

  lemma EmitNext(m: Regions, i: nat, before: seq<string>)
    requires m.heap.Some? && m.metaspace.Some? && i < |KINDS| && before == EmitAll(m, KINDS[..i])
    ensures EmitAll(m, KINDS[..i + 1]) == before + Emit(m, KINDS[i])
    ensures before + [] == before
  {
    hide Flags.Show;
    NextPrefix(KINDS, i);
  }

  method EmitFlags(mem: Regions) returns (calculated: seq<string>)
    requires mem.heap.Some? && mem.metaspace.Some?
    ensures calculated == Emitted(mem)
  {
    hide Flags.Show, EmitAll;
    calculated := [];
    assert calculated == EmitAll(mem, KINDS[..0]) by { NothingToEmit(mem); }
    EmitNext(mem, 0, calculated);
    if mem.directMemory.provenance != UserConfigured {
      calculated := calculated + [Flags.Show(Flags.DirectMemory, mem.directMemory.value)];
    }
    EmitNext(mem, 1, calculated);
    if mem.heap.value.provenance != UserConfigured {
      calculated := calculated + [Flags.Show(Flags.Heap, mem.heap.value.value)];
    }
    EmitNext(mem, 2, calculated);
    if mem.metaspace.value.provenance != UserConfigured {
      calculated := calculated + [Flags.Show(Flags.Metaspace, mem.metaspace.value.value)];
    }
    EmitNext(mem, 3, calculated);
    if mem.codeCache.provenance != UserConfigured {
      calculated := calculated + [Flags.Show(Flags.CodeCache, mem.codeCache.value)];
    }
    EmitNext(mem, 4, calculated);
    if mem.stack.provenance != UserConfigured {
      calculated := calculated + [Flags.Show(Flags.Stack, mem.stack.value)];
    }
    assert KINDS[..5] == KINDS;
  }

  lemma NothingToEmit(m: Regions)
    requires m.heap.Some? && m.metaspace.Some?
    ensures EmitAll(m, KINDS[..0]) == []
  {
  }

  /** The helper step by step. */
  method RunExecute(env: Env, tokens: seq<string>) returns (r: Result<seq<string>, Failure>)
    ensures r == Execute(env, tokens)
  {
    var c := Configure(env);
    var values := tokens;
    var o := RunCalculator(c, tokens);
    if o.Err? { return Err(o.error); }
    AllocatedRegionsAreSet(c, tokens);
    var calculated := EmitFlags(o.value.memory);
    values := values + calculated;
    var compact := CompactHeaders(env, tokens);
    values := values + compact;
    return Ok(values);
  }

  // ---- the fixpoint ----

  /** What is printed can be read: a size negative by a kibibyte or more would not match its own
      pattern, and less than that prints as 0. */
  ghost predicate Printable(m: Regions) {
    forall k :: m.Get(k).Some? && (m.Get(k).value.provenance == UserConfigured || -KIBI < m.Get(k).value.value < TWO_63)
  }

  /** Region k after the emitted flags are read back. */
  function ReadBack(m: Regions, tokens: seq<string>, k: Flags.Kind): Option<Region>
    requires m.Get(k).Some?
  {
    if m.Get(k).value.provenance == UserConfigured then Flagged(k, tokens)
    else Some(Region(WholeKibis(m.Get(k).value.value), UserConfigured))
  }

  lemma EmitOne(m: Regions, tokens: seq<string>, k: Flags.Kind)
    requires AllParse(tokens) && Printable(m)
    ensures AllParse(tokens + Emit(m, k))
    ensures Flagged(k, tokens + Emit(m, k)) == ReadBack(m, tokens, k)
    ensures forall j :: j != k ==> Flagged(j, tokens + Emit(m, k)) == Flagged(j, tokens)
  {
    if m.Get(k).value.provenance == UserConfigured {
      assert tokens + Emit(m, k) == tokens;
    } else {
      var f := Flags.Show(k, m.Get(k).value.value);
      Flags.ShowThenParse(k, m.Get(k).value.value);
      ParsesIff(k, f);
      OneMoreToken(k, tokens, f);
      forall j | j != k ensures Flagged(j, tokens + [f]) == Flagged(j, tokens) {
        OtherKind(j, k, tokens, f);
      }
    }
  }

  predicate Distinct(kinds: seq<Flags.Kind>) {
    forall i, j :: 0 <= i < j < |kinds| ==> kinds[i] != kinds[j]
  }

  lemma LastIsNew(kinds: seq<Flags.Kind>)
    requires kinds != [] && Distinct(kinds)
    ensures Distinct(kinds[..|kinds| - 1]) && kinds[|kinds| - 1] !in kinds[..|kinds| - 1]
  {
  }

  lemma {:induction false} EmitAllReadsBack(m: Regions, tokens: seq<string>, kinds: seq<Flags.Kind>, k: Flags.Kind)
    requires m.heap.Some? && m.metaspace.Some?
    requires AllParse(tokens) && Printable(m)
    requires Distinct(kinds)
    ensures AllParse(tokens + EmitAll(m, kinds))
    ensures Flagged(k, tokens + EmitAll(m, kinds)) == if k in kinds then ReadBack(m, tokens, k) else Flagged(k, tokens)
  {
    if kinds == [] {
      Associates(tokens, [], []);
    } else {
      var front, last := kinds[..|kinds| - 1], kinds[|kinds| - 1];
      LastIsNew(kinds);
      FrontAndLast(kinds, k);
      EmitAllReadsBack(m, tokens, front, k);
      EmitOne(m, tokens + EmitAll(m, front), last);
      Associates(tokens, EmitAll(m, front), Emit(m, last));
    }
  }

  lemma AllKinds(k: Flags.Kind)
    ensures k in KINDS
  {
    assert KINDS[0].DirectMemory? && KINDS[1].Heap? && KINDS[2].Metaspace? && KINDS[3].CodeCache? && KINDS[4].Stack?;
  }

  /** Reading the user's flags and the emitted ones gives back every region: the user's as
      they were, the calculated ones in whole kibibytes. */
  lemma EmittedReadsBack(m: Regions, tokens: seq<string>)
    requires m.heap.Some? && m.metaspace.Some?
    requires AllParse(tokens) && Printable(m)
    ensures AllParse(tokens + Emitted(m))
    ensures forall k :: Flagged(k, tokens + Emitted(m)) == ReadBack(m, tokens, k)
  {
    forall k
      ensures AllParse(tokens + Emitted(m))
      ensures Flagged(k, tokens + Emitted(m)) == ReadBack(m, tokens, k)
    {
      EmitAllReadsBack(m, tokens, KINDS, k);
      AllKinds(k);
    }
    EmitAllReadsBack(m, tokens, KINDS, Flags.Heap);
  }

  /** The compact-headers flag parts from every memory flag at its third or fifth character. */
  lemma CompactHeadersIsNoMemoryFlag(k: Flags.Kind)
    ensures !Flags.Matches(k, COMPACT_HEADERS)
  {
    hide Text.TrimSpace, IsSize;
    Text.TrimTrimmed(COMPACT_HEADERS);
    assert COMPACT_HEADERS[2] == 'X' && COMPACT_HEADERS[4] == '+';
    PrefixHas(k);
  }

  lemma PrefixHas(k: Flags.Kind)
    ensures var p := Flags.Prefix(k);
      |p| > 2 && if k.Heap? || k.Stack? then p[2] != 'X' else |p| > 4 && p[4] != '+'
  {
  }

  lemma CompactHeadersReadsBack(env: Env, opts: seq<string>, tokens: seq<string>)
    requires AllParse(tokens)
    ensures AllParse(tokens + CompactHeaders(env, opts))
    ensures forall k :: Flagged(k, tokens + CompactHeaders(env, opts)) == Flagged(k, tokens)
  {
    forall k ensures !Flags.Matches(k, COMPACT_HEADERS) { CompactHeadersIsNoMemoryFlag(k); }
    if CompactHeaders(env, opts) == [] {
      assert tokens + [] == tokens;
    } else {
      forall k ensures Flagged(k, tokens + [COMPACT_HEADERS]) == Flagged(k, tokens) {
        OneMoreToken(k, tokens, COMPACT_HEADERS);
      }
    }
  }

  lemma WholeKibisAreFewer(v: int)
    requires 0 <= v
    ensures 0 <= WholeKibis(v) <= v
    ensures MIN_HEAP <= v ==> MIN_HEAP <= WholeKibis(v)
  {
  }

  function Rounded(r: Region): Region {
    if r.provenance == UserConfigured then r else Region(WholeKibis(r.value), UserConfigured)
  }

  /** The regions as they come back from the emitted flags. */
  function ReadAgain(m: Regions): Regions
    requires m.heap.Some? && m.metaspace.Some?
  {
    Regions(Rounded(m.directMemory), None, Some(Rounded(m.heap.value)), Some(Rounded(m.metaspace.value)),
            Rounded(m.codeCache), Rounded(m.stack))
  }

  /** What the calculator allocates, whether or not sizes wrap: the user's regions exactly where
      the flags were, and elsewhere regions that can be printed, if the metaspace can. */
  lemma AllocatedRegions(c: Calculator, flags: Regions)
    requires IsInt64(c.totalMemory) && Parsed(flags) && (c.lowProfile ==> c.totalMemory < LOW_PROFILE_THRESHOLD)
    requires CalculateFrom(c, flags).Ok? && MetaspaceIsPrintable(c, flags)
    ensures var m := CalculateFrom(c, flags).value.memory;
      && m.heap.Some? && m.metaspace.Some? && m.headRoom.Some?
      && Printable(m)
      && forall k :: if flags.Get(k).Some? && flags.Get(k).value.provenance == UserConfigured
                     then m.Get(k) == flags.Get(k)
                     else m.Get(k).value.provenance != UserConfigured
  {
    hide Scaled, HeadRoomBytes, Allocate, Wrap64, Fixed, NonHeap;
    AllocateIff(c.totalMemory, Plan(c, flags));
    ScaledIsBetween(DEFAULT_STACK.value, c.totalMemory, MIN_STACK);
    ScaledIsBetween(DEFAULT_CODE_CACHE.value, c.totalMemory, MIN_CODE_CACHE);
  }

  /** The metaspace is the user's, or calculated from a class count for which it is not negative
      by a kibibyte or more. */
  predicate MetaspaceIsPrintable(c: Calculator, flags: Regions) {
    flags.metaspace.Some? || -KIBI < CalculatedMetaspace(c).value
  }

  // ---- what rounding takes away ----

  function LostBy(r: Region): (lost: int)
    ensures -KIBI < lost < KIBI && (0 <= r.value ==> 0 <= lost)
    ensures r.value - lost == Rounded(r).value
  {
    r.value - Rounded(r).value
  }

  function Lost(o: Output): int
    requires o.memory.metaspace.Some?
  {
    LostBy(o.memory.directMemory) + LostBy(o.memory.metaspace.value) + LostBy(o.memory.codeCache)
    + LostBy(o.memory.stack) * o.threadCount.value
  }

  /** The sizes of a result can spare what rounding takes off its regions; sizes and losses count
      only as far as 64 bits hold them. */
  predicate TakesRounding(total: int, o: Output)
    requires o.memory.metaspace.Some? && o.memory.headRoom.Some? && o.memory.heap.Some?
  {
    var m, t := o.memory, o.threadCount.value;
    && Takes(Wrap64(Fixed(m, t)), Wrap64(Lost(o)), total)
    && Takes(Wrap64(NonHeap(m, t)), Wrap64(Lost(o)), total)
    && Takes(Wrap64(All(m, t)), Wrap64(Lost(o) + LostBy(m.heap.value)), total)
  }

  lemma StacksLose(rounded: int, lost: int, t: int)
    ensures (rounded + lost) * t == rounded * t + lost * t
  {
  }

  lemma RoundedSums(o: Output)
    requires o.memory.metaspace.Some? && o.memory.headRoom.Some? && o.memory.heap.Some?
    ensures var m, m', t := o.memory, ReadAgain(o.memory).(headRoom := o.memory.headRoom), o.threadCount.value;
      && Fixed(m', t) == Fixed(m, t) - Lost(o)
      && NonHeap(m', t) == NonHeap(m, t) - Lost(o)
      && All(m', t) == All(m, t) - (Lost(o) + LostBy(m.heap.value))
  {
    hide Rounded, LostBy;
    StacksLose(Rounded(o.memory.stack).value, LostBy(o.memory.stack), o.threadCount.value);
  }

  /** Planning takes regions that are all the user's as they are. */
  lemma PlanOfReadAgain(c: Calculator, flags: Regions)
    requires CalculateFrom(c, flags).Ok?
    ensures var o := CalculateFrom(c, flags).value;
      && o.memory.metaspace.Some? && o.memory.headRoom.Some? && o.memory.heap.Some?
      && Plan(c, ReadAgain(o.memory)) == Output(ReadAgain(o.memory).(headRoom := o.memory.headRoom), o.threadCount)
  {
    hide HeadRoomBytes, Scaled;
    hide FixedRegionsSize, NonHeapRegionsSize, AllRegionsSize;
  }

  /** Calculating on the rounded regions, whatever wraps and however large limit and thread
      count: it succeeds, and then returns them, exactly when the sizes can spare the rounding. */
  lemma RecalculationSucceedsIff(c: Calculator, flags: Regions, o: Output)
    requires IsInt64(c.totalMemory) && CalculateFrom(c, flags) == Ok(o)
    ensures o.memory.metaspace.Some? && o.memory.headRoom.Some? && o.memory.heap.Some?
    ensures CalculateFrom(c, ReadAgain(o.memory)).Ok? <==> TakesRounding(c.totalMemory, o)
    ensures CalculateFrom(c, ReadAgain(o.memory)).Ok? ==>
      CalculateFrom(c, ReadAgain(o.memory)).value
      == Output(ReadAgain(o.memory).(headRoom := o.memory.headRoom), o.threadCount)
  {
    hide CalculateFrom, Wrap64, Takes, Fixed, NonHeap, Lost, Rounded, LostBy, ReadAgain;
    var m, t := o.memory, o.threadCount.value;
    AgainIfFit(c, flags, o);
    ResultFits(c, flags, o);
    ShiftedSum(Fixed(m, t), Lost(o), c.totalMemory);
    ShiftedSum(NonHeap(m, t), Lost(o), c.totalMemory);
    ShiftedSum(All(m, t), Lost(o) + LostBy(m.heap.value), c.totalMemory);
    assert All(m, t) - (Lost(o) + LostBy(m.heap.value)) == NonHeap(m, t) - Lost(o) + Rounded(m.heap.value).value;
  }

  /** The rounded regions are allocated exactly when their sizes pass the checks. */
  lemma AgainIfFit(c: Calculator, flags: Regions, o: Output)
    requires IsInt64(c.totalMemory) && CalculateFrom(c, flags) == Ok(o)
    ensures o.memory.metaspace.Some? && o.memory.headRoom.Some? && o.memory.heap.Some?
    ensures var m, t := o.memory, o.threadCount.value;
      CalculateFrom(c, ReadAgain(m)).Ok? <==>
      Fit(c.totalMemory, Fixed(m, t) - Lost(o), NonHeap(m, t) - Lost(o), Some(Rounded(m.heap.value)))
    ensures CalculateFrom(c, ReadAgain(o.memory)).Ok? ==>
      CalculateFrom(c, ReadAgain(o.memory)).value
      == Output(ReadAgain(o.memory).(headRoom := o.memory.headRoom), o.threadCount)
  {
    PlanOfReadAgain(c, flags);
    RoundedSums(o);
    var p' := Plan(c, ReadAgain(o.memory));
    AllocatedIfFit(c.totalMemory, p');
    AllocateIff(c.totalMemory, p');
    hide Wrap64, Plan, Allocate, Fixed, NonHeap, Lost, Rounded, LostBy, Fit;
  }

  /** The sizes of a result are within the limit, and the heap stays above the minimum when it
      is rounded. */
  lemma ResultFits(c: Calculator, flags: Regions, o: Output)
    requires IsInt64(c.totalMemory) && CalculateFrom(c, flags) == Ok(o)
    ensures o.memory.metaspace.Some? && o.memory.headRoom.Some? && o.memory.heap.Some?
    ensures MIN_HEAP <= Rounded(o.memory.heap.value).value
    ensures var m, t, total := o.memory, o.threadCount.value, c.totalMemory;
      Wrap64(Fixed(m, t)) <= total && Wrap64(NonHeap(m, t)) <= total && Wrap64(All(m, t)) <= total
  {
    SizesWrap(o.memory, o.threadCount.value);
    WholeKibisAreFewer(o.memory.heap.value.value);
    hide Wrap64, Fixed, NonHeap, All, WholeKibis;
  }

  /** The sizes of a result, as the calculator has computed them, do not fall out of 64 bits
      when every calculated region is rounded. */
  predicate SurvivesRounding(o: Output)
    requires o.memory.metaspace.Some? && o.memory.headRoom.Some? && o.memory.heap.Some?
  {
    var m, t := o.memory, o.threadCount.value;
    && -TWO_63 <= Wrap64(Fixed(m, t)) - Lost(o)
    && -TWO_63 <= Wrap64(NonHeap(m, t)) - Lost(o)
    && -TWO_63 <= Wrap64(All(m, t)) - Lost(o) - LostBy(m.heap.value)
  }

  /** On numbers: a size within the limit that loses little only has to stay in 64 bits. */
  lemma SmallLoss(x: int, d: int, limit: int)
    requires IsInt64(x) && x <= limit < TWO_63 && 0 <= d
    ensures -TWO_63 <= x - d ==> Takes(x, Wrap64(d), limit)
    ensures limit + d < TWO_63 && Takes(x, Wrap64(d), limit) ==> -TWO_63 <= x - d
  {
    if -TWO_63 <= x - d {
      ShiftedSum(x, d, limit);
    }
  }

  /** A loss that is not negative can be spared if the sizes stay in 64 bits, and, unless the
      limit or the loss is absurd, only then. */
  lemma SurvivorsTakeRounding(c: Calculator, flags: Regions, o: Output)
    requires IsInt64(c.totalMemory) && CalculateFrom(c, flags) == Ok(o)
    ensures o.memory.metaspace.Some? && o.memory.headRoom.Some? && o.memory.heap.Some?
    ensures 0 <= Lost(o) && SurvivesRounding(o) ==> TakesRounding(c.totalMemory, o)
    ensures 0 <= Lost(o) && c.totalMemory + Lost(o) + KIBI < TWO_63 ==>
      (TakesRounding(c.totalMemory, o) ==> SurvivesRounding(o))
  {
    hide CalculateFrom, Takes, Fixed, NonHeap, All, Lost, Rounded;
    var m, t, total := o.memory, o.threadCount.value, c.totalMemory;
    ResultFits(c, flags, o);
    assert 0 <= LostBy(m.heap.value) < KIBI by { HeapLosesLittle(m.heap.value); }
    hide Wrap64, LostBy;
    if 0 <= Lost(o) {
      SmallLoss(Wrap64(Fixed(m, t)), Lost(o), total);
      SmallLoss(Wrap64(NonHeap(m, t)), Lost(o), total);
      SmallLoss(Wrap64(All(m, t)), Lost(o) + LostBy(m.heap.value), total);
    }
  }

  lemma HeapLosesLittle(heap: Region)
    requires MIN_HEAP <= Rounded(heap).value
    ensures 0 <= LostBy(heap) < KIBI
  {
  }

  /** Without overflow the sizes survive rounding, and the rounded regions are conserved. */
  lemma RecalculationSucceeds(c: Calculator, flags: Regions)
    requires NonNegative(c, flags) && Demand(c, flags) < TWO_63 && CalculateFrom(c, flags).Ok?
    ensures var o := CalculateFrom(c, flags).value;
      && o.memory.metaspace.Some? && o.memory.headRoom.Some? && o.memory.heap.Some?
      && SurvivesRounding(o) && TakesRounding(c.totalMemory, o)
      && Allocated(Output(ReadAgain(o.memory).(headRoom := o.memory.headRoom), o.threadCount)) <= c.totalMemory
  {
    hide HeadRoomBytes, Scaled;
    var o := CalculateFrom(c, flags).value;
    var m, t := o.memory, o.threadCount.value;
    ConservedIffDemandFits(c, flags);
    SurvivorsTakeRounding(c, flags, o);
    RoundedSums(o);
    RoundedIsNotNegative(m, t);
    assert 0 <= Lost(o) + LostBy(m.heap.value);
    hide CalculateFrom, NonNegative, Demand, Fixed, Lost, ReadAgain, TakesRounding;
    assert Wrap64(Fixed(m, t)) == Fixed(m, t) && Wrap64(NonHeap(m, t)) == NonHeap(m, t);
    assert Wrap64(All(m, t)) == All(m, t);
  }

  lemma RoundedIsNotNegative(m: Regions, t: int)
    requires m.metaspace.Some? && m.headRoom.Some? && m.heap.Some? && NoneNegative(Output(m, ThreadCount(t, Default)))
    ensures var m' := ReadAgain(m).(headRoom := m.headRoom);
      0 <= Fixed(m', t) <= NonHeap(m', t) <= All(m', t)
    ensures 0 <= Fixed(m, t) <= NonHeap(m, t) <= All(m, t)
    ensures 0 <= LostBy(m.directMemory) + LostBy(m.metaspace.value) + LostBy(m.codeCache) + LostBy(m.stack) * t
  {
    WholeKibisAreFewer(m.directMemory.value);
    WholeKibisAreFewer(m.heap.value.value);
    WholeKibisAreFewer(m.metaspace.value.value);
    WholeKibisAreFewer(m.codeCache.value);
    WholeKibisAreFewer(m.stack.value);
    hide WholeKibis;
    MulMonotone(0, Rounded(m.stack).value, 0, t);
    MulMonotone(0, m.stack.value, 0, t);
    MulMonotone(0, LostBy(m.stack), 0, t);
  }

  /** The same five settings make the same regions. */
  lemma FlagsDecide(tokens: seq<string>, m: Regions)
    requires m.headRoom.None? && forall k :: m.Get(k).Some? && Flagged(k, tokens) == m.Get(k)
    ensures FromFlags(tokens) == m
  {
    hide Flagged;
    assert Flagged(Flags.DirectMemory, tokens) == m.Get(Flags.DirectMemory);
    assert Flagged(Flags.Heap, tokens) == m.Get(Flags.Heap);
    assert Flagged(Flags.Metaspace, tokens) == m.Get(Flags.Metaspace);
    assert Flagged(Flags.CodeCache, tokens) == m.Get(Flags.CodeCache);
    assert Flagged(Flags.Stack, tokens) == m.Get(Flags.Stack);
  }

  /** The options produced from a calculated result parse back to its rounded regions. */
  lemma OptionsReadBack(env: Env, tokens: seq<string>, m: Regions)
    requires AllParse(tokens) && m.heap.Some? && m.metaspace.Some? && Printable(m)
    requires forall k :: if Flagged(k, tokens).Some? then m.Get(k) == Flagged(k, tokens)
                         else m.Get(k).value.provenance != UserConfigured
    ensures var values := tokens + Emitted(m) + CompactHeaders(env, tokens);
      AllParse(values) && FromFlags(values) == ReadAgain(m)
  {
    hide Flagged;
    EmittedReadsBack(m, tokens);
    CompactHeadersReadsBack(env, tokens, tokens + Emitted(m));
    var values := tokens + Emitted(m) + CompactHeaders(env, tokens);
    forall k ensures Flagged(k, values) == ReadAgain(m).Get(k) {
      assert Flagged(k, values) == ReadBack(m, tokens, k);
    }
    FlagsDecide(values, ReadAgain(m));
  }

  lemma UserRegionsAreFlags(tokens: seq<string>, k: Flags.Kind)
    ensures var flags := FromFlags(tokens);
      if Flagged(k, tokens).Some?
      then flags.Get(k) == Flagged(k, tokens) && flags.Get(k).value.provenance == UserConfigured
      else !(flags.Get(k).Some? && flags.Get(k).value.provenance == UserConfigured)
  {
  }

  /** The produced options parse, to the rounded regions of the result. */
  lemma OptionsAreRead(env: Env, tokens: seq<string>)
    requires IsInt64(TotalMemory(env)) && MetaspaceIsPrintable(Configured(env), FromFlags(tokens))
    requires Execute(env, tokens).Ok?
    ensures var c, values := Configured(env), Execute(env, tokens).value;
      && Calculate(c, tokens).Ok?
      && var m := Calculate(c, tokens).value.memory;
         && m.heap.Some? && m.metaspace.Some? && m.headRoom.Some?
         && values == tokens + Emitted(m) + CompactHeaders(env, tokens)
         && AllParse(values) && FromFlags(values) == ReadAgain(m)
  {
    hide Flagged, FromFlags, CalculateFrom, CompactHeaders, Emitted, Parsed, MetaspaceIsPrintable, TotalMemory;
    var c, flags := Configured(env), FromFlags(tokens);
    var m := Calculate(c, tokens).value.memory;
    FlagsAreParsed(tokens);
    AllocatedRegions(c, flags);
    forall k
      ensures if Flagged(k, tokens).Some? then m.Get(k) == Flagged(k, tokens)
              else m.Get(k).value.provenance != UserConfigured
    {
      UserRegionsAreFlags(tokens, k);
    }
    OptionsReadBack(env, tokens, m);
  }

  lemma {:induction false} NoMetaspaceEmitted(m: Regions, tokens: seq<string>, kinds: seq<Flags.Kind>)
    requires m.heap.Some? && m.metaspace.Some? && m.metaspace.value.value <= -KIBI
    ensures Flagged(Flags.Metaspace, tokens + EmitAll(m, kinds)) == Flagged(Flags.Metaspace, tokens)
  {
    hide Flagged, Flags.Show, Flags.Matches;
    if kinds == [] {
      Associates(tokens, [], []);
    } else {
      var front, k := kinds[..|kinds| - 1], kinds[|kinds| - 1];
      var before, flag := tokens + EmitAll(m, front), Flags.Show(k, m.Get(k).value.value);
      NoMetaspaceEmitted(m, tokens, front);
      if Flags.Matches(Flags.Metaspace, flag) { Flags.ShownMatchesAtMost(Flags.Metaspace, k, m.Get(k).value.value); }
      OneMoreToken(Flags.Metaspace, before, flag);
      Associates(tokens, EmitAll(m, front), Emit(m, k));
      Associates(before, [], []);
    }
  }

  lemma {:induction false} EmitsSomething(m: Regions, kinds: seq<Flags.Kind>, i: nat)
    requires m.heap.Some? && m.metaspace.Some? && i < |kinds| && m.Get(kinds[i]).value.provenance != UserConfigured
    ensures EmitAll(m, kinds) != []
  {
    if i < |kinds| - 1 { EmitsSomething(m, kinds[..|kinds| - 1], i); }
  }

  lemma CalculatedMetaspaceStays(c: Calculator, flags: Regions)
    requires flags.metaspace.None? && CalculateFrom(c, flags).Ok?
    ensures CalculateFrom(c, flags).value.memory.metaspace == Some(CalculatedMetaspace(c))
  {
    hide HeadRoomBytes, Scaled;
    hide FixedRegionsSize, NonHeapRegionsSize, AllRegionsSize;
  }

  /** A metaspace that cannot be printed, calculated from a negative class count, is emitted as a
      flag that nothing reads, so every further run adds it again. */
  lemma NegativeMetaspaceIsNoFixpoint(env: Env, tokens: seq<string>)
    requires !MetaspaceIsPrintable(Configured(env), FromFlags(tokens))
    requires Execute(env, tokens).Ok?
    ensures Execute(env, Execute(env, tokens).value) != Execute(env, tokens)
  {
    hide Flagged, CalculateFrom, CompactHeaders, EmitAll, CalculatedMetaspace;
    var c, values := Configured(env), Execute(env, tokens).value;
    AllocatedRegionsAreSet(c, tokens);
    var m := Calculate(c, tokens).value.memory;
    CalculatedMetaspaceStays(c, FromFlags(tokens));
    NoMetaspaceEmitted(m, tokens, KINDS);
    CompactHeadersIsNoMemoryFlag(Flags.Metaspace);
    NotAdded(env, tokens, tokens + Emitted(m));
    if Execute(env, values).Ok? {
      AllocatedRegionsAreSet(c, values);
      var again := Calculate(c, values).value.memory;
      CalculatedMetaspaceStays(c, FromFlags(values));
      assert again.metaspace.value.provenance == Calculated by { MetaspaceProvenance(c); }
      assert again.Get(KINDS[2]) == again.metaspace;
      EmitsSomething(again, KINDS, 2);
      assert |values + Emitted(again) + CompactHeaders(env, values)| > |values|;
    }
  }

  lemma MetaspaceProvenance(c: Calculator)
    ensures CalculatedMetaspace(c).provenance == Calculated
  {
  }

  lemma NotAdded(env: Env, opts: seq<string>, tokens: seq<string>)
    ensures Flagged(Flags.Metaspace, tokens + CompactHeaders(env, opts)) == Flagged(Flags.Metaspace, tokens)
  {
    CompactHeadersIsNoMemoryFlag(Flags.Metaspace);
    OneMoreToken(Flags.Metaspace, tokens, COMPACT_HEADERS);
    Associates(tokens, [], []);
    hide Flagged, Flags.Matches;
  }

  /** With a metaspace that can be printed, a second run succeeds exactly when the result's sizes
      can spare the rounding, and then it adds nothing. */
  lemma SecondRun(env: Env, tokens: seq<string>)
    requires IsInt64(TotalMemory(env)) && MetaspaceIsPrintable(Configured(env), FromFlags(tokens))
    requires Execute(env, tokens).Ok?
    ensures var c, values := Configured(env), Execute(env, tokens).value;
      && Calculate(c, tokens).Ok?
      && var o := Calculate(c, tokens).value;
         && o.memory.heap.Some? && o.memory.metaspace.Some? && o.memory.headRoom.Some?
         && (Execute(env, values).Ok? <==> TakesRounding(c.totalMemory, o))
         && (Execute(env, values).Ok? ==>
             && Execute(env, values) == Ok(values)
             && Calculate(c, values) == Ok(Output(ReadAgain(o.memory).(headRoom := o.memory.headRoom), o.threadCount)))
  {
    hide Flagged, FromFlags, CalculateFrom, CompactHeaders, Emitted, TakesRounding, MetaspaceIsPrintable, TotalMemory;
    var c, values := Configured(env), Execute(env, tokens).value;
    OptionsAreRead(env, tokens);
    RecalculationSucceedsIff(c, FromFlags(tokens), Calculate(c, tokens).value);
    var m := Calculate(c, tokens).value.memory;
    if Calculate(c, values).Ok? {
      NothingMoreEmitted(Calculate(c, values).value.memory, m);
      CompactHeadersOnce(env, tokens, tokens + Emitted(m));
      Associates(values, [], []);
    }
  }

  /** The options the helper produces are a fixpoint exactly when the metaspace can be printed and
      the result's sizes can spare the rounding, whatever the flags and the environment. Run again
      in the same environment on its own output the helper then succeeds and adds nothing; the
      user's regions are as they were and each calculated region is what was calculated, in whole
      kibibytes. */
  lemma OptionsAreAFixpointIff(env: Env, tokens: seq<string>)
    requires IsInt64(TotalMemory(env)) && Execute(env, tokens).Ok?
    ensures var c, values := Configured(env), Execute(env, tokens).value;
      && Calculate(c, tokens).Ok?
      && var o := Calculate(c, tokens).value;
         && o.memory.heap.Some? && o.memory.metaspace.Some? && o.memory.headRoom.Some?
         && (Execute(env, values) == Ok(values) <==>
             MetaspaceIsPrintable(c, FromFlags(tokens)) && TakesRounding(c.totalMemory, o))
         && (Execute(env, values) == Ok(values) ==>
             Calculate(c, values) == Ok(Output(ReadAgain(o.memory).(headRoom := o.memory.headRoom), o.threadCount)))
  {
    hide Flagged, FromFlags, CalculateFrom, Execute, TakesRounding, MetaspaceIsPrintable, TotalMemory;
    assert Calculate(Configured(env), tokens).Ok? by { ExecutedIsCalculated(env, tokens); }
    RecalculationSucceedsIff(Configured(env), FromFlags(tokens), Calculate(Configured(env), tokens).value);
    if MetaspaceIsPrintable(Configured(env), FromFlags(tokens)) {
      SecondRun(env, tokens);
    } else {
      NegativeMetaspaceIsNoFixpoint(env, tokens);
    }
  }

  lemma ExecutedIsCalculated(env: Env, tokens: seq<string>)
    requires Execute(env, tokens).Ok?
    ensures Calculate(Configured(env), tokens).Ok?
  {
  }

  /** Rounding can undo a wrapped sum, and the helper then fails on its own output: in 1 GiB, with
      this direct memory in bytes and -Xmx64M, the fixed regions wrap to just -2^63 bytes and fit,
      but rounding the metaspace takes 896 bytes away. */
  lemma RecalculationCanFail()
    ensures var env := Env(0, 0, Stated(0), None, None, None, None, None, false);
            var direct := Flags.Prefix(Flags.DirectMemory) + Text.Decimal(TWO_63 - 490 * MEBI - CLASS_OVERHEAD);
            var tokens := [direct, Flags.Show(Flags.Heap, 64 * MEBI)];
      && NonNegative(Configured(env), FromFlags(tokens))
      && Execute(env, tokens).Ok? && Execute(env, Execute(env, tokens).value).Err?
  {
    hide FromFlags, AllParse, CalculateFrom, NonNegative, Print, IsSize, ParseSize, Flags.Prefix, Text.Decimal;
    hide Emitted, CompactHeaders, TakesRounding, MetaspaceIsPrintable;
    var env := Env(0, 0, Stated(0), None, None, None, None, None, false);
    var bytes, heap := TWO_63 - 490 * MEBI - CLASS_OVERHEAD, 64 * MEBI;
    var direct := Flags.Prefix(Flags.DirectMemory) + Text.Decimal(bytes);
    PrintedParses(bytes, "", Bytes);
    assert Text.Decimal(bytes) + "" == Text.Decimal(bytes);
    PrintThenParse(heap);
    NoFlags();
    OneMoreSize([], Flags.DirectMemory, Text.Decimal(bytes), bytes);
    assert [] + [direct] == [direct];
    OneMoreSize([direct], Flags.Heap, Print(heap), heap);
    var tokens := [direct, Flags.Show(Flags.Heap, heap)];
    assert [direct] + [Flags.Show(Flags.Heap, heap)] == tokens;
    assert Configured(env) == Calculator(0, 0, 0, false, DEFAULT_THREAD_COUNT, GIBI);
    RoundedOut(FromFlags(tokens));
    SecondRun(env, tokens);
  }

  lemma RoundedOut(flags: Regions)
    requires flags == DEFAULTS.(directMemory := Region(TWO_63 - 490 * MEBI - CLASS_OVERHEAD, UserConfigured),
                                heap := Some(Region(64 * MEBI, UserConfigured)))
    ensures var c := Calculator(0, 0, 0, false, DEFAULT_THREAD_COUNT, GIBI);
      && NonNegative(c, flags) && CalculateFrom(c, flags).Ok? && MetaspaceIsPrintable(c, flags)
      && var o := CalculateFrom(c, flags).value;
         o.memory.metaspace.Some? && o.memory.headRoom.Some? && o.memory.heap.Some? && !TakesRounding(GIBI, o)
  {
    hide HeadRoomBytes, Scaled;
    var c := Calculator(0, 0, 0, false, DEFAULT_THREAD_COUNT, GIBI);
    HeadRoomIsRounded(c.headRoom, c.totalMemory, c.unrepresentable);
    var p := Plan(c, flags);
    assert Fixed(p.memory, DEFAULT_THREADS) == TWO_63 && NonHeap(p.memory, DEFAULT_THREADS) == TWO_63;
    AllocateIff(GIBI, p);
    assert Lost(p) == 896;
    hide Allocate, Plan, Fixed, NonHeap, Lost;
  }

  /** Without overflow the options are a fixpoint, everything together stays within the limit
      and the heap at or above the minimum. */
  lemma OptionsAreAFixpoint(env: Env, tokens: seq<string>)
    requires NonNegative(Configured(env), FromFlags(tokens)) && Demand(Configured(env), FromFlags(tokens)) < TWO_63
    requires Execute(env, tokens).Ok?
    ensures var c, values := Configured(env), Execute(env, tokens).value;
      && Execute(env, values) == Ok(values)
      && Calculate(c, tokens).Ok? && Calculate(c, values).Ok?
      && var m, again := Calculate(c, tokens).value.memory, Calculate(c, values).value;
         && m.heap.Some? && m.metaspace.Some?
         && again.memory.heap.Some? && again.memory.metaspace.Some? && again.memory.headRoom.Some?
         && again.memory.(headRoom := None) == ReadAgain(m)
         && again.memory.heap.value.value >= MIN_HEAP
         && Allocated(again) <= c.totalMemory
  {
    var c, flags := Configured(env), FromFlags(tokens);
    assert IsInt64(c.totalMemory) && MetaspaceIsPrintable(c, flags) by { hide Flagged, FromFlags; }
    assert c.totalMemory == TotalMemory(env);
    hide Flagged, FromFlags, CalculateFrom, Demand, NonNegative, TakesRounding, SurvivesRounding, MetaspaceIsPrintable;
    hide Emitted, CompactHeaders, Allocated, Configured, TotalMemory;
    RecalculationSucceeds(c, flags);
    SecondRun(env, tokens);
    ResultFits(c, flags, Calculate(c, tokens).value);
  }

  // ---- the new options, in plain numbers and texts ----

  predicate StandsAt(s: string, part: string, i: int) {
    0 <= i <= |s| - |part| && s[i..i + |part|] == part
  }

  lemma StandsInRest(s: string, part: string, i: int)
    requires s != []
    ensures i >= 0 ==> (StandsAt(s[1..], part, i) <==> StandsAt(s, part, i + 1))
    ensures StandsAt(s, part, 0) <==> part <= s
  {
    if 0 <= i <= |s| - 1 - |part| {
      assert s[i + 1..i + 1 + |part|] == s[1..][i..i + |part|];
    }
  }

  /** Contains looks for the text at every position. */
  lemma {:induction false} ContainsIff(s: string, part: string)
    ensures Contains(s, part) <==> exists i :: StandsAt(s, part, i)
  {
    if s == [] {
      assert part <= s <==> StandsAt(s, part, 0);
    } else {
      ContainsIff(s[1..], part);
      forall i ensures i >= 0 ==> (StandsAt(s[1..], part, i) <==> StandsAt(s, part, i + 1)) {
        StandsInRest(s, part, i);
      }
      StandsInRest(s, part, 0);
      assert forall i :: StandsAt(s[1..], part, i) ==> i >= 0;
      assert forall i :: StandsAt(s, part, i) ==> i == 0 || (i > 0 && StandsAt(s[1..], part, i - 1));
    }
  }

  /** Whether the small-container profile applies: below 1 GiB, and only if the variable that
      disables it is set to false. */
  predicate IsLow(env: Env) {
    TotalMemory(env) < 1_073_741_824 && env.lowProfileDisabled == Some(false)
  }

  function ThreadsOf(env: Env): int {
    match env.threads
    case Some(n) => n
    case None =>
      var share := 250 * TotalMemory(env) / 1_073_741_824;
      if !IsLow(env) then 250 else if share < 30 then 30 else share
  }

  /** Everything but head room and heap. */
  function BillOf(env: Env, tokens: seq<string>): int {
    DirectMemoryBytes(tokens) + MetaspaceBytes(LoadedClassCount(env.classes, env.unrepresentable), tokens)
    + CodeCacheBytes(IsLow(env), TotalMemory(env), tokens)
    + StackBytes(IsLow(env), TotalMemory(env), tokens) * ThreadsOf(env)
  }

  lemma BillIs(env: Env, tokens: seq<string>)
    ensures Bill(Configured(env), tokens) == BillOf(env, tokens)
  {
    hide Flagged, TotalMemory, LoadedClassCount, DirectMemoryBytes, MetaspaceBytes, CodeCacheBytes, StackBytes;
  }

  /** The flag, unless the tokens set that region already. */
  function Added(k: Flags.Kind, tokens: seq<string>, name: string, bytes: int): seq<string> {
    if Flagged(k, tokens).Some? then [] else [name + Print(bytes)]
  }

  lemma EmittedInOrder(m: Regions)
    requires m.heap.Some? && m.metaspace.Some?
    ensures Emitted(m) == Emit(m, Flags.DirectMemory) + Emit(m, Flags.Heap) + Emit(m, Flags.Metaspace)
                          + Emit(m, Flags.CodeCache) + Emit(m, Flags.Stack)
  {
    hide Emit, EmitAll;
    var d := Emit(m, Flags.DirectMemory);
    NothingToEmit(m);
    EmitNext(m, 0, []);
    Associates(d, [], []);
    EmitNext(m, 1, d);
    EmitNext(m, 2, d + Emit(m, Flags.Heap));
    EmitNext(m, 3, d + Emit(m, Flags.Heap) + Emit(m, Flags.Metaspace));
    EmitNext(m, 4, d + Emit(m, Flags.Heap) + Emit(m, Flags.Metaspace) + Emit(m, Flags.CodeCache));
    assert KINDS[..5] == KINDS;
  }

  /** The flags for what the user did not set, by name and in order. */
  lemma AddedFlags(tokens: seq<string>, m: Regions)
    requires m.heap.Some? && m.metaspace.Some?
    requires forall k :: if Flagged(k, tokens).Some? then m.Get(k) == Flagged(k, tokens)
                         else m.Get(k).value.provenance != UserConfigured
    ensures Emitted(m) == Added(Flags.DirectMemory, tokens, "-XX:MaxDirectMemorySize=", m.directMemory.value)
                          + Added(Flags.Heap, tokens, "-Xmx", m.heap.value.value)
                          + Added(Flags.Metaspace, tokens, "-XX:MaxMetaspaceSize=", m.metaspace.value.value)
                          + Added(Flags.CodeCache, tokens, "-XX:ReservedCodeCacheSize=", m.codeCache.value)
                          + Added(Flags.Stack, tokens, "-Xss", m.stack.value)
  {
    hide Flagged, Emitted, Print;
    EmittedInOrder(m);
    FlaggedByUser(tokens);
    assert Emit(m, Flags.DirectMemory)
        == Added(Flags.DirectMemory, tokens, "-XX:MaxDirectMemorySize=", m.directMemory.value);
    assert Emit(m, Flags.Heap) == Added(Flags.Heap, tokens, "-Xmx", m.heap.value.value);
    assert Emit(m, Flags.Metaspace)
        == Added(Flags.Metaspace, tokens, "-XX:MaxMetaspaceSize=", m.metaspace.value.value);
    assert Emit(m, Flags.CodeCache)
        == Added(Flags.CodeCache, tokens, "-XX:ReservedCodeCacheSize=", m.codeCache.value);
    assert Emit(m, Flags.Stack) == Added(Flags.Stack, tokens, "-Xss", m.stack.value);
    hide Emit, Added;
  }

  /** Below 1 GiB, with the profile on and from Java 25 on, compact headers are added unless a token
      has the flag anywhere. */
  lemma CompactHeadersAre(env: Env, tokens: seq<string>)
    ensures CompactHeaders(env, tokens)
         == if IsLow(env) && env.java25OrLater
               && forall i, j :: 0 <= i < |tokens| ==> !StandsAt(tokens[i], "-XX:+UseCompactObjectHeaders", j)
            then ["-XX:+UseCompactObjectHeaders"] else []
  {
    hide TotalMemory, LoadedClassCount, Contains;
    forall i | 0 <= i < |tokens| ensures Contains(tokens[i], COMPACT_HEADERS)
                                     <==> exists j :: StandsAt(tokens[i], COMPACT_HEADERS, j) {
      ContainsIff(tokens[i], COMPACT_HEADERS);
    }
  }

  /** The regions of a calculation are the user's exactly where a flag set them. */
  lemma UserRegionsStay(c: Calculator, tokens: seq<string>)
    requires Calculate(c, tokens).Ok?
    ensures var m := Calculate(c, tokens).value.memory;
      && m.heap.Some? && m.metaspace.Some?
      && forall k :: if Flagged(k, tokens).Some? then m.Get(k) == Flagged(k, tokens)
                     else m.Get(k).value.provenance != UserConfigured
  {
    hide Flagged, Scaled, HeadRoomBytes, FixedRegionsSize, NonHeapRegionsSize, AllRegionsSize;
    FlaggedByUser(tokens);
    forall k ensures var m := Calculate(c, tokens).value.memory;
      if Flagged(k, tokens).Some? then m.Get(k) == Flagged(k, tokens)
      else m.Get(k).value.provenance != UserConfigured
    {
      UserRegionsAreFlags(tokens, k);
    }
  }

  /** The helper from the environment and the tokens to the new options. It succeeds exactly when
      the bill, the head room and the heap, in 64-bit arithmetic, stay within the limit and the
      heap is at least 32 MiB; what it then adds are these texts. */
  lemma ExecutionIs(env: Env, tokens: seq<string>) returns (headRoom: int)
    requires AllParse(tokens) && IsInt64(TotalMemory(env)) && IsModest(env.headRoom, TotalMemory(env))
    ensures IsHeadRoom(env.headRoom, TotalMemory(env), headRoom)
    ensures var total, bill := TotalMemory(env), BillOf(env, tokens);
      var heap := ValueOr(Flagged(Flags.Heap, tokens), Wrap64(total - (bill + headRoom)));
      && (Execute(env, tokens).Ok? <==>
          && Wrap64(bill) <= total && Wrap64(bill + headRoom) <= total && Wrap64(bill + headRoom + heap) <= total
          && 33_554_432 <= heap)
      && (Execute(env, tokens).Ok? ==>
          var metaspace := MetaspaceBytes(LoadedClassCount(env.classes, env.unrepresentable), tokens);
          Execute(env, tokens).value
          == tokens
             + (Added(Flags.DirectMemory, tokens, "-XX:MaxDirectMemorySize=", DirectMemoryBytes(tokens))
                + Added(Flags.Heap, tokens, "-Xmx", heap)
                + Added(Flags.Metaspace, tokens, "-XX:MaxMetaspaceSize=", metaspace)
                + Added(Flags.CodeCache, tokens, "-XX:ReservedCodeCacheSize=",
                        CodeCacheBytes(IsLow(env), total, tokens))
                + Added(Flags.Stack, tokens, "-Xss", StackBytes(IsLow(env), total, tokens)))
             + CompactHeaders(env, tokens))
  {
    hide AllParse, Flagged, Added, Calculate, Wrap64, CompactHeaders, Emitted, TotalMemory, LoadedClassCount;
    hide DirectMemoryBytes, MetaspaceBytes, CodeCacheBytes, StackBytes, Bill, BillOf;
    var c := Configured(env);
    BillIs(env, tokens);
    headRoom := CalculationIs(c, tokens);
    if Execute(env, tokens).Ok? {
      UserRegionsStay(c, tokens);
      AddedFlags(tokens, Calculate(c, tokens).value.memory);
    }
  }

  /** Emitting sets region k to what was printed for it, whatever is printed for the others. */
  lemma {:induction false} EmittedSets(m: Regions, tokens: seq<string>, kinds: seq<Flags.Kind>, k: Flags.Kind)
    requires m.heap.Some? && m.metaspace.Some? && Distinct(kinds)
    requires m.Get(k).value.provenance != UserConfigured && -KIBI < m.Get(k).value.value < TWO_63
    ensures Flagged(k, tokens + EmitAll(m, kinds))
         == if k in kinds then Some(Region(WholeKibis(m.Get(k).value.value), UserConfigured)) else Flagged(k, tokens)
  {
    hide Flagged, Flags.Show, Flags.Matches, Flags.Parse;
    if kinds == [] {
      Associates(tokens, [], []);
    } else {
      var front, last := kinds[..|kinds| - 1], kinds[|kinds| - 1];
      var before := tokens + EmitAll(m, front);
      LastIsNew(kinds);
      FrontAndLast(kinds, k);
      EmittedSets(m, tokens, front, k);
      Associates(tokens, EmitAll(m, front), Emit(m, last));
      EmittedSetsOne(m, before, last, k);
    }
  }

  lemma EmittedSetsOne(m: Regions, before: seq<string>, last: Flags.Kind, k: Flags.Kind)
    requires m.heap.Some? && m.metaspace.Some?
    requires m.Get(k).value.provenance != UserConfigured && -KIBI < m.Get(k).value.value < TWO_63
    ensures Flagged(k, before + Emit(m, last))
         == if last == k then Some(Region(WholeKibis(m.Get(k).value.value), UserConfigured)) else Flagged(k, before)
  {
    hide Flagged, Flags.Matches, Flags.Parse, Flags.Show, WholeKibis;
    var flag := Flags.Show(last, m.Get(last).value.value);
    Associates(before, [], []);
    OneMoreToken(k, before, flag);
    if last == k {
      Flags.ShowThenParse(k, m.Get(k).value.value);
      SetByLast(k, before, flag, WholeKibis(m.Get(k).value.value));
    } else if Flags.Matches(k, flag) {
      Flags.ShownMatchesAtMost(k, last, m.Get(last).value.value);
    }
  }

  /** What the output says of code cache and stack when the tokens say nothing: the defaults of
      240 MiB and 1 MiB, or below 1 GiB with the profile on that share of them, in whole kibibytes. */
  lemma OutputSaysStackAndCodeCache(env: Env, tokens: seq<string>)
    requires IsInt64(TotalMemory(env)) && IsModest(env.headRoom, TotalMemory(env)) && Execute(env, tokens).Ok?
    ensures var values, total := Execute(env, tokens).value, TotalMemory(env);
      var low := total < 1_073_741_824 && env.lowProfileDisabled == Some(false);
      && (Flagged(Flags.Stack, tokens).None? ==>
          Flagged(Flags.Stack, values) == Some(Region(WholeKibis(
            if low then Max(1_048_576 * total / 1_073_741_824, 262_144) else 1_048_576), UserConfigured)))
      && (Flagged(Flags.CodeCache, tokens).None? ==>
          Flagged(Flags.CodeCache, values) == Some(Region(WholeKibis(
            if low then Max(251_658_240 * total / 1_073_741_824, 2_555_904) else 251_658_240), UserConfigured)))
  {
    hide Flagged, AllParse, TotalMemory, LoadedClassCount, CompactHeaders, EmitAll, CalculateFrom, Bill, WholeKibis;
    var c := Configured(env);
    var headRoom := CalculationIs(c, tokens);
    UserRegionsStay(c, tokens);
    var m := Calculate(c, tokens).value.memory;
    AllKinds(Flags.Stack);
    AllKinds(Flags.CodeCache);
    CompactSetsNothing(env, tokens, tokens + Emitted(m));
    if Flagged(Flags.Stack, tokens).None? { EmittedSets(m, tokens, KINDS, Flags.Stack); }
    if Flagged(Flags.CodeCache, tokens).None? { EmittedSets(m, tokens, KINDS, Flags.CodeCache); }
  }

  lemma CompactSetsNothing(env: Env, opts: seq<string>, tokens: seq<string>)
    ensures forall k :: Flagged(k, tokens + CompactHeaders(env, opts)) == Flagged(k, tokens)
  {
    forall k ensures Flagged(k, tokens + CompactHeaders(env, opts)) == Flagged(k, tokens) {
      CompactHeadersIsNoMemoryFlag(k);
      OneMoreToken(k, tokens, COMPACT_HEADERS);
      Associates(tokens, [], []);
    }
  }

  // ---- which tokens and environments this covers ----

  /** Every matching token denotes at most this many bytes. */
  ghost predicate WrittenWithin(tokens: seq<string>, high: int) {
    forall i, k :: 0 <= i < |tokens| && Flags.Matches(k, tokens[i]) ==> Flags.Written(k, tokens[i]) <= high
  }

  lemma {:induction false} FlaggedWithin(k: Flags.Kind, tokens: seq<string>, high: int)
    requires WrittenWithin(tokens, high) && high < TWO_63
    ensures Flagged(k, tokens).Some? ==> Within(Flagged(k, tokens).value, 0, high)
  {
    hide Flags.Matches, Flags.Parse, Flags.Written;
    if tokens != [] {
      var last := tokens[|tokens| - 1];
      FlaggedWithin(k, tokens[..|tokens| - 1], high);
      if Flags.Matches(k, last) { Flags.ParsesToWritten(k, last); }
    }
  }

  /** Flags that are written within a bound are read within it. */
  lemma WrittenIsRead(tokens: seq<string>, high: int)
    requires WrittenWithin(tokens, high) && 240 * MEBI <= high < TWO_63
    ensures ReadFromFlags(FromFlags(tokens)) && RegionsWithin(FromFlags(tokens), 0, high)
  {
    FlagsAreParsed(tokens);
    hide Flagged, Parsed, ReadFromFlags, WrittenWithin;
    assert ReadFromFlags(FromFlags(tokens)) by { ParsedIsRead(FromFlags(tokens)); }
    FlaggedWithin(Flags.DirectMemory, tokens, high);
    FlaggedWithin(Flags.Heap, tokens, high);
    FlaggedWithin(Flags.Metaspace, tokens, high);
    FlaggedWithin(Flags.CodeCache, tokens, high);
    FlaggedWithin(Flags.Stack, tokens, high);
  }

  lemma ParsedIsRead(m: Regions)
    requires Parsed(m)
    ensures ReadFromFlags(m)
  {
  }

  /** The fixpoint for everything that is realistic: flags that write sizes up to 64 TiB, up to
      65536 threads, a head room of up to 100 percent, and a 32-bit class count. */
  lemma RealisticOptionsAreAFixpoint(env: Env, tokens: seq<string>)
    requires WrittenWithin(tokens, 64 * TEBI)
    requires 0 <= TotalMemory(env) && 0 <= env.headRoom <= 100
    requires 0 <= LoadedClassCount(env.classes, env.unrepresentable) < TWO_31
    requires (env.threads.Some? ==> 0 <= env.threads.value <= 0x1_0000)
    requires Execute(env, tokens).Ok?
    ensures Execute(env, Execute(env, tokens).value) == Execute(env, tokens)
  {
    var c := Configured(env);
    assert 0 <= c.threadCount.value <= 0x1_0000;
    hide Flagged, FromFlags, CalculateFrom, Execute, WrittenWithin, TotalMemory;
    WrittenIsRead(tokens, 64 * TEBI);
    RealisticDemandFits(c, FromFlags(tokens));
    OptionsAreAFixpoint(env, tokens);
  }

  lemma NothingMoreEmitted(again: Regions, m: Regions)
    requires m.heap.Some? && m.metaspace.Some? && again.(headRoom := None) == ReadAgain(m)
    ensures Emitted(again) == []
  {
    NothingEmitted(again, KINDS);
  }

  lemma {:induction false} NothingEmitted(m: Regions, kinds: seq<Flags.Kind>)
    requires m.heap.Some? && m.metaspace.Some?
    requires forall k :: m.Get(k).value.provenance == UserConfigured
    ensures EmitAll(m, kinds) == []
  {
    if kinds != [] { NothingEmitted(m, kinds[..|kinds| - 1]); }
  }

  /** The compact-headers flag is not added to options that already have it. */
  lemma CompactHeadersOnce(env: Env, tokens: seq<string>, longer: seq<string>)
    requires tokens <= longer
    ensures CompactHeaders(env, longer + CompactHeaders(env, tokens)) == []
  {
    var added := CompactHeaders(env, tokens);
    if added != [] {
      assert (longer + added)[|longer|] == COMPACT_HEADERS && Contains(COMPACT_HEADERS, COMPACT_HEADERS);
    } else if Mentions(tokens, COMPACT_HEADERS) {
      var i :| 0 <= i < |tokens| && Contains(tokens[i], COMPACT_HEADERS);
      assert (longer + added)[i] == tokens[i];
    }
  }
}
