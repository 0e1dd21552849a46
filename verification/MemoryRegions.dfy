/** The memory regions of a JVM, read from flags and added up (calc/memory_regions.go). */
module MemoryRegions {
  import opened Wrappers
  import opened Machine
  import opened Sequences
  import opened Size
  import Flags
  import Text

  datatype Provenance = Unknown | Default | UserConfigured | Calculated

  datatype Region = Region(value: int, provenance: Provenance)

  const DEFAULT_DIRECT_MEMORY := Region(10 * MEBI, Default)
  const DEFAULT_CODE_CACHE := Region(240 * MEBI, Default)
  const DEFAULT_STACK := Region(MEBI, Default)

  /** The value of a MemoryRegions object. */
  datatype Regions = Regions(
    directMemory: Region,
    headRoom: Option<Region>,
    heap: Option<Region>,
    metaspace: Option<Region>,
    codeCache: Region,
    stack: Region)
  {
    function Get(k: Flags.Kind): Option<Region> {
      match k
      case DirectMemory => Some(directMemory)
      case Heap => heap
      case Metaspace => metaspace
      case CodeCache => Some(codeCache)
      case Stack => Some(stack)
    }

    function Put(k: Flags.Kind, r: Region): Regions {
      match k
      case DirectMemory => this.(directMemory := r)
      case Heap => this.(heap := Some(r))
      case Metaspace => this.(metaspace := Some(r))
      case CodeCache => this.(codeCache := r)
      case Stack => this.(stack := r)
    }
  }

  const DEFAULTS := Regions(DEFAULT_DIRECT_MEMORY, None, None, None, DEFAULT_CODE_CACHE, DEFAULT_STACK)

  // ---- what a token list says ----

  /** The last token that sets region k. */
  function LastMatch(k: Flags.Kind, tokens: seq<string>): Option<string> {
    if tokens == [] then None
    else if Flags.Matches(k, tokens[|tokens| - 1]) then Some(tokens[|tokens| - 1])
    else LastMatch(k, tokens[..|tokens| - 1])
  }

  ghost predicate Parses(token: string) {
    forall k :: Flags.Matches(k, token) ==> Flags.Parse(k, token).Ok?
  }

  ghost predicate AllParse(tokens: seq<string>) {
    forall i :: 0 <= i < |tokens| ==> Parses(tokens[i])
  }

  /** Region k as the tokens set it. */
  function Flagged(k: Flags.Kind, tokens: seq<string>): Option<Region> {
    match LastMatch(k, tokens)
    case Some(token) =>
      (match Flags.Parse(k, token)
       case Ok(v) => Some(Region(v, UserConfigured))
       case Err(_) => None)
    case None => None
  }

  function OrElse(r: Option<Region>, default: Region): Region {
    if r.Some? then r.value else default
  }

  /** Every region as its last token sets it, or its default. */
  function FromFlags(tokens: seq<string>): Regions {
    Regions(OrElse(Flagged(Flags.DirectMemory, tokens), DEFAULT_DIRECT_MEMORY),
            None,
            Flagged(Flags.Heap, tokens),
            Flagged(Flags.Metaspace, tokens),
            OrElse(Flagged(Flags.CodeCache, tokens), DEFAULT_CODE_CACHE),
            OrElse(Flagged(Flags.Stack, tokens), DEFAULT_STACK))
  }

  /** The tokens that set region k, in order. */
  function Setting(k: Flags.Kind, tokens: seq<string>): seq<string> {
    if tokens == [] then []
    else Setting(k, tokens[..|tokens| - 1])
         + if Flags.Matches(k, tokens[|tokens| - 1]) then [tokens[|tokens| - 1]] else []
  }

  lemma {:induction false} LastOfSetting(k: Flags.Kind, tokens: seq<string>)
    ensures LastMatch(k, tokens)
         == if Setting(k, tokens) == [] then None else Some(Setting(k, tokens)[|Setting(k, tokens)| - 1])
  {
    if tokens != [] {
      LastOfSetting(k, tokens[..|tokens| - 1]);
    }
  }

  lemma {:induction false} SettingTokens(k: Flags.Kind, tokens: seq<string>, token: string)
    ensures token in Setting(k, tokens) <==> token in tokens && Flags.Matches(k, token)
  {
    if tokens != [] {
      SettingTokens(k, tokens[..|tokens| - 1], token);
      FrontAndLast(tokens, token);
    }
  }

  lemma SameSettingSameFlag(k: Flags.Kind, tokens: seq<string>, tokens': seq<string>)
    requires Setting(k, tokens) == Setting(k, tokens')
    ensures Flagged(k, tokens) == Flagged(k, tokens')
  {
    LastOfSetting(k, tokens);
    LastOfSetting(k, tokens');
  }

  /** Token lists that agree, region by region, on the tokens that set it give the same
      regions and fail together, however tokens of different regions are interleaved. */
  lemma OrderOfOtherRegions(tokens: seq<string>, tokens': seq<string>)
    requires forall k :: Setting(k, tokens) == Setting(k, tokens')
    ensures FromFlags(tokens) == FromFlags(tokens')
    ensures AllParse(tokens) <==> AllParse(tokens')
  {
    forall k ensures Flagged(k, tokens) == Flagged(k, tokens') {
      SameSettingSameFlag(k, tokens, tokens');
    }
    if AllParse(tokens) { ParseTogether(tokens, tokens'); }
    if AllParse(tokens') { ParseTogether(tokens', tokens); }
  }

  lemma ParseTogether(tokens: seq<string>, tokens': seq<string>)
    requires forall k :: Setting(k, tokens) == Setting(k, tokens')
    requires AllParse(tokens)
    ensures AllParse(tokens')
  {
    forall i, k | 0 <= i < |tokens'| && Flags.Matches(k, tokens'[i])
      ensures Flags.Parse(k, tokens'[i]).Ok?
    {
      SettingTokens(k, tokens', tokens'[i]);
      SettingTokens(k, tokens, tokens'[i]);
    }
  }

  lemma OneMoreToken(k: Flags.Kind, tokens: seq<string>, f: string)
    ensures Flags.Matches(k, f) ==> LastMatch(k, tokens + [f]) == Some(f)
    ensures !Flags.Matches(k, f) ==> Flagged(k, tokens + [f]) == Flagged(k, tokens)
  {
    assert (tokens + [f])[..|tokens|] == tokens;
  }

  lemma OtherKind(j: Flags.Kind, k: Flags.Kind, tokens: seq<string>, f: string)
    requires Flags.Matches(k, f) && j != k
    ensures Flagged(j, tokens + [f]) == Flagged(j, tokens)
  {
    if Flags.Matches(j, f) { Flags.PatternsAreExclusive(j, k, f); }
    OneMoreToken(j, tokens, f);
  }

  lemma SetByLast(k: Flags.Kind, tokens: seq<string>, f: string, v: int)
    requires Flags.Matches(k, f) && Flags.Parse(k, f) == Ok(v)
    ensures Flagged(k, tokens + [f]) == Some(Region(v, UserConfigured))
  {
    OneMoreToken(k, tokens, f);
  }

  /** One more token changes the region it sets and nothing else. */
  lemma OneMoreFlag(k: Flags.Kind, tokens: seq<string>, f: string, v: int)
    requires Flags.Matches(k, f) && Flags.Parse(k, f) == Ok(v)
    ensures FromFlags(tokens + [f]) == FromFlags(tokens).Put(k, Region(v, UserConfigured))
  {
    forall j | j != k ensures Flagged(j, tokens + [f]) == Flagged(j, tokens) {
      OtherKind(j, k, tokens, f);
    }
    OneMoreToken(k, tokens, f);
    assert Flagged(k, tokens + [f]) == Some(Region(v, UserConfigured));
  }

  lemma OneMoreOther(tokens: seq<string>, f: string)
    requires forall k :: !Flags.Matches(k, f)
    ensures FromFlags(tokens + [f]) == FromFlags(tokens)
  {
    forall k ensures Flagged(k, tokens + [f]) == Flagged(k, tokens) {
      OneMoreToken(k, tokens, f);
    }
  }

  lemma ParsesIff(k: Flags.Kind, f: string)
    requires Flags.Matches(k, f)
    ensures Parses(f) <==> Flags.Parse(k, f).Ok?
  {
    forall j ensures Flags.Matches(j, f) ==> j == k {
      if Flags.Matches(j, f) { Flags.PatternsAreExclusive(j, k, f); }
    }
  }

  /** Reading succeeds exactly when every token that matches a pattern carries no surrounding
      white space and has digits that fit a signed 64-bit integer. */
  lemma ReadingSucceedsIff(tokens: seq<string>)
    ensures AllParse(tokens) <==>
      forall i, k :: 0 <= i < |tokens| && Flags.Matches(k, tokens[i]) ==> Flags.WellSet(k, tokens[i])
  {
    forall i, k | 0 <= i < |tokens| && Flags.Matches(k, tokens[i])
      ensures Flags.Parse(k, tokens[i]).Ok? <==> Flags.WellSet(k, tokens[i])
    {
      Flags.MatchingParsesIff(k, tokens[i]);
    }
    hide Flags.Matches, Flags.Parse, Flags.WellSet;
  }

  /** One more flag sets its region and no other. */
  lemma OneMoreSize(tokens: seq<string>, k: Flags.Kind, size: string, v: int)
    requires AllParse(tokens) && IsSize(size) && ParseSize(size) == Ok(v)
    ensures var longer := tokens + [Flags.Prefix(k) + size];
      AllParse(longer) && FromFlags(longer) == FromFlags(tokens).Put(k, Region(v, UserConfigured))
  {
    hide IsSize, ParseSize, Flags.IsFlag, Flags.Prefix;
    var f := Flags.Prefix(k) + size;
    Flags.PrefixedSize(k, size);
    Text.TrimTrimmed(f);
    ParsesIff(k, f);
    OneMoreFlag(k, tokens, f, v);
  }

  // ---- what the flags are called ----

  // Whatever was read before, each of these texts in front of a size sets one region to that size
  // and leaves all others as they are.

  lemma MaxDirectMemorySizeSetsDirectMemory(tokens: seq<string>, size: string, v: int)
    requires AllParse(tokens) && Text.TrimSpace(size) == size && ParseSize(size) == Ok(v)
    ensures var longer := tokens + ["-XX:MaxDirectMemorySize=" + size];
      AllParse(longer) && FromFlags(longer) == FromFlags(tokens).(directMemory := Region(v, UserConfigured))
  {
    hide AllParse, FromFlags, Text.TrimSpace;
    OneMoreSize(tokens, Flags.DirectMemory, size, v);
  }

  lemma XmxSetsHeap(tokens: seq<string>, size: string, v: int)
    requires AllParse(tokens) && Text.TrimSpace(size) == size && ParseSize(size) == Ok(v)
    ensures var longer := tokens + ["-Xmx" + size];
      AllParse(longer) && FromFlags(longer) == FromFlags(tokens).(heap := Some(Region(v, UserConfigured)))
  {
    hide AllParse, FromFlags, Text.TrimSpace;
    OneMoreSize(tokens, Flags.Heap, size, v);
  }

  lemma MaxMetaspaceSizeSetsMetaspace(tokens: seq<string>, size: string, v: int)
    requires AllParse(tokens) && Text.TrimSpace(size) == size && ParseSize(size) == Ok(v)
    ensures var longer := tokens + ["-XX:MaxMetaspaceSize=" + size];
      AllParse(longer) && FromFlags(longer) == FromFlags(tokens).(metaspace := Some(Region(v, UserConfigured)))
  {
    hide AllParse, FromFlags, Text.TrimSpace;
    OneMoreSize(tokens, Flags.Metaspace, size, v);
  }

  lemma ReservedCodeCacheSizeSetsCodeCache(tokens: seq<string>, size: string, v: int)
    requires AllParse(tokens) && Text.TrimSpace(size) == size && ParseSize(size) == Ok(v)
    ensures var longer := tokens + ["-XX:ReservedCodeCacheSize=" + size];
      AllParse(longer) && FromFlags(longer) == FromFlags(tokens).(codeCache := Region(v, UserConfigured))
  {
    hide AllParse, FromFlags, Text.TrimSpace;
    OneMoreSize(tokens, Flags.CodeCache, size, v);
  }

  lemma XssSetsStack(tokens: seq<string>, size: string, v: int)
    requires AllParse(tokens) && Text.TrimSpace(size) == size && ParseSize(size) == Ok(v)
    ensures var longer := tokens + ["-Xss" + size];
      AllParse(longer) && FromFlags(longer) == FromFlags(tokens).(stack := Region(v, UserConfigured))
  {
    hide AllParse, FromFlags, Text.TrimSpace;
    OneMoreSize(tokens, Flags.Stack, size, v);
  }

  /** Whether a token is, but for white space around it, a text followed by a size. */
  ghost predicate HasForm(token: string, prefix: string) {
    exists digits, unit :: Text.TrimSpace(token) == prefix + digits + unit && IsSizeText(digits, unit)
  }

  lemma MatchesHasForm(k: Flags.Kind, token: string)
    requires Flags.Matches(k, token)
    ensures HasForm(token, Flags.Prefix(k))
  {
    hide Text.TrimSpace, Flags.Prefix, Groups, IsSizeText;
    var t, prefix := Text.TrimSpace(token), Flags.Prefix(k);
    var size := t[|prefix|..];
    var digits, unit := DigitsAndUnit(size);
    Associates(prefix, digits, unit);
    assert t == prefix + size;
  }

  /** A token that has none of these five forms is passed over. */
  lemma OtherTokensAreIgnored(tokens: seq<string>, token: string)
    requires AllParse(tokens)
    requires !HasForm(token, "-XX:MaxDirectMemorySize=") && !HasForm(token, "-Xmx")
    requires !HasForm(token, "-XX:MaxMetaspaceSize=") && !HasForm(token, "-XX:ReservedCodeCacheSize=")
    requires !HasForm(token, "-Xss")
    ensures AllParse(tokens + [token]) && FromFlags(tokens + [token]) == FromFlags(tokens)
  {
    forall k: Flags.Kind ensures !Flags.Matches(k, token) {
      if Flags.Matches(k, token) {
        MatchesHasForm(k, token);
      }
    }
    OneMoreOther(tokens, token);
  }

  // ---- sizes, in 64-bit arithmetic ----

  datatype SizesError = NoMetaspace | NoHeadRoom

  function FixedRegionsSize(m: Regions, threadCount: int): (r: Result<int, SizesError>)
    ensures r.Ok? <==> m.metaspace.Some?
  {
    if m.metaspace.None? then Err(NoMetaspace)
    else Ok(Add64(Add64(Add64(m.directMemory.value, m.metaspace.value.value), m.codeCache.value),
                  Mul64(m.stack.value, threadCount)))
  }

  function NonHeapRegionsSize(m: Regions, threadCount: int): (r: Result<int, SizesError>)
    ensures r.Ok? <==> m.metaspace.Some? && m.headRoom.Some?
  {
    if m.headRoom.None? then Err(NoHeadRoom)
    else match FixedRegionsSize(m, threadCount)
      case Err(e) => Err(e)
      case Ok(s) => Ok(Add64(s, m.headRoom.value.value))
  }

  /** The code tests the head room here but then uses the heap, which must be set. */
  function AllRegionsSize(m: Regions, threadCount: int): (r: Result<int, SizesError>)
    requires m.headRoom.Some? ==> m.heap.Some?
    ensures r.Ok? <==> m.metaspace.Some? && m.headRoom.Some?
  {
    if m.headRoom.None? then Err(NoHeadRoom)
    else match NonHeapRegionsSize(m, threadCount)
      case Err(e) => Err(e)
      case Ok(s) => Ok(Add64(s, m.heap.value.value))
  }

  /** The same sums in unbounded arithmetic. */
  function Fixed(m: Regions, threadCount: int): int
    requires m.metaspace.Some?
  {
    m.directMemory.value + m.metaspace.value.value + m.codeCache.value + m.stack.value * threadCount
  }

  function NonHeap(m: Regions, threadCount: int): int
    requires m.metaspace.Some? && m.headRoom.Some?
  {
    Fixed(m, threadCount) + m.headRoom.value.value
  }

  function All(m: Regions, threadCount: int): int
    requires m.metaspace.Some? && m.headRoom.Some? && m.heap.Some?
  {
    NonHeap(m, threadCount) + m.heap.value.value
  }

  /** Each size is the exact sum, wrapped once. */
  lemma SizesWrap(m: Regions, threadCount: int)
    requires m.metaspace.Some?
    ensures FixedRegionsSize(m, threadCount) == Ok(Wrap64(Fixed(m, threadCount)))
    ensures m.headRoom.Some? ==> NonHeapRegionsSize(m, threadCount) == Ok(Wrap64(NonHeap(m, threadCount)))
    ensures m.headRoom.Some? && m.heap.Some? ==> AllRegionsSize(m, threadCount) == Ok(Wrap64(All(m, threadCount)))
  {
    hide Wrap64;
    var d, s, c, t := m.directMemory.value, m.metaspace.value.value, m.codeCache.value, m.stack.value * threadCount;
    WrapOnce(d + s, c);
    WrapOnce(d + s + c, Wrap64(t));
    WrapOnce(t, d + s + c);
    if m.headRoom.Some? {
      WrapOnce(Fixed(m, threadCount), m.headRoom.value.value);
      if m.heap.Some? { WrapOnce(NonHeap(m, threadCount), m.heap.value.value); }
    }
  }

  // ---- the mutable record ----

  /** The case of the switch that a token takes. */
  function Case(f: string): (r: Option<Flags.Kind>)
    ensures r.Some? ==> Flags.Matches(r.value, f)
    ensures r.None? ==> forall k :: !Flags.Matches(k, f)
  {
    if Flags.Matches(Flags.DirectMemory, f) then Some(Flags.DirectMemory)
    else if Flags.Matches(Flags.Heap, f) then Some(Flags.Heap)
    else if Flags.Matches(Flags.Metaspace, f) then Some(Flags.Metaspace)
    else if Flags.Matches(Flags.CodeCache, f) then Some(Flags.CodeCache)
    else if Flags.Matches(Flags.Stack, f) then Some(Flags.Stack)
    else
      assert forall k: Flags.Kind :: k.DirectMemory? || k.Heap? || k.Metaspace? || k.CodeCache? || k.Stack?;
      None
  }

  /** One round of the loop, on values. */
  lemma Round(tokens: seq<string>, f: string)
    requires AllParse(tokens)
    ensures match Case(f)
      case None => AllParse(tokens + [f]) && FromFlags(tokens + [f]) == FromFlags(tokens)
      case Some(k) =>
        match Flags.Parse(k, f)
        case Err(_) => !Parses(f)
        case Ok(v) =>
          && AllParse(tokens + [f])
          && FromFlags(tokens + [f]) == FromFlags(tokens).Put(k, Region(v, UserConfigured))
  {
    match Case(f)
    case None => OneMoreOther(tokens, f);
    case Some(k) =>
      ParsesIff(k, f);
      if Flags.Parse(k, f).Ok? { OneMoreFlag(k, tokens, f, Flags.Parse(k, f).value); }
  }

  class MemoryRegions {
    var directMemory: Region
    var headRoom: Option<Region>
    var heap: Option<Region>
    var metaspace: Option<Region>
    var codeCache: Region
    var stack: Region

    function View(): Regions
      reads this
    {
      Regions(directMemory, headRoom, heap, metaspace, codeCache, stack)
    }

    constructor ()
      ensures View() == DEFAULTS
    {
      directMemory, codeCache, stack := DEFAULT_DIRECT_MEMORY, DEFAULT_CODE_CACHE, DEFAULT_STACK;
      headRoom, heap, metaspace := None, None, None;
    }

    method Set(k: Flags.Kind, r: Region)
      modifies this
      ensures View() == old(View()).Put(k, r)
    {
      match k
      case DirectMemory => directMemory := r;
      case Heap => heap := Some(r);
      case Metaspace => metaspace := Some(r);
      case CodeCache => codeCache := r;
      case Stack => stack := r;
    }

    method FixedSize(threadCount: int) returns (r: Result<int, SizesError>)
      ensures r == FixedRegionsSize(View(), threadCount)
    {
      if metaspace.None? { return Err(NoMetaspace); }
      var sum := Add64(directMemory.value, metaspace.value.value);
      sum := Add64(sum, codeCache.value);
      return Ok(Add64(sum, Mul64(stack.value, threadCount)));
    }

    method NonHeapSize(threadCount: int) returns (r: Result<int, SizesError>)
      ensures r == NonHeapRegionsSize(View(), threadCount)
    {
      if headRoom.None? { return Err(NoHeadRoom); }
      r := FixedSize(threadCount);
      if r.Ok? { r := Ok(Add64(r.value, headRoom.value.value)); }
    }

    method AllSize(threadCount: int) returns (r: Result<int, SizesError>)
      requires headRoom.Some? ==> heap.Some?
      ensures r == AllRegionsSize(View(), threadCount)
    {
      if headRoom.None? { return Err(NoHeadRoom); }
      r := NonHeapSize(threadCount);
      if r.Ok? { r := Ok(Add64(r.value, heap.value.value)); }
    }
  }

  /** Reads the tokens in order; each matching token overwrites its region. Succeeds exactly
      when every matching token parses, and then the last token of each region decides. */
  method NewMemoryRegionsFromFlags(tokens: seq<string>) returns (ok: bool, m: MemoryRegions)
    ensures fresh(m)
    ensures ok <==> AllParse(tokens)
    ensures ok ==> m.View() == FromFlags(tokens)
  {
    m := new MemoryRegions();
    for i := 0 to |tokens|
      invariant fresh(m)
      invariant AllParse(tokens[..i])
      invariant m.View() == FromFlags(tokens[..i])
    {
      var f := tokens[i];
      NextPrefix(tokens, i);
      Round(tokens[..i], f);
      var matched := Case(f);
      if matched.Some? {
        var r := Flags.Parse(matched.value, f);
        if r.Err? {
          assert !Parses(tokens[i]);
          return false, m;
        }
        m.Set(matched.value, Region(r.value, UserConfigured));
      }
    }
    assert tokens[..|tokens|] == tokens;
    return true, m;
  }
}
