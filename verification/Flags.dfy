/** The five JVM memory flags: matching, parsing and printing one token
    (calc/direct_memory.go, heap.go, metaspace.go, reserved_code_cache.go, stack.go). */
module Flags {
  import opened Wrappers
  import opened Machine
  import opened Text
  import opened Size

  datatype Kind = DirectMemory | Heap | Metaspace | CodeCache | Stack

  function Prefix(k: Kind): string {
    match k
    case DirectMemory => "-XX:MaxDirectMemorySize="
    case Heap => "-Xmx"
    case Metaspace => "-XX:MaxMetaspaceSize="
    case CodeCache => "-XX:ReservedCodeCacheSize="
    case Stack => "-Xss"
  }

  /** The anchored pattern of a flag: its prefix and then a size. */
  predicate IsFlag(k: Kind, s: string) {
    Prefix(k) <= s && IsSize(s[|Prefix(k)|..])
  }

  /** Matching looks at the trimmed token, parsing at the token as it is. */
  predicate Matches(k: Kind, token: string) {
    IsFlag(k, TrimSpace(token))
  }

  function Parse(k: Kind, token: string): Result<int, SizeError> {
    if IsFlag(k, token) then ParseSize(token[|Prefix(k)|..]) else Err(NoMatch)
  }

  function Show(k: Kind, v: int): string {
    Prefix(k) + Print(v)
  }

  /** No prefix extends another: two of them differ where both have a character. */
  lemma PrefixesDiffer(j: Kind, k: Kind) returns (i: nat)
    requires j != k
    ensures i < |Prefix(j)| && i < |Prefix(k)| && Prefix(j)[i] != Prefix(k)[i]
  {
    i := if j.Heap? || k.Heap? || j.Stack? || k.Stack? then 2
         else if j.CodeCache? || k.CodeCache? then 4
         else 7;
  }

  /** At most one of the five patterns matches a token. */
  lemma PatternsAreExclusive(j: Kind, k: Kind, token: string)
    requires Matches(j, token) && Matches(k, token)
    ensures j == k
  {
    if j != k {
      var i := PrefixesDiffer(j, k);
      assert false;
    }
  }

  /** No surrounding white space, and digits that fit a signed 64-bit integer. */
  predicate WellSet(k: Kind, token: string) {
    Trimmed(token) && IsFlag(k, token) && DecimalValue(Groups(token[|Prefix(k)|..]).0) < TWO_63
  }

  /** A matching token parses exactly when it is well set; not being a flag as it stands can
      only be due to white space. */
  lemma MatchingParsesIff(k: Kind, token: string)
    requires Matches(k, token)
    ensures Parse(k, token).Ok? <==> WellSet(k, token)
    ensures IsFlag(k, token) <==> Trimmed(token)
  {
    TrimTrimmed(token);
    if IsFlag(k, token) {
      var rest := token[|Prefix(k)|..];
      SizeIsTrimmed(rest);
      assert token[|token| - 1] == rest[|rest| - 1];
      assert token[0] == Prefix(k)[0] == '-';
    }
  }

  lemma PrefixBegins(k: Kind)
    ensures Prefix(k) != "" && Prefix(k)[0] == '-'
  {
  }

  /** A prefix before a size is a flag with that size. */
  lemma PrefixedSize(k: Kind, size: string)
    requires IsSize(size)
    ensures var t := Prefix(k) + size;
      IsFlag(k, t) && t[|Prefix(k)|..] == size && Trimmed(t)
  {
    hide IsSize, Prefix;
    var t := Prefix(k) + size;
    assert t[|Prefix(k)|..] == size;
    PrefixBegins(k);
    SizeIsTrimmed(size);
    assert t[0] == '-' && t[|t| - 1] == size[|size| - 1];
  }

  lemma ShownByName(k: Kind, v: int)
    ensures Show(k, v) == match k
      case DirectMemory => "-XX:MaxDirectMemorySize=" + Print(v)
      case Heap => "-Xmx" + Print(v)
      case Metaspace => "-XX:MaxMetaspaceSize=" + Print(v)
      case CodeCache => "-XX:ReservedCodeCacheSize=" + Print(v)
      case Stack => "-Xss" + Print(v)
  {
    hide Print;
  }

  /** A printed flag is its name and the printed size; it matches its own pattern and parses to the
      value in whole kibibytes. */
  lemma ShowThenParse(k: Kind, v: int)
    requires -KIBI < v < TWO_63
    ensures Matches(k, Show(k, v)) && Parse(k, Show(k, v)) == Ok(WholeKibis(v))
    ensures Show(k, v) == match k
      case DirectMemory => "-XX:MaxDirectMemorySize=" + Print(v)
      case Heap => "-Xmx" + Print(v)
      case Metaspace => "-XX:MaxMetaspaceSize=" + Print(v)
      case CodeCache => "-XX:ReservedCodeCacheSize=" + Print(v)
      case Stack => "-Xss" + Print(v)
  {
    ShownByName(k, v);
    hide Print, IsFlag, IsSize, ParseSize, Prefix;
    PrintThenParse(v);
    PrefixedSize(k, Print(v));
    TrimTrimmed(Show(k, v));
  }

  lemma ShownIsTrimmed(k: Kind, v: int)
    ensures TrimSpace(Show(k, v)) == Show(k, v)
  {
    hide Print, Prefix, TrimSpace;
    var t := Show(k, v);
    PrefixBegins(k);
    NegativeIsNoSize(v);
    assert t[0] == '-' && t[|t| - 1] == Print(v)[|Print(v)| - 1];
    TrimTrimmed(t);
  }

  /** No pattern but its own matches a printed flag, and not even that one when the size is
      negative by a kibibyte or more. */
  lemma ShownMatchesAtMost(j: Kind, k: Kind, v: int)
    requires Matches(j, Show(k, v))
    ensures j == k && -KIBI < v
  {
    hide Print, IsSize, TrimSpace, Prefix;
    ShownIsTrimmed(k, v);
    if j != k {
      var i := PrefixesDiffer(j, k);
      assert false;
    }
    NegativeIsNoSize(v);
    assert Show(k, v)[|Prefix(k)|..] == Print(v);
  }

  /** The bytes that a matching token denotes. */
  function Written(k: Kind, token: string): nat
    requires Matches(k, token)
  {
    Denoted(TrimSpace(token)[|Prefix(k)|..])
  }

  /** A token that denotes a 64-bit size is read as that size, if it parses. */
  lemma ParsesToWritten(k: Kind, token: string)
    requires Matches(k, token) && Written(k, token) < TWO_63
    ensures Parse(k, token).Ok? ==> Parse(k, token).value == Written(k, token)
  {
    MatchingParsesIff(k, token);
    TrimTrimmed(token);
    if IsFlag(k, token) { SizeIsTrimmed(token[|Prefix(k)|..]); }
  }
}
