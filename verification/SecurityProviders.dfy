/** Merging the security providers of the JVM with the user's
    (helper/security_providers_configurer.go). A provider token may carry an index; it is then
    put into that slot, moving the tail up if the slot is taken, and otherwise appended. Empty
    slots are squeezed out at the end and the rest is numbered from 1. */
module SecurityProviders {
  import opened Wrappers
  import opened Machine
  import opened Sequences
  import opened Text

  datatype Token = Token(index: Option<nat>, name: string)

  /** The provider pattern never matches an empty name. */
  predicate Named(tokens: seq<Token>) {
    forall i :: 0 <= i < |tokens| ==> tokens[i].name != ""
  }

  /** Index 0 makes the code use slot -1, which panics; from 2^63 on an index is no number. */
  datatype Refusal = NotANumber(index: nat) | SlotMinusOne

  function Refused(t: Token): Option<Refusal> {
    match t.index
    case None => None
    case Some(k) => if k >= TWO_63 then Some(NotANumber(k)) else if k == 0 then Some(SlotMinusOne) else None
  }

  predicate InRange(t: Token) { Refused(t).None? }

  predicate AllInRange(tokens: seq<Token>) {
    forall i :: 0 <= i < |tokens| ==> InRange(tokens[i])
  }

  // ---- slots as values ----

  function Pad(ps: seq<string>, n: nat): (r: seq<string>)
    ensures |r| == if |ps| < n then n else |ps|
    decreases n - |ps|
  {
    if |ps| < n then Pad(ps + [""], n) else ps
  }

  function PutInSlot(ps: seq<string>, i: nat, name: string): seq<string>
    requires i < |ps|
  {
    if ps[i] != "" then ps[..i] + [name] + ps[i..] else ps[i := name]
  }

  function Insert(ps: seq<string>, t: Token): seq<string>
    requires InRange(t)
  {
    match t.index
    case None => ps + [t.name]
    case Some(k) => PutInSlot(Pad(ps, k), k - 1, t.name)
  }

  function Merge(tokens: seq<Token>): seq<string>
    requires AllInRange(tokens)
  {
    if tokens == [] then [] else Insert(Merge(tokens[..|tokens| - 1]), tokens[|tokens| - 1])
  }

  /** The non-empty slots, in order. */
  function Compact(ps: seq<string>): seq<string> {
    if ps == [] then []
    else Compact(ps[..|ps| - 1]) + if ps[|ps| - 1] != "" then [ps[|ps| - 1]] else []
  }

  function Names(tokens: seq<Token>): (r: seq<string>)
    ensures |r| == |tokens| && forall i :: 0 <= i < |r| ==> r[i] == tokens[i].name
  {
    if tokens == [] then [] else Names(tokens[..|tokens| - 1]) + [tokens[|tokens| - 1].name]
  }

  function Line(number: nat, provider: string): string {
    "security.provider." + Decimal(number) + "=" + provider
  }

  // ---- the slice, in place ----

  /** A growing slice over a backing array. */
  class Providers {
    var buf: array<string>
    var len: nat

    ghost predicate Valid()
      reads this
    {
      len <= buf.Length
    }

    function Contents(): seq<string>
      requires Valid()
      reads this, buf
    {
      buf[..len]
    }

    constructor ()
      ensures Valid() && fresh(buf) && Contents() == []
    {
      buf := new string[0];
      len := 0;
    }

    /** append: in place while there is capacity, otherwise into a larger copy. */
    method Append(p: string)
      requires Valid()
      modifies this, buf
      ensures Valid() && (buf == old(buf) || fresh(buf))
      ensures Contents() == old(Contents()) + [p]
    {
      if len == buf.Length {
        var larger := new string[2 * len + 1];
        forall i | 0 <= i < len { larger[i] := buf[i]; }
        assert larger[..len] == buf[..len];
        buf := larger;
      }
      buf[len] := p;
      len := len + 1;
    }

    /** copy(s[i+1:], s[i:]): moves everything from i on up by one and drops the last. */
    method CopyUp(i: nat)
      requires Valid() && i < len
      modifies buf
      ensures Contents() == old(Contents())[..i + 1] + old(Contents())[i..len - 1]
    {
      forall k | i < k < len { buf[k] := buf[k - 1]; }
    }

    /** copy(s[j:], s[j+1:]) and a cut by one: removes slot j. */
    method Remove(j: nat)
      requires Valid() && j < len
      modifies this, buf
      ensures Valid() && buf == old(buf)
      ensures Contents() == old(Contents())[..j] + old(Contents())[j + 1..]
    {
      forall k | j <= k < len - 1 { buf[k] := buf[k + 1]; }
      len := len - 1;
    }

    method PadTo(n: nat)
      requires Valid()
      modifies this, buf
      ensures Valid() && (buf == old(buf) || fresh(buf))
      ensures Contents() == Pad(old(Contents()), n)
    {
      ghost var padded := Pad(Contents(), n);
      while len < n
        invariant Valid() && (buf == old(buf) || fresh(buf))
        invariant Pad(Contents(), n) == padded
        decreases n - len
      {
        Append("");
      }
    }

    /** Writes a name into slot i, moving the tail up first if the slot is taken. */
    method PutAt(i: nat, name: string)
      requires Valid() && i < len
      modifies this, buf
      ensures Valid() && (buf == old(buf) || fresh(buf))
      ensures Contents() == PutInSlot(old(Contents()), i, name)
    {
      ghost var ps := Contents();
      if buf[i] != "" {
        Append("");
        CopyUp(i);
        ShiftThenWrite(ps, i, name);
      }
      buf[i] := name;
    }

    /** One token: pad up to its slot, make room if the slot is taken, and write the name. */
    method Put(t: Token)
      requires Valid() && InRange(t)
      modifies this, buf
      ensures Valid() && (buf == old(buf) || fresh(buf))
      ensures Contents() == Insert(old(Contents()), t)
    {
      if t.index.None? {
        Append(t.name);
      } else {
        PadTo(t.index.value);
        PutAt(t.index.value - 1, t.name);
      }
    }

    /** Removes the empty slots one by one. */
    method Squeeze()
      requires Valid()
      modifies this, buf
      ensures Valid() && buf == old(buf)
      ensures Contents() == Compact(old(Contents()))
    {
      var j := 0;
      while j < len
        invariant Valid() && buf == old(buf) && j <= len
        invariant Compact(Contents()) == Compact(old(Contents()))
        invariant forall k :: 0 <= k < j ==> Contents()[k] != ""
        decreases len - j
      {
        if buf[j] != "" {
          j := j + 1;
        } else {
          ghost var ps := Contents();
          CompactSkips(ps, j);
          Remove(j);
        }
      }
      NothingToCompact(Contents());
    }
  }

  lemma ShiftThenWrite(ps: seq<string>, i: nat, name: string)
    requires i < |ps|
    ensures var longer := ps + [""];
      (longer[..i + 1] + longer[i..|longer| - 1])[i := name] == ps[..i] + [name] + ps[i..]
  {
  }

  method Render(providers: Providers) returns (lines: seq<string>)
    requires providers.Valid()
    ensures AreNumbered(lines, providers.Contents())
  {
    lines := [];
    for i := 0 to providers.len
      invariant |lines| == i
      invariant forall k :: 0 <= k < i ==> lines[k] == Line(k + 1, providers.Contents()[k])
    {
      lines := lines + [Line(i + 1, providers.buf[i])];
    }
  }

  /** The providers as property lines, numbered from 1 without a gap. */
  predicate AreNumbered(lines: seq<string>, providers: seq<string>) {
    |lines| == |providers|
    && forall i :: 0 <= i < |lines| ==> lines[i] == "security.provider." + Decimal(i + 1) + "=" + providers[i]
  }

  /** All tokens before i are in order, and token i is not, for this reason. */
  predicate IsFirstBad(tokens: seq<Token>, i: nat, reason: Refusal)
    requires i < |tokens|
  {
    && (forall j :: 0 <= j < i ==> tokens[j].index.None? || 1 <= tokens[j].index.value < 0x8000_0000_0000_0000)
    && tokens[i].index.Some?
    && match reason
       case SlotMinusOne => tokens[i].index.value == 0
       case NotANumber(k) => tokens[i].index.value == k >= 0x8000_0000_0000_0000
  }

  lemma WhatIsRefused(t: Token)
    ensures Refused(t).None? <==> t.index.None? || 1 <= t.index.value < 0x8000_0000_0000_0000
    ensures Refused(t) == Some(SlotMinusOne) ==> t.index == Some(0)
    ensures Refused(t).Some? && Refused(t).value.NotANumber? ==>
      t.index == Some(Refused(t).value.index) && t.index.value >= 0x8000_0000_0000_0000
  {
  }

  /** The whole step from tokens to property lines. It writes nothing exactly when some index is 0
      or at least 2^63, and the first such token says why. */
  method Configure(tokens: seq<Token>) returns (r: Result<seq<string>, Refusal>)
    ensures r.Ok? <==>
      forall i :: 0 <= i < |tokens| ==> tokens[i].index.None? || 1 <= tokens[i].index.value < 0x8000_0000_0000_0000
    ensures r.Err? ==> exists i :: 0 <= i < |tokens| && IsFirstBad(tokens, i, r.error)
    ensures r.Ok? ==> AreNumbered(r.value, Compact(Merge(tokens)))
  {
    hide Insert, Compact, Refused, AreNumbered;
    var providers := new Providers();
    for n := 0 to |tokens|
      invariant providers.Valid() && fresh(providers) && fresh(providers.buf)
      invariant AllInRange(tokens[..n])
      invariant forall j :: 0 <= j < n ==> tokens[j].index.None? || 1 <= tokens[j].index.value < 0x8000_0000_0000_0000
      invariant providers.Contents() == Merge(tokens[..n])
    {
      var refused := Refused(tokens[n]);
      WhatIsRefused(tokens[n]);
      if refused.Some? {
        assert IsFirstBad(tokens, n, refused.value);
        return Err(refused.value);
      }
      NextPrefix(tokens, n);
      providers.Put(tokens[n]);
    }
    assert tokens[..|tokens|] == tokens;
    providers.Squeeze();
    var lines := Render(providers);
    return Ok(lines);
  }

  // ---- compaction ----

  lemma {:induction false} CompactConcat(a: seq<string>, b: seq<string>)
    ensures Compact(a + b) == Compact(a) + Compact(b)
  {
    if b == [] {
      Associates(a, [], []);
      Associates(Compact(a), [], []);
    } else {
      var front, last := b[..|b| - 1], b[|b| - 1];
      assert (a + b)[..|a + b| - 1] == a + front;
      CompactConcat(a, front);
      Associates(Compact(a), Compact(front), if last != "" then [last] else []);
    }
  }

  lemma CompactOne(p: string)
    ensures Compact([p]) == if p != "" then [p] else []
  {
    assert [p][..0] == [];
  }

  lemma CompactSkips(ps: seq<string>, j: nat)
    requires j < |ps| && ps[j] == ""
    ensures Compact(ps[..j] + ps[j + 1..]) == Compact(ps)
  {
    assert ps == ps[..j] + ([""] + ps[j + 1..]);
    CompactConcat(ps[..j], [""] + ps[j + 1..]);
    CompactConcat([""], ps[j + 1..]);
    CompactOne("");
    CompactConcat(ps[..j], ps[j + 1..]);
    Associates(Compact(ps[j + 1..]), [], []);
  }

  lemma {:induction false} NothingToCompact(ps: seq<string>)
    requires forall k :: 0 <= k < |ps| ==> ps[k] != ""
    ensures Compact(ps) == ps
  {
    if ps != [] {
      NothingToCompact(ps[..|ps| - 1]);
      FrontAndLast(ps, "");
    }
  }

  lemma {:induction false} PadIsEmpty(ps: seq<string>, n: nat)
    ensures ps <= Pad(ps, n)
    ensures forall i :: |ps| <= i < |Pad(ps, n)| ==> Pad(ps, n)[i] == ""
    ensures Compact(Pad(ps, n)) == Compact(ps)
    decreases n - |ps|
  {
    if |ps| < n {
      PadIsEmpty(ps + [""], n);
      CompactConcat(ps, [""]);
      CompactOne("");
      Associates(Compact(ps), [], []);
    }
  }

  /** How many providers come before the slot a token goes to. */
  function Rank(ps: seq<string>, t: Token): nat
    requires InRange(t)
  {
    match t.index
    case None => |Compact(ps)|
    case Some(k) => |Compact(Pad(ps, k)[..k - 1])|
  }

  /** s with x put in behind its first r elements. */
  function Inserted(s: seq<string>, r: nat, x: string): seq<string>
    requires r <= |s|
  {
    s[..r] + [x] + s[r..]
  }

  lemma CompactOfSlot(ps: seq<string>, i: nat, name: string)
    requires i < |ps| && name != ""
    ensures var before, r := Compact(ps), |Compact(ps[..i])|;
      r <= |before| && Compact(PutInSlot(ps, i, name)) == Inserted(before, r, name)
  {
    hide Compact;
    var low, high := ps[..i], ps[i..];
    var rest := if ps[i] != "" then high else ps[i + 1..];
    assert ps == low + high;
    CompactConcat(low, high);
    CompactOne(name);
    assert Compact(rest) == Compact(high) by {
      if ps[i] == "" {
        assert high == [""] + rest;
        CompactConcat([""], rest);
        CompactOne("");
        Associates(Compact(rest), [], []);
      }
    }
    assert PutInSlot(ps, i, name) == low + [name] + rest;
    CompactConcat(low + [name], rest);
    CompactConcat(low, [name]);
    SplitAt(Compact(low), Compact(high));
  }

  lemma InsertAtEnd(s: seq<string>, x: string)
    ensures Inserted(s, |s|, x) == s + [x]
  {
  }

  lemma SplitAt(a: seq<string>, b: seq<string>)
    ensures (a + b)[..|a|] == a && (a + b)[|a|..] == b
  {
  }

  /** Whatever slot a token goes to, occupied or not: once compacted, its provider has been
      inserted behind the providers of lower slots, and all others keep their order. */
  lemma InsertKeepsOthersInOrder(ps: seq<string>, t: Token)
    requires t.index.None? || 1 <= t.index.value < 0x8000_0000_0000_0000
    requires t.name != ""
    ensures var before, r := Compact(ps), Rank(ps, t);
      r <= |before| && Compact(Insert(ps, t)) == Inserted(before, r, t.name)
  {
    hide Compact, Pad, PutInSlot, Inserted;
    if t.index.None? {
      CompactConcat(ps, [t.name]);
      CompactOne(t.name);
      InsertAtEnd(Compact(ps), t.name);
    } else {
      PadIsEmpty(ps, t.index.value);
      CompactOfSlot(Pad(ps, t.index.value), t.index.value - 1, t.name);
    }
  }

  /** A provider without an index comes last. */
  lemma UnnumberedComesLast(ps: seq<string>, name: string)
    requires name != ""
    ensures Insert(ps, Token(None, name)) == ps + [name]
    ensures Compact(Insert(ps, Token(None, name))) == Compact(ps) + [name]
  {
    CompactConcat(ps, [name]);
    CompactOne(name);
  }

  /** Where the slots are after a token with an index: it has its own, lower ones are as they were
      or empty, and higher ones have moved up by one exactly if its slot was taken. */
  lemma SlotsAfterInsert(ps: seq<string>, k: nat, name: string)
    requires 1 <= k < 0x8000_0000_0000_0000
    ensures var slots, taken := Insert(ps, Token(Some(k), name)), k <= |ps| && ps[k - 1] != "";
      && |slots| == (if taken then |ps| + 1 else if k < |ps| then |ps| else k)
      && slots[k - 1] == name
      && (forall i :: 0 <= i < k - 1 ==> slots[i] == if i < |ps| then ps[i] else "")
      && (forall i :: k - 1 <= i < |ps| && taken ==> slots[i + 1] == ps[i])
      && (forall i :: k <= i < |ps| && !taken ==> slots[i] == ps[i])
  {
    PadIsEmpty(ps, k);
    hide Pad;
  }

  /** Conservation: no provider is lost or doubled, however tokens collide. */
  lemma {:induction false} ProvidersAreConserved(tokens: seq<Token>)
    requires Named(tokens)
    requires forall i :: 0 <= i < |tokens| ==>
      tokens[i].index.None? || 1 <= tokens[i].index.value < 0x8000_0000_0000_0000
    ensures multiset(Compact(Merge(tokens))) == multiset(Names(tokens))
  {
    if tokens != [] {
      var front, t := tokens[..|tokens| - 1], tokens[|tokens| - 1];
      ProvidersAreConserved(front);
      InsertKeepsOthersInOrder(Merge(front), t);
      InsertedOnce(Compact(Merge(front)), Rank(Merge(front), t), t.name);
    }
  }

  lemma InsertedOnce(s: seq<string>, r: nat, x: string)
    requires r <= |s|
    ensures multiset(Inserted(s, r, x)) == multiset(s) + multiset{x}
  {
    assert s == s[..r] + s[r..];
  }

  // ---- distinct indices ----

  /** Every token has an index and no two share one. */
  predicate Distinct(tokens: seq<Token>) {
    && (forall i :: 0 <= i < |tokens| ==> tokens[i].index.Some?)
    && forall i, j :: 0 <= i < j < |tokens| ==> tokens[i].index != tokens[j].index
  }

  /** Slot i holds what the token numbered i + 1 put there, and is empty if there is none; the
      highest index is the last slot. */
  ghost predicate Placed(tokens: seq<Token>, slots: seq<string>) {
    && (forall t :: t in tokens ==>
          t.index.Some? && 1 <= t.index.value <= |slots| && slots[t.index.value - 1] == t.name)
    && (forall i :: 0 <= i < |slots| && slots[i] != "" ==> Token(Some(i + 1), slots[i]) in tokens)
    && (slots != [] ==> slots[|slots| - 1] != "")
  }

  /** A token with a new index finds its slot empty. */
  lemma NewIndexFindsRoom(front: seq<Token>, slots: seq<string>, t: Token)
    requires Placed(front, slots) && InRange(t) && t.index.Some?
    requires forall u :: u in front ==> u.index != t.index
    ensures t.index.value - 1 < |Pad(slots, t.index.value)| && Pad(slots, t.index.value)[t.index.value - 1] == ""
  {
    var k := t.index.value;
    PadIsEmpty(slots, k);
    assert k - 1 < |slots| ==> slots[k - 1] == "";
  }

  lemma PlaceOne(front: seq<Token>, slots: seq<string>, t: Token)
    requires Placed(front, slots) && InRange(t) && t.index.Some? && t.name != ""
    requires forall u :: u in front ==> u.index != t.index
    ensures Placed(front + [t], Insert(slots, t))
  {
    hide Pad;
    var k := t.index.value;
    var padded := Pad(slots, k);
    PadIsEmpty(slots, k);
    NewIndexFindsRoom(front, slots, t);
    var merged := padded[k - 1 := t.name];
    assert Insert(slots, t) == merged;
    forall u | u in front + [t]
      ensures u.index.Some? && 1 <= u.index.value <= |merged| && merged[u.index.value - 1] == u.name
    {
      if u != t { assert u in front; }
    }
    forall i | 0 <= i < |merged| && merged[i] != ""
      ensures Token(Some(i + 1), merged[i]) in front + [t]
    {
      if i != k - 1 { assert slots[i] != "" && Token(Some(i + 1), slots[i]) in front; }
    }
  }

  /** Tokens with distinct indices each land in their own slot. */
  lemma {:induction false} DistinctArePlaced(tokens: seq<Token>)
    requires Named(tokens) && Distinct(tokens)
    requires forall i :: 0 <= i < |tokens| ==> 1 <= tokens[i].index.value < 0x8000_0000_0000_0000
    ensures Placed(tokens, Merge(tokens))
  {
    if tokens != [] {
      hide Placed, Insert;
      var front, t := tokens[..|tokens| - 1], tokens[|tokens| - 1];
      DistinctArePlaced(front);
      PlaceOne(front, Merge(front), t);
      FrontAndLast(tokens, t);
    }
  }

  lemma SameTokensSamePlace(ts: seq<Token>, us: seq<Token>, a: seq<string>, b: seq<string>)
    requires Placed(ts, a) && Placed(us, b) && Named(ts) && Named(us)
    requires forall t :: t in ts <==> t in us
    ensures a == b
  {
    if a != [] { assert Token(Some(|a|), a[|a| - 1]) in us; }
    if b != [] { assert Token(Some(|b|), b[|b| - 1]) in ts; }
    forall i | 0 <= i < |a| ensures a[i] == b[i] {
      if a[i] != "" { assert Token(Some(i + 1), a[i]) in us; }
      if b[i] != "" { assert Token(Some(i + 1), b[i]) in ts; }
    }
  }

  lemma PermutedTokens(ts: seq<Token>, us: seq<Token>)
    requires multiset(ts) == multiset(us) && AllInRange(ts) && Named(ts) && Distinct(ts)
    ensures AllInRange(us) && Named(us) && Distinct(us)
    ensures forall t :: t in ts <==> t in us
  {
    forall t ensures t in ts <==> t in us {
      assert t in multiset(ts) <==> t in multiset(us);
    }
    forall i | 0 <= i < |us| ensures InRange(us[i]) && us[i].name != "" && us[i].index.Some? {
      assert us[i] in ts;
    }
    forall i, j | 0 <= i < j < |us| ensures us[i].index != us[j].index {
      if us[i].index == us[j].index {
        SameIndexSameToken(ts, us[i], us[j]);
        Twice(us, i, j);
        OnceOnly(ts, us[i]);
      }
    }
  }

  lemma SameIndexSameToken(ts: seq<Token>, t: Token, u: Token)
    requires Distinct(ts) && t in ts && u in ts && t.index == u.index
    ensures t == u
  {
  }

  lemma Twice(us: seq<Token>, i: nat, j: nat)
    requires i < j < |us| && us[i] == us[j]
    ensures multiset(us)[us[i]] >= 2
  {
    assert us == us[..j] + ([us[j]] + us[j + 1..]);
    assert us[i] in us[..j];
  }

  lemma {:induction false} OnceOnly(ts: seq<Token>, t: Token)
    requires Distinct(ts)
    ensures multiset(ts)[t] <= 1
  {
    if ts != [] {
      var front, last := ts[..|ts| - 1], ts[|ts| - 1];
      OnceOnly(front, t);
      FrontAndLast(ts, t);
      assert multiset(ts) == multiset(front) + multiset{last};
      if t == last { assert t !in front; }
    }
  }

  /** Order independence: tokens with distinct indices give the same slots in every order. */
  lemma OrderDoesNotMatter(ts: seq<Token>, us: seq<Token>)
    requires multiset(ts) == multiset(us) && Named(ts) && Distinct(ts)
    requires forall i :: 0 <= i < |ts| ==> 1 <= ts[i].index.value < 0x8000_0000_0000_0000
    ensures AllInRange(us) && Merge(us) == Merge(ts)
  {
    PermutedTokens(ts, us);
    DistinctArePlaced(ts);
    DistinctArePlaced(us);
    SameTokensSamePlace(ts, us, Merge(ts), Merge(us));
  }

  // ---- numeric order ----

  predicate Ascending(tokens: seq<Token>) {
    && (forall i :: 0 <= i < |tokens| ==> tokens[i].index.Some?)
    && forall i, j :: 0 <= i < j < |tokens| ==> tokens[i].index.value < tokens[j].index.value
  }

  /** A token numbered beyond all slots comes last. */
  lemma InsertBeyond(slots: seq<string>, t: Token)
    requires InRange(t) && t.name != "" && t.index.Some? && |slots| < t.index.value
    ensures Compact(Insert(slots, t)) == Compact(slots) + [t.name] && |Insert(slots, t)| == t.index.value
  {
    var k := t.index.value;
    PadIsEmpty(slots, k);
    InsertKeepsOthersInOrder(slots, t);
    hide Compact, Inserted, Insert, Pad;
    var low := Pad(slots, k)[..k - 1];
    assert Pad(slots, k) == low + [""];
    CompactConcat(low, [""]);
    CompactOne("");
    Associates(Compact(low), [], []);
    InsertAtEnd(Compact(slots), t.name);
    FilledSlots(slots, t);
  }

  lemma FilledSlots(slots: seq<string>, t: Token)
    requires InRange(t) && t.index.Some? && |slots| < t.index.value
    ensures |Insert(slots, t)| == t.index.value
  {
    PadIsEmpty(slots, t.index.value);
  }

  lemma {:induction false} AscendingMergesInOrder(us: seq<Token>)
    requires AllInRange(us) && Named(us) && Ascending(us)
    ensures Compact(Merge(us)) == Names(us)
    ensures Merge(us) == [] || (us != [] && |Merge(us)| == us[|us| - 1].index.value)
  {
    hide Insert, Compact;
    if us == [] {
      NothingToCompact([]);
    } else {
      AscendingMergesInOrder(us[..|us| - 1]);
      InsertBeyond(Merge(us[..|us| - 1]), us[|us| - 1]);
    }
  }

  /** Whatever order numbered providers arrive in (a textual sort puts 10 before 2), they come
      out in the numeric order of their indices. */
  lemma NumericOrder(ts: seq<Token>, us: seq<Token>)
    requires multiset(ts) == multiset(us) && Named(us) && Ascending(us)
    requires forall i :: 0 <= i < |us| ==> 1 <= us[i].index.value < 0x8000_0000_0000_0000
    ensures AllInRange(ts) && Compact(Merge(ts)) == Names(us)
  {
    assert Distinct(us);
    OrderDoesNotMatter(us, ts);
    AscendingMergesInOrder(us);
  }
}
