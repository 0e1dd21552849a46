/** The arguments for jlink (jlink.go): the user's own list is filtered in place, through the
    very array that is being read, and then completed by appending. */
module JLink {
  import opened Sequences
  import Text

  function LowerChar(c: char): char {
    if 'A' <= c <= 'Z' then c + ('a' - 'A') else c
  }

  function Lower(s: string): (r: string)
    ensures |r| == |s| && forall i :: 0 <= i < |s| ==> r[i] == LowerChar(s[i])
  {
    if s == "" then "" else [LowerChar(s[0])] + Lower(s[1..])
  }

  lemma LowerOfLower(s: string)
    requires forall i :: 0 <= i < |s| ==> !('A' <= s[i] <= 'Z')
    ensures Lower(s) == s
  {
  }

  const OUTPUT := "--output"
  const ADD_MODULES := "--add-modules"

  predicate IsOutput(a: string) { OUTPUT <= Lower(a) }

  predicate IsAddModules(a: string) { ADD_MODULES <= Lower(a) }

  /** The list without its output options: each argument with that prefix goes, together with
      the argument behind it. */
  function Kept(args: seq<string>): seq<string> {
    if args == [] then []
    else if IsOutput(args[0]) then if |args| == 1 then [] else Kept(args[2..])
    else [args[0]] + Kept(args[1..])
  }

  /** Position by position: an option is one of these texts in any mix of cases, and more. */
  predicate BeginsWith(a: string, lower: string, upper: string)
    requires |lower| == |upper|
  {
    |a| >= |lower| && forall i :: 0 <= i < |lower| ==> a[i] == lower[i] || a[i] == upper[i]
  }

  lemma OptionsInAnyCase(a: string)
    ensures IsOutput(a) <==> BeginsWith(a, "--output", "--OUTPUT")
    ensures IsAddModules(a) <==> BeginsWith(a, "--add-modules", "--ADD-MODULES")
  {
    LowerBegins(a, "--output", "--OUTPUT");
    LowerBegins(a, "--add-modules", "--ADD-MODULES");
  }

  lemma LowerBegins(a: string, lower: string, upper: string)
    requires |lower| == |upper|
    requires forall i :: 0 <= i < |lower| ==>
      if 'a' <= lower[i] <= 'z' then 'A' <= upper[i] <= 'Z' && lower[i] as int - upper[i] as int == 32
      else upper[i] == lower[i] && !('A' <= lower[i] <= 'Z')
    ensures lower <= Lower(a) <==> BeginsWith(a, lower, upper)
  {
    if |a| >= |lower| {
      assert lower <= Lower(a) <==> forall i :: 0 <= i < |lower| ==> Lower(a)[i] == lower[i];
      forall i | 0 <= i < |lower| ensures LowerChar(a[i]) == lower[i] <==> a[i] == lower[i] || a[i] == upper[i] {
        LowerCharIs(a[i], lower[i], upper[i]);
      }
    }
  }

  lemma LowerCharIs(c: char, lower: char, upper: char)
    requires if 'a' <= lower <= 'z' then 'A' <= upper <= 'Z' && lower as int - upper as int == 32
             else upper == lower && !('A' <= lower <= 'Z')
    ensures LowerChar(c) == lower <==> c == lower || c == upper
  {
  }

  /** What is kept: everything in front of the first output option, and then what is kept of the
      rest behind that option and its value. */
  lemma {:induction false} KeptInParts(before: seq<string>, option: string, value: string, rest: seq<string>)
    requires forall i :: 0 <= i < |before| ==> !IsOutput(before[i])
    requires IsOutput(option)
    ensures Kept(before) == before
    ensures Kept(before + [option]) == before
    ensures Kept(before + [option, value] + rest) == before + Kept(rest)
  {
    hide IsOutput;
    if before == [] {
      assert before + [option] == [option] && before + [option, value] + rest == [option, value] + rest;
      assert ([option, value] + rest)[2..] == rest;
      Associates(Kept(rest), [], []);
    } else {
      var head, tail := before[0], before[1..];
      assert before == [head] + tail;
      assert before + [option] == [head] + (tail + [option]);
      assert before + [option, value] + rest == [head] + (tail + [option, value] + rest);
      KeptInParts(tail, option, value, rest);
      Associates([head], tail, Kept(rest));
    }
  }

  // ---- the filter as the loop runs it ----

  /** Whether the loop is about to skip an argument after having seen these. */
  function SkipNext(seen: seq<string>): bool {
    seen != [] && !SkipNext(seen[..|seen| - 1]) && IsOutput(seen[|seen| - 1])
  }

  /** What the loop has kept of these. */
  function KeptSoFar(seen: seq<string>): (r: seq<string>)
    ensures |r| <= |seen|
  {
    if seen == [] then []
    else
      var before, last := seen[..|seen| - 1], seen[|seen| - 1];
      if SkipNext(before) || IsOutput(last) then KeptSoFar(before) else KeptSoFar(before) + [last]
  }

  /** The skipping machine computes the filter. */
  lemma {:induction false} MachineFilters(seen: seq<string>, rest: seq<string>)
    ensures KeptSoFar(seen + rest)
         == KeptSoFar(seen) + if SkipNext(seen) then (if rest == [] then [] else Kept(rest[1..])) else Kept(rest)
    decreases |rest|
  {
    if rest == [] {
      assert seen + rest == seen;
    } else {
      var seen', rest' := seen + [rest[0]], rest[1..];
      assert seen + rest == seen' + rest';
      assert seen'[..|seen' | - 1] == seen;
      MachineFilters(seen', rest');
      if SkipNext(seen) {
        assert !SkipNext(seen');
      } else if IsOutput(rest[0]) {
        assert SkipNext(seen');
        if rest' != [] { assert rest'[1..] == rest[2..]; }
      } else {
        Associates(KeptSoFar(seen), [rest[0]], Kept(rest'));
      }
    }
  }

  lemma KeptSoFarIsKept(args: seq<string>)
    ensures KeptSoFar(args) == Kept(args)
  {
    MachineFilters([], args);
    assert [] + args == args;
  }

  /** No output option survives. */
  lemma {:induction false} KeptHasNoOutput(args: seq<string>, i: nat)
    requires i < |Kept(args)|
    ensures !IsOutput(Kept(args)[i])
    decreases |args|
  {
    if IsOutput(args[0]) {
      KeptHasNoOutput(args[2..], i);
    } else if i > 0 {
      KeptHasNoOutput(args[1..], i - 1);
    }
  }

  // ---- the default modules ----

  function BeforeAt(s: string): string {
    if s == "" || s[0] == '@' then "" else [s[0]] + BeforeAt(s[1..])
  }

  function JavaModules(lines: seq<string>): seq<string> {
    if lines == [] then []
    else
      var last := lines[|lines| - 1];
      JavaModules(lines[..|lines| - 1]) + if "java." <= last then [BeforeAt(last)] else []
  }

  function JoinComma(mods: seq<string>): string {
    if mods == [] then ""
    else if |mods| == 1 then mods[0]
    else mods[0] + "," + JoinComma(mods[1..])
  }

  /** The value given for --add-modules when the user named none, from the listed modules. */
  function ModuleList(lines: seq<string>): string { JoinComma(JavaModules(lines)) }

  lemma {:induction false} JavaModulesAreNamed(lines: seq<string>, i: nat)
    requires i < |JavaModules(lines)|
    ensures "java." <= JavaModules(lines)[i]
  {
    var front, last := lines[..|lines| - 1], lines[|lines| - 1];
    if i < |JavaModules(front)| {
      JavaModulesAreNamed(front, i);
    } else {
      assert last == [last[0], last[1], last[2], last[3], last[4]] + last[5..];
      assert BeforeAt(last) == "j" + BeforeAt(last[1..]);
      assert BeforeAt(last[1..]) == "a" + BeforeAt(last[2..]) by { assert last[1..][1..] == last[2..]; }
      assert BeforeAt(last[2..]) == "v" + BeforeAt(last[3..]) by { assert last[2..][1..] == last[3..]; }
      assert BeforeAt(last[3..]) == "a" + BeforeAt(last[4..]) by { assert last[3..][1..] == last[4..]; }
      assert BeforeAt(last[4..]) == "." + BeforeAt(last[5..]) by { assert last[4..][1..] == last[5..]; }
    }
  }

  lemma {:induction false} NameBeforeAt(name: string, version: string)
    requires '@' !in name
    ensures BeforeAt(name) == name && BeforeAt(name + "@" + version) == name
  {
    if name == "" {
      assert name + "@" + version == "@" + version;
    } else {
      NameBeforeAt(name[1..], version);
      assert (name + "@" + version)[1..] == name[1..] + "@" + version;
      assert name == [name[0]] + name[1..];
    }
  }

  /** Which lines are modules: those that begin with java., up to their at sign, in order. */
  lemma NextModule(lines: seq<string>, name: string, version: string, other: string)
    requires '@' !in name && !("java." <= other)
    ensures JavaModules([]) == []
    ensures JavaModules(lines + ["java." + name]) == JavaModules(lines) + ["java." + name]
    ensures JavaModules(lines + ["java." + name + "@" + version]) == JavaModules(lines) + ["java." + name]
    ensures JavaModules(lines + [other]) == JavaModules(lines)
  {
    hide BeforeAt;
    var java := "java." + name;
    assert '@' !in "java.";
    NameBeforeAt(java, version);
    NextLine(lines, java);
    NextLine(lines, java + "@" + version);
    NextLine(lines, other);
    Associates(JavaModules(lines), [], []);
    assert "java." <= java && "java." <= java + "@" + version;
  }

  lemma NextLine(lines: seq<string>, line: string)
    ensures JavaModules(lines + [line]) == JavaModules(lines) + if "java." <= line then [BeforeAt(line)] else []
  {
    assert (lines + [line])[..|lines|] == lines;
  }

  /** The module list is the modules between commas: splitting it gives them back. */
  lemma {:induction false} JoinedSplits(mods: seq<string>)
    requires mods != [] && forall i :: 0 <= i < |mods| ==> ',' !in mods[i]
    ensures Text.Split(JoinComma(mods), ',') == mods
  {
    if |mods| == 1 {
      Text.SplitWithout(mods[0], ',');
    } else {
      Text.SplitAtFirst(mods[0], ',', JoinComma(mods[1..]));
      JoinedSplits(mods[1..]);
      assert mods == [mods[0]] + mods[1..];
    }
  }

  /** The default module list is never mistaken for an option. */
  lemma ModuleListIsNoOption(lines: seq<string>)
    ensures !IsOutput(ModuleList(lines))
  {
    var mods := JavaModules(lines);
    var list := ModuleList(lines);
    if list != "" {
      JavaModulesAreNamed(lines, 0);
      assert list[0] == mods[0][0] == 'j';
      assert Lower(list)[0] == 'j' && OUTPUT[0] == '-';
    }
  }

  // ---- the assembled arguments ----

  predicate NamesModules(args: seq<string>) {
    exists i :: 0 <= i < |args| && IsAddModules(args[i])
  }

  lemma NamesModulesSnoc(args: seq<string>, a: string)
    ensures NamesModules(args + [a]) <==> NamesModules(args) || IsAddModules(a)
  {
    if NamesModules(args) {
      var i :| 0 <= i < |args| && IsAddModules(args[i]);
      assert (args + [a])[i] == args[i];
    }
    assert (args + [a])[|args|] == a;
  }

  lemma NoModulesInNone()
    ensures !NamesModules([])
  {
  }

  function Assembled(args: seq<string>, userConfigured: bool, modules: string, path: string): seq<string> {
    var base := if userConfigured then Kept(args) else args;
    base + (if userConfigured && NamesModules(base) then [] else [ADD_MODULES, modules]) + [OUTPUT, path]
  }

  /** The arguments in full. A list that is not the user's is kept as it is; a user's list loses its
      output options and gets the default modules only if it names none. */
  lemma AssembledInFull(args: seq<string>, lines: seq<string>, path: string)
    ensures Assembled(args, false, ModuleList(lines), path)
         == args + ["--add-modules", ModuleList(lines), "--output", path]
    ensures (exists i :: 0 <= i < |Kept(args)| && IsAddModules(Kept(args)[i])) ==>
      Assembled(args, true, ModuleList(lines), path) == Kept(args) + ["--output", path]
    ensures (forall i :: 0 <= i < |Kept(args)| ==> !IsAddModules(Kept(args)[i])) ==>
      Assembled(args, true, ModuleList(lines), path)
      == Kept(args) + ["--add-modules", ModuleList(lines), "--output", path]
  {
    hide Kept, IsAddModules, ModuleList;
    var two, four := [OUTPUT, path], [ADD_MODULES, ModuleList(lines)] + [OUTPUT, path];
    assert four == ["--add-modules", ModuleList(lines), "--output", path];
    Associates(args, [ADD_MODULES, ModuleList(lines)], two);
    Associates(Kept(args), [ADD_MODULES, ModuleList(lines)], two);
    Associates(Kept(args), [], two);
  }

  /** In a user-configured list exactly one argument is an output option, the layer path comes
      right behind it, and modules are named at least once. */
  lemma OneOutputAndSomeModules(args: seq<string>, lines: seq<string>, path: string)
    requires !IsOutput(path)
    ensures var r := Assembled(args, true, ModuleList(lines), path);
      && |r| >= 2 && r[|r| - 2] == OUTPUT && r[|r| - 1] == path
      && (forall i :: 0 <= i < |r| ==> (IsOutput(r[i]) <==> i == |r| - 2))
      && (exists i :: 0 <= i < |r| && IsAddModules(r[i]))
  {
    hide IsOutput, IsAddModules, ModuleList, Kept;
    var modules, kept := ModuleList(lines), Kept(args);
    var r := Assembled(args, true, modules, path);
    ModuleListIsNoOption(lines);
    OptionsAreThemselves();
    var middle := if NamesModules(kept) then [] else [ADD_MODULES, modules];
    assert r == kept + middle + [OUTPUT, path];
    forall i | 0 <= i < |r| ensures IsOutput(r[i]) <==> i == |r| - 2 {
      if i < |kept| { KeptHasNoOutput(args, i); assert r[i] == kept[i]; }
    }
    if NamesModules(kept) {
      var i :| 0 <= i < |kept| && IsAddModules(kept[i]);
      assert r[i] == kept[i];
    } else {
      assert r[|kept|] == ADD_MODULES;
    }
  }

  lemma OptionsAreThemselves()
    ensures IsOutput(OUTPUT) && !IsOutput(ADD_MODULES) && IsAddModules(ADD_MODULES)
  {
    hide Lower;
    LowerOfLower(OUTPUT);
    LowerOfLower(ADD_MODULES);
    assert OUTPUT[2] == 'o' && ADD_MODULES[2] == 'a';
  }

  // ---- in place ----

  /** The argument slice over its backing array, which the caller's slice shares. */
  class JLink {
    var buf: array<string>
    var len: nat
    const userConfigured: bool

    ghost predicate Valid()
      reads this
    {
      len <= buf.Length
    }

    function Args(): seq<string>
      requires Valid()
      reads this, buf
    {
      buf[..len]
    }

    constructor (args: array<string>, userConfigured: bool)
      ensures Valid() && buf == args && len == args.Length && this.userConfigured == userConfigured
    {
      buf, len := args, args.Length;
      this.userConfigured := userConfigured;
    }

    /** Filters the arguments through their own array. What is read is never overwritten
        before it is read, and the array beyond the result keeps its contents. */
    method ValidArgs() returns (modsFound: bool)
      requires Valid()
      modifies this, buf
      ensures Valid() && buf == old(buf)
      ensures Args() == Kept(old(Args()))
      ensures forall i :: len <= i < buf.Length ==> buf[i] == old(buf[i])
      ensures modsFound <==> NamesModules(Args())
    {
      hide IsOutput, IsAddModules, NamesModules, Kept;
      ghost var args := Args();
      assert !NamesModules([]) by { NoModulesInNone(); }
      var w := 0;
      var skipNext := false;
      modsFound := false;
      for r := 0 to len
        invariant len == old(len) && buf == old(buf) && w <= r
        invariant buf[..w] == KeptSoFar(args[..r])
        invariant skipNext == SkipNext(args[..r])
        invariant modsFound <==> NamesModules(buf[..w])
        invariant forall i :: w <= i < buf.Length ==> buf[i] == old(buf[i])
      {
        var original := buf[r];
        assert original == args[r];
        NextPrefix(args, r);
        if skipNext {
          skipNext := false;
        } else if IsOutput(original) {
          skipNext := true;
        } else {
          if IsAddModules(original) { modsFound := true; }
          NamesModulesSnoc(buf[..w], original);
          ghost var kept := buf[..w];
          buf[w] := original;
          w := w + 1;
          assert buf[..w] == kept + [original];
        }
      }
      assert args[..len] == args;
      KeptSoFarIsKept(args);
      len := w;
    }

    /** append of two values: in place while there is capacity, otherwise into a larger copy. */
    method Append(a: string, b: string)
      requires Valid()
      modifies this, buf
      ensures Valid() && (buf == old(buf) || fresh(buf))
      ensures Args() == old(Args()) + [a, b]
    {
      if len + 2 > buf.Length {
        var larger := new string[2 * len + 2];
        forall i | 0 <= i < len { larger[i] := buf[i]; }
        assert larger[..len] == buf[..len];
        buf := larger;
      }
      buf[len], buf[len + 1] := a, b;
      len := len + 2;
    }

    /** The argument part of Contribute. */
    method Assemble(lines: seq<string>, path: string)
      requires Valid()
      modifies this, buf
      ensures Valid()
      ensures Args() == Assembled(old(Args()), userConfigured, ModuleList(lines), path)
    {
      hide Kept, NamesModules, ModuleList;
      var valid := true;
      if userConfigured {
        valid := ValidArgs();
      }
      ghost var base := Args();
      if !userConfigured || !valid {
        Append(ADD_MODULES, ModuleList(lines));
      } else {
        Associates(base, [], []);
      }
      Append(OUTPUT, path);
    }
  }
}
