/** Reading .sdkmanrc (sdkman.go): lines of the form type=version-vendor with comments. Case
    mapping is a parameter: any function from character to character. */
module Sdkman {
  import opened Wrappers
  import opened Sequences
  import opened Text

  datatype SDKInfo = SDKInfo(kind: string, version: string, vendor: string)

  function ToLower(lower: char -> char, s: string): (r: string)
    ensures |r| == |s| && forall i :: 0 <= i < |s| ==> r[i] == lower(s[i])
  {
    if s == "" then "" else [lower(s[0])] + ToLower(lower, s[1..])
  }

  // ---- one line ----

  datatype Line = Skipped | Entry(sdk: SDKInfo) | Malformed

  /** The part of a line in front of a comment. */
  function Statement(line: string): string { SplitN2(line, '#')[0] }

  function VersionAndVendor(value: string): (string, string) {
    if Blank(value) then ("", "")
    else
      var parts := SplitN2(value, '-');
      (parts[0], if |parts| == 2 then parts[1] else "")
  }

  function ReadLine(lower: char -> char, line: string): Line {
    if Blank(line) || Blank(Statement(line)) then Skipped
    else
      var kv := SplitN2(Statement(line), '=');
      if |kv| != 2 then Malformed
      else
        var (version, vendor) := VersionAndVendor(kv[1]);
        Entry(SDKInfo(ToLower(lower, TrimSpace(kv[0])), TrimSpace(version), ToLower(lower, TrimSpace(vendor))))
  }

  /** The entries of the lines in order, or the first malformed line. */
  function ReadLines(lower: char -> char, lines: seq<string>): Result<seq<SDKInfo>, string> {
    if lines == [] then Ok([])
    else match ReadLines(lower, lines[..|lines| - 1])
      case Err(e) => Err(e)
      case Ok(sdks) =>
        match ReadLine(lower, lines[|lines| - 1])
        case Skipped => Ok(sdks)
        case Entry(sdk) => Ok(sdks + [sdk])
        case Malformed => Err(lines[|lines| - 1])
  }

  lemma {:induction false} FirstErrorWins(lower: char -> char, lines: seq<string>, i: nat)
    requires i <= |lines| && ReadLines(lower, lines[..i]).Err?
    ensures ReadLines(lower, lines) == ReadLines(lower, lines[..i])
  {
    if i == |lines| {
      assert lines[..i] == lines;
    } else {
      assert lines[..|lines| - 1][..i] == lines[..i];
      FirstErrorWins(lower, lines[..|lines| - 1], i);
    }
  }

  lemma NoLines(lower: char -> char)
    ensures ReadLines(lower, []) == Ok([])
  {
  }

  lemma NextLine(lower: char -> char, lines: seq<string>, i: nat, sdks: seq<SDKInfo>)
    requires i < |lines| && ReadLines(lower, lines[..i]) == Ok(sdks)
    ensures ReadLines(lower, lines[..i + 1]) == match ReadLine(lower, lines[i])
      case Skipped => Ok(sdks)
      case Entry(sdk) => Ok(sdks + [sdk])
      case Malformed => Err(lines[i])
  {
    hide ReadLine;
    NextPrefix(lines, i);
  }

  /** ReadSDKMANRC on the contents of the file. The splits into more than two parts that the
      code guards against cannot happen. */
  method ReadSdkmanRc(lower: char -> char, contents: string) returns (r: Result<seq<SDKInfo>, string>)
    ensures r == ReadLines(lower, Split(contents, '\n'))
  {
    hide SplitN2, TrimSpace, ToLower, ReadLines, Split;
    assert ReadLines(lower, []) == Ok([]) by { NoLines(lower); }
    var sdks: seq<SDKInfo> := [];
    var lines := Split(contents, '\n');
    for i := 0 to |lines|
      invariant ReadLines(lower, lines[..i]) == Ok(sdks)
    {
      var line := lines[i];
      NextLine(lower, lines, i, sdks);
      if TrimSpace(line) == "" {
        continue;
      }
      var parts := SplitN2(line, '#');
      if TrimSpace(parts[0]) != "" {
        var kv := SplitN2(parts[0], '=');
        if |kv| != 2 {
          FirstErrorWins(lower, lines, i + 1);
          return Err(line);
        }
        var versionAndVendor := ["", ""];
        if TrimSpace(kv[1]) != "" {
          versionAndVendor := SplitN2(kv[1], '-');
          if |versionAndVendor| == 1 {
            versionAndVendor := versionAndVendor + [""];
          }
        }
        var sdk := SDKInfo(ToLower(lower, TrimSpace(kv[0])), TrimSpace(versionAndVendor[0]),
                           ToLower(lower, TrimSpace(versionAndVendor[1])));
        assert ReadLine(lower, line) == Entry(sdk);
        sdks := sdks + [sdk];
      }
    }
    assert lines[..|lines|] == lines;
    return Ok(sdks);
  }

  // ---- errors ----

  /** Text that is neither blank nor an assignment stands in front of any comment. */
  ghost predicate Unreadable(line: string) {
    && (exists i :: 0 <= i < IndexOf(line, '#') && !IsSpace(line[i]))
    && (forall i :: 0 <= i < IndexOf(line, '#') ==> line[i] != '=')
  }

  lemma MalformedIff(lower: char -> char, line: string)
    ensures ReadLine(lower, line).Malformed? <==> Unreadable(line)
  {
    var s := Statement(line);
    assert s == line[..IndexOf(line, '#')];
    assert '=' in s <==> exists i :: 0 <= i < |s| && line[i] == '=';
    assert Blank(line) ==> Blank(s);
  }

  ghost predicate FirstUnreadable(lines: seq<string>, i: nat) {
    i < |lines| && Unreadable(lines[i]) && forall j :: 0 <= j < i ==> !Unreadable(lines[j])
  }

  /** Reading a file fails exactly when some line is unreadable, and then names the first one. */
  lemma {:induction false} FailsIff(lower: char -> char, lines: seq<string>)
    ensures ReadLines(lower, lines).Err? <==> exists i :: 0 <= i < |lines| && Unreadable(lines[i])
    ensures ReadLines(lower, lines).Err? ==>
      exists i: nat :: FirstUnreadable(lines, i) && ReadLines(lower, lines).error == lines[i]
  {
    hide ReadLine, Unreadable;
    if lines != [] {
      var front, last := lines[..|lines| - 1], lines[|lines| - 1];
      FailsIff(lower, front);
      MalformedIff(lower, last);
      if ReadLines(lower, front).Err? {
        var i: nat :| FirstUnreadable(front, i) && ReadLines(lower, front).error == front[i];
        assert Unreadable(lines[i]) && FirstUnreadable(lines, i);
      } else {
        assert forall j :: 0 <= j < |front| ==> front[j] == lines[j];
        assert Unreadable(last) ==> FirstUnreadable(lines, |front|);
      }
    }
  }

  // ---- printing ----

  predicate Without(s: string, c: char) { c !in s }

  /** An entry that can be written down: trimmed fields, none holding a character that ends it. */
  predicate Printable(sdk: SDKInfo) {
    && Trimmed(sdk.kind) && Without(sdk.kind, '\n') && Without(sdk.kind, '#') && Without(sdk.kind, '=')
    && Trimmed(sdk.version) && Without(sdk.version, '\n') && Without(sdk.version, '#') && Without(sdk.version, '-')
    && Trimmed(sdk.vendor) && Without(sdk.vendor, '\n') && Without(sdk.vendor, '#')
  }

  /** White space that does not end the line. */
  predicate Padding(s: string) { Blank(s) && Without(s, '\n') }

  /** A line of a file: white space, white space and a comment, or an entry with padding around
      its fields, possibly a dash even without a vendor, and possibly a comment. */
  datatype Item =
    | Space(pad: string)
    | Remark(pad: string, comment: string)
    | Sdk(sdk: SDKInfo, p0: string, p1: string, p2: string, p3: string, dash: Option<(string, string)>,
          note: Option<string>)

  predicate Writable(item: Item) {
    match item
    case Space(pad) => Padding(pad)
    case Remark(pad, comment) => Padding(pad) && Without(comment, '\n')
    case Sdk(sdk, p0, p1, p2, p3, dash, comment) =>
      && Printable(sdk)
      && Padding(p0) && Padding(p1) && Padding(p2) && Padding(p3)
      && (if dash.Some? then Padding(dash.value.0) && Padding(dash.value.1) else sdk.vendor == "")
      && (comment.Some? ==> Without(comment.value, '\n'))
  }

  function Key(item: Item): string
    requires item.Sdk?
  {
    item.p0 + item.sdk.kind + item.p1
  }

  function Version(item: Item): string
    requires item.Sdk?
  {
    item.p2 + item.sdk.version + item.p3
  }

  function Value(item: Item): string
    requires item.Sdk?
  {
    if item.dash.None? then Version(item)
    else Version(item) + "-" + (item.dash.value.0 + item.sdk.vendor + item.dash.value.1)
  }

  function Print(item: Item): string {
    match item
    case Space(pad) => pad
    case Remark(pad, comment) => pad + "#" + comment
    case Sdk(_, _, _, _, _, _, comment) =>
      Key(item) + "=" + Value(item) + if comment.Some? then "#" + comment.value else ""
  }

  function Prints(items: seq<Item>): (r: seq<string>)
    ensures |r| == |items|
  {
    if items == [] then [] else Prints(items[..|items| - 1]) + [Print(items[|items| - 1])]
  }

  /** How an entry reads back: without regard to the case of kind and vendor. */
  function Lowered(lower: char -> char, sdk: SDKInfo): (r: SDKInfo)
    ensures r.version == sdk.version && |r.kind| == |sdk.kind| && |r.vendor| == |sdk.vendor|
    ensures forall i :: 0 <= i < |sdk.kind| ==> r.kind[i] == lower(sdk.kind[i])
    ensures forall i :: 0 <= i < |sdk.vendor| ==> r.vendor[i] == lower(sdk.vendor[i])
  {
    SDKInfo(ToLower(lower, sdk.kind), sdk.version, ToLower(lower, sdk.vendor))
  }

  function Sdks(lower: char -> char, items: seq<Item>): seq<SDKInfo> {
    if items == [] then []
    else
      var last := items[|items| - 1];
      Sdks(lower, items[..|items| - 1]) + if last.Sdk? then [Lowered(lower, last.sdk)] else []
  }

  function JoinLines(lines: seq<string>): string
    requires lines != []
  {
    if |lines| == 1 then lines[0] else lines[0] + "\n" + JoinLines(lines[1..])
  }

  lemma BlankHasNo(s: string, c: char)
    requires Blank(s) && !IsSpace(c)
    ensures c !in s
  {
  }

  lemma KeyHasNo(item: Item)
    requires item.Sdk? && Writable(item)
    ensures '=' !in Key(item) && '#' !in Key(item) && '\n' !in Key(item)
    ensures '-' !in Version(item) && '#' !in Version(item) && '\n' !in Version(item)
    ensures '#' !in Value(item) && '\n' !in Value(item)
  {
    BlankHasNo(item.p0, '=');
    BlankHasNo(item.p1, '=');
    BlankHasNo(item.p0, '#');
    BlankHasNo(item.p1, '#');
    BlankHasNo(item.p2, '-');
    BlankHasNo(item.p3, '-');
    BlankHasNo(item.p2, '#');
    BlankHasNo(item.p3, '#');
    if item.dash.Some? {
      BlankHasNo(item.dash.value.0, '#');
      BlankHasNo(item.dash.value.1, '#');
    }
  }

  lemma NotBlankAt(s: string, i: nat)
    requires i < |s| && !IsSpace(s[i])
    ensures !Blank(s)
  {
  }

  lemma ReadsDash(version: string, vendor: string)
    requires '-' !in version
    ensures VersionAndVendor(version + "-" + vendor) == (version, vendor)
  {
    hide Blank, SplitN2;
    SplitAtFirst(version, '-', vendor);
    NotBlankAt(version + "-" + vendor, |version|);
  }

  lemma ReadsNoDash(version: string)
    requires '-' !in version
    ensures VersionAndVendor(version) == (if Blank(version) then "" else version, "")
  {
    hide Blank, SplitN2;
    SplitWithout(version, '-');
  }

  lemma ReadsValue(item: Item)
    requires item.Sdk? && Writable(item)
    ensures TrimSpace(VersionAndVendor(Value(item)).0) == item.sdk.version
    ensures TrimSpace(VersionAndVendor(Value(item)).1) == item.sdk.vendor
  {
    KeyHasNo(item);
    hide VersionAndVendor, TrimSpace, Blank, Trimmed;
    TrimPadded(item.p2, item.sdk.version, item.p3);
    if item.dash.Some? {
      TrimPadded(item.dash.value.0, item.sdk.vendor, item.dash.value.1);
      ReadsDash(Version(item), item.dash.value.0 + item.sdk.vendor + item.dash.value.1);
    } else {
      ReadsNoDash(Version(item));
      NothingIsBlank();
    }
  }

  lemma NothingIsBlank()
    ensures Blank("") && TrimSpace("") == ""
  {
  }

  /** The part of a printed entry in front of a comment is key=value. */
  lemma StatementOfEntry(item: Item)
    requires item.Sdk? && Writable(item)
    ensures Statement(Print(item)) == Key(item) + "=" + Value(item)
  {
    KeyHasNo(item);
    hide Key, Value;
    var s := Key(item) + "=" + Value(item);
    if item.note.Some? {
      assert Print(item) == s + "#" + item.note.value by {
        Associates(s, "#", item.note.value);
      }
      SplitAtFirst(s, '#', item.note.value);
    } else {
      Associates(s, [], []);
      SplitWithout(s, '#');
    }
  }

  lemma EntryReadsBack(lower: char -> char, item: Item)
    requires item.Sdk? && Writable(item)
    ensures ReadLine(lower, Print(item)) == Entry(Lowered(lower, item.sdk))
  {
    StatementOfEntry(item);
    KeyHasNo(item);
    TrimPadded(item.p0, item.sdk.kind, item.p1);
    ReadsValue(item);
    hide Value, Version, TrimSpace, ToLower, VersionAndVendor;
    var s := Key(item) + "=" + Value(item);
    assert s[|Key(item)|] == '=';
    assert Print(item)[|Key(item)|] == '=';
    NotBlankAt(s, |Key(item)|);
    NotBlankAt(Print(item), |Key(item)|);
    hide Blank, Key;
    SplitAtFirst(Key(item), '=', Value(item));
  }

  /** A printed line reads back as its entry, or is skipped. */
  lemma PrintedReadsBack(lower: char -> char, item: Item)
    requires Writable(item)
    ensures ReadLine(lower, Print(item)) == if item.Sdk? then Entry(Lowered(lower, item.sdk)) else Skipped
  {
    match item
    case Space(pad) =>
    case Remark(pad, comment) =>
      BlankHasNo(pad, '#');
      SplitAtFirst(pad, '#', comment);
    case Sdk(_, _, _, _, _, _, _) => EntryReadsBack(lower, item);
  }

  lemma {:induction false} LinesReadBack(lower: char -> char, items: seq<Item>)
    requires forall i :: 0 <= i < |items| ==> Writable(items[i])
    ensures ReadLines(lower, Prints(items)) == Ok(Sdks(lower, items))
  {
    hide ReadLine, Print, Writable;
    if items != [] {
      var front := items[..|items| - 1];
      LinesReadBack(lower, front);
      PrintedReadsBack(lower, items[|items| - 1]);
      assert Prints(items)[..|items| - 1] == Prints(front);
      Associates(Sdks(lower, front), [], []);
    }
  }

  lemma {:induction false} SplitJoined(lines: seq<string>)
    requires lines != [] && forall i :: 0 <= i < |lines| ==> '\n' !in lines[i]
    ensures Split(JoinLines(lines), '\n') == lines
  {
    if |lines| == 1 {
      SplitWithout(lines[0], '\n');
    } else {
      SplitAtFirst(lines[0], '\n', JoinLines(lines[1..]));
      SplitJoined(lines[1..]);
      assert lines == [lines[0]] + lines[1..];
    }
  }

  lemma PrintHasNoNewline(item: Item)
    requires Writable(item)
    ensures '\n' !in Print(item)
  {
    if item.Sdk? { KeyHasNo(item); }
  }

  lemma {:induction false} PrintsAt(items: seq<Item>, i: nat)
    requires i < |items|
    ensures Prints(items)[i] == Print(items[i])
  {
    if i < |items| - 1 { PrintsAt(items[..|items| - 1], i); }
  }

  /** The round trip: any entries in any case, printed with any padding, comments and blank lines,
      are read back as the same list in the same order, with kind and vendor in lower case. */
  lemma FileReadsBack(lower: char -> char, items: seq<Item>)
    requires items != [] && forall i :: 0 <= i < |items| ==> Writable(items[i])
    ensures ReadLines(lower, Split(JoinLines(Prints(items)), '\n')) == Ok(Sdks(lower, items))
  {
    hide Print, Writable;
    forall i | 0 <= i < |items| ensures '\n' !in Prints(items)[i] {
      PrintsAt(items, i);
      PrintHasNoNewline(items[i]);
    }
    SplitJoined(Prints(items));
    LinesReadBack(lower, items);
  }
}
