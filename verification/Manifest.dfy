/** Normalising MANIFEST.MF (manifest.go): three rewriting passes turn CRLF and CR into LF and
    join continuation lines. The folding they undo is that of the JAR File Specification,
    "Name-Value pairs and Sections". */
module Manifest {
  import opened Sequences

  /** bytes.ReplaceAll: leftmost, non-overlapping occurrences. */
  function ReplaceAll(s: string, pattern: string, with: string): string
    requires pattern != ""
  {
    if s == "" then ""
    else if pattern <= s then with + ReplaceAll(s[|pattern|..], pattern, with)
    else [s[0]] + ReplaceAll(s[1..], pattern, with)
  }

  function DropCrLf(s: string): string { ReplaceAll(s, "\r\n", "\n") }
  function DropCr(s: string): string { ReplaceAll(s, "\r", "\n") }
  function Join(s: string): string { ReplaceAll(s, "\n ", "") }

  /** The three passes of loadManifest. */
  function Normalize(s: string): string { Join(DropCr(DropCrLf(s))) }

  predicate IsBreak(c: char) { c == '\r' || c == '\n' }

  /** The length of the line break that s begins with. */
  function BreakLength(s: string): nat
    requires s != "" && IsBreak(s[0])
    ensures 1 <= BreakLength(s) <= |s|
  {
    if "\r\n" <= s then 2 else 1
  }

  /** One left-to-right scan: a line break is dropped together with a space behind it, and
      otherwise becomes LF. */
  function Scan(s: string): string {
    if s == "" then ""
    else if !IsBreak(s[0]) then [s[0]] + Scan(s[1..])
    else
      var rest := s[BreakLength(s)..];
      if rest != "" && rest[0] == ' ' then Scan(rest[1..]) else "\n" + Scan(rest)
  }

  /** After the first two passes a break is one LF and everything else is as it was. */
  lemma BreaksBecomeLf(s: string)
    requires s != ""
    ensures DropCr(DropCrLf(s)) == if IsBreak(s[0]) then "\n" + DropCr(DropCrLf(s[BreakLength(s)..]))
                                   else [s[0]] + DropCr(DropCrLf(s[1..]))
  {
    var rest := if IsBreak(s[0]) then s[BreakLength(s)..] else s[1..];
    var head := if "\r\n" <= s then '\n' else s[0];
    assert DropCrLf(s) == [head] + DropCrLf(rest) by {
      if s[0] != '\r' { assert !("\r\n" <= s); }
    }
    assert ([head] + DropCrLf(rest))[1..] == DropCrLf(rest);
    assert DropCr([head] + DropCrLf(rest)) == [if head == '\r' then '\n' else head] + DropCr(DropCrLf(rest)) by {
      assert ([head] + DropCrLf(rest))[..1] == [head];
    }
  }

  lemma JoinChar(c: char, t: string)
    requires c != '\n'
    ensures Join([c] + t) == [c] + Join(t)
  {
    assert !("\n " <= [c] + t);
    assert ([c] + t)[1..] == t;
  }

  lemma JoinBreak(t: string)
    ensures Join("\n" + t) == if t != "" && t[0] == ' ' then Join(t[1..]) else "\n" + Join(t)
  {
    assert "\n " <= "\n" + t <==> t != "" && t[0] == ' ';
    assert ("\n" + t)[1..] == t;
    if t != "" { assert ("\n" + t)[2..] == t[1..]; }
  }

  /** The three passes are one scan. */
  lemma {:induction false} PassesAreOneScan(s: string)
    ensures Normalize(s) == Scan(s)
    decreases |s|
  {
    if s != "" {
      BreaksBecomeLf(s);
      if !IsBreak(s[0]) {
        JoinChar(s[0], DropCr(DropCrLf(s[1..])));
        PassesAreOneScan(s[1..]);
      } else {
        var rest := s[BreakLength(s)..];
        var lf := DropCr(DropCrLf(rest));
        JoinBreak(lf);
        PassesAreOneScan(rest);
        if rest != "" {
          BreaksBecomeLf(rest);
          if rest[0] == ' ' {
            assert lf[1..] == DropCr(DropCrLf(rest[1..]));
            PassesAreOneScan(rest[1..]);
          }
        }
      }
    }
  }

  // ---- folded headers ----

  datatype Eol = CrLf | Lf | Cr

  function Text(eol: Eol): string {
    match eol
    case CrLf => "\r\n"
    case Lf => "\n"
    case Cr => "\r"
  }

  /** A piece of a header and the line break behind it. */
  datatype Piece = Piece(text: string, eol: Eol)

  predicate Unbroken(s: string) {
    forall i :: 0 <= i < |s| ==> !IsBreak(s[i])
  }

  /** A header, cut into pieces anywhere, or a blank line. */
  predicate IsHeader(line: seq<Piece>) {
    && line != []
    && (forall i :: 0 <= i < |line| ==> Unbroken(line[i].text))
    && (line[0].text != "" ==> line[0].text[0] != ' ')
  }

  /** The pieces behind the first as they stand in the file, each on a line begun by a space. */
  function Continued(pieces: seq<Piece>): string {
    if pieces == [] then "" else " " + pieces[0].text + Text(pieces[0].eol) + Continued(pieces[1..])
  }

  function Folded(line: seq<Piece>): string
    requires line != []
  {
    line[0].text + Text(line[0].eol) + Continued(line[1..])
  }

  function Header(line: seq<Piece>): string {
    if line == [] then "" else line[0].text + Header(line[1..])
  }

  predicate AreHeaders(lines: seq<seq<Piece>>) {
    forall i :: 0 <= i < |lines| ==> IsHeader(lines[i])
  }

  function File(lines: seq<seq<Piece>>): string
    requires AreHeaders(lines)
  {
    if lines == [] then "" else Folded(lines[0]) + File(lines[1..])
  }

  function Joined(lines: seq<seq<Piece>>): string {
    if lines == [] then "" else Header(lines[0]) + "\n" + Joined(lines[1..])
  }

  /** The break that ends a line. */
  function Ending(line: seq<Piece>): Eol
    requires line != []
  {
    line[|line| - 1].eol
  }

  /** A line ended by CR, then nothing but LF, be it a blank line or a fold in front of a
      header: the two breaks read as one CRLF. */
  predicate Ambiguous(first: seq<Piece>, second: seq<Piece>) {
    first != [] && second != [] && Ending(first) == Cr && second[0] == Piece("", Lf)
  }

  /** The one line that two ambiguous ones are read as. */
  function Merge(first: seq<Piece>, second: seq<Piece>): seq<Piece>
    requires first != [] && second != []
  {
    first[..|first| - 1] + [first[|first| - 1].(eol := CrLf)] + second[1..]
  }

  /** What comes out, for any mix of line breaks: one line for each header and blank line, after
      ambiguous neighbours have become one. */
  function Unfolded(lines: seq<seq<Piece>>): string
    decreases |lines|
  {
    if lines == [] then ""
    else if |lines| > 1 && Ambiguous(lines[0], lines[1]) then Unfolded([Merge(lines[0], lines[1])] + lines[2..])
    else Header(lines[0]) + "\n" + Unfolded(lines[1..])
  }

  lemma {:induction false} ScanText(text: string, rest: string)
    requires Unbroken(text)
    ensures Scan(text + rest) == text + Scan(rest)
  {
    if text == "" {
      Associates(rest, [], []);
      Associates(Scan(rest), [], []);
    } else {
      assert (text + rest)[0] == text[0] && (text + rest)[1..] == text[1..] + rest;
      ScanText(text[1..], rest);
      Associates([text[0]], text[1..], Scan(rest));
      assert [text[0]] + text[1..] == text;
    }
  }

  /** A break before a space disappears with it. */
  lemma ScanFold(eol: Eol, rest: string)
    ensures Scan(Text(eol) + (" " + rest)) == Scan(rest)
  {
    var s := Text(eol) + (" " + rest);
    assert s[BreakLength(s)..] == " " + rest by {
      if eol.Cr? { assert s[1] == ' '; }
      if eol.CrLf? { assert s[0] == '\r' && s[1] == '\n'; }
    }
    assert (" " + rest)[1..] == rest;
  }

  /** A break before anything else is one LF, unless CR meets LF. */
  lemma ScanBreak(eol: Eol, rest: string)
    requires rest == "" || rest[0] != ' '
    requires eol == Cr ==> rest == "" || rest[0] != '\n'
    ensures Scan(Text(eol) + rest) == "\n" + Scan(rest)
  {
    var s := Text(eol) + rest;
    assert s[BreakLength(s)..] == rest by {
      if eol.Cr? && rest != "" { assert s[1] == rest[0]; }
      if eol.CrLf? { assert s[0] == '\r' && s[1] == '\n'; }
    }
  }

  lemma Regroup(a: string, text: string, b: string, c: string, rest: string)
    ensures a + (" " + text + b + c) + rest == a + (" " + (text + (b + c + rest)))
  {
  }

  lemma NoPieces()
    ensures Continued([]) == "" && Header([]) == ""
  {
  }

  lemma NextPiece(pieces: seq<Piece>)
    requires pieces != []
    ensures Continued(pieces) == " " + pieces[0].text + Text(pieces[0].eol) + Continued(pieces[1..])
    ensures Header(pieces) == pieces[0].text + Header(pieces[1..])
  {
  }

  lemma {:induction false} ScanContinued(eol: Eol, pieces: seq<Piece>, rest: string)
    requires forall i :: 0 <= i < |pieces| ==> Unbroken(pieces[i].text)
    ensures Scan(Text(eol) + Continued(pieces) + rest)
         == Header(pieces) + Scan(Text(if pieces == [] then eol else Ending(pieces)) + rest)
    decreases |pieces|
  {
    hide Scan, Text, Continued, Header;
    if pieces == [] {
      NoPieces();
      Associates(Text(eol), [], rest);
      Associates(Scan(Text(eol) + rest), [], []);
    } else {
      var p, tail := pieces[0], pieces[1..];
      var after := Text(p.eol) + Continued(tail) + rest;
      NextPiece(pieces);
      Regroup(Text(eol), p.text, Text(p.eol), Continued(tail), rest);
      ScanFold(eol, p.text + after);
      ScanText(p.text, after);
      ScanContinued(p.eol, tail, rest);
      Associates(p.text, Header(tail), Scan(Text(if tail == [] then p.eol else Ending(tail)) + rest));
    }
  }

  /** A folded header is put together again, whatever follows. */
  lemma ScanHeader(line: seq<Piece>, rest: string)
    requires IsHeader(line)
    ensures Scan(Folded(line) + rest) == Header(line) + Scan(Text(Ending(line)) + rest)
  {
    hide Scan, Text, Continued;
    var p, tail := line[0], line[1..];
    var after := Text(p.eol) + Continued(tail) + rest;
    assert Folded(line) + rest == p.text + after;
    ScanText(p.text, after);
    ScanContinued(p.eol, tail, rest);
    Associates(p.text, Header(tail), Scan(Text(Ending(line)) + rest));
  }

  /** What a file of headers begins with. */
  lemma FileBegins(lines: seq<seq<Piece>>)
    requires AreHeaders(lines)
    ensures var s := File(lines);
      && (s != "" ==> s[0] != ' ')
      && (s != "" && s[0] == '\n' <==> lines != [] && lines[0][0] == Piece("", Lf))
  {
    if lines != [] {
      var line, s := lines[0], File(lines);
      if line[0].text == "" {
        assert s[0] == Text(line[0].eol)[0];
      } else {
        assert s[0] == line[0].text[0];
      }
    }
  }

  lemma FoldedCons(p: Piece, rest: seq<Piece>)
    requires rest != []
    ensures Folded([p] + rest) == p.text + Text(p.eol) + (" " + Folded(rest))
    ensures Header([p] + rest) == p.text + Header(rest)
  {
    assert ([p] + rest)[1..] == rest;
  }

  /** Ambiguous neighbours are the same text as the one line they are read as, which has the
      characters of both. */
  lemma {:induction false} MergedLine(first: seq<Piece>, second: seq<Piece>)
    requires Ambiguous(first, second)
    ensures Folded(Merge(first, second)) == Folded(first) + Folded(second)
    ensures Header(Merge(first, second)) == Header(first) + Header(second)
    decreases |first|
  {
    hide Text, Continued, Folded, Header, Merge;
    var p, tail := first[0], first[1..];
    assert first == [p] + tail;
    if tail == [] {
      assert first == [p];
      MergedPiece(p, second);
    } else {
      MergedLine(tail, second);
      MergeCons(p, tail, second);
      FoldedCons(p, tail);
      FoldedCons(p, Merge(tail, second));
      RegroupFold(p.text, Text(p.eol), Folded(tail), Folded(second));
      Associates(p.text, Header(tail), Header(second));
    }
  }

  lemma MergeCons(p: Piece, tail: seq<Piece>, second: seq<Piece>)
    requires tail != [] && second != []
    ensures Merge([p] + tail, second) == [p] + Merge(tail, second) && Merge(tail, second) != []
  {
    var first := [p] + tail;
    assert first[..|first| - 1] == [p] + tail[..|tail| - 1] && first[|first| - 1] == tail[|tail| - 1];
  }

  lemma RegroupFold(text: string, eol: string, a: string, b: string)
    ensures text + eol + (" " + (a + b)) == text + eol + (" " + a) + b
  {
  }

  lemma MergedPiece(p: Piece, second: seq<Piece>)
    requires Ambiguous([p], second)
    ensures Folded(Merge([p], second)) == Folded([p]) + Folded(second)
    ensures Header(Merge([p], second)) == Header([p]) + Header(second)
  {
    hide Continued, Header, Folded;
    var whole, rest := p.(eol := CrLf), second[1..];
    assert Merge([p], second) == [whole] + rest && second == [second[0]] + rest;
    FirstPiece(p, []);
    FirstPiece(whole, rest);
    FirstPiece(second[0], rest);
    NoPieces();
    CrThenLf(p.text, Continued(rest));
    Associates(p.text, [], []);
    Associates(Header(rest), [], []);
    assert [p] + [] == [p];
  }

  lemma FirstPiece(p: Piece, rest: seq<Piece>)
    ensures Folded([p] + rest) == p.text + Text(p.eol) + Continued(rest)
    ensures Header([p] + rest) == p.text + Header(rest)
  {
    assert ([p] + rest)[1..] == rest;
  }

  lemma CrThenLf(text: string, rest: string)
    ensures text + "\r\n" + rest == (text + "\r" + "") + ("" + "\n" + rest)
  {
  }

  lemma MergedIsHeader(first: seq<Piece>, second: seq<Piece>)
    requires IsHeader(first) && IsHeader(second)
    ensures IsHeader(Merge(first, second))
  {
    var merged := Merge(first, second);
    assert forall i :: 0 <= i < |merged| ==>
      merged[i].text == if i < |first| then first[i].text else second[i - |first| + 1].text;
  }

  lemma NextLine(line: seq<Piece>, others: seq<seq<Piece>>)
    requires IsHeader(line) && AreHeaders(others)
    ensures AreHeaders([line] + others)
    ensures File([line] + others) == Folded(line) + File(others)
    ensures |Joined([line] + others)| == |Header(line)| + 1 + |Joined(others)|
  {
    assert ([line] + others)[0] == line && ([line] + others)[1..] == others;
  }

  lemma MergedFile(lines: seq<seq<Piece>>)
    requires AreHeaders(lines) && |lines| > 1 && Ambiguous(lines[0], lines[1])
    ensures var merged := [Merge(lines[0], lines[1])] + lines[2..];
      && AreHeaders(merged) && File(merged) == File(lines)
      && |Joined(merged)| == |Joined(lines)| - 1
  {
    hide Folded, Header, Merge, File, Joined;
    var first, second, others := lines[0], lines[1], lines[2..];
    MergedIsHeader(first, second);
    MergedLine(first, second);
    hide Ambiguous;
    NextLine(second, others);
    NextLine(first, [second] + others);
    assert lines == [first] + ([second] + others);
    NextLine(Merge(first, second), others);
    Associates(Folded(first), Folded(second), File(others));
  }

  /** What the scan makes of any headers and blank lines, cut anywhere, with any mix of breaks. */
  lemma {:induction false} ScanFile(lines: seq<seq<Piece>>)
    requires AreHeaders(lines)
    ensures Scan(File(lines)) == Unfolded(lines)
    decreases |lines|
  {
    if lines != [] {
      hide Scan, Folded, Continued, Header, Text, Merge;
      if |lines| > 1 && Ambiguous(lines[0], lines[1]) {
        MergedFile(lines);
        ScanFile([Merge(lines[0], lines[1])] + lines[2..]);
      } else {
        var line, rest := lines[0], File(lines[1..]);
        ScanHeader(line, rest);
        FileBegins(lines[1..]);
        ScanBreak(Ending(line), rest);
        ScanFile(lines[1..]);
        Associates(Header(line), "\n", Unfolded(lines[1..]));
      }
    }
  }

  // ---- a last line without a break ----

  /** A last line with the break behind it missing: pieces with breaks and then a text. */
  function Unterminated(open: seq<Piece>, tail: string): string {
    if open == [] then tail else Folded(open) + " " + tail
  }

  predicate IsUnterminated(open: seq<Piece>, tail: string) {
    IsHeader(open + [Piece(tail, Lf)])
  }

  /** The lines of a file with such a last line, if anything stands in it. */
  function WithLast(lines: seq<seq<Piece>>, open: seq<Piece>, tail: string): seq<seq<Piece>> {
    if open == [] && tail == "" then lines else lines + [open + [Piece(tail, Lf)]]
  }

  lemma OnePiece(p: Piece)
    ensures Folded([p]) == p.text + Text(p.eol) && Header([p]) == p.text
  {
  }

  lemma {:induction false} FoldedLast(open: seq<Piece>, tail: string)
    ensures Folded(open + [Piece(tail, Lf)]) == Unterminated(open, tail) + "\n"
    ensures Header(open + [Piece(tail, Lf)]) == Header(open) + tail
  {
    hide Continued, Header, Folded;
    var last := Piece(tail, Lf);
    OnePiece(last);
    if open == [] {
      assert open + [last] == [last];
      NoPieces();
      Associates(tail, [], []);
    } else {
      var p, rest := open[0], open[1..];
      assert open == [p] + rest && open + [last] == [p] + (rest + [last]);
      FoldedCons(p, rest + [last]);
      if rest == [] {
        OnePiece(p);
        assert open == [p] && rest + [last] == [last];
        RegroupLast(p.text, Text(p.eol), tail);
      } else {
        FoldedLast(rest, tail);
        FoldedCons(p, rest);
        RegroupLonger(p.text, Text(p.eol), Folded(rest), tail);
        Associates(p.text, Header(rest), tail);
      }
    }
  }

  lemma RegroupLast(text: string, eol: string, tail: string)
    ensures text + eol + (" " + (tail + "\n")) == text + eol + " " + tail + "\n"
  {
  }

  lemma RegroupLonger(text: string, eol: string, a: string, tail: string)
    ensures text + eol + (" " + (a + " " + tail + "\n")) == text + eol + (" " + a) + " " + tail + "\n"
  {
  }

  lemma {:induction false} FileAndLast(lines: seq<seq<Piece>>, last: seq<Piece>)
    requires AreHeaders(lines) && IsHeader(last)
    ensures File(lines + [last]) == File(lines) + Folded(last)
    ensures Joined(lines + [last]) == Joined(lines) + (Header(last) + "\n")
  {
    hide Folded, Header;
    if lines == [] {
      assert lines + [last] == [last] && [last][1..] == [];
      Associates(Folded(last), [], []);
      Associates(Header(last) + "\n", [], []);
    } else {
      var line, others := lines[0], lines[1..];
      assert (lines + [last])[0] == line && (lines + [last])[1..] == others + [last];
      FileAndLast(others, last);
      Associates(Folded(line), File(others), Folded(last));
      Associates(Header(line) + "\n", Joined(others), Header(last) + "\n");
    }
  }

  lemma BreakBeforeNothing()
    ensures BreakLength("\n") == 1
  {
  }

  lemma BreakBeforeLast(s: string)
    requires s != "" && IsBreak(s[0]) && !IsBreak(s[|s| - 1])
    ensures BreakLength(s + "\n") == BreakLength(s) < |s|
    ensures (s + "\n")[BreakLength(s)..] == s[BreakLength(s)..] + "\n"
  {
    assert (s + "\n")[1] == s[1];
  }

  /** A line break at the very end only adds itself, unless it meets another. */
  lemma {:induction false} ScanLastBreak(s: string)
    requires s == "" || !IsBreak(s[|s| - 1])
    ensures Scan(s + "\n") == Scan(s) + "\n"
    decreases |s|
  {
    hide BreakLength;
    if s == "" {
      BreakBeforeNothing();
      assert s + "\n" == "\n" && "\n"[1..] == "";
    } else if !IsBreak(s[0]) {
      assert (s + "\n")[1..] == s[1..] + "\n";
      ScanLastBreak(s[1..]);
    } else {
      var rest := s[BreakLength(s)..];
      BreakBeforeLast(s);
      ScanLastBreak(rest);
      if rest[0] == ' ' {
        assert (rest + "\n")[1..] == rest[1..] + "\n";
        ScanLastBreak(rest[1..]);
      }
    }
  }

  lemma UnterminatedEnds(before: string, open: seq<Piece>, tail: string)
    requires IsUnterminated(open, tail) && (open != [] || tail != "")
    ensures var s := before + Unterminated(open, tail); s != "" && !IsBreak(s[|s| - 1])
  {
    hide Folded;
    assert (open + [Piece(tail, Lf)])[|open|].text == tail;
  }

  /** Normalising undoes folding, exactly: for any headers and blank lines, cut anywhere, with
      any mix of line breaks, and with or without a last line that has no break behind it. */
  lemma NormalizedFile(lines: seq<seq<Piece>>, open: seq<Piece>, tail: string)
    requires AreHeaders(lines) && IsUnterminated(open, tail)
    ensures var all := WithLast(lines, open, tail);
      Scan(File(lines) + Unterminated(open, tail)) + (if all == lines then "" else "\n") == Unfolded(all)
  {
    hide Scan, Folded, File, IsHeader, Unfolded;
    var s, last := File(lines) + Unterminated(open, tail), open + [Piece(tail, Lf)];
    if open == [] && tail == "" {
      Associates(File(lines), [], []);
      Associates(Scan(File(lines)), [], []);
      ScanFile(lines);
    } else {
      FileAndLast(lines, last);
      FoldedLast(open, tail);
      Associates(File(lines), Unterminated(open, tail), "\n");
      UnterminatedEnds(File(lines), open, tail);
      ScanLastBreak(s);
      ScanFile(lines + [last]);
    }
  }

  /** No line ended by CR is followed by a bare LF. */
  predicate Unambiguous(lines: seq<seq<Piece>>) {
    forall i :: 0 <= i < |lines| - 1 ==> !Ambiguous(lines[i], lines[i + 1])
  }

  lemma {:induction false} UnfoldedIsJoinedIff(lines: seq<seq<Piece>>)
    requires AreHeaders(lines)
    ensures Unambiguous(lines) ==> Unfolded(lines) == Joined(lines)
    ensures |Unfolded(lines)| <= |Joined(lines)|
    ensures !Unambiguous(lines) ==> |Unfolded(lines)| < |Joined(lines)|
    decreases |lines|
  {
    hide Folded, Header, Merge, Ending;
    if lines != [] {
      if |lines| > 1 && Ambiguous(lines[0], lines[1]) {
        MergedFile(lines);
        UnfoldedIsJoinedIff([Merge(lines[0], lines[1])] + lines[2..]);
      } else {
        var others := lines[1..];
        assert forall i :: 0 <= i < |others| ==> others[i] == lines[i + 1];
        UnfoldedIsJoinedIff(others);
        if Unambiguous(others) && !Unambiguous(lines) {
          var i :| 0 <= i < |lines| - 1 && Ambiguous(lines[i], lines[i + 1]);
          assert i > 0 && Ambiguous(others[i - 1], others[i]);
        }
      }
    }
  }

  lemma SameWithBreak(a: string, b: string)
    ensures a + "\n" == b + "\n" <==> a == b
  {
    assert (a + "\n")[..|a|] == a && (b + "\n")[..|b|] == b;
    assert a + "\n" == b + "\n" ==> |a + "\n"| == |b + "\n"|;
  }

  /** The three passes give back the headers, one per line, exactly when no line ended by CR is
      followed by a bare LF; the last header may be folded and have no break behind it. */
  lemma UnfoldInvertsFoldIff(lines: seq<seq<Piece>>, open: seq<Piece>, tail: string)
    requires AreHeaders(lines) && IsUnterminated(open, tail)
    ensures Normalize(File(lines) + Unterminated(open, tail)) == Joined(lines) + (Header(open) + tail)
       <==> Unambiguous(WithLast(lines, open, tail))
  {
    hide Normalize, Scan, File, Folded, Header, IsHeader, Unambiguous;
    var all, s := WithLast(lines, open, tail), File(lines) + Unterminated(open, tail);
    PassesAreOneScan(s);
    NormalizedFile(lines, open, tail);
    if open == [] && tail == "" {
      NoPieces();
      Associates(Scan(s), [], []);
      Associates(Joined(lines), [], []);
    } else {
      FileAndLast(lines, open + [Piece(tail, Lf)]);
      FoldedLast(open, tail);
      Associates(Joined(lines), Header(open) + tail, "\n");
      SameWithBreak(Scan(s), Joined(lines) + (Header(open) + tail));
    }
    UnfoldedIsJoinedIff(all);
  }

  /** If only the first line may be blank or cut before its first character, any mix of line
      breaks is undone. */
  lemma UnfoldInvertsFold(lines: seq<seq<Piece>>, open: seq<Piece>, tail: string)
    requires AreHeaders(lines) && IsUnterminated(open, tail)
    requires forall i :: 0 < i < |lines| ==> lines[i][0].text != ""
    requires lines != [] && open != [] ==> open[0].text != ""
    ensures Normalize(File(lines) + Unterminated(open, tail)) == Joined(lines) + (Header(open) + tail)
  {
    UnfoldInvertsFoldIff(lines, open, tail);
  }

  /** It is not always undone: a blank line can vanish, and two headers can become one. */
  lemma BreaksCanMerge()
    ensures var lines := [[Piece("a", Cr)], [Piece("", Lf)]];
      AreHeaders(lines) && Normalize(File(lines)) == "a\n" && Joined(lines) == "a\n\n"
    ensures var lines := [[Piece("a", Cr)], [Piece("", Lf), Piece("b", Lf)]];
      AreHeaders(lines) && Normalize(File(lines)) == "ab\n" && Joined(lines) == "a\nb\n"
  {
    hide Normalize, File, Joined, Ambiguous, Header;
    var a, b := Piece("a", Cr), Piece("b", Lf);
    TwoLinesMerge(a, []);
    TwoLinesMerge(a, [b]);
    FirstPiece(b, []);
    assert [b] + [] == [b];
    assert [Piece("", Lf)] + [] == [Piece("", Lf)] && [Piece("", Lf)] + [b] == [Piece("", Lf), b];
    NoPieces();
  }

  lemma TwoLinesMerge(p: Piece, rest: seq<Piece>)
    requires AreHeaders([[p], [Piece("", Lf)] + rest]) && p.eol == Cr
    ensures var lines := [[p], [Piece("", Lf)] + rest];
      && Normalize(File(lines)) == p.text + Header(rest) + "\n"
      && Joined(lines) == p.text + "\n" + (Header(rest) + "\n")
  {
    hide Text, Folded, Continued, Normalize, Scan;
    var first, second := [p], [Piece("", Lf)] + rest;
    var lines := [first, second];
    PassesAreOneScan(File(lines));
    ScanFile(lines);
    MergedPiece(p, second);
    assert second[1..] == rest;
    assert [Merge(first, second)] + lines[2..] == [Merge(first, second)];
    assert Header(first) == p.text && Header(second) == Header(rest);
    assert Unfolded([Merge(first, second)]) == Header(Merge(first, second)) + "\n";
    assert lines[1..] == [second] && Joined([second]) == Header(second) + "\n";
  }
}
