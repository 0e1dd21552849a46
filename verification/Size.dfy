/** Memory sizes with unit suffixes: parsing and printing (calc/size.go). */
module Size {
  import opened Wrappers
  import opened Machine
  import opened Text

  const KIBI: int := 1024
  const MEBI: int := 0x10_0000
  const GIBI: int := 0x4000_0000
  const TEBI: int := 0x100_0000_0000

  datatype Unit = Bytes | Kibis | Mebis | Gibis | Tebis

  function Scale(u: Unit): int {
    match u
    case Bytes => 1
    case Kibis => KIBI
    case Mebis => MEBI
    case Gibis => GIBI
    case Tebis => TEBI
  }

  function UnitOf(c: char): Option<Unit> {
    if c == 'k' || c == 'K' then Some(Kibis)
    else if c == 'm' || c == 'M' then Some(Mebis)
    else if c == 'g' || c == 'G' then Some(Gibis)
    else if c == 't' || c == 'T' then Some(Tebis)
    else None
  }

  /** The groups of the size pattern: the digits, and the unit if there is one. */
  function Groups(s: string): (r: (string, Unit)) {
    if s != "" && UnitOf(s[|s| - 1]).Some? then (s[..|s| - 1], UnitOf(s[|s| - 1]).value) else (s, Bytes)
  }

  /** One or more digits and at most one unit letter, and nothing else. */
  predicate IsSize(s: string) {
    Groups(s).0 != "" && AllDigits(Groups(s).0)
  }

  /** The number of bytes the text denotes, before any machine arithmetic. */
  function Denoted(s: string): nat
    requires IsSize(s)
  {
    DecimalValue(Groups(s).0) * Scale(Groups(s).1)
  }

  datatype SizeError = NoMatch | NotAnInteger

  function ParseSize(s: string): (r: Result<int, SizeError>) {
    var t := TrimSpace(s);
    if !IsSize(t) then Err(NoMatch)
    else if DecimalValue(Groups(t).0) >= TWO_63 then Err(NotAnInteger)
    else Ok(Wrap64(DecimalValue(Groups(t).0) * Scale(Groups(t).1)))
  }

  function PrintInt(n: int): string {
    if n >= 0 then Decimal(n) else "-" + Decimal(-n)
  }

  /** Size.String: whole kibibytes, in the largest unit that divides them. */
  function Print(v: int): string {
    var b := Trunc(v, KIBI);
    if b == 0 then "0"
    else if b % GIBI == 0 then PrintInt(Trunc(b, GIBI)) + "T"
    else if b % MEBI == 0 then PrintInt(Trunc(b, MEBI)) + "G"
    else if b % KIBI == 0 then PrintInt(Trunc(b, KIBI)) + "M"
    else PrintInt(b) + "K"
  }

  /** The bytes in whole kibibytes, dropping the rest. */
  function WholeKibis(v: int): int { Trunc(v, KIBI) * KIBI }

  /** A size is surrounded by characters that are not white space. */
  lemma SizeIsTrimmed(s: string)
    requires IsSize(s)
    ensures Trimmed(s) && s != "" && TrimSpace(s) == s
  {
    assert s[0] == Groups(s).0[0] && IsDigit(s[0]);
    TrimTrimmed(s);
  }

  predicate IsSuffix(suffix: string, u: Unit) {
    if u == Bytes then suffix == "" else |suffix| == 1 && UnitOf(suffix[0]) == Some(u)
  }

  lemma GroupsOfPrinted(n: nat, suffix: string, u: Unit)
    requires IsSuffix(suffix, u)
    ensures Groups(Decimal(n) + suffix) == (Decimal(n), u)
  {
    hide Decimal;
    var digits := Decimal(n);
    var s := digits + suffix;
    if u == Bytes {
      assert s == digits;
      assert IsDigit(digits[|digits| - 1]);
    } else {
      assert s[..|s| - 1] == digits;
    }
  }

  lemma PrintedParses(n: nat, suffix: string, u: Unit)
    requires n < TWO_63 && IsSuffix(suffix, u)
    ensures var s := Decimal(n) + suffix;
      && IsSize(s) && Groups(s).1 == u && Denoted(s) == n * Scale(u)
      && ParseSize(s) == Ok(Wrap64(n * Scale(u)))
  {
    hide Decimal, IsSuffix;
    GroupsOfPrinted(n, suffix, u);
    DecimalRoundTrip(n);
    SizeIsTrimmed(Decimal(n) + suffix);
  }

  lemma InMebis(b: nat)
    ensures (b * KIBI) % MEBI == b % KIBI * KIBI
  {
    assert b * KIBI == b / KIBI * MEBI + b % KIBI * KIBI;
  }

  lemma InGibis(b: nat)
    ensures (b * KIBI) % GIBI == b % MEBI * KIBI
  {
    assert b * KIBI == b / MEBI * GIBI + b % MEBI * KIBI;
  }

  lemma InTebis(b: nat)
    ensures (b * KIBI) % TEBI == b % GIBI * KIBI
  {
    assert b * KIBI == b / GIBI * TEBI + b % GIBI * KIBI;
  }

  /** Printing a size and parsing it back leaves its whole kibibytes, for every 64-bit size that
      is not negative by a kibibyte or more; the unit printed is the largest that divides it. */
  lemma PrintThenParse(v: int)
    requires -KIBI < v < TWO_63
    ensures IsSize(Print(v)) && Denoted(Print(v)) == WholeKibis(v)
    ensures ParseSize(Print(v)) == Ok(WholeKibis(v))
    ensures v < KIBI ==> Print(v) == "0"
    ensures v >= KIBI ==> Groups(Print(v)).1 != Bytes
    ensures v >= KIBI ==>
      forall w: Unit :: Scale(w) > Scale(Groups(Print(v)).1) ==> WholeKibis(v) % Scale(w) != 0
  {
    hide ParseSize, IsSize, Denoted, Groups;
    var b := Trunc(v, KIBI);
    assert WholeKibis(v) == b * KIBI;
    if b == 0 {
      PrintedParses(0, "", Bytes);
      assert Decimal(0) == "0";
      assert Decimal(0) + "" == "0";
    } else {
      InMebis(b);
      InGibis(b);
      InTebis(b);
      if b % GIBI == 0 {
        PrintedParses(b / GIBI, "T", Tebis);
      } else if b % MEBI == 0 {
        PrintedParses(b / MEBI, "G", Gibis);
      } else if b % KIBI == 0 {
        PrintedParses(b / KIBI, "M", Mebis);
      } else {
        PrintedParses(b, "K", Kibis);
      }
    }
  }

  /** A negative size of at least a kibibyte is printed with its sign, which no pattern takes. */
  lemma NegativeIsNoSize(v: int)
    ensures Print(v) != "" && (IsDigit(Print(v)[|Print(v)| - 1]) || UnitOf(Print(v)[|Print(v)| - 1]).Some?)
    ensures v <= -KIBI ==> !IsSize(Print(v))
  {
    hide Decimal;
    if v <= -KIBI {
      assert Print(v)[0] == '-' && |Print(v)| > 1;
      assert Groups(Print(v)).0[0] == '-';
    }
  }

  /** The unchecked multiplication: a parsed size is the number of bytes written exactly when
      that number fits a signed 64-bit integer. */
  lemma ParseIsExactIffItFits(s: string)
    requires ParseSize(s).Ok?
    ensures IsSize(TrimSpace(s))
    ensures ParseSize(s).value == Denoted(TrimSpace(s)) <==> Denoted(TrimSpace(s)) < TWO_63
  {
  }

  /** Digits and at most one unit letter. */
  predicate IsSizeText(digits: string, unit: string) {
    && digits != "" && (forall i :: 0 <= i < |digits| ==> '0' <= digits[i] <= '9')
    && (unit == "" || unit == "k" || unit == "m" || unit == "g" || unit == "t"
        || unit == "K" || unit == "M" || unit == "G" || unit == "T")
  }

  lemma DigitsAndUnit(t: string) returns (digits: string, unit: string)
    requires IsSize(t)
    ensures t == digits + unit && IsSizeText(digits, unit) && Groups(t).0 == digits
  {
    digits := Groups(t).0;
    unit := t[|digits|..];
  }

  lemma SizeTextIsSize(digits: string, unit: string)
    requires IsSizeText(digits, unit)
    ensures IsSize(digits + unit) && Groups(digits + unit).0 == digits
  {
    var t := digits + unit;
    if unit == "" {
      assert t == digits && IsDigit(t[|t| - 1]);
    } else {
      assert t[..|t| - 1] == digits && t[|t| - 1] == unit[0];
    }
  }

  /** What is a size: digits, at least one, of a number below 2^63, and then at most one of eight
      letters, with any white space around. */
  lemma ParsesIffWritten(s: string)
    ensures ParseSize(s).Ok? <==>
      exists digits, unit :: TrimSpace(s) == digits + unit && IsSizeText(digits, unit)
                             && DecimalValue(digits) < 0x8000_0000_0000_0000
  {
    hide IsSizeText, Groups, TrimSpace, DecimalValue;
    if ParseSize(s).Ok? {
      var digits, unit := DigitsAndUnit(TrimSpace(s));
      SizeTextIsDigits(digits, unit);
    }
    forall digits, unit | TrimSpace(s) == digits + unit && IsSizeText(digits, unit)
      ensures IsSize(TrimSpace(s)) && Groups(TrimSpace(s)).0 == digits && AllDigits(digits)
    {
      SizeTextIsSize(digits, unit);
      SizeTextIsDigits(digits, unit);
    }
  }

  lemma SizeTextIsDigits(digits: string, unit: string)
    requires IsSizeText(digits, unit)
    ensures AllDigits(digits)
  {
  }

  /** What the letters mean, in either case. */
  lemma UnitLetters(n: nat)
    requires n < 0x8000_0000_0000_0000
    ensures ParseSize(Decimal(n)) == Ok(n)
    ensures ParseSize(Decimal(n) + "k") == ParseSize(Decimal(n) + "K") == Ok(Wrap64(n * 1_024))
    ensures ParseSize(Decimal(n) + "m") == ParseSize(Decimal(n) + "M") == Ok(Wrap64(n * 1_048_576))
    ensures ParseSize(Decimal(n) + "g") == ParseSize(Decimal(n) + "G") == Ok(Wrap64(n * 1_073_741_824))
    ensures ParseSize(Decimal(n) + "t") == ParseSize(Decimal(n) + "T") == Ok(Wrap64(n * 1_099_511_627_776))
  {
    hide Decimal, ParseSize, IsSize, Wrap64;
    assert Decimal(n) + "" == Decimal(n);
    PrintedParses(n, "", Bytes);
    PrintedParses(n, "k", Kibis);
    PrintedParses(n, "K", Kibis);
    PrintedParses(n, "m", Mebis);
    PrintedParses(n, "M", Mebis);
    PrintedParses(n, "g", Gibis);
    PrintedParses(n, "G", Gibis);
    PrintedParses(n, "t", Tebis);
    PrintedParses(n, "T", Tebis);
    PlainNumber(n);
  }

  lemma PlainNumber(n: nat)
    requires n < TWO_63
    ensures Wrap64(n * Scale(Bytes)) == n
  {
  }

  /** Such a number of bytes exists: this text is accepted and read as zero. */
  lemma SomeSizesWrap()
    ensures ParseSize("16777216T") == Ok(0)
  {
    var s := "16777216T";
    var d := "16777216";
    assert s[..8] == d;
    assert Groups(s) == (d, Tebis);
    SizeIsTrimmed(s);
    assert d[..7] == "1677721" && d[..7][..6] == "167772" && d[..7][..6][..5] == "16777";
    assert d[..7][..6][..5][..4] == "1677" && d[..7][..6][..5][..4][..3] == "167";
    assert DecimalValue("167") == 167 by { assert "167"[..2] == "16" && "16"[..1] == "1" && "1"[..0] == ""; }
    assert DecimalValue("16777") == 16777;
    assert DecimalValue("1677721") == 1677721;
    assert DecimalValue(d) == 16777216;
  }
}
