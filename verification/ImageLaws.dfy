/** What the jimage reader does with any file, byte by byte: where things stand, and what makes
    the count fail. */
module ImageLaws {
  import opened Wrappers
  import opened Machine
  import opened Sequences
  import opened ImageFormat
  import opened ImageEncoding

  // ---- where things stand ----

  /** Four bytes from p on, least significant first. */
  function LittleEndian(data: seq<byte>, p: int): int
    requires 0 <= p && p + 4 <= |data|
  {
    var b0: int, b1: int, b2: int, b3: int := data[p], data[p + 1], data[p + 2], data[p + 3];
    b0 + 256 * b1 + 65_536 * b2 + 16_777_216 * (if b3 >= 128 then b3 - 256 else b3)
  }

  lemma Int32IsLittleEndian(data: seq<byte>, p: int)
    requires 0 <= p && p + 4 <= |data|
    ensures Int32At(data, p) == LittleEndian(data, p)
  {
  }

  /** A header is seven integers, the second of which holds two version numbers. */
  lemma HeaderStandsAt(data: seq<byte>)
    ensures HeaderOf(data).Ok? <==> |data| >= 28
    ensures HeaderOf(data).Err? ==> HeaderOf(data) == Err(EndOfFile)
    ensures |data| >= 28 ==>
      var h := HeaderOf(data).value;
      && h.magic == LittleEndian(data, 0)
      && h.minorVersion == data[4] + 256 * (data[5] as int)
      && h.majorVersion == data[6] + 256 * (if data[7] >= 128 then data[7] as int - 256 else data[7])
      && h.flags == LittleEndian(data, 8) && h.resourceCount == LittleEndian(data, 12)
      && h.tableLength == LittleEndian(data, 16)
      && h.locationsSize == LittleEndian(data, 20) && h.stringsSize == LittleEndian(data, 24)
  {
    if |data| >= 28 {
      Int32IsLittleEndian(data, 0);
      Int32IsLittleEndian(data, 4);
      Int32IsLittleEndian(data, 8);
      Int32IsLittleEndian(data, 12);
      Int32IsLittleEndian(data, 16);
      Int32IsLittleEndian(data, 20);
      Int32IsLittleEndian(data, 24);
      hide Int32At;
    }
  }

  lemma {:induction false} Int32sAre(data: seq<byte>, p: int, n: nat, i: nat)
    requires 0 <= p && p + 4 * n <= |data| && i < n
    ensures Int32s(data, p, n)[i] == LittleEndian(data, p + 4 * i)
  {
    if i == n - 1 {
      Int32IsLittleEndian(data, p + 4 * i);
    } else {
      Int32sAre(data, p, n - 1, i);
    }
  }

  /** For a file of less than 2 GiB: the tables behind the header are read whole or not at all, and
      then the locations start at 28 + 8n and the strings so many bytes behind them. */
  lemma ImageStandsAt(data: seq<byte>)
    requires 28 <= |data| < TWO_31
    ensures var n, size := LittleEndian(data, 16), LittleEndian(data, 20);
      && (n < 0 ==> ImageOf(data) == Err(NegativeLength))
      && (n >= 0 && 28 + 8 * n > |data| ==> ImageOf(data) == Err(EndOfFile))
      && (n >= 0 && 28 + 8 * n <= |data| ==>
          && ImageOf(data).Ok?
          && var image := ImageOf(data).value;
             && image.locationsOffset == 28 + 8 * n && image.stringsOffset == Wrap32(28 + 8 * n + size)
             && |image.offsets.entries| == n
             && forall i :: 0 <= i < n ==> image.offsets.entries[i] == LittleEndian(data, 28 + 4 * n + 4 * i))
  {
    HeaderStandsAt(data);
    hide HeaderOf, LittleEndian, Int32s;
    var n := LittleEndian(data, 16);
    if n >= 0 && 28 + 8 * n <= |data| {
      forall i | 0 <= i < n ensures Int32s(data, 28 + 4 * n, n)[i] == LittleEndian(data, 28 + 4 * n + 4 * i) {
        Int32sAre(data, 28 + 4 * n, n, i);
      }
    }
  }

  // ---- what an entry comes to ----

  /** Attributes one behind the other, without a byte that ends them. */
  function Run(attributes: seq<Attribute>): seq<byte>
    requires forall i :: 0 <= i < |attributes| ==> attributes[i].Valid()
  {
    if attributes == [] then [] else AttributeBytes(attributes[0]) + Run(attributes[1..])
  }

  /** Decoding passes over whole attributes and keeps the last value of each kind. */
  lemma {:induction false} DecodeRun(data: seq<byte>, p: nat, attributes: seq<Attribute>, o: Location)
    returns (after: Location)
    requires forall i :: 0 <= i < |attributes| ==> attributes[i].Valid()
    requires At(data, p, Run(attributes))
    ensures DecodeLocation(data, p, o) == DecodeLocation(data, p + |Run(attributes)|, after)
    ensures forall kind :: 1 <= kind <= 7 ==> after.Get(kind) == LastValue(attributes, kind, o.Get(kind))
    decreases |attributes|
  {
    hide DecodeLocation, BigEndian;
    if attributes == [] {
      after := o;
    } else {
      var a, rest := attributes[0], attributes[1..];
      AtSplits(data, p, AttributeBytes(a), Run(rest));
      var v := Wrap32(BigEndian(a.bytes));
      DecodeOne(data, p, a, o);
      forall kind | 1 <= kind <= 7 ensures o.Set(a.kind, v).Get(kind) == if kind == a.kind then v else o.Get(kind) {
        SetThenGet(o, a.kind, v, kind);
      }
      after := DecodeRun(data, p + |AttributeBytes(a)|, rest, o.Set(a.kind, v));
    }
  }

  /** The fields by name. */
  lemma FieldsAre(l: Location)
    ensures l.Get(1) == l.moduleOffset && l.Get(2) == l.parentOffset && l.Get(3) == l.baseOffset
    ensures l.Get(4) == l.extensionOffset && l.Get(5) == l.contentOffset
    ensures l.Get(6) == l.compressedSize && l.Get(7) == l.uncompressedSize
  {
  }

  /** What comes of a location: its fields, if the attributes end in a byte of kind zero, and an
      error if the file ends first or a kind is above 7. */
  lemma LocationIs(data: seq<byte>, p: nat, attributes: seq<Attribute>)
    requires forall i :: 0 <= i < |attributes| ==> attributes[i].Valid()
    requires At(data, p, Run(attributes))
    ensures var q, last := p + |Run(attributes)|, kind => LastValue(attributes, kind, 0);
      && (q >= |data| ==> LocationAt(data, p) == Err(EndOfFile))
      && (q < |data| && data[q] >= 8 && q + 2 + data[q] % 8 > |data| ==> LocationAt(data, p) == Err(EndOfFile))
      && (q < |data| && data[q] >= 64 && q + 2 + data[q] % 8 <= |data| ==>
          LocationAt(data, p) == Err(UnknownAttribute(data[q] / 8)))
      && (q < |data| && data[q] < 8 ==>
          LocationAt(data, p) == Ok(Location(last(1), last(2), last(3), last(4), last(5), last(6), last(7))))
  {
    hide LastValue, Run;
    var after := DecodeRun(data, p, attributes, NO_LOCATION);
    FieldsAre(after);
    FieldsAre(NO_LOCATION);
  }

  /** A value of up to four bytes, most significant first. */
  lemma ValuesAreBigEndian(a: byte, b: byte, c: byte, d: byte)
    ensures BigEndian([a]) == a
    ensures BigEndian([a, b]) == 256 * (a as int) + b
    ensures BigEndian([a, b, c]) == 65_536 * (a as int) + 256 * (b as int) + c
    ensures BigEndian([a, b, c, d]) == 16_777_216 * (a as int) + 65_536 * (b as int) + 256 * (c as int) + d
  {
    assert [a][..0] == [] && [a, b][..1] == [a] && [a, b, c][..2] == [a, b] && [a, b, c, d][..3] == [a, b, c];
  }

  lemma {:induction false} NoZeroNoString(data: seq<byte>, p: nat)
    requires forall i :: p <= i < |data| ==> data[i] != 0
    ensures CString(data, p) == None
    decreases |data| - p
  {
    if p < |data| { NoZeroNoString(data, p + 1); }
  }

  /** What comes of an offset entry whose location is in order: no extension is no class, and an
      extension has to end in a zero byte and then is compared with "class". */
  lemma EntryIs(data: seq<byte>, image: Image, entry: int, attributes: seq<Attribute>)
    requires forall i :: 0 <= i < |attributes| ==> attributes[i].Valid()
    requires image.locationsOffset + entry >= 0 && At(data, image.locationsOffset + entry, Run(attributes))
    ensures var q := image.locationsOffset + entry + |Run(attributes)|;
      && (q >= |data| || (data[q] >= 8 && q + 2 + data[q] % 8 > |data|) ==>
          IsClass(data, image, entry) == Err(EndOfFile))
      && (q < |data| && data[q] >= 64 && q + 2 + data[q] % 8 <= |data| ==>
          IsClass(data, image, entry) == Err(UnknownAttribute(data[q] / 8)))
      && (q < |data| && data[q] < 8 ==>
          var extension := LastValue(attributes, 4, 0);
          var s := image.stringsOffset + extension;
          && (extension == 0 ==> IsClass(data, image, entry) == Ok(false))
          && (extension != 0 && s < 0 ==> IsClass(data, image, entry) == Err(SeekFailed))
          && (extension != 0 && s >= 0 && (forall i :: s <= i < |data| ==> data[i] != 0) ==>
              IsClass(data, image, entry) == Err(EndOfFile))
          && (forall z :: extension != 0 && 0 <= s <= z < |data| && data[z] == 0 && 0 !in data[s..z] ==>
              IsClass(data, image, entry) == Ok(ReadsAsClass(data[s..z]))))
  {
    hide LastValue, Run, LocationAt, StringAt, ReadsAsClass;
    var p := image.locationsOffset + entry;
    LocationIs(data, p, attributes);
    var q := p + |Run(attributes)|;
    if q < |data| && data[q] < 8 {
      StringIs(data, image.stringsOffset + LastValue(attributes, 4, 0));
    }
  }

  /** What comes of a string: it has to start in or behind the file and end in a zero byte, and it
      is taken for "class" as said above. */
  lemma StringIs(data: seq<byte>, s: int)
    ensures s < 0 ==> StringAt(data, s) == Err(SeekFailed)
    ensures s >= 0 && (forall i :: s <= i < |data| ==> data[i] != 0) ==> StringAt(data, s) == Err(EndOfFile)
    ensures forall z :: 0 <= s <= z < |data| && data[z] == 0 && 0 !in data[s..z] ==>
      StringAt(data, s).Ok? && (StringAt(data, s).value == CLASS <==> ReadsAsClass(data[s..z]))
  {
    hide CString, Truncated, ReadsAsClass;
    if s >= 0 && forall i :: s <= i < |data| ==> data[i] != 0 { NoZeroNoString(data, s); }
    forall z | 0 <= s <= z < |data| && data[z] == 0 && 0 !in data[s..z]
      ensures CString(data, s) == Some(data[s..z])
      ensures Truncated(data[s..z]) == CLASS <==> ReadsAsClass(data[s..z])
    {
      CStringFound(data, s, data[s..z]);
      ReadsAsClassIff(data[s..z]);
    }
  }

  /** An entry or an extension that leads in front of the file cannot be sought. */
  lemma NothingInFront(data: seq<byte>, image: Image, entry: int)
    requires image.locationsOffset + entry < 0
    ensures IsClass(data, image, entry) == Err(SeekFailed)
  {
  }

  // ---- what the count comes to ----

  /** The entries that are classes. */
  function ClassEntries(data: seq<byte>, image: Image, entries: seq<int>): set<int> {
    set i | 0 <= i < |entries| && IsClass(data, image, entries[i]) == Ok(true)
  }

  lemma {:induction false} CountIsSize(data: seq<byte>, image: Image, entries: seq<int>)
    requires forall i :: 0 <= i < |entries| ==> IsClass(data, image, entries[i]).Ok?
    ensures CountClasses(data, image, entries) == Ok(|ClassEntries(data, image, entries)|)
  {
    hide IsClass;
    if entries == [] {
      assert ClassEntries(data, image, entries) == {};
    } else {
      var n := |entries| - 1;
      var front := entries[..n];
      CountIsSize(data, image, front);
      assert ClassEntries(data, image, entries)
          == ClassEntries(data, image, front) + if IsClass(data, image, entries[n]) == Ok(true) then {n} else {};
    }
  }

  /** The count of a file is the number of entries that are classes, and the first entry that
      cannot be read makes it fail. */
  lemma CountIs(data: seq<byte>)
    requires ImageOf(data).Ok?
    ensures var image := ImageOf(data).value;
      var entries := image.offsets.entries;
      && ((forall i :: 0 <= i < |entries| ==> IsClass(data, image, entries[i]).Ok?) ==>
          ModuleClasses(data) == Ok(|ClassEntries(data, image, entries)|))
      && forall i :: 0 <= i < |entries| && IsClass(data, image, entries[i]).Err?
                     && (forall j :: 0 <= j < i ==> IsClass(data, image, entries[j]).Ok?) ==>
           ModuleClasses(data) == Err(IsClass(data, image, entries[i]).error)
  {
    hide IsClass, ImageOf, ClassEntries;
    var image := ImageOf(data).value;
    var entries := image.offsets.entries;
    if forall i :: 0 <= i < |entries| ==> IsClass(data, image, entries[i]).Ok? {
      CountIsSize(data, image, entries);
    }
    forall i | 0 <= i < |entries| && IsClass(data, image, entries[i]).Err?
               && (forall j :: 0 <= j < i ==> IsClass(data, image, entries[j]).Ok?)
      ensures ModuleClasses(data) == Err(IsClass(data, image, entries[i]).error)
    {
      CountIsSize(data, image, entries[..i]);
      CountOneMore(data, image, entries, i);
      CountStopsAtError(data, image, entries, i + 1);
    }
  }
}
