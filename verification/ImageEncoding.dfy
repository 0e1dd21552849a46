/** An encoder for jimage files, and the proof that the reader inverts it. */
module ImageEncoding {
  import opened Wrappers
  import opened Machine
  import opened Sequences
  import opened ImageFormat

  // ---- locations ----

  /** One attribute: a kind from 1 to 7 and one to eight value bytes, most significant first. */
  datatype Attribute = Attribute(kind: int, bytes: seq<byte>) {
    predicate Valid() { 1 <= kind <= 7 && 1 <= |bytes| <= 8 }
  }

  /** A location is its attributes and the byte that ends them, any byte of kind zero. */
  datatype Encoded = Encoded(attributes: seq<Attribute>, end: byte) {
    predicate Valid() {
      0 <= end < 8 && forall i :: 0 <= i < |attributes| ==> attributes[i].Valid()
    }
  }

  function AttributeBytes(a: Attribute): seq<byte>
    requires a.Valid()
  {
    [a.kind * 8 + |a.bytes| - 1] + a.bytes
  }

  function AttributesBytes(attributes: seq<Attribute>, end: byte): seq<byte>
    requires Encoded(attributes, end).Valid()
  {
    if attributes == [] then [end]
    else AttributeBytes(attributes[0]) + AttributesBytes(attributes[1..], end)
  }

  function LocationBytes(l: Encoded): seq<byte>
    requires l.Valid()
  {
    AttributesBytes(l.attributes, l.end)
  }

  /** The last value written for a kind, or otherwise. */
  function LastValue(attributes: seq<Attribute>, kind: int, otherwise: int): int {
    if attributes == [] then otherwise
    else LastValue(attributes[1..], kind,
                   if attributes[0].kind == kind then Wrap32(BigEndian(attributes[0].bytes)) else otherwise)
  }

  lemma AtSplits(data: seq<byte>, p: int, a: seq<byte>, b: seq<byte>)
    requires At(data, p, a + b)
    ensures At(data, p, a) && At(data, p + |a|, b)
  {
    assert data[p..p + |a|] == data[p..p + |a + b|][..|a|];
    assert data[p + |a|..p + |a| + |b|] == data[p..p + |a + b|][|a|..];
  }

  lemma SetThenGet(o: Location, kind: int, v: int, k: int)
    requires 1 <= kind <= 7 && 1 <= k <= 7
    ensures o.Set(kind, v).Get(k) == if k == kind then v else o.Get(k)
  {
  }

  lemma DecodeOne(data: seq<byte>, p: nat, a: Attribute, o: Location)
    requires a.Valid() && At(data, p, AttributeBytes(a))
    ensures p + 1 + |a.bytes| <= |data|
    ensures DecodeLocation(data, p, o)
         == DecodeLocation(data, p + 1 + |a.bytes|, o.Set(a.kind, Wrap32(BigEndian(a.bytes))))
  {
    var bytes := AttributeBytes(a);
    assert data[p] == data[p..p + |bytes|][0];
    assert data[p + 1..p + 1 + |a.bytes|] == data[p..p + |bytes|][1..] == a.bytes;
  }

  lemma DecodeEnd(data: seq<byte>, p: nat, end: byte, o: Location)
    requires 0 <= end < 8 && At(data, p, [end])
    ensures DecodeLocation(data, p, o) == Ok(o)
  {
    assert data[p] == data[p..p + 1][0] == end;
  }

  lemma {:induction false} DecodeKind(data: seq<byte>, p: nat, attributes: seq<Attribute>, end: byte,
                                      o: Location, kind: int)
    requires Encoded(attributes, end).Valid() && At(data, p, AttributesBytes(attributes, end)) && 1 <= kind <= 7
    ensures DecodeLocation(data, p, o).Ok?
    ensures DecodeLocation(data, p, o).value.Get(kind) == LastValue(attributes, kind, o.Get(kind))
    decreases |attributes|
  {
    hide DecodeLocation, BigEndian;
    if attributes == [] {
      DecodeEnd(data, p, end, o);
    } else {
      var a, rest := attributes[0], attributes[1..];
      AtSplits(data, p, AttributeBytes(a), AttributesBytes(rest, end));
      var v := Wrap32(BigEndian(a.bytes));
      DecodeOne(data, p, a, o);
      DecodeKind(data, p + 1 + |a.bytes|, rest, end, o.Set(a.kind, v), kind);
      SetThenGet(o, a.kind, v, kind);
    }
  }

  /** Decoding inverts encoding: wherever the bytes of a location stand in a file, decoding
      them yields, for each kind, the last value written, or zero. */
  lemma DecodeInvertsEncode(data: seq<byte>, p: nat, l: Encoded)
    requires l.Valid() && At(data, p, LocationBytes(l))
    ensures LocationAt(data, p).Ok?
    ensures forall kind :: 1 <= kind <= 7 ==>
      LocationAt(data, p).value.Get(kind) == LastValue(l.attributes, kind, 0)
  {
    hide DecodeLocation;
    DecodeKind(data, p, l.attributes, l.end, NO_LOCATION, 1);
    forall kind | 1 <= kind <= 7
      ensures LocationAt(data, p).value.Get(kind) == LastValue(l.attributes, kind, 0)
    {
      DecodeKind(data, p, l.attributes, l.end, NO_LOCATION, kind);
    }
  }

  /** The extension offset of an encoded location. */
  function Extension(l: Encoded): int { LastValue(l.attributes, 4, 0) }

  // ---- integers ----

  function Byte(u: nat, scale: nat): byte
    requires scale > 0
  {
    u / scale % 0x100
  }

  function Int32Bytes(v: int): (r: seq<byte>)
    ensures |r| == 4
  {
    var u := v % TWO_32;
    [Byte(u, 1), Byte(u, 0x100), Byte(u, 0x1_0000), Byte(u, 0x100_0000)]
  }

  lemma FourBytes(u: nat)
    requires u < TWO_32
    ensures var b0: int, b1: int := Byte(u, 1), Byte(u, 0x100);
      var b2: int, b3: int := Byte(u, 0x1_0000), Byte(u, 0x100_0000);
      u == b0 + 0x100 * b1 + 0x1_0000 * b2 + 0x100_0000 * b3
  {
    assert u == u % 0x100 + 0x100 * (u / 0x100);
    assert u / 0x100 == u / 0x100 % 0x100 + 0x100 * (u / 0x1_0000);
    assert u / 0x1_0000 == u / 0x1_0000 % 0x100 + 0x100 * (u / 0x100_0000);
  }

  lemma Unsigned(v: int)
    requires -TWO_31 <= v < TWO_31
    ensures Wrap32(v % TWO_32) == v
  {
  }

  lemma Int32RoundTrip(data: seq<byte>, p: int, v: int)
    requires -TWO_31 <= v < TWO_31 && At(data, p, Int32Bytes(v))
    ensures Int32At(data, p) == v
  {
    hide Byte, Wrap32;
    var bytes := data[p..p + 4];
    assert bytes[0] == data[p] && bytes[1] == data[p + 1] && bytes[2] == data[p + 2] && bytes[3] == data[p + 3];
    FourBytes(v % TWO_32);
    Unsigned(v);
  }

  function TableBytes(entries: seq<int>): (r: seq<byte>)
    ensures |r| == 4 * |entries|
  {
    if entries == [] then [] else Int32Bytes(entries[0]) + TableBytes(entries[1..])
  }

  predicate AreInt32(entries: seq<int>) {
    forall i :: 0 <= i < |entries| ==> -TWO_31 <= entries[i] < TWO_31
  }

  lemma {:induction false} TableEntry(data: seq<byte>, p: int, entries: seq<int>, i: nat)
    requires AreInt32(entries) && At(data, p, TableBytes(entries)) && i < |entries|
    ensures p + 4 * i + 4 <= |data| && Int32At(data, p + 4 * i) == entries[i]
    decreases i
  {
    hide Int32At, Int32Bytes;
    AtSplits(data, p, Int32Bytes(entries[0]), TableBytes(entries[1..]));
    if i == 0 {
      Int32RoundTrip(data, p, entries[0]);
    } else {
      TableEntry(data, p + 4, entries[1..], i - 1);
    }
  }

  lemma {:induction false} TablePrefix(data: seq<byte>, p: int, entries: seq<int>, k: nat)
    requires AreInt32(entries) && At(data, p, TableBytes(entries)) && k <= |entries|
    ensures p + 4 * |entries| <= |data| && Int32s(data, p, k) == entries[..k]
  {
    hide Int32At, Int32Bytes, TableBytes;
    if k > 0 {
      TablePrefix(data, p, entries, k - 1);
      TableEntry(data, p, entries, k - 1);
      NextPrefix(entries, k - 1);
    }
  }

  lemma TableRoundTrip(data: seq<byte>, p: int, entries: seq<int>)
    requires AreInt32(entries) && At(data, p, TableBytes(entries))
    ensures TableAt(data, p, |entries|) == Ok(entries)
  {
    hide TableBytes;
    TablePrefix(data, p, entries, |entries|);
    assert entries[..|entries|] == entries;
  }

  // ---- the whole file ----

  /** What a jimage file is made from. Each offset entry is given by the index of the location
      it points to; content is whatever follows the strings. */
  datatype Modules = Modules(
    magic: int, majorVersion: int, minorVersion: int, flags: int, resourceCount: int,
    redirects: seq<int>,
    order: seq<nat>,
    locations: seq<Encoded>,
    pool: seq<byte>,
    content: seq<byte>)

  function LocationsBytes(locations: seq<Encoded>): seq<byte>
    requires forall i :: 0 <= i < |locations| ==> locations[i].Valid()
  {
    if locations == [] then []
    else LocationsBytes(locations[..|locations| - 1]) + LocationBytes(locations[|locations| - 1])
  }

  predicate IsInt32(v: int) { -TWO_31 <= v < TWO_31 }

  predicate Valid(m: Modules) {
    && IsInt32(m.magic) && -0x8000 <= m.majorVersion < 0x8000 && 0 <= m.minorVersion < 0x1_0000
    && IsInt32(m.flags) && IsInt32(m.resourceCount)
    && AreInt32(m.redirects) && |m.redirects| == |m.order|
    && (forall i :: 0 <= i < |m.order| ==> m.order[i] < |m.locations|)
    && (forall i :: 0 <= i < |m.locations| ==> m.locations[i].Valid())
    && HEADER_SIZE + 8 * |m.order| + |LocationsBytes(m.locations)| + |m.pool| < TWO_31
  }

  /** Where location i starts within the locations. */
  function StartOf(m: Modules, i: nat): nat
    requires (forall j :: 0 <= j < |m.locations| ==> m.locations[j].Valid()) && i <= |m.locations|
  {
    |LocationsBytes(m.locations[..i])|
  }

  function Offsets(m: Modules): (r: seq<int>)
    requires Valid(m)
    ensures |r| == |m.order|
  {
    seq(|m.order|, i requires 0 <= i < |m.order| => StartOf(m, m.order[i]))
  }

  function HeaderFields(m: Modules): (r: seq<int>)
    requires Valid(m)
    ensures |r| == 7
  {
    [m.magic, m.majorVersion * 0x1_0000 + m.minorVersion, m.flags, m.resourceCount,
     |m.order|, |LocationsBytes(m.locations)|, |m.pool|]
  }

  function HeaderBytes(m: Modules): (r: seq<byte>)
    requires Valid(m)
    ensures |r| == HEADER_SIZE
  {
    TableBytes(HeaderFields(m))
  }

  function FileBytes(m: Modules): seq<byte>
    requires Valid(m)
  {
    HeaderBytes(m)
    + (TableBytes(m.redirects) + (TableBytes(Offsets(m)) + (LocationsBytes(m.locations) + (m.pool + m.content))))
  }

  lemma PartsStand(a: seq<byte>, b: seq<byte>, c: seq<byte>, d: seq<byte>, e: seq<byte>, f: seq<byte>)
    ensures var data := a + (b + (c + (d + (e + f))));
      && At(data, 0, a) && At(data, |a|, b) && At(data, |a| + |b|, c)
      && At(data, |a| + |b| + |c|, d) && At(data, |a| + |b| + |c| + |d|, e)
  {
    var data := a + (b + (c + (d + (e + f))));
    assert data[0..|data|] == data;
    AtSplits(data, 0, a, b + (c + (d + (e + f))));
    AtSplits(data, |a|, b, c + (d + (e + f)));
    AtSplits(data, |a| + |b|, c, d + (e + f));
    AtSplits(data, |a| + |b| + |c|, d, e + f);
    AtSplits(data, |a| + |b| + |c| + |d|, e, f);
  }

  /** Where each section of the file stands. */
  lemma Sections(m: Modules)
    requires Valid(m)
    ensures var data, n, l := FileBytes(m), |m.order|, |LocationsBytes(m.locations)|;
      && At(data, 0, HeaderBytes(m))
      && At(data, 28, TableBytes(m.redirects))
      && At(data, 28 + 4 * n, TableBytes(Offsets(m)))
      && At(data, 28 + 8 * n, LocationsBytes(m.locations))
      && At(data, 28 + 8 * n + l, m.pool)
  {
    hide HeaderBytes, TableBytes, LocationsBytes, Offsets, At;
    PartsStand(HeaderBytes(m), TableBytes(m.redirects), TableBytes(Offsets(m)), LocationsBytes(m.locations), m.pool,
               m.content);
  }

  lemma HeaderRoundTrip(m: Modules, data: seq<byte>)
    requires Valid(m) && At(data, 0, HeaderBytes(m))
    ensures HeaderOf(data) == Ok(Header(m.magic, m.majorVersion, m.minorVersion, m.flags, m.resourceCount,
                                        |m.order|, |LocationsBytes(m.locations)|, |m.pool|))
  {
    hide Int32At, TableBytes, LocationsBytes;
    var fields := HeaderFields(m);
    TableEntry(data, 0, fields, 0);
    TableEntry(data, 0, fields, 1);
    TableEntry(data, 0, fields, 2);
    TableEntry(data, 0, fields, 3);
    TableEntry(data, 0, fields, 4);
    TableEntry(data, 0, fields, 5);
    TableEntry(data, 0, fields, 6);
  }

  lemma OffsetsAreInt32(m: Modules)
    requires Valid(m)
    ensures AreInt32(Offsets(m))
  {
    forall i | 0 <= i < |m.order| ensures -TWO_31 <= Offsets(m)[i] < TWO_31 {
      LocationStands(m, m.order[i]);
    }
  }

  /** Location i stands at its start within the locations. */
  lemma LocationStands(m: Modules, i: nat)
    requires Valid(m) && i < |m.locations|
    ensures At(LocationsBytes(m.locations), StartOf(m, i), LocationBytes(m.locations[i]))
  {
    LocationStandsIn(m.locations, i);
  }

  lemma {:induction false} LocationStandsIn(locations: seq<Encoded>, i: nat)
    requires (forall j :: 0 <= j < |locations| ==> locations[j].Valid()) && i < |locations|
    ensures At(LocationsBytes(locations), |LocationsBytes(locations[..i])|, LocationBytes(locations[i]))
  {
    var front := locations[..|locations| - 1];
    var last := LocationBytes(locations[|locations| - 1]);
    if i == |locations| - 1 {
      var all := LocationsBytes(front) + last;
      assert all[|LocationsBytes(front)|..] == last;
    } else {
      LocationStandsIn(front, i);
      assert front[..i] == locations[..i];
      var p, bytes := |LocationsBytes(locations[..i])|, LocationBytes(locations[i]);
      assert (LocationsBytes(front) + last)[p..p + |bytes|] == LocationsBytes(front)[p..p + |bytes|];
    }
  }

  lemma AtWithin(data: seq<byte>, p: int, outer: seq<byte>, q: int, inner: seq<byte>)
    requires At(data, p, outer) && At(outer, q, inner)
    ensures At(data, p + q, inner)
  {
    assert outer[q..q + |inner|] == inner;
    assert forall i :: 0 <= i < |outer| ==> data[p + i] == data[p..p + |outer|][i] == outer[i];
  }

  /** The layout round trip: reading a built file gives back the versions and both tables, the
      locations 28 + 8n bytes in, and the strings right behind the locations. */
  lemma ImageRoundTrip(m: Modules)
    requires Valid(m)
    ensures var n, l := |m.order|, |LocationsBytes(m.locations)|;
      ImageOf(FileBytes(m)) == Ok(Image(m.majorVersion, m.minorVersion, m.flags, m.resourceCount,
                                        Table(m.redirects, 28), Table(Offsets(m), 28 + 4 * n),
                                        28 + 8 * n, l, 28 + 8 * n + l))
  {
    hide TableBytes, LocationsBytes, FileBytes, HeaderBytes, HeaderOf, TableAt, Offsets, HeaderFields;
    var data, n := FileBytes(m), |m.order|;
    Sections(m);
    HeaderRoundTrip(m, data);
    TableRoundTrip(data, 28, m.redirects);
    OffsetsAreInt32(m);
    TableRoundTrip(data, 28 + 4 * n, Offsets(m));
  }

  // ---- strings ----

  /** Well-formed UTF-8 (RFC 3629, section 4). */
  predicate WellFormed(s: seq<byte>) {
    s == []
    || (s[0] < 0x80 && WellFormed(s[1..]))
    || (|s| >= 2 && 0xC2 <= s[0] <= 0xDF && Continuation(s[1]) && WellFormed(s[2..]))
    || (|s| >= 3 && 0xE0 <= s[0] <= 0xEF && Continuation(s[1]) && Continuation(s[2])
        && (s[0] == 0xE0 ==> s[1] >= 0xA0) && (s[0] == 0xED ==> s[1] <= 0x9F) && WellFormed(s[3..]))
    || (|s| >= 4 && 0xF0 <= s[0] <= 0xF4 && Continuation(s[1]) && Continuation(s[2]) && Continuation(s[3])
        && (s[0] == 0xF0 ==> s[1] >= 0x90) && (s[0] == 0xF4 ==> s[1] <= 0x8F) && WellFormed(s[4..]))
  }

  predicate AllContinuation(s: seq<byte>) {
    forall i :: 0 <= i < |s| ==> Continuation(s[i])
  }

  lemma {:induction false} StartsOfConcat(a: seq<byte>, b: seq<byte>)
    ensures Starts(a + b) == Starts(a) + Starts(b)
  {
    if b == [] {
      Associates(a, b, []);
    } else {
      assert (a + b)[..|a + b| - 1] == a + b[..|b| - 1];
      StartsOfConcat(a, b[..|b| - 1]);
    }
  }

  lemma {:induction false} NoStartsIff(s: seq<byte>)
    ensures Starts(s) == 0 <==> AllContinuation(s)
  {
    if s != [] {
      NoStartsIff(s[..|s| - 1]);
    }
  }

  lemma ClassStarts()
    ensures Starts(CLASS) == 5
  {
    assert CLASS[..4] == [0x63, 0x6C, 0x61, 0x73] && CLASS[..4][..3] == [0x63, 0x6C, 0x61];
    assert CLASS[..4][..3][..2] == [0x63, 0x6C] && CLASS[..4][..3][..2][..1] == [0x63];
    assert Starts(CLASS[..4][..3][..2]) == 2;
    assert Starts(CLASS[..4]) == 4;
  }

  /** The word "class" followed by any number of continuation bytes. */
  predicate ReadsAsClass(s: seq<byte>) { CLASS <= s && AllContinuation(s[5..]) }

  /** Exactly which byte strings the truncating read takes for "class". */
  lemma ReadsAsClassIff(s: seq<byte>)
    ensures Truncated(s) == CLASS <==> ReadsAsClass(s)
  {
    ClassStarts();
    if CLASS <= s {
      assert s == CLASS + s[5..];
      StartsOfConcat(CLASS, s[5..]);
      NoStartsIff(s[5..]);
    }
  }

  lemma WellFormedStart(s: seq<byte>)
    requires WellFormed(s) && s != []
    ensures !Continuation(s[0])
  {
  }

  /** What follows an ASCII prefix of a well-formed string is well-formed. */
  lemma {:induction false} WellFormedRest(s: seq<byte>, k: nat)
    requires WellFormed(s) && k <= |s| && forall i :: 0 <= i < k ==> s[i] < 0x80
    ensures WellFormed(s[k..])
  {
    if k > 0 {
      assert s[0] < 0x80;
      WellFormedRest(s[1..], k - 1);
      assert s[1..][k - 1..] == s[k..];
    }
  }

  /** For well-formed UTF-8 the class test is exact. */
  lemma ClassTestIsExact(s: seq<byte>)
    requires WellFormed(s)
    ensures Truncated(s) == CLASS <==> s == CLASS
  {
    ReadsAsClassIff(s);
    if CLASS <= s {
      forall i | 0 <= i < 5 ensures s[i] < 0x80 {
        assert s[i] == CLASS[i];
      }
      WellFormedRest(s, 5);
      if s[5..] != [] { WellFormedStart(s[5..]); }
    } else {
      assert s != CLASS;
    }
  }

  /** ASCII strings are read whole. */
  lemma {:induction false} AsciiIsReadWhole(s: seq<byte>)
    requires forall i :: 0 <= i < |s| ==> s[i] < 0x80
    ensures Starts(s) == |s| && Truncated(s) == s
  {
    if s != [] {
      AsciiIsReadWhole(s[..|s| - 1]);
    }
  }

  // ---- counting ----

  /** The string that the location of an offset entry names as its extension, if it names one. */
  function NameOf(m: Modules, i: nat): Option<seq<byte>>
    requires Valid(m) && i < |m.order|
  {
    var extension := Extension(m.locations[m.order[i]]);
    if extension <= 0 then None else CString(m.pool, extension)
  }

  /** The extension of each location that an offset entry points to, if it has one, is the offset
      of a terminated string of the pool. */
  predicate Linked(m: Modules) {
    Valid(m) && forall i :: 0 <= i < |m.order| ==> Extension(m.locations[m.order[i]]) == 0 || NameOf(m, i).Some?
  }

  /** Whether the extension of entry i is taken for "class", and whether it is "class". */
  predicate TakenForClass(m: Modules, i: nat)
    requires Valid(m) && i < |m.order|
  {
    NameOf(m, i).Some? && ReadsAsClass(NameOf(m, i).value)
  }

  predicate NamesClass(m: Modules, i: nat)
    requires Valid(m) && i < |m.order|
  {
    NameOf(m, i) == Some(CLASS)
  }

  /** The number of offset entries among the first k that are taken for classes. */
  function Taken(m: Modules, k: nat): nat
    requires Valid(m) && k <= |m.order|
  {
    if k == 0 then 0 else Taken(m, k - 1) + if TakenForClass(m, k - 1) then 1 else 0
  }

  /** The number of offset entries among the first k that lead to a class. */
  function Named(m: Modules, k: nat): nat
    requires Valid(m) && k <= |m.order|
  {
    if k == 0 then 0 else Named(m, k - 1) + if NamesClass(m, k - 1) then 1 else 0
  }

  /** A string of the pool is the same string in the file. */
  lemma {:induction false} PoolString(data: seq<byte>, p: nat, pool: seq<byte>, q: nat)
    requires At(data, p, pool) && CString(pool, q).Some?
    ensures CString(data, p + q) == CString(pool, q)
    decreases |pool| - q
  {
    assert data[p + q] == data[p..p + |pool|][q];
    if pool[q] != 0 { PoolString(data, p, pool, q + 1); }
  }

  /** An offset entry leads to its location's extension. */
  lemma EntryDecodes(m: Modules, i: nat)
    requires Valid(m) && i < |m.order|
    ensures var p := 28 + 8 * |m.order| + Offsets(m)[i];
      LocationAt(FileBytes(m), p).Ok?
      && LocationAt(FileBytes(m), p).value.extensionOffset == Extension(m.locations[m.order[i]])
  {
    hide FileBytes, HeaderBytes, LocationsBytes, LocationBytes, DecodeLocation, Extension;
    var data, base := FileBytes(m), 28 + 8 * |m.order|;
    var l, start := m.locations[m.order[i]], StartOf(m, m.order[i]);
    Sections(m);
    LocationStands(m, m.order[i]);
    AtWithin(data, base, LocationsBytes(m.locations), start, LocationBytes(l));
    DecodeInvertsEncode(data, base + start, l);
    assert LocationAt(data, base + start).value.Get(4) == Extension(l) by { ExtensionIsLast(l); }
  }

  lemma ExtensionIsLast(l: Encoded)
    ensures Extension(l) == LastValue(l.attributes, 4, 0)
  {
  }

  /** A terminated string of the pool is read as its truncation. */
  lemma PoolStringIsRead(m: Modules, q: nat)
    requires Valid(m) && CString(m.pool, q).Some?
    ensures StringAt(FileBytes(m), 28 + 8 * |m.order| + |LocationsBytes(m.locations)| + q)
         == Ok(Truncated(CString(m.pool, q).value))
  {
    hide FileBytes, HeaderBytes, LocationsBytes, CString, Truncated;
    Sections(m);
    PoolString(FileBytes(m), 28 + 8 * |m.order| + |LocationsBytes(m.locations)|, m.pool, q);
  }

  lemma EntryIsClass(m: Modules, image: Image, i: nat)
    requires Linked(m) && i < |m.order| && ImageOf(FileBytes(m)) == Ok(image)
    ensures IsClass(FileBytes(m), image, Offsets(m)[i]) == Ok(TakenForClass(m, i))
  {
    hide FileBytes, LocationsBytes, Extension, Offsets, ImageOf, LocationAt, StringAt, CString, Truncated, Valid;
    hide ReadsAsClass;
    OrderInRange(m, i);
    var extension := Extension(m.locations[m.order[i]]);
    ImageRoundTrip(m);
    EntryDecodes(m, i);
    if extension != 0 {
      assert NameOf(m, i).Some?;
      PoolStringIsRead(m, extension);
      ReadsAsClassIff(CString(m.pool, extension).value);
    }
  }

  lemma OrderInRange(m: Modules, i: nat)
    requires Valid(m) && i < |m.order|
    ensures m.order[i] < |m.locations|
  {
  }

  lemma {:induction false} CountIsTaken(m: Modules, image: Image, k: nat)
    requires Linked(m) && k <= |m.order| && ImageOf(FileBytes(m)) == Ok(image)
    ensures CountClasses(FileBytes(m), image, Offsets(m)[..k]) == Ok(Taken(m, k))
  {
    hide FileBytes, IsClass, TakenForClass, Offsets, CountClasses, Valid, ImageOf, NameOf;
    if k == 0 {
      CountNone(FileBytes(m), image);
    } else {
      CountIsTaken(m, image, k - 1);
      EntryIsClass(m, image, k - 1);
      CountOneMore(FileBytes(m), image, Offsets(m), k - 1);
    }
  }

  /** The class count of a built file is the number of offset entries whose location has an
      extension that is "class" up to continuation bytes behind it. */
  lemma ClassesAreCounted(m: Modules)
    requires Linked(m)
    ensures ModuleClasses(FileBytes(m)) == Ok(Taken(m, |m.order|))
  {
    ImageRoundTrip(m);
    CountIsTaken(m, ImageOf(FileBytes(m)).value, |m.order|);
    assert Offsets(m)[..|m.order|] == Offsets(m);
  }

  /** The extension of entry i is "class" followed by one or more continuation bytes. */
  predicate Straggles(m: Modules, i: nat)
    requires Valid(m) && i < |m.order|
  {
    NameOf(m, i).Some? && |NameOf(m, i).value| > 5 && ReadsAsClass(NameOf(m, i).value)
  }

  lemma TakenIsNamedOrStraggles(m: Modules, i: nat)
    requires Valid(m) && i < |m.order|
    ensures TakenForClass(m, i) <==> NamesClass(m, i) || Straggles(m, i)
    ensures !(NamesClass(m, i) && Straggles(m, i))
  {
    hide Valid, Extension, CString;
    if NameOf(m, i).Some? {
      var s := NameOf(m, i).value;
      assert CLASS <= s && |s| == 5 ==> s == CLASS;
    }
  }

  lemma {:induction false} TakenVersusNamed(m: Modules, k: nat)
    requires Valid(m) && k <= |m.order|
    ensures Named(m, k) <= Taken(m, k)
    ensures Named(m, k) == Taken(m, k) <==> forall i :: 0 <= i < k ==> !Straggles(m, i)
  {
    hide Valid, TakenForClass, NamesClass, Straggles;
    if k > 0 {
      TakenVersusNamed(m, k - 1);
      TakenIsNamedOrStraggles(m, k - 1);
    }
  }

  /** The count is never too small, and it is the number of entries that lead to a class exactly
      when no entry's extension is "class" with continuation bytes behind it. */
  lemma CountIsExactIff(m: Modules)
    requires Linked(m)
    ensures ModuleClasses(FileBytes(m)).Ok? && Named(m, |m.order|) <= ModuleClasses(FileBytes(m)).value
    ensures ModuleClasses(FileBytes(m)) == Ok(Named(m, |m.order|))
       <==> forall i :: 0 <= i < |m.order| ==> !Straggles(m, i)
  {
    hide FileBytes, ModuleClasses, Straggles, Valid;
    ClassesAreCounted(m);
    TakenVersusNamed(m, |m.order|);
  }

  lemma {:induction false} CStringFound(data: seq<byte>, p: nat, s: seq<byte>)
    requires At(data, p, s) && 0 !in s && p + |s| < |data| && data[p + |s|] == 0
    ensures CString(data, p) == Some(s)
    decreases |s|
  {
    if s != [] {
      assert data[p] == data[p..p + |s|][0] == s[0];
      assert data[p + 1..p + 1 + |s[1..]|] == data[p..p + |s|][1..];
      CStringFound(data, p + 1, s[1..]);
    }
  }

  /** A file with one entry, whose extension is "class" and a stray continuation byte. */
  const STRAGGLER := Modules(
    0, 1, 0, 0, 1, [0], [0], [Encoded([Attribute(4, [1])], 0)], [0] + CLASS + [0x80, 0], [])

  /** The count can be too large: that file has no class, and one is counted. */
  lemma ClassTestCanBeFooled()
    ensures Linked(STRAGGLER) && Named(STRAGGLER, 1) == 0 && ModuleClasses(FileBytes(STRAGGLER)) == Ok(1)
  {
    hide FileBytes, ModuleClasses, CString;
    var name := CLASS + [0x80];
    StragglerIsValid();
    CStringFound(STRAGGLER.pool, 1, name);
    assert NameOf(STRAGGLER, 0) == Some(name);
    assert name[5..] == [0x80];
    assert name != CLASS;
    assert Taken(STRAGGLER, 0) == 0 && Named(STRAGGLER, 0) == 0;
    ClassesAreCounted(STRAGGLER);
  }

  lemma StragglerIsValid()
    ensures Valid(STRAGGLER) && Extension(STRAGGLER.locations[0]) == 1
  {
    var l := STRAGGLER.locations[0];
    assert BigEndian([1]) == 1 by { assert [1][..0] == []; }
    assert l.attributes[1..] == [];
    assert AttributesBytes([], 0) == [0];
    assert LocationBytes(l) == AttributeBytes(l.attributes[0]) + [0];
    assert STRAGGLER.locations[..0] == [];
    assert LocationsBytes(STRAGGLER.locations) == LocationsBytes([]) + LocationBytes(l);
  }

  /** With well-formed names the count is exact. */
  lemma WellFormedNamesAreCounted(m: Modules)
    requires Linked(m)
    requires forall i :: 0 <= i < |m.order| && NameOf(m, i).Some? ==> WellFormed(NameOf(m, i).value)
    ensures ModuleClasses(FileBytes(m)) == Ok(Named(m, |m.order|))
  {
    hide FileBytes, ModuleClasses, NameOf, Valid, WellFormed;
    forall i | 0 <= i < |m.order| ensures !Straggles(m, i) {
      if NameOf(m, i).Some? {
        ReadsAsClassIff(NameOf(m, i).value);
        ClassTestIsExact(NameOf(m, i).value);
      }
    }
    CountIsExactIff(m);
  }
}
