/** The jimage file format (lib/modules) as pure functions of the file's bytes: header, tables,
    location attributes and strings, and the class count they add up to (count/). */
module ImageFormat {
  import opened Wrappers
  import opened Machine

  type byte = x: int | 0 <= x < 256

  datatype ReadError = SeekFailed | EndOfFile | UnknownAttribute(kind: int) | NegativeLength

  const HEADER_SIZE: int := 28

  /** Whether the bytes of part stand in data at position p. */
  predicate At(data: seq<byte>, p: int, part: seq<byte>) {
    0 <= p && p + |part| <= |data| && data[p..p + |part|] == part
  }

  // ---- integers ----

  /** The little-endian signed 32-bit integer at p. */
  function Int32At(data: seq<byte>, p: int): (v: int)
    requires 0 <= p && p + 4 <= |data|
    ensures -TWO_31 <= v < TWO_31
  {
    var b0: int, b1: int, b2: int, b3: int := data[p], data[p + 1], data[p + 2], data[p + 3];
    Wrap32(b0 + 0x100 * b1 + 0x1_0000 * b2 + 0x100_0000 * b3)
  }

  function Int32s(data: seq<byte>, p: int, n: nat): (r: seq<int>)
    requires 0 <= p && p + 4 * n <= |data|
    ensures |r| == n
  {
    if n == 0 then [] else Int32s(data, p, n - 1) + [Int32At(data, p + 4 * (n - 1))]
  }

  /** A table of n integers at p. An empty table is read anywhere. */
  function TableAt(data: seq<byte>, p: int, n: int): Result<seq<int>, ReadError> {
    if n < 0 then Err(NegativeLength)
    else if p < 0 then Err(SeekFailed)
    else if n == 0 then Ok([])
    else if p + 4 * n > |data| then Err(EndOfFile)
    else Ok(Int32s(data, p, n))
  }

  // ---- header and layout ----

  datatype Header = Header(
    magic: int, majorVersion: int, minorVersion: int, flags: int,
    resourceCount: int, tableLength: int, locationsSize: int, stringsSize: int)

  function HeaderOf(data: seq<byte>): Result<Header, ReadError> {
    if |data| < HEADER_SIZE then Err(EndOfFile)
    else
      var version := Int32At(data, 4);
      Ok(Header(Int32At(data, 0), version / 0x1_0000, version % 0x1_0000, Int32At(data, 8),
                Int32At(data, 12), Int32At(data, 16), Int32At(data, 20), Int32At(data, 24)))
  }

  datatype Table = Table(entries: seq<int>, offset: int) {
    function Size(): int { Wrap32(4 * |entries|) }
  }

  datatype Image = Image(
    majorVersion: int, minorVersion: int, flags: int, resourceCount: int,
    redirects: Table, offsets: Table, locationsOffset: int, locationsSize: int, stringsOffset: int)

  function ImageOf(data: seq<byte>): Result<Image, ReadError> {
    match HeaderOf(data)
    case Err(e) => Err(e)
    case Ok(h) =>
      match TableAt(data, HEADER_SIZE, h.tableLength)
      case Err(e) => Err(e)
      case Ok(redirects) =>
        var r := Table(redirects, HEADER_SIZE);
        var offset := Wrap32(r.offset + r.Size());
        match TableAt(data, offset, h.tableLength)
        case Err(e) => Err(e)
        case Ok(offsets) =>
          var o := Table(offsets, offset);
          var locations := Wrap32(o.offset + o.Size());
          Ok(Image(h.majorVersion, h.minorVersion, h.flags, h.resourceCount, r, o,
                   locations, h.locationsSize, Wrap32(locations + h.locationsSize)))
  }

  // ---- locations ----

  datatype Location = Location(
    moduleOffset: int, parentOffset: int, baseOffset: int, extensionOffset: int,
    contentOffset: int, compressedSize: int, uncompressedSize: int)
  {
    function Set(kind: int, v: int): Location
      requires 1 <= kind <= 7
    {
      if kind == 1 then this.(moduleOffset := v)
      else if kind == 2 then this.(parentOffset := v)
      else if kind == 3 then this.(baseOffset := v)
      else if kind == 4 then this.(extensionOffset := v)
      else if kind == 5 then this.(contentOffset := v)
      else if kind == 6 then this.(compressedSize := v)
      else this.(uncompressedSize := v)
    }

    function Get(kind: int): int
      requires 1 <= kind <= 7
    {
      if kind == 1 then moduleOffset
      else if kind == 2 then parentOffset
      else if kind == 3 then baseOffset
      else if kind == 4 then extensionOffset
      else if kind == 5 then contentOffset
      else if kind == 6 then compressedSize
      else uncompressedSize
    }
  }

  const NO_LOCATION := Location(0, 0, 0, 0, 0, 0, 0)

  function BigEndian(bytes: seq<byte>): nat {
    if bytes == [] then 0 else 0x100 * BigEndian(bytes[..|bytes| - 1]) + bytes[|bytes| - 1]
  }

  /** Decodes attributes from p on, on top of what earlier ones have set. The kind is in the
      upper five bits of an attribute's first byte, the number of value bytes less one in the
      lower three. */
  function DecodeLocation(data: seq<byte>, p: nat, o: Location): Result<Location, ReadError>
    decreases |data| - p
  {
    if p >= |data| then Err(EndOfFile)
    else
      var kind, length := data[p] / 8, data[p] % 8 + 1;
      if kind == 0 then Ok(o)
      else if p + 1 + length > |data| then Err(EndOfFile)
      else if kind > 7 then Err(UnknownAttribute(kind))
      else DecodeLocation(data, p + 1 + length, o.Set(kind, Wrap32(BigEndian(data[p + 1..p + 1 + length]))))
  }

  function LocationAt(data: seq<byte>, p: int): Result<Location, ReadError> {
    if p < 0 then Err(SeekFailed) else DecodeLocation(data, p, NO_LOCATION)
  }

  // ---- strings ----

  /** A UTF-8 continuation byte. */
  predicate Continuation(b: byte) { b / 64 == 2 }

  /** The number of bytes that are not continuation bytes. */
  function Starts(s: seq<byte>): (n: nat)
    ensures n <= |s|
  {
    if s == [] then 0 else Starts(s[..|s| - 1]) + if Continuation(s[|s| - 1]) then 0 else 1
  }

  /** What a string read returns of a NUL-terminated string: as many of its first bytes as it
      has bytes that are not continuation bytes. */
  function Truncated(s: seq<byte>): seq<byte> {
    s[..Starts(s)]
  }

  /** The bytes from p up to the first NUL. */
  function CString(data: seq<byte>, p: nat): (r: Option<seq<byte>>)
    ensures r.Some? ==> p + |r.value| < |data| && data[p + |r.value|] == 0
    ensures r.Some? ==> At(data, p, r.value) && 0 !in r.value
    decreases |data| - p
  {
    if p >= |data| then None
    else if data[p] == 0 then Some([])
    else
      match CString(data, p + 1)
      case None => None
      case Some(rest) =>
        assert data[p..p + 1 + |rest|] == [data[p]] + rest;
        Some([data[p]] + rest)
  }

  function StringAt(data: seq<byte>, p: int): Result<seq<byte>, ReadError> {
    if p < 0 then Err(SeekFailed)
    else match CString(data, p)
      case None => Err(EndOfFile)
      case Some(s) => Ok(Truncated(s))
  }

  // ---- counting classes ----

  /** "class" */
  const CLASS: seq<byte> := [0x63, 0x6C, 0x61, 0x73, 0x73]

  /** Whether the location an offset entry points to has the extension "class". */
  function IsClass(data: seq<byte>, image: Image, entry: int): Result<bool, ReadError> {
    match LocationAt(data, image.locationsOffset + entry)
    case Err(e) => Err(e)
    case Ok(l) =>
      if l.extensionOffset == 0 then Ok(false)
      else match StringAt(data, image.stringsOffset + l.extensionOffset)
        case Err(e) => Err(e)
        case Ok(s) => Ok(s == CLASS)
  }

  /** The number of class entries, or the first error met. */
  function CountClasses(data: seq<byte>, image: Image, entries: seq<int>): Result<nat, ReadError> {
    if entries == [] then Ok(0)
    else match CountClasses(data, image, entries[..|entries| - 1])
      case Err(e) => Err(e)
      case Ok(n) =>
        match IsClass(data, image, entries[|entries| - 1])
        case Err(e) => Err(e)
        case Ok(b) => Ok(if b then n + 1 else n)
  }

  function ModuleClasses(data: seq<byte>): Result<nat, ReadError> {
    match ImageOf(data)
    case Err(e) => Err(e)
    case Ok(image) => CountClasses(data, image, image.offsets.entries)
  }

  lemma CountNone(data: seq<byte>, image: Image)
    ensures CountClasses(data, image, []) == Ok(0)
  {
  }

  lemma CountOneMore(data: seq<byte>, image: Image, entries: seq<int>, k: nat)
    requires k < |entries| && CountClasses(data, image, entries[..k]).Ok?
    ensures var n := CountClasses(data, image, entries[..k]).value;
      match IsClass(data, image, entries[k])
      case Err(e) => CountClasses(data, image, entries[..k + 1]) == Err(e)
      case Ok(b) => CountClasses(data, image, entries[..k + 1]) == Ok(if b then n + 1 else n)
  {
    hide IsClass;
    assert entries[..k + 1][..k] == entries[..k];
  }

  lemma {:induction false} CountStopsAtError(data: seq<byte>, image: Image, entries: seq<int>, i: nat)
    requires i <= |entries| && CountClasses(data, image, entries[..i]).Err?
    ensures CountClasses(data, image, entries) == CountClasses(data, image, entries[..i])
  {
    if i == |entries| {
      assert entries[..i] == entries;
    } else {
      var front := entries[..|entries| - 1];
      assert front[..i] == entries[..i];
      CountStopsAtError(data, image, front, i);
    }
  }
}
