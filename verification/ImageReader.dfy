/** The jimage reader: everything is read through one seekable cursor over the file, shared by
    the header, the tables, the locations and the strings. Every method's result is a function
    of the bytes alone, wherever earlier reads left the cursor. */
module ImageReader {
  import opened Wrappers
  import opened Machine
  import opened ImageFormat

  /** An open file: a position over fixed bytes. */
  class Cursor {
    const data: seq<byte>
    var pos: nat

    constructor (data: seq<byte>)
      ensures this.data == data && pos == 0
    {
      this.data := data;
      pos := 0;
    }

    /** Seeking before the start fails and moves nothing; seeking past the end does not fail. */
    method Seek(offset: int) returns (ok: bool)
      modifies this
      ensures ok <==> offset >= 0
      ensures pos == if ok then offset else old(pos)
    {
      ok := offset >= 0;
      if ok { pos := offset; }
    }

    method ReadByte() returns (r: Result<byte, ReadError>)
      modifies this
      ensures if old(pos) < |data| then r == Ok(data[old(pos)]) && pos == old(pos) + 1
              else r == Err(EndOfFile) && pos == old(pos)
    {
      if pos >= |data| { return Err(EndOfFile); }
      r := Ok(data[pos]);
      pos := pos + 1;
    }

    /** A short read consumes what is there. */
    method ReadInt32() returns (r: Result<int, ReadError>)
      modifies this
      ensures if old(pos) + 4 <= |data| then r == Ok(Int32At(data, old(pos))) && pos == old(pos) + 4
              else r == Err(EndOfFile) && old(pos) <= pos
    {
      if pos + 4 > |data| {
        if pos < |data| { pos := |data|; }
        return Err(EndOfFile);
      }
      r := Ok(Int32At(data, pos));
      pos := pos + 4;
    }

    /** Reads at an absolute position without moving the cursor. */
    method ReadAt(n: nat, offset: int) returns (r: Result<seq<byte>, ReadError>)
      ensures r == if offset < 0 then Err(SeekFailed)
                   else if n == 0 then Ok([])
                   else if offset + n <= |data| then Ok(data[offset..offset + n])
                   else Err(EndOfFile)
    {
      if offset < 0 { return Err(SeekFailed); }
      if n == 0 { return Ok([]); }
      if offset + n > |data| { return Err(EndOfFile); }
      return Ok(data[offset..offset + n]);
    }
  }

  method NewHeader(file: Cursor) returns (r: Result<Header, ReadError>)
    requires file.pos == 0
    modifies file
    ensures r == HeaderOf(file.data)
  {
    var magic := file.ReadInt32();
    if magic.Err? { return Err(magic.error); }
    var version := file.ReadInt32();
    if version.Err? { return Err(version.error); }
    var major, minor := version.value / 0x1_0000, version.value % 0x1_0000;
    var flags := file.ReadInt32();
    if flags.Err? { return Err(flags.error); }
    var resourceCount := file.ReadInt32();
    if resourceCount.Err? { return Err(resourceCount.error); }
    var tableLength := file.ReadInt32();
    if tableLength.Err? { return Err(tableLength.error); }
    var locationsSize := file.ReadInt32();
    if locationsSize.Err? { return Err(locationsSize.error); }
    var stringsSize := file.ReadInt32();
    if stringsSize.Err? { return Err(stringsSize.error); }
    return Ok(Header(magic.value, major, minor, flags.value, resourceCount.value, tableLength.value,
                     locationsSize.value, stringsSize.value));
  }

  /** Reads a redirect or an offset table. A negative length is the panic of make. */
  method NewTable(file: Cursor, offset: int, tableLength: int) returns (r: Result<Table, ReadError>)
    modifies file
    ensures match TableAt(file.data, offset, tableLength)
      case Ok(entries) => r == Ok(Table(entries, offset))
      case Err(e) => r == Err(e)
  {
    if tableLength < 0 { return Err(NegativeLength); }
    var ok := file.Seek(offset);
    if !ok { return Err(SeekFailed); }
    var entries: seq<int> := [];
    for i := 0 to tableLength
      invariant file.pos == offset + 4 * i
      invariant i > 0 ==> offset + 4 * i <= |file.data|
      invariant entries == if i == 0 then [] else Int32s(file.data, offset, i)
    {
      var v := file.ReadInt32();
      if v.Err? { return Err(v.error); }
      entries := entries + [v.value];
    }
    return Ok(Table(entries, offset));
  }

  method NewImage(file: Cursor) returns (r: Result<Image, ReadError>)
    requires file.pos == 0
    modifies file
    ensures r == ImageOf(file.data)
  {
    var h := NewHeader(file);
    if h.Err? { return Err(h.error); }
    var redirects := NewTable(file, HEADER_SIZE, h.value.tableLength);
    if redirects.Err? { return Err(redirects.error); }
    var offsets := NewTable(file, Wrap32(redirects.value.offset + redirects.value.Size()), h.value.tableLength);
    if offsets.Err? { return Err(offsets.error); }
    var locations := Wrap32(offsets.value.offset + offsets.value.Size());
    var strings := Wrap32(locations + h.value.locationsSize);
    return Ok(Image(h.value.majorVersion, h.value.minorVersion, h.value.flags, h.value.resourceCount,
                    redirects.value, offsets.value, locations, h.value.locationsSize, strings));
  }

  /** Shifting a 32-bit value left by eight and or-ing a byte in, on the low eight zero bits. */
  function ShiftIn(value: int, raw: byte): int {
    Wrap32(value * 0x100) + raw
  }

  lemma ShiftInIsWrapped(x: int, raw: byte)
    ensures ShiftIn(Wrap32(x), raw) == Wrap32(0x100 * x + raw)
  {
  }

  /** Decodes the location at base + offset. The inner loop shifts the value bytes in one by
      one; after it the value is the big-endian number modulo 2^32. */
  method GetLocation(file: Cursor, base: int, offset: int) returns (r: Result<Location, ReadError>)
    modifies file
    ensures r == LocationAt(file.data, base + offset)
  {
    var o := NO_LOCATION;
    var ok := file.Seek(base + offset);
    if !ok { return Err(SeekFailed); }
    while true
      invariant DecodeLocation(file.data, file.pos, o) == LocationAt(file.data, base + offset)
      decreases |file.data| - file.pos
    {
      ghost var start := file.pos;
      var raw := file.ReadByte();
      if raw.Err? { return Err(raw.error); }
      var kind := raw.value / 8;
      if kind == 0 { break; }
      var length := raw.value % 8 + 1;
      var value := 0;
      for i := 0 to length
        invariant file.pos == start + 1 + i <= |file.data|
        invariant value == Wrap32(BigEndian(file.data[start + 1..start + 1 + i]))
      {
        var b := file.ReadByte();
        if b.Err? { return Err(b.error); }
        var read := file.data[start + 1..start + 1 + i + 1];
        assert read[..i] == file.data[start + 1..start + 1 + i];
        ShiftInIsWrapped(BigEndian(read[..i]), b.value);
        value := ShiftIn(value, b.value);
      }
      if kind > 7 { return Err(UnknownAttribute(kind)); }
      o := o.Set(kind, value);
    }
    return Ok(o);
  }

  /** Reads the string at base + offset in two passes: count to the NUL, then read. */
  method GetString(file: Cursor, base: int, offset: int) returns (r: Result<seq<byte>, ReadError>)
    modifies file
    ensures r == StringAt(file.data, base + offset)
  {
    var p := base + offset;
    var ok := file.Seek(p);
    if !ok { return Err(SeekFailed); }
    var length: nat := 0;
    while true
      invariant p <= file.pos && (file.pos == p || file.pos <= |file.data|)
      invariant file.pos <= |file.data| ==> 0 !in file.data[p..file.pos] && length == Starts(file.data[p..file.pos])
      invariant file.pos > |file.data| ==> length == 0
      decreases |file.data| - file.pos
    {
      ghost var here := file.pos;
      var c := file.ReadByte();
      if c.Err? {
        NoCString(file.data, p, here);
        return Err(c.error);
      }
      if c.value == 0 {
        CStringEnds(file.data, p, here);
        break;
      }
      assert file.data[p..here + 1][..here - p] == file.data[p..here];
      if !Continuation(c.value) { length := length + 1; }
    }
    ghost var whole := CString(file.data, p).value;
    assert length == Starts(whole);
    assert file.data[p..p + length] == whole[..length];
    r := file.ReadAt(length, p);
  }

  lemma {:induction false} NoCString(data: seq<byte>, p: nat, end: nat)
    requires p <= end && |data| <= end && (p <= |data| ==> 0 !in data[p..])
    ensures CString(data, p).None?
    decreases |data| - p
  {
    if p < |data| {
      assert data[p] in data[p..];
      assert forall x :: x in data[p + 1..] ==> x in data[p..];
      NoCString(data, p + 1, if end == p then p + 1 else end);
    }
  }

  lemma {:induction false} CStringEnds(data: seq<byte>, p: nat, end: nat)
    requires p <= end < |data| && data[end] == 0 && 0 !in data[p..end]
    ensures CString(data, p) == Some(data[p..end])
    decreases |data| - p
  {
    if p < end {
      assert data[p..end] == [data[p]] + data[p + 1..end];
      CStringEnds(data, p + 1, end);
    }
  }

  /** Counts the class entries of an image. The method refines a function of the bytes: no
      result depends on where an earlier read left the cursor. */
  method CountModuleClasses(data: seq<byte>) returns (r: Result<nat, ReadError>)
    ensures r == ModuleClasses(data)
  {
    hide DecodeLocation, CString, Truncated, ImageOf, CountClasses;
    var file := new Cursor(data);
    var image := NewImage(file);
    if image.Err? { return Err(image.error); }
    var i := image.value;
    var entries := i.offsets.entries;
    var count: nat := 0;
    assert CountClasses(data, i, []) == Ok(0) by { CountNone(data, i); }
    for k := 0 to |entries|
      invariant CountClasses(data, i, entries[..k]) == Ok(count)
    {
      CountOneMore(data, i, entries, k);
      var l := GetLocation(file, i.locationsOffset, entries[k]);
      if l.Err? {
        CountStopsAtError(data, i, entries, k + 1);
        return Err(l.error);
      }
      if l.value.extensionOffset != 0 {
        var e := GetString(file, i.stringsOffset, l.value.extensionOffset);
        if e.Err? {
          CountStopsAtError(data, i, entries, k + 1);
          return Err(e.error);
        }
        if e.value == CLASS { count := count + 1; }
      }
    }
    assert entries[..|entries|] == entries;
    return Ok(count);
  }
}
