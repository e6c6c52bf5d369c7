/** The file cache and its binary image on disk. A byte is written as the char of its
    value. */
module CacheImage {
  import opened Text

  const MAGIC: nat := 0xCAFEBABE
  const VERSION: nat := 1
  const MAX_FILENAME: nat := 256
  const MAX_MIME_TYPE: nat := 64
  const MAX_CACHED_FILES: nat := 1024
  const TWO_32: nat := 0x1_0000_0000
  const TWO_63: int := 0x8000_0000_0000_0000
  const TWO_64: nat := 0x1_0000_0000_0000_0000

  /** CachedFile; `modified` is a 64-bit time_t. */
  datatype CachedFile = CachedFile(name: string, mime: string, data: string, modified: int, loaded: bool)

  // ------------------------------------------------------------------------ integers

  function Power(n: nat): (p: nat)
    ensures p > 0
  {
    if n == 0 then 1 else 256 * Power(n - 1)
  }

  /** v as n bytes, least significant first. */
  function LittleEndian(v: nat, n: nat): (r: string)
    ensures |r| == n
  {
    if n == 0 then "" else [(v % 256) as char] + LittleEndian(v / 256, n - 1)
  }

  function Value(bytes: string): nat {
    if bytes == "" then 0 else bytes[0] as nat + 256 * Value(bytes[1..])
  }

  lemma {:induction false} IntegerRoundTrip(v: nat, n: nat)
    requires v < Power(n)
    ensures Value(LittleEndian(v, n)) == v
  {
    if n > 0 {
      assert v / 256 < Power(n - 1);
      IntegerRoundTrip(v / 256, n - 1);
      assert LittleEndian(v, n)[1..] == LittleEndian(v / 256, n - 1);
    }
  }

  lemma Powers()
    ensures Power(4) == TWO_32 && Power(8) == TWO_64
  {
    assert Power(1) == 256 && Power(2) == 0x1_0000 && Power(3) == 0x100_0000 && Power(4) == TWO_32;
    assert Power(5) == 256 * TWO_32 && Power(6) == 256 * 256 * TWO_32 && Power(7) == 256 * 256 * 256 * TWO_32;
  }

  function U32(v: nat): string {
    LittleEndian(v, 4)
  }

  function U64(v: nat): string {
    LittleEndian(v, 8)
  }

  /** The cast between time_t and uint64_t. */
  function Unsigned(t: int): nat
    requires -TWO_63 <= t < TWO_63
  {
    if t < 0 then t + TWO_64 else t
  }

  function Signed(u: nat): int {
    if u < TWO_63 then u else u - TWO_64
  }

  // ------------------------------------------------------------------------- writing

  /** What save_cache demands of an entry, and what the C types guarantee. */
  predicate Storable(e: CachedFile) {
    && |e.name| < MAX_FILENAME && |e.mime| < MAX_MIME_TYPE
    && |e.data| < TWO_64 && -TWO_63 <= e.modified < TWO_63 && e.loaded
  }

  predicate AllStorable(es: seq<CachedFile>) {
    forall k :: 0 <= k < |es| ==> Storable(es[k])
  }

  function Block(s: string): string
  {
    U32(|s|) + s
  }

  function EntryImage(e: CachedFile): string
    requires Storable(e)
  {
    Block(e.name) + Block(e.mime) + U64(|e.data|) + U64(Unsigned(e.modified)) + e.data
  }

  function Body(es: seq<CachedFile>): string
    requires AllStorable(es)
  {
    if es == [] then "" else EntryImage(es[0]) + Body(es[1..])
  }

  function Header(count: nat): (h: string)
    ensures |h| == 12
  {
    U32(MAGIC) + U32(VERSION) + U32(count)
  }

  function Image(es: seq<CachedFile>): string
    requires AllStorable(es)
  {
    Header(|es|) + Body(es)
  }

  // ------------------------------------------------------------------------- reading

  datatype Read<T> = Short | Got(value: T, rest: string)

  function ReadBytes(s: string, n: nat): Read<string> {
    if |s| < n then Short else Got(s[..n], s[n..])
  }

  function ReadInt(s: string, n: nat): Read<nat> {
    if |s| < n then Short else Got(Value(s[..n]), s[n..])
  }

  /** A length and that many bytes; a length that does not fit its buffer ends the load. */
  function ReadBlock(s: string, bound: nat): Read<string> {
    var n := ReadInt(s, 4);
    if n.Short? || n.value >= bound then Short else ReadBytes(n.rest, n.value)
  }

  datatype Entry = Broken | Skipped(name: string, mime: string, rest: string) | Loaded(file: CachedFile, rest: string)

  predicate TooLarge(size: nat, limit: nat) {
    limit != 0 && size > limit
  }

  /** One turn of the load loop. */
  function ReadEntry(s: string, limit: nat): (e: Entry)
    ensures !e.Broken? ==> |e.rest| < |s|
  {
    var name := ReadBlock(s, MAX_FILENAME);
    if name.Short? then Broken else
    var mime := ReadBlock(name.rest, MAX_MIME_TYPE);
    if mime.Short? then Broken else
    var size := ReadInt(mime.rest, 8);
    if size.Short? then Broken else
    var time := ReadInt(size.rest, 8);
    if time.Short? then Broken
    else if TooLarge(size.value, limit) then
      Skipped(name.value, mime.value, From(time.rest, size.value))
    else
      var data := ReadBytes(time.rest, size.value);
      if data.Short? then Broken
      else Loaded(CachedFile(name.value, mime.value, data.value, Signed(time.value), true), data.rest)
  }

  /** The table of slots and the number of entries it is said to hold. */
  datatype Table = Table(slots: seq<CachedFile>, count: nat)

  predicate WellFormed(t: Table) {
    |t.slots| == MAX_CACHED_FILES && t.count <= MAX_CACHED_FILES
  }

  /** The load loop from slot i on, when the header announces n entries. A skipped entry
      uses up its slot, but is not counted. */
  function LoadFrom(t: Table, s: string, i: nat, n: nat, limit: nat): (r: Table)
    requires |t.slots| == MAX_CACHED_FILES && t.count <= i
    ensures |r.slots| == MAX_CACHED_FILES && (t.count <= MAX_CACHED_FILES ==> r.count <= MAX_CACHED_FILES)
    decreases n - i
  {
    if i >= n || i >= MAX_CACHED_FILES then t
    else
      var e := ReadEntry(s, limit);
      match e
      case Broken => t
      case Skipped(name, mime, rest) =>
        LoadFrom(t.(slots := t.slots[i := t.slots[i].(name := name, mime := mime)]), rest, i + 1, n, limit)
      case Loaded(file, rest) =>
        LoadFrom(Table(t.slots[i := file], t.count + 1), rest, i + 1, n, limit)
  }

  /** clear_cache */
  function Cleared(t: Table): (r: Table)
    requires |t.slots| == MAX_CACHED_FILES
    ensures |r.slots| == MAX_CACHED_FILES && r.count == 0
  {
    Table(seq(MAX_CACHED_FILES, i requires 0 <= i < MAX_CACHED_FILES =>
                if i < t.count then t.slots[i].(data := "", loaded := false) else t.slots[i]), 0)
  }

  predicate GoodHeader(s: string) {
    |s| >= 12 && Value(s[..4]) == MAGIC && Value(s[4..8]) == VERSION
  }

  function LoadTable(t: Table, s: string, limit: nat): (r: Table)
    requires WellFormed(t)
    ensures WellFormed(r)
  {
    if GoodHeader(s) then LoadFrom(Cleared(t), s[12..], 0, Value(s[8..12]), limit) else t
  }

  /** The entries a lookup can find. */
  function Visible(t: Table): seq<CachedFile>
    requires t.count <= |t.slots|
  {
    t.slots[..t.count]
  }

  // --------------------------------------------------------------------------- files

  /** A file open for writing; the disk may take less than it is given, and nothing when
      it is full. */
  class OutFile {
    var contents: string
    var room: nat

    constructor (room: nat)
      ensures contents == ""
    {
      contents, this.room := "", room;
    }

    /** fwrite(chunk, 1, |chunk|, file) */
    method Write(chunk: string) returns (n: nat)
      modifies this
      ensures n <= |chunk| && contents == old(contents) + chunk[..n]
    {
      var taken: int := *;
      n := if 0 <= taken <= |chunk| && taken <= room then taken else if |chunk| < room then |chunk| else room;
      contents := contents + chunk[..n];
      room := room - n;
    }
  }

  /** A file open for reading; a read may be short, and is empty only at the end. */
  class InFile {
    const contents: string
    var pos: nat

    ghost predicate Valid()
      reads this
    {
      pos <= |contents|
    }

    /** What has not been read yet. */
    ghost function Rest(): string
      requires Valid()
      reads this
    {
      contents[pos..]
    }

    constructor (contents: string)
      ensures Valid() && this.contents == contents && Rest() == contents
    {
      this.contents, pos := contents, 0;
    }

    /** fread(buffer, 1, len, file) */
    method Read(len: nat) returns (chunk: string)
      requires Valid() && len > 0
      modifies this
      ensures Valid() && |chunk| <= len && old(Rest()) == chunk + Rest()
      ensures chunk == "" ==> Rest() == ""
    {
      var left := |contents| - pos;
      var given: int := *;
      var n := if 0 < given <= len && given <= left then given else if len < left then len else left;
      chunk := contents[pos..pos + n];
      pos := pos + n;
    }
  }

  /** write_bytes */
  method WriteBytes(f: OutFile, buf: string) returns (ok: bool)
    modifies f
    ensures old(f.contents) <= f.contents <= old(f.contents) + buf
    ensures ok <==> f.contents == old(f.contents) + buf
  {
    var off := 0;
    while off < |buf|
      invariant off <= |buf| && f.contents == old(f.contents) + buf[..off]
    {
      var n := f.Write(buf[off..]);
      if n == 0 {
        return false;
      }
      assert buf[..off] + buf[off..][..n] == buf[..off + n];
      off := off + n;
    }
    ok := true;
  }

  /** read_bytes; the buffer is what it returns. */
  method FillBytes(f: InFile, len: nat) returns (ok: bool, buf: string)
    requires f.Valid()
    modifies f
    ensures f.Valid() && ok == (len <= |old(f.Rest())|)
    ensures ok ==> buf == old(f.Rest())[..len] && f.Rest() == old(f.Rest())[len..]
  {
    buf := "";
    ghost var all := f.Rest();
    while |buf| < len
      invariant f.Valid() && |buf| <= len && all == buf + f.Rest()
      decreases len - |buf|
    {
      var chunk := f.Read(len - |buf|);
      assert buf + (chunk + f.Rest()) == buf + chunk + f.Rest();
      if chunk == "" {
        assert all == buf;
        return false, buf;
      }
      buf := buf + chunk;
    }
    ok := true;
  }

  /** write_u32_le */
  method WriteU32(f: OutFile, v: nat) returns (ok: bool)
    requires v < TWO_32
    modifies f
    ensures old(f.contents) <= f.contents <= old(f.contents) + U32(v)
    ensures ok <==> f.contents == old(f.contents) + U32(v)
  {
    var b := [(v % 256) as char, (v / 0x100 % 256) as char, (v / 0x1_0000 % 256) as char,
      (v / 0x100_0000 % 256) as char];
    FourBytes(v);
    ok := WriteBytes(f, b);
  }

  lemma Peel(v: nat, n: nat)
    requires n > 0
    ensures LittleEndian(v, n) == [(v % 256) as char] + LittleEndian(v / 256, n - 1)
    ensures LittleEndian(v, 0) == ""
  {}

  lemma PeelFour(v: nat, n: nat)
    requires n >= 4
    ensures LittleEndian(v, n)
            == [(v % 256) as char, (v / 0x100 % 256) as char, (v / 0x1_0000 % 256) as char,
              (v / 0x100_0000 % 256) as char]
               + LittleEndian(v / TWO_32, n - 4)
  {
    var a := v / 256;
    var b := a / 256;
    var c := b / 256;
    Peel(v, n);
    Peel(a, n - 1);
    Peel(b, n - 2);
    Peel(c, n - 3);
    hide LittleEndian;
    assert b == v / 0x1_0000 && c == v / 0x100_0000 && c / 256 == v / TWO_32;
  }

  lemma FourBytes(v: nat)
    ensures U32(v) == [(v % 256) as char, (v / 0x100 % 256) as char, (v / 0x1_0000 % 256) as char,
            (v / 0x100_0000 % 256) as char]
  {
    PeelFour(v, 4);
    assert LittleEndian(v / TWO_32, 0) == "";
  }

  /** write_u64_le: the low word, then the high word. */
  method WriteU64(f: OutFile, v: nat) returns (ok: bool)
    requires v < TWO_64
    modifies f
    ensures old(f.contents) <= f.contents <= old(f.contents) + U64(v)
    ensures ok <==> f.contents == old(f.contents) + U64(v)
  {
    var w := v / TWO_32;
    var b := [(v % 256) as char, (v / 0x100 % 256) as char, (v / 0x1_0000 % 256) as char,
      (v / 0x100_0000 % 256) as char,
              (w % 256) as char, (w / 0x100 % 256) as char, (w / 0x1_0000 % 256) as char,
                (w / 0x100_0000 % 256) as char];
    FourBytes(v);
    FourBytes(w);
    EightBytes(v);
    assert b == U32(v) + U32(w);
    ok := WriteBytes(f, b);
  }

  lemma EightBytes(v: nat)
    ensures U64(v) == U32(v) + U32(v / TWO_32)
  {
    PeelFour(v, 8);
    FourBytes(v);
    hide LittleEndian;
  }

  /** read_u32_le and read_u64_le: n little-endian bytes. */
  method FillInt(f: InFile, n: nat) returns (ok: bool, v: nat)
    requires f.Valid()
    modifies f
    ensures f.Valid() && ok == ReadInt(old(f.Rest()), n).Got?
    ensures ok ==> ReadInt(old(f.Rest()), n) == Got(v, f.Rest())
  {
    var b;
    ok, b := FillBytes(f, n);
    v := 0;
    if ok {
      assert |b| == n;
      var k := n;
      while k > 0
        invariant 0 <= k <= n == |b| && v == Value(b[k..])
      {
        k := k - 1;
        assert b[k..][1..] == b[k + 1..];
        v := b[k] as nat + 256 * v;
      }
      assert b[0..] == b;
    }
  }

  method FillBlock(f: InFile, bound: nat) returns (ok: bool, t: string)
    requires f.Valid()
    modifies f
    ensures f.Valid() && ok == ReadBlock(old(f.Rest()), bound).Got?
    ensures ok ==> ReadBlock(old(f.Rest()), bound) == Got(t, f.Rest())
  {
    hide Value;
    var n;
    ok, n := FillInt(f, 4);
    if !ok || n >= bound {
      return false, "";
    }
    ok, t := FillBytes(f, n);
  }

  /** fseek(file, size, SEEK_CUR) */
  method SkipBytes(f: InFile, size: nat)
    requires f.Valid()
    modifies f
    ensures f.Valid() && f.Rest() == From(old(f.Rest()), size)
  {
    var left := |f.contents| - f.pos;
    f.pos := if size <= left then f.pos + size else |f.contents|;
  }

  /** The body of the load loop. */
  method FillEntry(f: InFile, limit: nat) returns (e: Entry)
    requires f.Valid()
    modifies f
    ensures f.Valid() && e == ReadEntry(old(f.Rest()), limit) && (!e.Broken? ==> e.rest == f.Rest())
  {
    hide ReadBlock, ReadInt;
    e := Broken;
    var ok, name := FillBlock(f, MAX_FILENAME);
    if !ok {
      return;
    }
    var mime, size, modified, data;
    ok, mime := FillBlock(f, MAX_MIME_TYPE);
    if !ok {
      return;
    }
    ok, size := FillInt(f, 8);
    if !ok {
      return;
    }
    ok, modified := FillInt(f, 8);
    if !ok {
      return;
    }
    if TooLarge(size, limit) {
      SkipBytes(f, size);
      return Skipped(name, mime, f.contents[f.pos..]);
    }
    ok, data := FillBytes(f, size);
    if !ok {
      return;
    }
    e := Loaded(CachedFile(name, mime, data, Signed(modified), true), f.contents[f.pos..]);
  }

  /** What the C types guarantee of an entry. */
  predicate Sized(e: CachedFile) {
    |e.name| < TWO_32 && |e.mime| < TWO_32 && |e.data| < TWO_64 && -TWO_63 <= e.modified < TWO_63 && e.loaded
  }

  method WriteBlock(f: OutFile, t: string) returns (ok: bool)
    requires |t| < TWO_32
    modifies f
    ensures old(f.contents) <= f.contents <= old(f.contents) + Block(t)
    ensures ok <==> f.contents == old(f.contents) + Block(t)
  {
    hide LittleEndian;
    ghost var start := f.contents;
    ok := WriteU32(f, |t|);
    Extends(start, U32(|t|), t, f.contents);
    if ok {
      ok := WriteBytes(f, t);
    }
  }

  /** A prefix of the first part is a proper prefix of both, unless it is all of it. */
  lemma Extends(start: string, a: string, b: string, now: string)
    requires start <= now <= start + a
    ensures now <= start + (a + b) && (start + a) + b == start + (a + b)
    ensures now != start + a ==> now != start + (a + b)
  {
    assert start + (a + b) == start + a + b;
    assert now != start + a ==> |now| < |start + a|;
  }

  /** The writes of one entry. A name that is too long for a cache image is refused. */
  method WriteEntry(f: OutFile, e: CachedFile) returns (ok: bool)
    requires Sized(e)
    modifies f
    ensures ok ==> Storable(e)
    ensures Storable(e) ==> old(f.contents) <= f.contents <= old(f.contents) + EntryImage(e)
    ensures Storable(e) ==> (ok <==> f.contents == old(f.contents) + EntryImage(e))
  {
    if |e.name| >= MAX_FILENAME || |e.mime| >= MAX_MIME_TYPE {
      return false;
    }
    hide LittleEndian, Block, U64, Unsigned;
    var time := Unsigned(e.modified);
    ghost var start, a, b, c, d := f.contents, Block(e.name), Block(e.mime), U64(|e.data|), U64(time);
    assert EntryImage(e) == a + (b + (c + (d + e.data)));
    ok := WriteBlock(f, e.name);
    Extends(start, a, b + (c + (d + e.data)), f.contents);
    if !ok {
      return;
    }
    ok := WriteBlock(f, e.mime);
    Extends(start + a, b, c + (d + e.data), f.contents);
    Whole(start, a, b + (c + (d + e.data)));
    if !ok {
      return;
    }
    ok := WriteU64(f, |e.data|);
    Extends(start + a + b, c, d + e.data, f.contents);
    Whole(start + a, b, c + (d + e.data));
    if !ok {
      return;
    }
    ok := WriteU64(f, time);
    Extends(start + a + b + c, d, e.data, f.contents);
    Whole(start + a + b, c, d + e.data);
    if !ok {
      return;
    }
    ok := WriteBytes(f, e.data);
    Whole(start + a + b + c, d, e.data);
  }

  lemma Whole(start: string, a: string, b: string)
    ensures start + (a + b) == start + a + b && start <= start + a
  {}

  lemma {:induction false} BodyConcat(a: seq<CachedFile>, b: seq<CachedFile>)
    requires AllStorable(a) && AllStorable(b)
    ensures AllStorable(a + b) && Body(a + b) == Body(a) + Body(b)
  {
    hide EntryImage, Storable;
    if a == [] {
      assert a + b == b;
    } else {
      assert (a + b)[1..] == a[1..] + b && (a + b)[0] == a[0];
      BodyConcat(a[1..], b);
    }
  }

  lemma BodyStarts()
    ensures Body([]) == ""
  {}

  lemma StorableMore(es: seq<CachedFile>, i: nat)
    requires i < |es| && AllStorable(es[..i]) && Storable(es[i])
    ensures AllStorable(es[..i + 1]) && Body(es[..i + 1]) == Body(es[..i]) + EntryImage(es[i])
  {
    var b := [es[i]];
    assert es[..i + 1] == es[..i] + b && AllStorable(b);
    BodyConcat(es[..i], b);
    assert b[1..] == [] && Body(b) == EntryImage(es[i]) + Body([]) && Body([]) == "";
    hide Body, EntryImage;
    assert Body(b) == EntryImage(es[i]);
  }

  /** An image is cut at every entry. */
  lemma ImageParts(es: seq<CachedFile>, i: nat)
    requires AllStorable(es) && i < |es|
    ensures AllStorable(es[..i]) && Storable(es[i]) && AllStorable(es[..i + 1])
    ensures Header(|es|) + Body(es[..i]) + EntryImage(es[i]) == Header(|es|) + Body(es[..i + 1]) <= Image(es)
  {
    assert AllStorable(es[..i]) && Storable(es[i]) && AllStorable(es[i + 1..]);
    assert es == es[..i + 1] + es[i + 1..];
    hide Body, EntryImage, Header, Storable;
    StorableMore(es, i);
    BodyConcat(es[..i + 1], es[i + 1..]);
    FourParts(Header(|es|), Body(es[..i]), EntryImage(es[i]), Body(es[i + 1..]));
    hide AllStorable;
  }

  lemma FourParts(h: string, x: string, y: string, z: string)
    ensures h + x + y == h + (x + y) <= h + ((x + y) + z)
  {
    assert h + ((x + y) + z) == h + (x + y) + z;
  }

  /** The global file cache. */
  class FileCache {
    var slots: array<CachedFile>
    var count: nat

    ghost predicate Valid()
      reads this
    {
      slots.Length == MAX_CACHED_FILES && count <= MAX_CACHED_FILES
    }

    ghost function View(): Table
      requires Valid()
      reads this, slots
    {
      Table(slots[..], count)
    }

    constructor ()
      ensures Valid() && fresh(slots) && Visible(View()) == []
    {
      slots := new CachedFile[MAX_CACHED_FILES](_ => CachedFile("", "", "", 0, false));
      count := 0;
    }

    /** cweb_fileserver_clear_cache */
    method Clear()
      requires Valid()
      modifies this, slots
      ensures Valid() && slots == old(slots) && View() == Cleared(old(View())) && count == 0
      ensures forall k :: 0 <= k < old(count) ==> slots[k].data == "" && !slots[k].loaded
    {
      for i := 0 to count
        invariant Valid() && slots == old(slots) && count == old(count)
        invariant forall k :: 0 <= k < MAX_CACHED_FILES ==>
                    slots[k] == if k < i then old(slots[k]).(data := "", loaded := false) else old(slots[k])
      {
        slots[i] := slots[i].(data := "", loaded := false);
      }
      count := 0;
      assert slots[..] == Cleared(old(View())).slots;
    }

    /** cweb_fileserver_save_cache, on a file just opened for writing. */
    method Save(f: OutFile) returns (ok: bool)
      requires Valid() && f.contents == "" && forall e :: e in Visible(View()) ==> Sized(e)
      modifies f
      ensures ok ==> AllStorable(Visible(View())) && f.contents == Image(Visible(View()))
      ensures AllStorable(Visible(View())) ==> f.contents <= Image(Visible(View()))
    {
      hide EntryImage, LittleEndian, Body, Sized, Storable;
      ghost var es := Visible(View());
      ghost var m, v, c := U32(MAGIC), U32(VERSION), U32(count);
      assert Header(count) == m + (v + c) == m + v + c && "" + m == m;
      assert AllStorable(es) ==> Image(es) == m + (v + (c + Body(es)));
      ok := WriteU32(f, MAGIC);
      if !ok {
        return;
      }
      ok := WriteU32(f, VERSION);
      if !ok {
        return;
      }
      ok := WriteU32(f, count);
      if !ok {
        return;
      }
      var i := 0;
      BodyStarts();
      while i < count
        invariant i <= count == |es| && AllStorable(es[..i]) && f.contents == Header(count) + Body(es[..i])
      {
        assert es[i] == slots[i] && es[i] in es;
        if AllStorable(es) {
          ImageParts(es, i);
        }
        ok := WriteEntry(f, slots[i]);
        if !ok {
          return;
        }
        StorableMore(es, i);
        i := i + 1;
      }
      assert es[..i] == es;
    }

    /** cweb_fileserver_load_cache, on a file just opened for reading. */
    method Load(f: InFile, limit: nat) returns (ok: bool)
      requires Valid() && f.Valid() && f.pos == 0
      modifies this, slots, f
      ensures Valid() && slots == old(slots) && ok == GoodHeader(f.contents)
      ensures View() == LoadTable(old(View()), f.contents, limit)
    {
      hide Value, LoadFrom, ReadEntry;
      ghost var all := f.contents;
      var magic, version, fileCount;
      ok, magic := FillInt(f, 4);
      if !ok || magic != MAGIC {
        return false;
      }
      assert |all| >= 8 ==> all[4..][..4] == all[4..8] && all[4..][4..] == all[8..];
      assert |all| >= 12 ==> all[8..][..4] == all[8..12] && all[8..][4..] == all[12..];
      ok, version := FillInt(f, 4);
      if !ok || version != VERSION {
        return false;
      }
      ok, fileCount := FillInt(f, 4);
      if !ok {
        return false;
      }
      Clear();
      var i := 0;
      while i < fileCount && i < MAX_CACHED_FILES
        invariant Valid() && slots == old(slots) && f.Valid() && count <= i
        invariant LoadFrom(View(), f.Rest(), i, fileCount, limit)
                  == LoadFrom(Cleared(old(View())), all[12..], 0, fileCount, limit)
      {
        ghost var before, rest := View(), f.Rest();
        LoadTurn(before, rest, i, fileCount, limit);
        var e := FillEntry(f, limit);
        if e.Broken? {
          return true;
        }
        if e.Skipped? {
          slots[i] := slots[i].(name := e.name, mime := e.mime);
        } else {
          slots[i] := e.file;
          count := count + 1;
        }
        assert slots[..] == before.slots[i := slots[i]];
        i := i + 1;
      }
      LoadEnds(View(), f.Rest(), i, fileCount, limit);
      ok := true;
    }
  }

  lemma LoadTurn(t: Table, s: string, i: nat, n: nat, limit: nat)
    requires |t.slots| == MAX_CACHED_FILES && t.count <= i < n && i < MAX_CACHED_FILES
    ensures var e := ReadEntry(s, limit);
            LoadFrom(t, s, i, n, limit)
            == match e
               case Broken => t
               case Skipped(name, mime, rest) =>
                 LoadFrom(t.(slots := t.slots[i := t.slots[i].(name := name, mime := mime)]), rest, i + 1, n, limit)
               case Loaded(file, rest) =>
                 LoadFrom(Table(t.slots[i := file], t.count + 1), rest, i + 1, n, limit)
  {
    hide ReadEntry;
  }

  lemma LoadEnds(t: Table, s: string, i: nat, n: nat, limit: nat)
    requires |t.slots| == MAX_CACHED_FILES && t.count <= i && (i >= n || i >= MAX_CACHED_FILES)
    ensures LoadFrom(t, s, i, n, limit) == t
  {}
}
