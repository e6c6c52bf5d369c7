/** Saving and loading the file cache. */
module CacheImageTheorems {
  import opened Text
  import opened CacheImage

  // ---------------------------------------------------------------------- round trip

  lemma IntIsRead(v: nat, n: nat, rest: string)
    requires v < Power(n)
    ensures ReadInt(LittleEndian(v, n) + rest, n) == Got(v, rest)
  {
    IntegerRoundTrip(v, n);
    var s := LittleEndian(v, n) + rest;
    hide LittleEndian, Value, Power;
    assert s[..n] == LittleEndian(v, n) && s[n..] == rest;
  }

  lemma BytesAreRead(t: string, rest: string)
    ensures ReadBytes(t + rest, |t|) == Got(t, rest)
  {
    assert (t + rest)[..|t|] == t && (t + rest)[|t|..] == rest;
  }

  lemma BlockIsRead(t: string, bound: nat, rest: string)
    requires |t| < bound <= TWO_32
    ensures ReadBlock(Block(t) + rest, bound) == Got(t, rest)
  {
    Powers();
    hide LittleEndian, Value, Power;
    assert Block(t) + rest == U32(|t|) + (t + rest);
    IntIsRead(|t|, 4, t + rest);
    BytesAreRead(t, rest);
  }

  lemma EntryParts(e: CachedFile, rest: string)
    requires Storable(e)
    ensures EntryImage(e) + rest
            == Block(e.name) + (Block(e.mime) + (U64(|e.data|) + (U64(Unsigned(e.modified)) + (e.data + rest))))
  {
    hide Block, U64, Unsigned;
  }

  /** An entry that was written is read back, or skipped as a whole when it is too large. */
  lemma EntryRoundTrip(e: CachedFile, rest: string, limit: nat)
    requires Storable(e)
    ensures ReadEntry(EntryImage(e) + rest, limit)
            == if TooLarge(|e.data|, limit) then Skipped(e.name, e.mime, rest) else Loaded(e, rest)
  {
    EntryParts(e, rest);
    Powers();
    var afterTime := e.data + rest;
    var afterSize := U64(Unsigned(e.modified)) + afterTime;
    var afterMime := U64(|e.data|) + afterSize;
    BlockIsRead(e.name, MAX_FILENAME, Block(e.mime) + afterMime);
    BlockIsRead(e.mime, MAX_MIME_TYPE, afterMime);
    hide LittleEndian, Value, Power, ReadBlock, Block, EntryImage;
    IntIsRead(|e.data|, 8, afterSize);
    IntIsRead(Unsigned(e.modified), 8, afterTime);
    BytesAreRead(e.data, rest);
    hide ReadInt;
    assert Signed(Unsigned(e.modified)) == e.modified;
    assert From(afterTime, |e.data|) == rest;
  }

  /** How many entries are within the limit. */
  function Fitting(es: seq<CachedFile>, limit: nat): (n: nat)
    ensures n <= |es|
  {
    if es == [] then 0 else (if TooLarge(|es[0].data|, limit) then 0 else 1) + Fitting(es[1..], limit)
  }

  lemma {:induction false} AllFit(es: seq<CachedFile>, limit: nat)
    ensures Fitting(es, limit) == |es| <==> forall e :: e in es ==> !TooLarge(|e.data|, limit)
  {
    if es != [] {
      AllFit(es[1..], limit);
      assert es[0] in es;
    }
  }

  lemma LoadStep(t: Table, s: string, i: nat, n: nat, limit: nat, e: CachedFile, rest: string)
    requires |t.slots| == MAX_CACHED_FILES && t.count <= i < n <= MAX_CACHED_FILES
    requires Storable(e) && s == EntryImage(e) + rest
    ensures LoadFrom(t, s, i, n, limit)
            == if TooLarge(|e.data|, limit) then
                 LoadFrom(t.(slots := t.slots[i := t.slots[i].(name := e.name, mime := e.mime)]), rest, i + 1, n, limit)
               else LoadFrom(Table(t.slots[i := e], t.count + 1), rest, i + 1, n, limit)
  {
    hide ReadEntry, EntryImage, TooLarge;
    EntryRoundTrip(e, rest, limit);
  }

  lemma {:induction false} BodyCounts(t: Table, es: seq<CachedFile>, i: nat, n: nat, limit: nat)
    requires |t.slots| == MAX_CACHED_FILES && t.count <= i && i + |es| == n <= MAX_CACHED_FILES && AllStorable(es)
    ensures LoadFrom(t, Body(es), i, n, limit).count == t.count + Fitting(es, limit)
    decreases |es|
  {
    hide LoadFrom, EntryImage, TooLarge, Storable;
    if es == [] {
      LoadEnds(t, Body(es), i, n, limit);
    } else {
      var e, rest := es[0], es[1..];
      assert AllStorable(rest) && Storable(e);
      LoadStep(t, Body(es), i, n, limit, e, Body(rest));
      hide Body;
      if TooLarge(|e.data|, limit) {
        BodyCounts(t.(slots := t.slots[i := t.slots[i].(name := e.name, mime := e.mime)]), rest, i + 1, n, limit);
      } else {
        BodyCounts(Table(t.slots[i := e], t.count + 1), rest, i + 1, n, limit);
      }
    }
  }

  /** The entries whose image is complete within k bytes. */
  function Complete(es: seq<CachedFile>, k: nat): (m: nat)
    requires AllStorable(es)
    ensures m <= |es|
  {
    if es == [] then 0
    else
      assert Storable(es[0]);
      if |EntryImage(es[0])| > k then 0 else 1 + Complete(es[1..], k - |EntryImage(es[0])|)
  }

  // --------------------------------------------------------------------- truncation

  lemma IntPrefix(p: string, q: string, n: nat)
    requires ReadInt(p, n).Got?
    ensures ReadInt(p + q, n) == Got(ReadInt(p, n).value, ReadInt(p, n).rest + q)
  {
    hide Value;
    assert (p + q)[..n] == p[..n] && (p + q)[n..] == p[n..] + q;
  }

  lemma BytesPrefix(p: string, q: string, n: nat)
    requires ReadBytes(p, n).Got?
    ensures ReadBytes(p + q, n) == Got(ReadBytes(p, n).value, ReadBytes(p, n).rest + q)
  {
    assert (p + q)[..n] == p[..n] && (p + q)[n..] == p[n..] + q;
  }

  lemma BlockPrefix(p: string, q: string, bound: nat)
    requires ReadBlock(p, bound).Got?
    ensures ReadBlock(p + q, bound) == Got(ReadBlock(p, bound).value, ReadBlock(p, bound).rest + q)
  {
    IntPrefix(p, q, 4);
    BytesPrefix(ReadInt(p, 4).rest, q, ReadInt(p, 4).value);
    hide ReadInt, ReadBytes;
  }

  /** What can be read from a truncated file is read in the same way from the whole one. */
  lemma EntryPrefix(p: string, q: string, limit: nat)
    requires !ReadEntry(p, limit).Broken?
    ensures !ReadEntry(p + q, limit).Broken? && (ReadEntry(p + q, limit).Skipped? <==> ReadEntry(p, limit).Skipped?)
    ensures ReadEntry(p, limit).Loaded? ==> ReadEntry(p + q, limit).rest == ReadEntry(p, limit).rest + q
  {
    hide ReadInt, ReadBytes, ReadBlock;
    BlockPrefix(p, q, MAX_FILENAME);
    var name := ReadBlock(p, MAX_FILENAME);
    BlockPrefix(name.rest, q, MAX_MIME_TYPE);
    var mime := ReadBlock(name.rest, MAX_MIME_TYPE);
    IntPrefix(mime.rest, q, 8);
    var size := ReadInt(mime.rest, 8);
    IntPrefix(size.rest, q, 8);
    var time := ReadInt(size.rest, 8);
    if !TooLarge(size.value, limit) {
      BytesPrefix(time.rest, q, size.value);
    }
  }

  lemma TruncatedEntry(e: CachedFile, p: string, q: string, limit: nat)
    requires Storable(e) && !TooLarge(|e.data|, limit) && EntryImage(e) == p + q && q != ""
    ensures ReadEntry(p, limit).Broken?
  {
    hide ReadEntry, EntryImage;
    EntryRoundTrip(e, "", limit);
    assert EntryImage(e) + "" == p + q;
    if !ReadEntry(p, limit).Broken? {
      EntryPrefix(p, q, limit);
    }
  }

  lemma {:induction false} BodyPrefix(t: Table, es: seq<CachedFile>, k: nat, i: nat, n: nat, limit: nat)
    requires |t.slots| == MAX_CACHED_FILES && t.count == i && i + |es| == n <= MAX_CACHED_FILES
    requires AllStorable(es) && k <= |Body(es)| && forall e :: e in es ==> !TooLarge(|e.data|, limit)
    ensures var r, m := LoadFrom(t, Body(es)[..k], i, n, limit), Complete(es, k);
            r.count == i + m && r.slots[..i + m] == t.slots[..i] + es[..m]
    decreases |es|
  {
    hide EntryImage, ReadEntry, TooLarge, Storable, Body, LoadFrom, Complete, AllStorable;
    CompleteStep(es, k);
    if es == [] {
      LoadEnds(t, Body(es)[..k], i, n, limit);
      assert t.slots[..i] + es[..0] == t.slots[..i];
    } else {
      BodySplit(es, k);
      var e, rest := es[0], es[1..];
      assert e in es && forall f :: f in rest ==> f in es;
      var size := |EntryImage(e)|;
      if size > k {
        NoEntry(t, Body(es)[..k], i, n, limit);
        assert t.slots[..i] + es[..0] == t.slots[..i];
      } else {
        LoadStep(t, Body(es)[..k], i, n, limit, e, Body(rest)[..k - size]);
        BodyPrefix(Table(t.slots[i := e], i + 1), rest, k - size, i + 1, n, limit);
        SlotFilled(t.slots, es, i, Complete(rest, k - size));
      }
    }
  }

  lemma CompleteStep(es: seq<CachedFile>, k: nat)
    requires AllStorable(es)
    ensures es == [] ==> Complete(es, k) == 0
    ensures es != [] ==>
              Storable(es[0]) && AllStorable(es[1..])
              && Complete(es, k) == if |EntryImage(es[0])| > k
                 then 0 else 1 + Complete(es[1..], k - |EntryImage(es[0])|)
  {
    hide Storable, EntryImage;
  }

  lemma SlotFilled(slots: seq<CachedFile>, es: seq<CachedFile>, i: nat, m: nat)
    requires i < |slots| && es != [] && m < |es|
    ensures slots[i := es[0]][..i + 1] + es[1..][..m] == slots[..i] + es[..m + 1]
  {}

  lemma NoEntry(t: Table, p: string, i: nat, n: nat, limit: nat)
    requires |t.slots| == MAX_CACHED_FILES && t.count <= i && ReadEntry(p, limit).Broken?
    ensures LoadFrom(t, p, i, n, limit) == t
  {
    hide ReadEntry;
  }

  /** Where a cut at byte k leaves the first entry. */
  lemma BodySplit(es: seq<CachedFile>, k: nat)
    requires es != [] && AllStorable(es) && k <= |Body(es)|
    ensures Storable(es[0]) && AllStorable(es[1..])
    ensures var size := |EntryImage(es[0])|;
            if size > k then
              forall limit :: !TooLarge(|es[0].data|, limit) ==> ReadEntry(Body(es)[..k], limit).Broken?
            else k - size <= |Body(es[1..])| && Body(es)[..k] == EntryImage(es[0]) + Body(es[1..])[..k - size]
  {
    assert Storable(es[0]) && AllStorable(es[1..]);
    var image, rest := EntryImage(es[0]), Body(es[1..]);
    assert Body(es) == image + rest;
    hide EntryImage, ReadEntry, TooLarge, Body, Storable;
    if |image| > k {
      assert image == (image + rest)[..k] + image[k..];
      forall limit | !TooLarge(|es[0].data|, limit)
        ensures ReadEntry(Body(es)[..k], limit).Broken?
      {
        TruncatedEntry(es[0], Body(es)[..k], image[k..], limit);
      }
    }
  }

  lemma {:induction false} CompleteBody(es: seq<CachedFile>)
    requires AllStorable(es)
    ensures Complete(es, |Body(es)|) == |es|
  {
    if es != [] {
      assert Storable(es[0]) && AllStorable(es[1..]);
      CompleteBody(es[1..]);
      hide EntryImage;
    }
  }

  lemma HeaderIsRead(count: nat, body: string)
    requires count < TWO_32
    ensures var s := Header(count) + body;
            GoodHeader(s) && Value(s[8..12]) == count && s[12..] == body
  {
    var s := Header(count) + body;
    Powers();
    IntegerRoundTrip(MAGIC, 4);
    IntegerRoundTrip(VERSION, 4);
    IntegerRoundTrip(count, 4);
    hide LittleEndian, Value, Power;
    assert s[..4] == U32(MAGIC) && s[4..8] == U32(VERSION) && s[8..12] == U32(count) && s[12..] == body;
  }

  // ------------------------------------------------------------------- the theorems

  /** Loading a file that was cut anywhere behind its header gives the entries whose
      images are complete, in order. */
  lemma TruncationLoadsPrefix(t: Table, es: seq<CachedFile>, k: nat, limit: nat)
    requires WellFormed(t) && |es| <= MAX_CACHED_FILES && AllStorable(es) && 12 <= k <= |Image(es)|
    requires forall e :: e in es ==> !TooLarge(|e.data|, limit)
    ensures Visible(LoadTable(t, Image(es)[..k], limit)) == es[..Complete(es, k - 12)]
  {
    hide Header, Body, Complete, GoodHeader, LoadFrom, AllStorable, TooLarge, Image, Cleared, Value;
    var b := ImageCut(es, k);
    var cleared := Cleared(t);
    HeaderIsRead(|es|, b);
    ClearedIsEmpty(t);
    BodyPrefix(cleared, es, k - 12, 0, |es|, limit);
    assert cleared.slots[..0] + es[..Complete(es, k - 12)] == es[..Complete(es, k - 12)];
  }

  lemma ClearedIsEmpty(t: Table)
    requires WellFormed(t)
    ensures Cleared(t).count == 0 && |Cleared(t).slots| == MAX_CACHED_FILES
  {}

  /** A cut behind the header leaves the header and a part of the body. */
  lemma ImageCut(es: seq<CachedFile>, k: nat) returns (b: string)
    requires AllStorable(es) && 12 <= k <= |Image(es)|
    ensures k - 12 <= |Body(es)| && b == Body(es)[..k - 12] && Image(es)[..k] == Header(|es|) + b
  {
    hide Body;
    b := Body(es)[..k - 12];
    assert |Header(|es|)| == 12;
  }

  /** A saved cache is loaded back as it was exactly when none of its files is larger than
      the limit in force at the load. */
  lemma SaveLoadRoundTrip(t: Table, es: seq<CachedFile>, limit: nat)
    requires WellFormed(t) && |es| <= 1024 && AllStorable(es)
    ensures var r := LoadTable(t, Image(es), limit);
            r.count <= MAX_CACHED_FILES
            && (Visible(r) == es <==> forall e :: e in es ==> limit == 0 || |e.data| <= limit)
  {
    hide Header, Body, LoadFrom, Complete, GoodHeader;
    HeaderIsRead(|es|, Body(es));
    BodyCounts(Cleared(t), es, 0, |es|, limit);
    AllFit(es, limit);
    if forall e :: e in es ==> !TooLarge(|e.data|, limit) {
      assert Image(es)[..|Image(es)|] == Image(es);
      TruncationLoadsPrefix(t, es, |Image(es)|, limit);
      CompleteBody(es);
    }
  }

  /** A file of two bytes is not loaded back when the limit is one byte. */
  lemma LowerLimitExample(t: Table)
    requires WellFormed(t)
    ensures var es := [CachedFile("/a", "", "xy", 0, true)];
            LoadTable(t, Image(es), 1).count <= MAX_CACHED_FILES && Visible(LoadTable(t, Image(es), 1)) != es
  {
    var e := CachedFile("/a", "", "xy", 0, true);
    assert Storable(e);
    assert e in [e] && TooLarge(|e.data|, 1);
    hide LoadTable, Image, Visible, Storable;
    SaveLoadRoundTrip(t, [e], 1);
  }

  // -------------------------------------------------------------------- byte by byte

  lemma SmallInteger(v: nat)
    requires v < 256
    ensures U32(v) == [v as char, NUL, NUL, NUL]
    ensures U64(v) == [v as char, NUL, NUL, NUL, NUL, NUL, NUL, NUL]
  {
    Zeros();
    hide LittleEndian;
    LastByte(v, 4);
    LastByte(v, 8);
  }

  lemma LastByte(v: nat, n: nat)
    requires v < 256 && n > 0
    ensures LittleEndian(v, n) == [v as char] + LittleEndian(0, n - 1)
  {}

  lemma Zeros()
    ensures LittleEndian(0, 3) == [NUL, NUL, NUL]
    ensures LittleEndian(0, 7) == [NUL, NUL, NUL, NUL, NUL, NUL, NUL]
  {
    assert LittleEndian(0, 1) == [NUL] && LittleEndian(0, 2) == [NUL, NUL];
    assert LittleEndian(0, 4) == [NUL] + LittleEndian(0, 3) && LittleEndian(0, 5) == [NUL] + LittleEndian(0, 4);
    assert LittleEndian(0, 6) == [NUL] + LittleEndian(0, 5) && LittleEndian(0, 7) == [NUL] + LittleEndian(0, 6);
  }

  lemma MagicBytes()
    ensures U32(MAGIC) == [0xBE as char, 0xBA as char, 0xFE as char, 0xCA as char]
  {
    assert LittleEndian(0xCA, 1) == [0xCA as char] by { assert LittleEndian(0, 0) == ""; }
    assert LittleEndian(0xCAFE, 2) == [0xFE as char] + LittleEndian(0xCA, 1);
    assert LittleEndian(0xCAFEBA, 3) == [0xBA as char] + LittleEndian(0xCAFE, 2);
    assert LittleEndian(0xCAFEBABE, 4) == [0xBE as char] + LittleEndian(0xCAFEBA, 3);
  }

  /** The image of a cache with one file, byte by byte: the magic number, the version and
      the number of entries; then name and type behind their lengths, the size of the
      file, its time, and the file. */
  lemma ImageExample()
    ensures var file := CachedFile("/a", "t", "xy", 5, true);
            && Storable(file)
            && Image([file])
               == [0xBE as char, 0xBA as char, 0xFE as char, 0xCA as char]
                  + [1 as char, NUL, NUL, NUL] + [1 as char, NUL, NUL, NUL]
                  + [2 as char, NUL, NUL, NUL, '/', 'a'] + [1 as char, NUL, NUL, NUL, 't']
                  + [2 as char, NUL, NUL, NUL, NUL, NUL, NUL, NUL] + [5 as char, NUL, NUL, NUL, NUL, NUL, NUL, NUL]
                  + ['x', 'y']
  {
    var file := CachedFile("/a", "t", "xy", 5, true);
    EntryExample();
    HeaderExample();
    hide EntryImage, Header, Storable;
    assert [file][1..] == [] && AllStorable([]) && Body([]) == "";
    assert Body([file]) == EntryImage(file) + "" == EntryImage(file);
    hide Body;
    InARow([0xBE as char, 0xBA as char, 0xFE as char, 0xCA as char]
      + [1 as char, NUL, NUL, NUL] + [1 as char, NUL, NUL, NUL], [2 as char, NUL, NUL, NUL, '/', 'a'],
      [1 as char, NUL, NUL, NUL, 't'], [2 as char, NUL, NUL, NUL, NUL, NUL, NUL, NUL],
      [5 as char, NUL, NUL, NUL, NUL, NUL, NUL, NUL], ['x', 'y']);
  }

  lemma InARow(a: string, b: string, c: string, d: string, e: string, f: string)
    ensures a + (b + c + d + e + f) == a + b + c + d + e + f
  {}

  lemma HeaderExample()
    ensures Header(1) == [0xBE as char, 0xBA as char, 0xFE as char, 0xCA as char]
                         + [1 as char, NUL, NUL, NUL] + [1 as char, NUL, NUL, NUL]
  {
    MagicBytes();
    SmallInteger(1);
    hide U32;
  }

  lemma EntryExample()
    ensures var file := CachedFile("/a", "t", "xy", 5, true);
            && Storable(file)
            && EntryImage(file) == [2 as char, NUL, NUL, NUL, '/', 'a'] + [1 as char, NUL, NUL, NUL, 't']
                                   + [2 as char, NUL, NUL, NUL, NUL, NUL, NUL, NUL]
                                   + [5 as char, NUL, NUL, NUL, NUL, NUL, NUL, NUL] + ['x', 'y']
  {
    var file := CachedFile("/a", "t", "xy", 5, true);
    assert Storable(file);
    SmallInteger(1);
    SmallInteger(2);
    SmallInteger(5);
    hide U32, U64;
    assert Unsigned(5) == 5;
    assert Block("/a") == [2 as char, NUL, NUL, NUL, '/', 'a'];
    assert Block("t") == [1 as char, NUL, NUL, NUL, 't'];
    hide Block;
  }

  lemma FourBytes(b: string)
    requires |b| == 4
    ensures Value(b) == b[0] as nat + 0x100 * b[1] as nat + 0x1_0000 * b[2] as nat + 0x100_0000 * b[3] as nat
  {
    assert b[1..][0] == b[1] && b[1..][1..] == b[2..] && b[2..][0] == b[2] && b[2..][1..] == b[3..];
    assert b[3..][0] == b[3] && b[3..][1..] == "" && Value("") == 0;
    assert Value(b[3..]) == b[3] as nat;
    assert Value(b[2..]) == b[2] as nat + 256 * Value(b[3..]);
    assert Value(b[1..]) == b[1] as nat + 256 * Value(b[2..]);
  }

  /** Four bytes with a given value. */
  lemma BytesAre(b: string, c: string)
    requires |b| == 4 && |c| == 4
    requires forall i :: 0 <= i < 4 ==> b[i] as nat < 256 && c[i] as nat < 256
    ensures Value(b) == Value(c) <==> b == c
  {
    FourBytes(b);
    FourBytes(c);
    hide Value;
    if Value(b) == Value(c) {
      SameDigits(b[0] as nat, b[1] as nat, b[2] as nat, b[3] as nat,
        c[0] as nat, c[1] as nat, c[2] as nat, c[3] as nat);
      assert forall i :: 0 <= i < 4 ==> b[i] as nat == c[i] as nat;
      assert forall i :: 0 <= i < 4 ==> b[i] == c[i];
    }
  }

  lemma SameDigits(a: nat, b: nat, c: nat, d: nat, e: nat, f: nat, g: nat, h: nat)
    requires a < 256 && b < 256 && c < 256 && e < 256 && f < 256 && g < 256
    requires a + 0x100 * b + 0x1_0000 * c + 0x100_0000 * d == e + 0x100 * f + 0x1_0000 * g + 0x100_0000 * h
    ensures a == e && b == f && c == g && d == h
  {}

  /** What is taken for an image: twelve bytes at least, and the magic number and version
      1 in the first eight of them, least significant byte first. */
  lemma HeaderIs(s: string)
    requires forall i :: 0 <= i < |s| ==> s[i] as nat < 256
    ensures GoodHeader(s)
            <==> |s| >= 12 && s[..4] == [0xBE as char, 0xBA as char, 0xFE as char, 0xCA as char]
                 && s[4..8] == [1 as char, NUL, NUL, NUL]
  {
    var magic, version := [0xBE as char, 0xBA as char, 0xFE as char, 0xCA as char], [1 as char, NUL, NUL, NUL];
    FourBytes(magic);
    FourBytes(version);
    hide Value;
    if |s| >= 12 {
      BytesAre(s[..4], magic);
      BytesAre(s[4..8], version);
    }
  }
}
