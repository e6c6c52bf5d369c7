/** The memory-first server answers as the file system does. */
module FileServerTheorems {
  import opened Text
  import opened CacheImage
  import opened CacheImageTheorems
  import opened FileServer

  /** Every loaded entry is the file that its key names below the static directory. */
  predicate Faithful(t: Table, disk: map<string, FileData>, base: string)
    requires WellFormed(t)
  {
    forall k :: 0 <= k < t.count && t.slots[k].loaded ==> IsFile(t.slots[k], disk, base)
  }

  predicate IsFile(e: CachedFile, disk: map<string, FileData>, base: string) {
    && base + e.name in disk && disk[base + e.name].content == e.data
    && e.mime == MimeOf(e.name) && e.name != "" && e.name[0] == '/'
  }

  lemma {:induction false} ExtensionOfTail(a: string, b: string)
    ensures '.' in b ==> Extension(a + b) == Extension(b)
    ensures '.' !in b && Extension(a + b).Some? ==> EndsWith(Extension(a + b).value, b)
  {
    if a == "" {
      assert a + b == b;
    } else {
      assert (a + b)[1..] == a[1..] + b;
      ExtensionOfTail(a[1..], b);
    }
  }

  /** No extension has a slash, and every type fits its field of the cache. */
  predicate Plain(m: Mapping) {
    |m.mime| < MAX_MIME_TYPE && forall k :: 0 <= k < |m.extension| ==> m.extension[k] != '/'
  }

  lemma MappingsArePlain(i: nat)
    requires i < |MAPPINGS|
    ensures Plain(MAPPINGS[i])
  {}

  lemma {:induction false} NoSlashInExtensions(ext: string, i: nat)
    requires '/' in ext && i <= |MAPPINGS|
    ensures Lookup(ext, i) == None
    decreases |MAPPINGS| - i
  {
    hide MAPPINGS;
    if i < |MAPPINGS| {
      var k :| 0 <= k < |ext| && ext[k] == '/';
      assert LowerAll(ext)[k] == '/';
      MappingsArePlain(i);
      NoSlashInExtensions(ext, i + 1);
    }
  }

  lemma {:induction false} LookupIsPlain(ext: string, i: nat)
    requires i <= |MAPPINGS|
    ensures Lookup(ext, i).Some? ==> Plain(Lookup(ext, i).value)
    decreases |MAPPINGS| - i
  {
    if i < |MAPPINGS| {
      MappingsArePlain(i);
      LookupIsPlain(ext, i + 1);
    }
  }

  lemma MimeFits(name: string)
    ensures Clip(MimeOf(name), MAX_MIME_TYPE) == MimeOf(name)
  {
    var ext := Extension(name);
    if ext.Some? {
      LookupIsPlain(ext.value, 0);
    }
  }

  /** The type and the priority of a file are the same for its key and for its full path:
      a dot of the directory never counts, because a slash follows it. */
  lemma TypeOfFullPath(base: string, key: string)
    requires key != "" && key[0] == '/'
    ensures MappingOf(base + key) == MappingOf(key)
  {
    ExtensionOfTail(base, key);
    if '.' !in key {
      var ext := Extension(base + key);
      if ext.Some? {
        assert ext.value[|ext.value| - |key|..][0] == '/';
        NoSlashInExtensions(ext.value, 0);
      }
    }
  }

  /** A memory-first answer is the file system's answer. */
  lemma HybridAgreesWithFilesystem(t: Table, disk: map<string, FileData>, path: string, c: Config)
    requires WellFormed(t) && Faithful(t, disk, c.staticDir)
    ensures var key := CacheKey(path, c);
            var file := FromFilesystem(disk, c.staticDir + key);
            Handle(t, disk, path, Hybrid, c)
            == if Traverses(path) then FORBIDDEN else if file.Some? then file.value else NOT_FOUND
  {
    var key := CacheKey(path, c);
    var i := FindFrom(t, key, 0);
    if i.Some? && t.slots[i.value].loaded {
      assert IsFile(t.slots[i.value], disk, c.staticDir);
      TypeOfFullPath(c.staticDir, key);
    }
    hide Traverses, CacheKey;
  }

  // ------------------------------------------------------------------ the built cache

  /** The disk holds the files of the directory `dir`. */
  predicate Holds(disk: map<string, FileData>, entries: seq<Named>, dir: string)
    decreases entries
  {
    entries == [] || (HoldsOne(disk, entries[0], dir) && Holds(disk, entries[1..], dir))
  }

  predicate HoldsOne(disk: map<string, FileData>, e: Named, dir: string)
    decreases e
  {
    var full := dir + "/" + e.name;
    if e.item.Dir? then Holds(disk, e.item.entries, full) else full in disk && disk[full] == e.item.data
  }

  /** The scan passes over hidden names and excluded keys. */
  predicate PassedOver(e: Named, dir: string, c: Config)
    requires c.staticDir <= dir
  {
    (e.name != "" && e.name[0] == '.') || c.excluded(RelativePath(dir + "/" + e.name, c.staticDir))
  }

  /** Every file below `dir` that the scan would load has a key below the limit and a time
      that fits a time_t. */
  predicate Cacheable(entries: seq<Named>, dir: string, c: Config)
    requires c.staticDir <= dir
    decreases entries
  {
    entries == [] || (CacheableOne(entries[0], dir, c) && Cacheable(entries[1..], dir, c))
  }

  predicate CacheableOne(e: Named, dir: string, c: Config)
    requires c.staticDir <= dir
    decreases e
  {
    var full := dir + "/" + e.name;
    PassedOver(e, dir, c)
    || if e.item.Dir? then Cacheable(e.item.entries, full, c)
       else |e.item.data.content| > c.maxFileSize
            || (|full| < |c.staticDir| + MAX_FILENAME && -TWO_63 <= e.item.data.modified < TWO_63)
  }

  /** A path at or below the base directory. */
  predicate Below(dir: string, base: string) {
    base <= dir && (|dir| > |base| ==> dir[|base|] == '/')
  }

  lemma KeyOf(dir: string, name: string, base: string)
    requires Below(dir, base)
    ensures var full := dir + "/" + name;
            && Below(full, base) && |full| > |base|
            && base + RelativePath(full, base) == full
            && RelativePath(full, base) != "" && RelativePath(full, base)[0] == '/'
  {
    var full := dir + "/" + name;
    var rest := full[|base|..];
    assert full[..|base|] == base && full == base + rest && rest[0] == full[|base|] == '/';
    assert RelativePath(full, base) == rest;
  }

  /** Every entry is loaded, is the file its key names, and can be saved. */
  predicate Sound(t: Table, disk: map<string, FileData>, c: Config)
    requires WellFormed(t)
  {
    forall k :: 0 <= k < t.count ==> SoundEntry(t.slots[k], disk, c)
  }

  predicate SoundEntry(e: CachedFile, disk: map<string, FileData>, c: Config) {
    IsFile(e, disk, c.staticDir) && Storable(e) && |e.data| <= c.maxFileSize
  }

  lemma {:induction false} ScanIsSound(t: Table, entries: seq<Named>, dir: string, disk: map<string, FileData>,
      c: Config)
    requires WellFormed(t) && Sound(t, disk, c) && Below(dir, c.staticDir) && c.maxFileSize < TWO_64
    requires Holds(disk, entries, dir) && Cacheable(entries, dir, c)
    ensures Sound(Scan(t, entries, dir, c), disk, c)
    decreases entries
  {
    hide Sound, ScanOne, HoldsOne, CacheableOne;
    if entries != [] {
      ScanOneIsSound(t, entries[0], dir, disk, c);
      ScanIsSound(ScanOne(t, entries[0], dir, c), entries[1..], dir, disk, c);
    }
  }

  lemma {:induction false} ScanOneIsSound(t: Table, e: Named, dir: string, disk: map<string, FileData>, c: Config)
    requires WellFormed(t) && Sound(t, disk, c) && Below(dir, c.staticDir) && c.maxFileSize < TWO_64
    requires HoldsOne(disk, e, dir) && CacheableOne(e, dir, c)
    ensures Sound(ScanOne(t, e, dir, c), disk, c)
    decreases e
  {
    hide Sound, Below, RelativePath, LoadFile, Scan, Holds, Cacheable;
    var full := dir + "/" + e.name;
    KeyOf(dir, e.name, c.staticDir);
    if (e.name != "" && e.name[0] == '.') || c.excluded(RelativePath(full, c.staticDir)) {
    } else if e.item.Dir? {
      ScanIsSound(t, e.item.entries, full, disk, c);
    } else if |e.item.data.content| <= c.maxFileSize {
      LoadIsSound(t, e.item.data, RelativePath(full, c.staticDir), disk, c);
    } else {
      TooLargeIsPassedOver(t, e.item.data, RelativePath(full, c.staticDir), c);
    }
  }

  lemma TooLargeIsPassedOver(t: Table, data: FileData, key: string, c: Config)
    requires WellFormed(t) && |data.content| > c.maxFileSize
    ensures LoadFile(t, data, key, c) == t
  {}

  lemma LoadIsSound(t: Table, data: FileData, key: string, disk: map<string, FileData>, c: Config)
    requires WellFormed(t) && Sound(t, disk, c) && c.maxFileSize < TWO_64
    requires c.staticDir + key in disk && disk[c.staticDir + key] == data && -TWO_63 <= data.modified < TWO_63
    requires key != "" && key[0] == '/' && |key| < MAX_FILENAME && |data.content| <= c.maxFileSize
    ensures Sound(LoadFile(t, data, key, c), disk, c)
  {
    MimeFits(key);
    hide MimeOf;
    var r := LoadFile(t, data, key, c);
    forall k | 0 <= k < r.count
      ensures SoundEntry(r.slots[k], disk, c)
    {
      assert k < t.count ==> SoundEntry(t.slots[k], disk, c);
      assert k < t.count ==> r.slots[k] == t.slots[k];
    }
  }

  /** A cache that was just built serves every normalised path as the file system does,
      whatever is excluded, hidden, too large or beyond the last slot. */
  lemma BuiltServerAgrees(t: Table, entries: seq<Named>, disk: map<string, FileData>, path: string, c: Config)
    requires WellFormed(t) && c.maxFileSize < TWO_64
    requires Holds(disk, entries, c.staticDir) && Cacheable(entries, c.staticDir, c)
    ensures var built := Build(t, entries, c);
            var file := FromFilesystem(disk, c.staticDir + CacheKey(path, c));
            Handle(built, disk, path, Hybrid, c)
            == if Traverses(path) then FORBIDDEN else if file.Some? then file.value else NOT_FOUND
  {
    hide Handle, FromFilesystem, CacheKey, Scan;
    ScanIsSound(Cleared(t), entries, c.staticDir, disk, c);
    HybridAgreesWithFilesystem(Build(t, entries, c), disk, path, c);
  }

  lemma SoundIsStorable(t: Table, disk: map<string, FileData>, c: Config)
    requires WellFormed(t) && Sound(t, disk, c)
    ensures AllStorable(Visible(t)) && forall e :: e in Visible(t) ==> !TooLarge(|e.data|, c.maxFileSize)
  {
    assert forall k :: 0 <= k < t.count ==> SoundEntry(t.slots[k], disk, c);
    assert forall k :: 0 <= k < t.count ==> Visible(t)[k] == t.slots[k];
    hide IsFile;
  }

  /** So does a server that was restarted from the image of that cache, even when the
      image was cut off anywhere behind its header. */
  lemma RestartedServerAgrees(t: Table, fresh': Table, entries: seq<Named>, k: nat, disk: map<string, FileData>,
      path: string, c: Config)
    requires WellFormed(t) && WellFormed(fresh') && c.maxFileSize < TWO_64
    requires Holds(disk, entries, c.staticDir) && Cacheable(entries, c.staticDir, c)
    requires AllStorable(Visible(Build(t, entries, c))) && 12 <= k <= |Image(Visible(Build(t, entries, c)))|
    ensures var loaded := LoadTable(fresh', Image(Visible(Build(t, entries, c)))[..k], c.maxFileSize);
            var file := FromFilesystem(disk, c.staticDir + CacheKey(path, c));
            Handle(loaded, disk, path, Hybrid, c)
            == if Traverses(path) then FORBIDDEN else if file.Some? then file.value else NOT_FOUND
  {
    var built := Build(t, entries, c);
    hide Handle, FromFilesystem, CacheKey, Scan, LoadTable, Image, Complete;
    ScanIsSound(Cleared(t), entries, c.staticDir, disk, c);
    SoundIsStorable(built, disk, c);
    TruncationLoadsPrefix(fresh', Visible(built), k, c.maxFileSize);
    var loaded := LoadTable(fresh', Image(Visible(built))[..k], c.maxFileSize);
    forall i | 0 <= i < loaded.count
      ensures IsFile(loaded.slots[i], disk, c.staticDir)
    {
      assert loaded.slots[i] == Visible(loaded)[i] == Visible(built)[i] == built.slots[i];
      assert SoundEntry(built.slots[i], disk, c);
    }
    HybridAgreesWithFilesystem(loaded, disk, path, c);
  }

  // ------------------------------------------------------------------ types by name

  predicate Typed(name: string, mime: string, priority: nat) {
    MimeOf(name) == mime && PriorityOf(name) == priority
  }

  lemma ExtensionsDiffer(j: nat, k: nat)
    requires j < k < |MAPPINGS|
    ensures MAPPINGS[j].extension != MAPPINGS[k].extension
  {}

  lemma ExtensionIsPlain(k: nat)
    requires k < |MAPPINGS|
    ensures var x := MAPPINGS[k].extension;
            && x != "" && x[0] == '.' && (forall i :: 0 < i < |x| ==> x[i] != '.')
            && forall i :: 0 <= i < |x| ==> !('A' <= x[i] <= 'Z')
  {}

  lemma {:induction false} LookupFinds(ext: string, i: nat, k: nat)
    requires i <= k < |MAPPINGS| && LowerAll(ext) == MAPPINGS[k].extension
    ensures Lookup(ext, i) == Some(MAPPINGS[k])
    decreases k - i
  {
    hide MAPPINGS, LowerAll;
    if i < k {
      ExtensionsDiffer(i, k);
      LookupFinds(ext, i + 1, k);
    }
  }

  lemma WholeExtension(ext: string)
    requires ext != "" && ext[0] == '.' && '.' !in ext[1..]
    ensures Extension(ext) == Some(ext) && '.' in ext
  {}

  /** A name that ends in an extension of the table, in letters of either case. */
  lemma MappedByExtension(stem: string, name: string, k: nat)
    requires k < |MAPPINGS| && AnyCase(name, MAPPINGS[k].extension)
    ensures MappingOf(stem + name) == Some(MAPPINGS[k])
  {
    hide MAPPINGS, Lookup, Extension, LowerAll;
    ExtensionIsPlain(k);
    LowerIs(name, MAPPINGS[k].extension);
    assert name != "" && name[0] == '.' && '.' !in name[1..];
    WholeExtension(name);
    ExtensionOfTail(stem, name);
    LookupFinds(name, 0, k);
  }

  lemma ByExtension(stem: string, name: string, k: nat)
    requires k < |MAPPINGS|
    ensures AnyCase(name, MAPPINGS[k].extension) ==> Typed(stem + name, MAPPINGS[k].mime, MAPPINGS[k].priority)
  {
    hide AnyCase, MAPPINGS, MappingOf;
    if AnyCase(name, MAPPINGS[k].extension) {
      MappedByExtension(stem, name, k);
    }
  }

  /** The type and the priority of a file by the extension of its name, in letters of
      either case, whatever stands before it. */
  lemma TypesAre(stem: string, name: string)
    ensures AnyCase(name, ".html") ==> Typed(stem + name, "text/html", 100)
    ensures AnyCase(name, ".htm") ==> Typed(stem + name, "text/html", 100)
    ensures AnyCase(name, ".css") ==> Typed(stem + name, "text/css", 90)
    ensures AnyCase(name, ".js") ==> Typed(stem + name, "application/javascript", 80)
    ensures AnyCase(name, ".json") ==> Typed(stem + name, "application/json", 70)
    ensures AnyCase(name, ".png") ==> Typed(stem + name, "image/png", 60)
    ensures AnyCase(name, ".jpg") ==> Typed(stem + name, "image/jpeg", 60)
    ensures AnyCase(name, ".jpeg") ==> Typed(stem + name, "image/jpeg", 60)
    ensures AnyCase(name, ".gif") ==> Typed(stem + name, "image/gif", 50)
    ensures AnyCase(name, ".svg") ==> Typed(stem + name, "image/svg+xml", 70)
    ensures AnyCase(name, ".ico") ==> Typed(stem + name, "image/x-icon", 40)
    ensures AnyCase(name, ".pdf") ==> Typed(stem + name, "application/pdf", 30)
    ensures AnyCase(name, ".txt") ==> Typed(stem + name, "text/plain", 20)
    ensures AnyCase(name, ".xml") ==> Typed(stem + name, "application/xml", 30)
    ensures AnyCase(name, ".woff") ==> Typed(stem + name, "font/woff", 85)
    ensures AnyCase(name, ".woff2") ==> Typed(stem + name, "font/woff2", 85)
    ensures AnyCase(name, ".ttf") ==> Typed(stem + name, "font/ttf", 85)
    ensures AnyCase(name, ".eot") ==> Typed(stem + name, "application/vnd.ms-fontobject", 85)
    ensures AnyCase(name, ".mp4") ==> Typed(stem + name, "video/mp4", 10)
    ensures AnyCase(name, ".webm") ==> Typed(stem + name, "video/webm", 10)
    ensures AnyCase(name, ".mp3") ==> Typed(stem + name, "audio/mpeg", 10)
    ensures AnyCase(name, ".wav") ==> Typed(stem + name, "audio/wav", 10)
    ensures AnyCase(name, ".zip") ==> Typed(stem + name, "application/zip", 5)
    ensures '.' !in stem + name ==> Typed(stem + name, "application/octet-stream", 0)
  {
    hide AnyCase, Typed;
    NoDotNoMapping(stem + name);
    ByExtension(stem, name, 0);
    ByExtension(stem, name, 1);
    ByExtension(stem, name, 2);
    ByExtension(stem, name, 3);
    ByExtension(stem, name, 4);
    ByExtension(stem, name, 5);
    ByExtension(stem, name, 6);
    ByExtension(stem, name, 7);
    ByExtension(stem, name, 8);
    ByExtension(stem, name, 9);
    ByExtension(stem, name, 10);
    ByExtension(stem, name, 11);
    ByExtension(stem, name, 12);
    ByExtension(stem, name, 13);
    ByExtension(stem, name, 14);
    ByExtension(stem, name, 15);
    ByExtension(stem, name, 16);
    ByExtension(stem, name, 17);
    ByExtension(stem, name, 18);
    ByExtension(stem, name, 19);
    ByExtension(stem, name, 20);
    ByExtension(stem, name, 21);
    ByExtension(stem, name, 22);
  }

  lemma NoDotNoMapping(name: string)
    ensures '.' !in name ==> Typed(name, "application/octet-stream", 0)
  {}
}
