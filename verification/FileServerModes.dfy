/** The memory and file system modes look a path up as it came, while the hybrid mode takes
    the lookup prefix off it. When the three modes answer alike. */
module FileServerModes {
  import opened Text
  import opened CacheImage
  import opened FileServer
  import opened FileServerTheorems
  import opened FileServerAgreement

  /** cweb_fileserver_is_static_file: the requests that reach the file server. */
  predicate StaticFile(path: string, c: Config) {
    c.lookupPath <= path && MappingOf(path).Some?
  }

  /** Such a request that is not refused. */
  predicate Served(path: string, c: Config) {
    StaticFile(path, c) && !Traverses(path)
  }

  ghost predicate ModeAgrees(t: Table, disk: map<string, FileData>, mode: ServerMode, c: Config)
    requires WellFormed(t)
  {
    forall path: string :: StaticFile(path, c) ==> Handle(t, disk, path, mode, c) == Handle(t, disk, path, Hybrid, c)
  }

  /** The request path whose cache key names the file `full`. */
  function PathOf(full: string, c: Config): Option<string> {
    if c.lookupPath == "" then (if c.staticDir <= full then Some(full[|c.staticDir|..]) else None)
    else if c.staticDir + "/" <= full then Some(c.lookupPath + full[|c.staticDir| + 1..])
    else None
  }

  lemma PathOfKey(path: string, c: Config)
    requires c.lookupPath <= path
    ensures PathOf(c.staticDir + CacheKey(path, c), c) == Some(path)
  {
    var full := c.staticDir + CacheKey(path, c);
    if c.lookupPath == "" {
      assert full[|c.staticDir|..] == path;
    } else {
      var rest := path[|c.lookupPath|..];
      assert full == (c.staticDir + "/") + rest;
      assert full[|c.staticDir| + 1..] == rest && c.lookupPath + rest == path;
    }
  }

  lemma KeyOfPath(full: string, c: Config)
    requires PathOf(full, c).Some?
    ensures c.lookupPath <= PathOf(full, c).value && c.staticDir + CacheKey(PathOf(full, c).value, c) == full
  {
    var path := PathOf(full, c).value;
    if c.lookupPath == "" {
      assert c.staticDir + path == full;
    } else {
      var rest := full[|c.staticDir| + 1..];
      assert path[|c.lookupPath|..] == rest;
      assert full == (c.staticDir + "/") + rest;
    }
  }

  // ---------------------------------------------------------------- file system mode

  predicate SameFile(disk: map<string, FileData>, a: string, b: string) {
    && a in disk && b in disk && disk[a].content == disk[b].content
    && MimeOf(a) == MimeOf(b) && PriorityOf(a) == PriorityOf(b)
  }

  /** Every file that is served has a twin: below the prefix when it is named without it,
      and without it when it is named below it. */
  predicate Mirrored(disk: map<string, FileData>, c: Config) {
    && (forall full :: full in disk && PathOf(full, c).Some? && Served(PathOf(full, c).value, c) ==>
          SameFile(disk, c.staticDir + PathOf(full, c).value, full))
    && (forall full :: full in disk && c.staticDir <= full && Served(full[|c.staticDir|..], c) ==>
          c.staticDir + CacheKey(full[|c.staticDir|..], c) in disk)
  }

  /** The file system mode answers static paths as a hybrid server that agrees with the
      disk exactly when the disk is mirrored in this way. */
  lemma FilesystemModeAgreesIff(t: Table, disk: map<string, FileData>, c: Config)
    requires WellFormed(t) && HybridAgrees(t, disk, c)
    ensures ModeAgrees(t, disk, Filesystem, c) <==> Mirrored(disk, c)
  {
    hide Handle, Served, PathOf, CacheKey, SameFile;
    forall path: string | StaticFile(path, c)
      ensures Handle(t, disk, path, Filesystem, c) == Handle(t, disk, path, Hybrid, c)
              <==> Served(path, c) ==> SamePath(disk, path, c)
    {
      assert Handle(t, disk, path, Hybrid, c) == FileAnswer(disk, path, c);
      OnePath(t, disk, path, c);
    }
    hide HybridAgrees;
    ServedIsStatic(c);
    if ModeAgrees(t, disk, Filesystem, c) {
      MirroredFrom(disk, c);
    }
    if Mirrored(disk, c) {
      forall path: string | Served(path, c)
        ensures SamePath(disk, path, c)
      {
        MirroredPath(disk, path, c);
      }
    }
  }

  lemma ServedIsStatic(c: Config)
    ensures forall path: string :: Served(path, c) ==> StaticFile(path, c)
  {}

  /** The path and its key name no file, or the same one. */
  predicate SamePath(disk: map<string, FileData>, path: string, c: Config) {
    var a, b := c.staticDir + path, c.staticDir + CacheKey(path, c);
    (a in disk || b in disk) ==> SameFile(disk, a, b)
  }

  lemma OnePath(t: Table, disk: map<string, FileData>, path: string, c: Config)
    requires WellFormed(t) && StaticFile(path, c) && Handle(t, disk, path, Hybrid, c) == FileAnswer(disk, path, c)
    ensures Handle(t, disk, path, Filesystem, c) == Handle(t, disk, path, Hybrid, c)
            <==> Served(path, c) ==> SamePath(disk, path, c)
  {
    hide Traverses, CacheKey, MimeOf, PriorityOf, StaticFile, FromMemory;
  }

  lemma MirroredFrom(disk: map<string, FileData>, c: Config)
    requires forall path: string :: Served(path, c) ==> SamePath(disk, path, c)
    ensures Mirrored(disk, c)
  {
    hide Served, CacheKey, PathOf;
    forall full | full in disk && PathOf(full, c).Some? && Served(PathOf(full, c).value, c)
      ensures SameFile(disk, c.staticDir + PathOf(full, c).value, full)
    {
      KeyOfPath(full, c);
      assert SamePath(disk, PathOf(full, c).value, c);
    }
    forall full | full in disk && c.staticDir <= full && Served(full[|c.staticDir|..], c)
      ensures c.staticDir + CacheKey(full[|c.staticDir|..], c) in disk
    {
      assert c.staticDir + full[|c.staticDir|..] == full;
      assert SamePath(disk, full[|c.staticDir|..], c);
    }
  }

  lemma MirroredPath(disk: map<string, FileData>, path: string, c: Config)
    requires Mirrored(disk, c) && Served(path, c)
    ensures SamePath(disk, path, c)
  {
    var a, b := c.staticDir + path, c.staticDir + CacheKey(path, c);
    PathOfKey(path, c);
    assert a[|c.staticDir|..] == path;
    hide Traverses, CacheKey, PathOf, SameFile, MappingOf;
    assert a in disk ==> b in disk;
    assert b in disk ==> SameFile(disk, c.staticDir + PathOf(b, c).value, b);
  }

  // --------------------------------------------------------------------- memory mode

  /** The entry of this name answers as the file `full`. */
  predicate InMemory(t: Table, disk: map<string, FileData>, path: string, full: string)
    requires WellFormed(t) && full in disk
  {
    var i := FindFrom(t, path, 0);
    && i.Some? && t.slots[i.value].loaded
    && t.slots[i.value].data == disk[full].content && t.slots[i.value].mime == MimeOf(full)
       && PriorityOf(path) == PriorityOf(full)
  }

  /** Every file that is served is also in the cache under its name below the prefix, and
      every entry under such a name has its file. */
  predicate CachedBelowPrefix(t: Table, disk: map<string, FileData>, c: Config)
    requires WellFormed(t)
  {
    && (forall full :: full in disk && PathOf(full, c).Some? && Served(PathOf(full, c).value, c) ==>
          InMemory(t, disk, PathOf(full, c).value, full))
    && (forall k :: 0 <= k < t.count && t.slots[k].loaded && FirstOfName(t, k) && Served(t.slots[k].name, c) ==>
          c.staticDir + CacheKey(t.slots[k].name, c) in disk)
  }

  predicate MemoryPath(t: Table, disk: map<string, FileData>, path: string, c: Config)
    requires WellFormed(t)
  {
    var full := c.staticDir + CacheKey(path, c);
    if full in disk then InMemory(t, disk, path, full) else FromMemory(t, path).None?
  }

  /** The memory mode answers static paths as a hybrid server that agrees with the disk
      exactly when what is served is cached below the prefix. */
  lemma MemoryModeAgreesIff(t: Table, disk: map<string, FileData>, c: Config)
    requires WellFormed(t) && HybridAgrees(t, disk, c)
    ensures ModeAgrees(t, disk, Memory, c) <==> CachedBelowPrefix(t, disk, c)
  {
    hide Handle, Served, PathOf, CacheKey, InMemory, MemoryPath, FirstOfName;
    forall path: string | StaticFile(path, c)
      ensures Handle(t, disk, path, Memory, c) == Handle(t, disk, path, Hybrid, c)
              <==> Served(path, c) ==> MemoryPath(t, disk, path, c)
    {
      assert Handle(t, disk, path, Hybrid, c) == FileAnswer(disk, path, c);
      OneMemoryPath(t, disk, path, c);
    }
    hide HybridAgrees;
    ServedIsStatic(c);
    if ModeAgrees(t, disk, Memory, c) {
      CachedFrom(t, disk, c);
    }
    if CachedBelowPrefix(t, disk, c) {
      forall path: string | Served(path, c)
        ensures MemoryPath(t, disk, path, c)
      {
        CachedPath(t, disk, path, c);
      }
    }
  }

  lemma OneMemoryPath(t: Table, disk: map<string, FileData>, path: string, c: Config)
    requires WellFormed(t) && StaticFile(path, c) && Handle(t, disk, path, Hybrid, c) == FileAnswer(disk, path, c)
    ensures Handle(t, disk, path, Memory, c) == Handle(t, disk, path, Hybrid, c)
            <==> Served(path, c) ==> MemoryPath(t, disk, path, c)
  {
    hide Traverses, CacheKey, MimeOf, PriorityOf, StaticFile;
  }

  lemma CachedFrom(t: Table, disk: map<string, FileData>, c: Config)
    requires WellFormed(t) && forall path: string :: Served(path, c) ==> MemoryPath(t, disk, path, c)
    ensures CachedBelowPrefix(t, disk, c)
  {
    hide Served, CacheKey, PathOf;
    forall full | full in disk && PathOf(full, c).Some? && Served(PathOf(full, c).value, c)
      ensures InMemory(t, disk, PathOf(full, c).value, full)
    {
      KeyOfPath(full, c);
      assert MemoryPath(t, disk, PathOf(full, c).value, c);
    }
    forall k | 0 <= k < t.count && t.slots[k].loaded && FirstOfName(t, k) && Served(t.slots[k].name, c)
      ensures c.staticDir + CacheKey(t.slots[k].name, c) in disk
    {
      FirstIsFound(t, k);
      assert MemoryPath(t, disk, t.slots[k].name, c);
    }
  }

  lemma CachedPath(t: Table, disk: map<string, FileData>, path: string, c: Config)
    requires WellFormed(t) && CachedBelowPrefix(t, disk, c) && Served(path, c)
    ensures MemoryPath(t, disk, path, c)
  {
    var full := c.staticDir + CacheKey(path, c);
    PathOfKey(path, c);
    FindsFirst(t, path, 0);
    var i := FindFrom(t, path, 0);
    hide Traverses, CacheKey, PathOf, MappingOf, MimeOf, PriorityOf;
    if i.Some? && t.slots[i.value].loaded {
      assert FirstOfName(t, i.value);
    }
  }

  // ----------------------------------------------------------------------- consequences

  lemma RootKey(path: string, c: Config)
    requires c.lookupPath == "/" && c.lookupPath <= path
    ensures CacheKey(path, c) == path
  {
    assert path == "/" + path[1..];
  }

  /** With a prefix that is a single slash the file system mode always agrees. */
  lemma RootPrefixAgrees(t: Table, disk: map<string, FileData>, c: Config)
    requires WellFormed(t) && HybridAgrees(t, disk, c) && c.lookupPath == "/"
    ensures ModeAgrees(t, disk, Filesystem, c)
  {
    forall path: string | StaticFile(path, c)
      ensures Handle(t, disk, path, Filesystem, c) == Handle(t, disk, path, Hybrid, c)
    {
      RootKey(path, c);
      assert Handle(t, disk, path, Hybrid, c) == FileAnswer(disk, path, c);
      hide Traverses, CacheKey, MappingOf, FromMemory, HybridAgrees;
    }
  }

  /** A table with one loaded style sheet. */
  lemma OneSheet(t: Table, disk: map<string, FileData>, data: FileData, c: Config)
    requires WellFormed(t) && t.count == 1
    requires t.slots[0] == CachedFile("/a.css", "text/css", data.content, data.modified, true)
    requires disk == map[c.staticDir + "/a.css" := data]
    requires CacheKey("/assets/a.css", c) == "/a.css" && !Traverses("/assets/a.css")
    requires PriorityOf("/a.css") == 90
    ensures Handle(t, disk, "/assets/a.css", Hybrid, c) == Answer(200, data.content, "text/css", 90)
    ensures Handle(t, disk, "/assets/a.css", Memory, c) == NOT_FOUND
    ensures Handle(t, disk, "/assets/a.css", Filesystem, c) == NOT_FOUND
  {
    var path, key := "/assets/a.css", "/a.css";
    hide Traverses, MappingOf, CacheKey, PriorityOf;
    assert |path| != |key| && |c.staticDir + path| != |c.staticDir + key|;
    assert FindFrom(t, key, 0) == Some(0);
    assert FindFrom(t, path, 1) == None;
    assert FindFrom(t, path, 0) == None;
  }

  /** With the default prefix and one style sheet in the static directory, only the hybrid
      mode serves it. */
  lemma DefaultPrefixExample(t: Table, data: FileData, c: Config)
    requires WellFormed(t) && |data.content| <= c.maxFileSize && c.lookupPath == "/assets/" && !c.excluded("/a.css")
    ensures var built := Build(t, [Named("a.css", File(data))], c);
            var disk := map[c.staticDir + "/a.css" := data];
            && StaticFile("/assets/a.css", c)
            && Handle(built, disk, "/assets/a.css", Hybrid, c) == Answer(200, data.content, "text/css", 90)
            && Handle(built, disk, "/assets/a.css", Memory, c) == NOT_FOUND
            && Handle(built, disk, "/assets/a.css", Filesystem, c) == NOT_FOUND
  {
    StyleSheet();
    SheetKey(c);
    BuiltSheet(t, data, c);
    hide Traverses, MappingOf, MimeOf, PriorityOf, CacheKey, Build, Handle;
    OneSheet(Build(t, [Named("a.css", File(data))], c), map[c.staticDir + "/a.css" := data], data, c);
  }

  lemma SheetKey(c: Config)
    requires c.lookupPath == "/assets/"
    ensures c.lookupPath <= "/assets/a.css" && CacheKey("/assets/a.css", c) == "/a.css"
  {
    assert "/assets/a.css" == "/assets/" + "a.css" && "/" + "a.css" == "/a.css";
    assert "/assets/a.css"[8..] == "a.css";
  }

  lemma BuiltSheet(t: Table, data: FileData, c: Config)
    requires WellFormed(t) && |data.content| <= c.maxFileSize && !c.excluded("/a.css")
    ensures var built := Build(t, [Named("a.css", File(data))], c);
            built.count == 1 && built.slots[0] == CachedFile("/a.css", "text/css", data.content, data.modified, true)
  {
    SheetFields();
    hide Build, MimeOf, Clip, Cleared;
    OneSlot(t, "a.css", "/a.css", data, c);
  }

  lemma OneSlot(t: Table, name: string, key: string, data: FileData, c: Config)
    requires WellFormed(t) && |data.content| <= c.maxFileSize && name != "" && name[0] != '.'
    requires key == "/" + name && !c.excluded(key)
    ensures var built := Build(t, [Named(name, File(data))], c);
            && built.count == 1
            && built.slots[0] == CachedFile(Clip(key, MAX_FILENAME), Clip(MimeOf(key), MAX_MIME_TYPE), data.content,
               data.modified, true)
  {
    OneFile(t, name, data, c);
    hide Build, MimeOf, Clip, Cleared;
  }

  lemma SheetFields()
    ensures "/" + "a.css" == "/a.css" && "a.css"[0] != '.'
    ensures Clip("/a.css", MAX_FILENAME) == "/a.css" && Clip(MimeOf("/a.css"), MAX_MIME_TYPE) == "text/css"
  {
    StyleSheet();
    hide MappingOf, Traverses;
  }

  lemma StyleSheet()
    ensures !Traverses("/assets/a.css")
    ensures MappingOf("/assets/a.css").Some? && MappingOf("/a.css") == Some(Mapping(".css", "text/css", 90))
  {
    hide Extension, Lookup, LowerAll, Traverses, MAPPINGS, MappingOf;
    OneDot("/assets/a.css");
    EndsInCss("/assets/a");
    EndsInCss("/a");
    CssPaths();
  }

  lemma CssPaths()
    ensures "/assets/a" + ".css" == "/assets/a.css" && "/a" + ".css" == "/a.css"
  {}

  lemma EndsInCss(stem: string)
    ensures MappingOf(stem + ".css") == Some(Mapping(".css", "text/css", 90))
  {
    CssExtension();
    ExtensionOfTail(stem, ".css");
    hide Extension, Lookup, LowerAll, MAPPINGS;
  }

  lemma CssExtension()
    ensures Extension(".css") == Some(".css") && '.' in ".css"
    ensures Lookup(".css", 0) == Some(Mapping(".css", "text/css", 90))
  {
    assert Extension("css") == None;
    assert ".css"[1..] == "css" && LowerAll(".css") == ".css";
  }

  lemma OneDot(s: string)
    requires s == "/assets/a.css"
    ensures !Traverses(s)
  {
    forall p: nat
      ensures !At(s, p, "..") && !At(s, p, "//")
    {
      if At(s, p, "..") {
        AtChar(s, p, "..", 0);
        AtChar(s, p, "..", 1);
      }
      if At(s, p, "//") {
        AtChar(s, p, "//", 0);
        AtChar(s, p, "//", 1);
      }
    }
  }
}
