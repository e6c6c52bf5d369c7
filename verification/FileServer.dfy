/** The file server: a cache built from a directory tree, answers from memory, and
    answers from the file system. */
module FileServer {
  import opened Text
  import opened CacheImage

  // ---------------------------------------------------------------------- mime types

  datatype Mapping = Mapping(extension: string, mime: string, priority: nat)

  const MAPPINGS: seq<Mapping> := [
    Mapping(".html", "text/html", 100), Mapping(".htm", "text/html", 100), Mapping(".css", "text/css", 90),
    Mapping(".js", "application/javascript", 80), Mapping(".json", "application/json", 70),
    Mapping(".png", "image/png", 60), Mapping(".jpg", "image/jpeg", 60), Mapping(".jpeg", "image/jpeg", 60),
    Mapping(".gif", "image/gif", 50), Mapping(".svg", "image/svg+xml", 70), Mapping(".ico", "image/x-icon", 40),
    Mapping(".pdf", "application/pdf", 30), Mapping(".txt", "text/plain", 20), Mapping(".xml", "application/xml", 30),
    Mapping(".woff", "font/woff", 85), Mapping(".woff2", "font/woff2", 85), Mapping(".ttf", "font/ttf", 85),
    Mapping(".eot", "application/vnd.ms-fontobject", 85), Mapping(".mp4", "video/mp4", 10),
    Mapping(".webm", "video/webm", 10), Mapping(".mp3", "audio/mpeg", 10), Mapping(".wav", "audio/wav", 10),
    Mapping(".zip", "application/zip", 5)]

  /** strrchr(s, '.'): the text from the last dot on. */
  function Extension(s: string): (r: Option<string>)
    ensures r.Some? ==> EndsWith(s, r.value) && r.value != "" && r.value[0] == '.' && '.' !in r.value[1..]
    ensures r.None? <==> '.' !in s
    decreases |s|
  {
    if s == "" then None
    else
      var rest := Extension(s[1..]);
      if rest.Some? then rest else if s[0] == '.' then Some(s) else None
  }

  /** The first mapping from position i on for an extension, in either case. */
  function Lookup(ext: string, i: nat): (r: Option<Mapping>)
    requires i <= |MAPPINGS|
    ensures r.Some? ==> LowerAll(ext) == r.value.extension
    decreases |MAPPINGS| - i
  {
    if i == |MAPPINGS| then None
    else if LowerAll(ext) == MAPPINGS[i].extension then Some(MAPPINGS[i])
    else Lookup(ext, i + 1)
  }

  function MappingOf(name: string): Option<Mapping> {
    var ext := Extension(name);
    if ext.None? then None else Lookup(ext.value, 0)
  }

  /** cweb_get_mime_type */
  function MimeOf(name: string): string {
    var m := MappingOf(name);
    if m.Some? then m.value.mime else "application/octet-stream"
  }

  /** get_resource_priority */
  function PriorityOf(name: string): nat {
    var m := MappingOf(name);
    if m.Some? then m.value.priority else 0
  }

  /** The table search of cweb_get_mime_type and get_resource_priority. */
  method FindMapping(name: string) returns (m: Option<Mapping>)
    ensures m == MappingOf(name)
  {
    hide MAPPINGS;
    var ext := Extension(name);
    if ext.None? {
      return None;
    }
    var i := 0;
    while i < |MAPPINGS|
      invariant i <= |MAPPINGS| && Lookup(ext.value, i) == Lookup(ext.value, 0)
    {
      if LowerAll(ext.value) == MAPPINGS[i].extension {
        return Some(MAPPINGS[i]);
      }
      i := i + 1;
    }
    m := None;
  }

  method GetMimeType(name: string) returns (mime: string)
    ensures mime == MimeOf(name)
  {
    hide MappingOf;
    var m := FindMapping(name);
    mime := if m.Some? then m.value.mime else "application/octet-stream";
  }

  method GetResourcePriority(name: string) returns (priority: nat)
    ensures priority == PriorityOf(name)
  {
    hide MappingOf;
    var m := FindMapping(name);
    priority := if m.Some? then m.value.priority else 0;
  }

  // ------------------------------------------------------------------------ the disk

  datatype FileData = FileData(content: string, modified: int)

  /** A directory entry; a directory lists its entries in any order. */
  datatype Item = File(data: FileData) | Dir(entries: seq<Named>)
  datatype Named = Named(name: string, item: Item)

  datatype Config = Config(staticDir: string, lookupPath: string, maxFileSize: nat, excluded: string -> bool)

  /** The key of a path below the base directory. */
  function RelativePath(full: string, base: string): string
    requires |base| <= |full|
  {
    var rest := full[|base|..];
    "/" + if rest != "" && rest[0] == '/' then rest[1..] else rest
  }

  function Clip(s: string, size: nat): string
    requires size > 0
  {
    if |s| < size then s else s[..size - 1]
  }

  /** cweb_load_file_to_cache */
  function LoadFile(t: Table, data: FileData, key: string, c: Config): (r: Table)
    requires WellFormed(t)
    ensures WellFormed(r)
  {
    if t.count >= MAX_CACHED_FILES || |data.content| > c.maxFileSize then t
    else
      Table(t.slots[t.count := CachedFile(Clip(key, MAX_FILENAME), Clip(MimeOf(key), MAX_MIME_TYPE), data.content,
        data.modified, true)],
            t.count + 1)
  }

  /** scan_directory_recursive: the entries of directory `dir`. */
  function Scan(t: Table, entries: seq<Named>, dir: string, c: Config): (r: Table)
    requires WellFormed(t) && c.staticDir <= dir
    ensures WellFormed(r)
    decreases entries
  {
    if entries == [] then t
    else Scan(ScanOne(t, entries[0], dir, c), entries[1..], dir, c)
  }

  function ScanOne(t: Table, e: Named, dir: string, c: Config): (r: Table)
    requires WellFormed(t) && c.staticDir <= dir
    ensures WellFormed(r)
    decreases e
  {
    if e.name != "" && e.name[0] == '.' then t
    else
      var full := dir + "/" + e.name;
      var key := RelativePath(full, c.staticDir);
      if c.excluded(key) then t
      else if e.item.Dir? then
        Scan(t, e.item.entries, full, c)
      else LoadFile(t, e.item.data, key, c)
  }

  /** cweb_fileserver_build_cache */
  function Build(t: Table, entries: seq<Named>, c: Config): Table
    requires WellFormed(t)
  {
    Scan(Cleared(t), entries, c.staticDir, c)
  }

  // --------------------------------------------------------------------- the answers

  datatype Answer = Answer(status: nat, body: string, mime: string, priority: nat)

  const NOT_FOUND: Answer := Answer(404, "File not found", "", 0)
  const FORBIDDEN: Answer := Answer(403, "Forbidden", "", 0)

  /** cweb_find_cached_file, from slot i on. */
  function FindFrom(t: Table, name: string, i: nat): (r: Option<nat>)
    requires WellFormed(t) && i <= t.count
    ensures r.Some? ==> i <= r.value < t.count && t.slots[r.value].name == name
    decreases t.count - i
  {
    if i == t.count then None
    else if t.slots[i].name == name then Some(i)
    else FindFrom(t, name, i + 1)
  }

  /** cweb_serve_from_memory */
  function FromMemory(t: Table, path: string): Option<Answer>
    requires WellFormed(t)
  {
    var i := FindFrom(t, path, 0);
    if i.None? || !t.slots[i.value].loaded then None
    else
      var e := t.slots[i.value];
      Some(Answer(200, e.data, e.mime, PriorityOf(path)))
  }

  /** cweb_serve_from_filesystem; `disk` holds what can be opened under each path. */
  function FromFilesystem(disk: map<string, FileData>, path: string): Option<Answer> {
    if path in disk then Some(Answer(200, disk[path].content, MimeOf(path), PriorityOf(path))) else None
  }

  /** normalize_cache_path */
  function CacheKey(path: string, c: Config): string {
    var n := |c.lookupPath|;
    if n > 0 && c.lookupPath <= path then "/" + path[n..] else path
  }

  datatype ServerMode = Memory | Filesystem | Hybrid

  predicate Traverses(path: string) {
    Contains(path, "..") || Contains(path, "//")
  }

  function OrElse(a: Option<Answer>, b: Option<Answer>): Option<Answer> {
    if a.Some? then a else b
  }

  /** cweb_fileserver_handle_request, for an initialised server. */
  function Handle(t: Table, disk: map<string, FileData>, path: string, mode: ServerMode, c: Config): Answer
    requires WellFormed(t)
  {
    if Traverses(path) then FORBIDDEN
    else
      var key := CacheKey(path, c);
      var result :=
        match mode
        case Memory => FromMemory(t, path)
        case Filesystem => FromFilesystem(disk, c.staticDir + path)
        case Hybrid => OrElse(FromMemory(t, key), FromFilesystem(disk, c.staticDir + key));
      if result.Some? then result.value else NOT_FOUND
  }

  /** Two neighbouring dots or two neighbouring slashes. */
  predicate Doubled(path: string) {
    exists k :: 0 <= k < |path| - 1 && path[k] == path[k + 1] && (path[k] == '.' || path[k] == '/')
  }

  lemma TraversesIff(path: string)
    ensures Traverses(path) <==> Doubled(path)
  {
    if Traverses(path) {
      var pat := if Contains(path, "..") then ".." else "//";
      ContainsIff(path, pat);
      var k: nat :| At(path, k, pat);
      AtChar(path, k, pat, 0);
      AtChar(path, k, pat, 1);
    }
    if Doubled(path) {
      var k :| 0 <= k < |path| - 1 && path[k] == path[k + 1] && (path[k] == '.' || path[k] == '/');
      var pat := if path[k] == '.' then ".." else "//";
      assert path[k..k + 2] == pat;
      assert At(path, k, pat);
      ContainsIff(path, pat);
    }
  }

  /** Whatever the cache, the disk, the prefix and the mode: a path is refused exactly when
      it has two dots or two slashes in a row, and the refusal holds nothing of the cache
      or the disk. Any other path is found or not found. */
  lemma RefusedIff(t: Table, disk: map<string, FileData>, path: string, mode: ServerMode, c: Config)
    requires WellFormed(t)
    ensures var r := Handle(t, disk, path, mode, c);
            && (Doubled(path) ==> r == Answer(403, "Forbidden", "", 0))
            && (!Doubled(path) ==> r.status == 200 || r == Answer(404, "File not found", "", 0))
  {
    TraversesIff(path);
    hide Traverses, Doubled, MappingOf;
  }

  // --------------------------------------------------------------------- the methods

  /** cweb_find_cached_file */
  method Find(cache: FileCache, name: string) returns (i: Option<nat>)
    requires cache.Valid()
    ensures i == FindFrom(cache.View(), name, 0)
  {
    var k := 0;
    while k < cache.count
      invariant k <= cache.count && FindFrom(cache.View(), name, k) == FindFrom(cache.View(), name, 0)
    {
      if cache.slots[k].name == name {
        return Some(k);
      }
      k := k + 1;
    }
    i := None;
  }

  /** cweb_load_file_to_cache, for a readable file. */
  method LoadFileToCache(cache: FileCache, data: FileData, key: string, c: Config) returns (ok: bool)
    requires cache.Valid()
    modifies cache, cache.slots
    ensures cache.Valid() && cache.slots == old(cache.slots)
    ensures cache.View() == LoadFile(old(cache.View()), data, key, c)
  {
    if cache.count >= MAX_CACHED_FILES || |data.content| > c.maxFileSize {
      return false;
    }
    var mime := GetMimeType(key);
    hide MimeOf;
    var i := cache.count;
    cache.slots[i] := CachedFile(Clip(key, MAX_FILENAME), Clip(mime, MAX_MIME_TYPE), data.content, data.modified, true);
    cache.count := i + 1;
    assert cache.slots[..] == old(cache.slots[..])[i := cache.slots[i]];
    ok := true;
  }

  /** scan_directory_recursive */
  method ScanDirectory(cache: FileCache, entries: seq<Named>, dir: string, c: Config)
    requires cache.Valid() && c.staticDir <= dir
    modifies cache, cache.slots
    ensures cache.Valid() && cache.slots == old(cache.slots)
    ensures cache.View() == Scan(old(cache.View()), entries, dir, c)
    decreases entries
  {
    for i := 0 to |entries|
      invariant cache.Valid() && cache.slots == old(cache.slots)
      invariant Scan(cache.View(), entries[i..], dir, c) == Scan(old(cache.View()), entries, dir, c)
    {
      var e := entries[i];
      assert entries[i..][1..] == entries[i + 1..] && entries[i..][0] == e;
      if e.name != "" && e.name[0] == '.' {
        continue;
      }
      var full := dir + "/" + e.name;
      var key := RelativePath(full, c.staticDir);
      if c.excluded(key) {
        continue;
      }
      match e.item {
        case Dir(inner) => ScanDirectory(cache, inner, full, c);
        case File(data) => var _ := LoadFileToCache(cache, data, key, c);
      }
    }
  }

  /** cweb_fileserver_build_cache, up to writing the image. */
  method BuildCache(cache: FileCache, entries: seq<Named>, c: Config)
    requires cache.Valid()
    modifies cache, cache.slots
    ensures cache.Valid() && cache.slots == old(cache.slots)
    ensures cache.View() == Build(old(cache.View()), entries, c)
  {
    cache.Clear();
    ScanDirectory(cache, entries, c.staticDir, c);
  }

  /** The fields of a response that the file server sets. */
  class Response {
    var status: nat
    var body: string
    var mime: string
    var priority: nat
    var processed: bool

    constructor ()
      ensures View() == Answer(404, "", "", 0) && !processed
    {
      status, body, mime, priority, processed := 404, "", "", 0, false;
    }

    ghost function View(): Answer
      reads this
    {
      Answer(status, body, mime, priority)
    }
  }

  method ServeFromMemory(cache: FileCache, path: string, res: Response) returns (ok: bool)
    requires cache.Valid()
    modifies res
    ensures ok == FromMemory(cache.View(), path).Some?
    ensures ok ==> res.View() == FromMemory(cache.View(), path).value && res.processed
    ensures !ok ==> res.View() == old(res.View()) && res.processed == old(res.processed)
  {
    var i := Find(cache, path);
    if i.None? || !cache.slots[i.value].loaded {
      return false;
    }
    var cached := cache.slots[i.value];
    res.body := cached.data;
    res.status := 200;
    var priority := GetResourcePriority(path);
    res.priority := priority;
    res.mime := cached.mime;
    res.processed := true;
    ok := true;
  }

  method ServeFromFilesystem(disk: map<string, FileData>, path: string, res: Response) returns (ok: bool)
    modifies res
    ensures ok == FromFilesystem(disk, path).Some?
    ensures ok ==> res.View() == FromFilesystem(disk, path).value && res.processed
    ensures !ok ==> res.View() == old(res.View()) && res.processed == old(res.processed)
  {
    if path !in disk {
      return false;
    }
    res.status := 200;
    var priority := GetResourcePriority(path);
    res.priority := priority;
    var mime := GetMimeType(path);
    res.mime := mime;
    res.body := disk[path].content;
    res.processed := true;
    ok := true;
  }

  /** cweb_fileserver_handle_request, on a response just created. */
  method HandleRequest(cache: FileCache, disk: map<string, FileData>, path: string, mode: ServerMode, c: Config,
      res: Response)
    requires cache.Valid() && res.View() == Answer(404, "", "", 0)
    modifies res
    ensures res.processed && res.View() == Handle(cache.View(), disk, path, mode, c)
    ensures res.status == 403 <==> Doubled(path)
    ensures Doubled(path) ==> res.View() == Answer(403, "Forbidden", "", 0)
  {
    RefusedIff(cache.View(), disk, path, mode, c);
    hide Traverses, Doubled, FromMemory, FromFilesystem, CacheKey;
    if Traverses(path) {
      res.status := 403;
      res.body := "Forbidden";
      res.processed := true;
      return;
    }
    var key := CacheKey(path, c);
    var ok;
    match mode {
      case Memory => ok := ServeFromMemory(cache, path, res);
      case Filesystem => ok := ServeFromFilesystem(disk, c.staticDir + path, res);
      case Hybrid =>
        ok := ServeFromMemory(cache, key, res);
        if !ok {
          ok := ServeFromFilesystem(disk, c.staticDir + key, res);
        }
    }
    if !ok {
      res.status := 404;
      res.body := "File not found";
      res.processed := true;
    }
  }

}
