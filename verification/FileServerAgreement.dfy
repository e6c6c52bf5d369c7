/** Exactly when the memory-first server answers as the file system does, whatever the
    names in the directory tree. */
module FileServerAgreement {
  import opened Text
  import opened CacheImage
  import opened FileServer
  import opened FileServerTheorems

  /** What the file system alone answers, for the normalised path. */
  function FileAnswer(disk: map<string, FileData>, path: string, c: Config): Answer {
    var file := FromFilesystem(disk, c.staticDir + CacheKey(path, c));
    if Traverses(path) then FORBIDDEN else if file.Some? then file.value else NOT_FOUND
  }

  ghost predicate HybridAgrees(t: Table, disk: map<string, FileData>, c: Config)
    requires WellFormed(t)
  {
    forall path: string :: Handle(t, disk, path, Hybrid, c) == FileAnswer(disk, path, c)
  }

  /** A path that is not refused has this key: the path with the prefix, or the name
      itself when it does not begin with the prefix. */
  predicate Requested(name: string, c: Config) {
    || (c.lookupPath != "" && name != "" && name[0] == '/' && !Traverses(c.lookupPath + name[1..]))
    || ((c.lookupPath == "" || !(c.lookupPath <= name)) && !Traverses(name))
  }

  lemma RequestedHasPath(name: string, c: Config) returns (path: string)
    requires Requested(name, c)
    ensures !Traverses(path) && CacheKey(path, c) == name
  {
    hide Traverses;
    if c.lookupPath != "" && name != "" && name[0] == '/' && !Traverses(c.lookupPath + name[1..]) {
      path := c.lookupPath + name[1..];
      assert path[|c.lookupPath|..] == name[1..];
      assert "/" + name[1..] == name;
    } else {
      path := name;
    }
  }

  lemma KeyIsRequested(path: string, c: Config)
    requires !Traverses(path)
    ensures Requested(CacheKey(path, c), c)
  {
    hide Traverses;
    var n := |c.lookupPath|;
    if n > 0 && c.lookupPath <= path {
      assert CacheKey(path, c)[1..] == path[n..];
      assert c.lookupPath + path[n..] == path;
    }
  }

  /** The lookup finds the first slot of a name. */
  predicate FirstOfName(t: Table, k: nat)
    requires WellFormed(t) && k < t.count
  {
    forall j :: 0 <= j < k ==> t.slots[j].name != t.slots[k].name
  }

  lemma {:induction false} FindsFirst(t: Table, name: string, i: nat)
    requires WellFormed(t) && i <= t.count
    ensures var r := FindFrom(t, name, i);
            if r.Some? then forall j :: i <= j < r.value ==> t.slots[j].name != name
            else forall j :: i <= j < t.count ==> t.slots[j].name != name
    decreases t.count - i
  {
    if i < t.count && t.slots[i].name != name {
      FindsFirst(t, name, i + 1);
    }
  }

  lemma FirstIsFound(t: Table, k: nat)
    requires WellFormed(t) && k < t.count && FirstOfName(t, k)
    ensures FindFrom(t, t.slots[k].name, 0) == Some(k)
  {
    FindsFirst(t, t.slots[k].name, 0);
  }

  /** The entry and the file of its name give the same answer. */
  predicate AnswersAsFile(e: CachedFile, disk: map<string, FileData>, base: string) {
    var full := base + e.name;
    full in disk && disk[full].content == e.data && MimeOf(full) == e.mime && PriorityOf(full) == PriorityOf(e.name)
  }

  /** Slots that a request can reach. */
  predicate Reached(t: Table, k: nat, c: Config)
    requires WellFormed(t) && k < t.count
  {
    t.slots[k].loaded && FirstOfName(t, k) && Requested(t.slots[k].name, c)
  }

  /** For any table, disk and lookup prefix: the memory-first server answers every path as
      the file system does exactly when every slot that can be reached does. */
  lemma HybridAgreesIff(t: Table, disk: map<string, FileData>, c: Config)
    requires WellFormed(t)
    ensures HybridAgrees(t, disk, c)
            <==> forall k :: 0 <= k < t.count && Reached(t, k, c) ==> AnswersAsFile(t.slots[k], disk, c.staticDir)
  {
    hide Handle, FileAnswer, Requested, FirstOfName, AnswersAsFile;
    if HybridAgrees(t, disk, c) {
      forall k | 0 <= k < t.count && Reached(t, k, c)
        ensures AnswersAsFile(t.slots[k], disk, c.staticDir)
      {
        var path := RequestedHasPath(t.slots[k].name, c);
        assert Handle(t, disk, path, Hybrid, c) == FileAnswer(disk, path, c);
        SlotAnswers(t, disk, path, k, c);
      }
    }
    if forall k :: 0 <= k < t.count && Reached(t, k, c) ==> AnswersAsFile(t.slots[k], disk, c.staticDir) {
      forall path: string
        ensures Handle(t, disk, path, Hybrid, c) == FileAnswer(disk, path, c)
      {
        PathAgrees(t, disk, path, c);
      }
    }
  }

  lemma SlotAnswers(t: Table, disk: map<string, FileData>, path: string, k: nat, c: Config)
    requires WellFormed(t) && k < t.count && Reached(t, k, c)
    requires !Traverses(path) && CacheKey(path, c) == t.slots[k].name
    ensures Handle(t, disk, path, Hybrid, c) == FileAnswer(disk, path, c)
            <==> AnswersAsFile(t.slots[k], disk, c.staticDir)
  {
    FirstIsFound(t, k);
    hide Traverses, CacheKey, MimeOf, PriorityOf;
  }

  lemma PathAgrees(t: Table, disk: map<string, FileData>, path: string, c: Config)
    requires WellFormed(t)
    requires forall k :: 0 <= k < t.count && Reached(t, k, c) ==> AnswersAsFile(t.slots[k], disk, c.staticDir)
    ensures Handle(t, disk, path, Hybrid, c) == FileAnswer(disk, path, c)
  {
    hide Traverses, CacheKey, MimeOf, PriorityOf, AnswersAsFile, Requested;
    if !Traverses(path) {
      var key := CacheKey(path, c);
      KeyIsRequested(path, c);
      FindsFirst(t, key, 0);
      var i := FindFrom(t, key, 0);
      if i.Some? && t.slots[i.value].loaded {
        assert Reached(t, i.value, c);
        SlotAnswers(t, disk, path, i.value, c);
      }
    }
  }

  // ------------------------------------------------------------------ built caches

  /** Every entry is loaded, and is the file its name says unless the name fills its
      field, as it does when it was cut. */
  predicate UncutAreFiles(t: Table, disk: map<string, FileData>, c: Config)
    requires WellFormed(t)
  {
    forall k :: 0 <= k < t.count ==> UncutIsFile(t.slots[k], disk, c)
  }

  predicate UncutIsFile(e: CachedFile, disk: map<string, FileData>, c: Config) {
    e.loaded && (|e.name| < MAX_FILENAME - 1 ==> IsFile(e, disk, c.staticDir))
  }

  lemma {:induction false} ScanKeepsFiles(t: Table, entries: seq<Named>, dir: string, disk: map<string, FileData>,
      c: Config)
    requires WellFormed(t) && UncutAreFiles(t, disk, c) && Below(dir, c.staticDir) && Holds(disk, entries, dir)
    ensures UncutAreFiles(Scan(t, entries, dir, c), disk, c)
    decreases entries
  {
    hide UncutAreFiles, ScanOne, HoldsOne;
    if entries != [] {
      ScanOneKeepsFiles(t, entries[0], dir, disk, c);
      ScanKeepsFiles(ScanOne(t, entries[0], dir, c), entries[1..], dir, disk, c);
    }
  }

  lemma {:induction false} ScanOneKeepsFiles(t: Table, e: Named, dir: string, disk: map<string, FileData>, c: Config)
    requires WellFormed(t) && UncutAreFiles(t, disk, c) && Below(dir, c.staticDir) && HoldsOne(disk, e, dir)
    ensures UncutAreFiles(ScanOne(t, e, dir, c), disk, c)
    decreases e
  {
    assert c.staticDir <= dir;
    hide UncutAreFiles, Below, RelativePath, LoadFile, Scan, Holds;
    var full := dir + "/" + e.name;
    KeyOf(dir, e.name, c.staticDir);
    if PassedOver(e, dir, c) {
    } else if e.item.Dir? {
      ScanKeepsFiles(t, e.item.entries, full, disk, c);
    } else {
      LoadKeepsFiles(t, e.item.data, RelativePath(full, c.staticDir), disk, c);
    }
  }

  lemma LoadKeepsFiles(t: Table, data: FileData, key: string, disk: map<string, FileData>, c: Config)
    requires WellFormed(t) && UncutAreFiles(t, disk, c)
    requires c.staticDir + key in disk && disk[c.staticDir + key] == data && key != "" && key[0] == '/'
    ensures UncutAreFiles(LoadFile(t, data, key, c), disk, c)
  {
    MimeFits(key);
    hide MimeOf;
    var r := LoadFile(t, data, key, c);
    forall k | 0 <= k < r.count
      ensures UncutIsFile(r.slots[k], disk, c)
    {
      assert k < t.count ==> UncutIsFile(t.slots[k], disk, c);
      assert k < t.count ==> r.slots[k] == t.slots[k];
    }
  }

  lemma FileAnswersAsFile(e: CachedFile, disk: map<string, FileData>, base: string)
    requires IsFile(e, disk, base)
    ensures AnswersAsFile(e, disk, base)
  {
    TypeOfFullPath(base, e.name);
    hide MappingOf;
  }

  /** In a cache built from any directory tree only the entries whose names fill their field
      can disagree. */
  lemma FullNamesDecide(t: Table, entries: seq<Named>, disk: map<string, FileData>, c: Config)
    requires WellFormed(t) && Holds(disk, entries, c.staticDir)
    ensures var built := Build(t, entries, c);
            HybridAgrees(built, disk, c)
            <==> forall k :: 0 <= k < built.count && |built.slots[k].name| >= MAX_FILENAME - 1 && Reached(built, k, c)
                             ==> AnswersAsFile(built.slots[k], disk, c.staticDir)
  {
    hide Scan, HybridAgrees, AnswersAsFile, Reached, IsFile;
    ScanKeepsFiles(Cleared(t), entries, c.staticDir, disk, c);
    var built := Build(t, entries, c);
    HybridAgreesIff(built, disk, c);
    forall k | 0 <= k < built.count && |built.slots[k].name| < MAX_FILENAME - 1
      ensures AnswersAsFile(built.slots[k], disk, c.staticDir)
    {
      assert UncutIsFile(built.slots[k], disk, c);
      FileAnswersAsFile(built.slots[k], disk, c.staticDir);
    }
  }

  // ------------------------------------------------------- the condition on the tree

  /** A file that the scan loads while there are slots. */
  datatype Candidate = Candidate(key: string, data: FileData)

  /** The files of a directory that are neither hidden, excluded nor too large, in the order
      of the scan. */
  function Candidates(entries: seq<Named>, dir: string, c: Config): seq<Candidate>
    requires c.staticDir <= dir
    decreases entries
  {
    if entries == [] then [] else CandidatesOf(entries[0], dir, c) + Candidates(entries[1..], dir, c)
  }

  function CandidatesOf(e: Named, dir: string, c: Config): seq<Candidate>
    requires c.staticDir <= dir
    decreases e
  {
    var full := dir + "/" + e.name;
    if PassedOver(e, dir, c) then []
    else if e.item.Dir? then Candidates(e.item.entries, full, c)
    else if |e.item.data.content| > c.maxFileSize then []
    else [Candidate(RelativePath(full, c.staticDir), e.item.data)]
  }

  /** The name a key gets in its slot. */
  function CutKey(key: string): string {
    Clip(key, MAX_FILENAME)
  }

  function Slot(x: Candidate): CachedFile {
    CachedFile(CutKey(x.key), Clip(MimeOf(x.key), MAX_MIME_TYPE), x.data.content, x.data.modified, true)
  }

  function Slots(xs: seq<Candidate>): (r: seq<CachedFile>)
    ensures |r| == |xs| && forall i :: 0 <= i < |xs| ==> r[i] == Slot(xs[i])
  {
    seq(|xs|, i requires 0 <= i < |xs| => Slot(xs[i]))
  }

  /** As many of the files as there are slots for. */
  function Fitting(count: nat, xs: seq<Candidate>): seq<Candidate> {
    if count + |xs| <= MAX_CACHED_FILES then xs
    else if count <= MAX_CACHED_FILES then xs[..MAX_CACHED_FILES - count]
    else []
  }

  ghost predicate Filled(t: Table, r: Table, xs: seq<Candidate>)
    requires WellFormed(t) && WellFormed(r)
  {
    Visible(r) == Visible(t) + Slots(Fitting(t.count, xs))
  }

  lemma FilledInTurn(t: Table, r: Table, q: Table, xs: seq<Candidate>, ys: seq<Candidate>)
    requires WellFormed(t) && WellFormed(r) && WellFormed(q) && Filled(t, r, xs) && Filled(r, q, ys)
    ensures Filled(t, q, xs + ys)
  {
    hide Slot;
    assert r.count == t.count + |Fitting(t.count, xs)|;
    FittingConcat(t.count, xs, ys);
    var a, b := Fitting(t.count, xs), Fitting(r.count, ys);
    hide Fitting;
    assert Slots(a + b) == Slots(a) + Slots(b);
  }

  lemma FittingConcat(count: nat, xs: seq<Candidate>, ys: seq<Candidate>)
    requires count <= MAX_CACHED_FILES
    ensures Fitting(count, xs + ys) == Fitting(count, xs) + Fitting(count + |Fitting(count, xs)|, ys)
  {}

  lemma NothingFilled(t: Table)
    requires WellFormed(t)
    ensures Filled(t, t, [])
  {
    assert Fitting(t.count, []) == [];
    assert Slots([]) == [];
  }

  lemma LoadFills(t: Table, data: FileData, key: string, c: Config)
    requires WellFormed(t) && |data.content| <= c.maxFileSize
    ensures Filled(t, LoadFile(t, data, key, c), [Candidate(key, data)])
  {
    hide Clip, MimeOf;
    var x := Candidate(key, data);
    if t.count < MAX_CACHED_FILES {
      assert Fitting(t.count, [x]) == [x];
      assert Slots([x]) == [Slot(x)];
    } else {
      assert Fitting(t.count, [x]) == [];
      assert Slots([]) == [];
    }
  }

  lemma {:induction false} ScanFills(t: Table, entries: seq<Named>, dir: string, c: Config)
    requires WellFormed(t) && c.staticDir <= dir
    ensures Filled(t, Scan(t, entries, dir, c), Candidates(entries, dir, c))
    decreases entries
  {
    hide Filled, ScanOne, CandidatesOf;
    if entries == [] {
      NothingFilled(t);
    } else {
      var r := ScanOne(t, entries[0], dir, c);
      ScanOneFills(t, entries[0], dir, c);
      ScanFills(r, entries[1..], dir, c);
      FilledInTurn(t, r, Scan(r, entries[1..], dir, c), CandidatesOf(entries[0], dir, c),
        Candidates(entries[1..], dir, c));
    }
  }

  lemma {:induction false} ScanOneFills(t: Table, e: Named, dir: string, c: Config)
    requires WellFormed(t) && c.staticDir <= dir
    ensures Filled(t, ScanOne(t, e, dir, c), CandidatesOf(e, dir, c))
    decreases e
  {
    hide Filled, Scan, Candidates, LoadFile;
    var full := dir + "/" + e.name;
    if PassedOver(e, dir, c) {
      NothingFilled(t);
    } else if e.item.Dir? {
      ScanFills(t, e.item.entries, full, c);
    } else if |e.item.data.content| > c.maxFileSize {
      TooLargeIsPassedOver(t, e.item.data, RelativePath(full, c.staticDir), c);
      NothingFilled(t);
    } else {
      LoadFills(t, e.item.data, RelativePath(full, c.staticDir), c);
    }
  }

  /** The files a build loads. */
  function LoadedFiles(entries: seq<Named>, c: Config): seq<Candidate> {
    Fitting(0, Candidates(entries, c.staticDir, c))
  }

  lemma BuiltFrom(t: Table, entries: seq<Named>, c: Config)
    requires WellFormed(t)
    ensures Visible(Build(t, entries, c)) == Slots(LoadedFiles(entries, c))
  {
    hide Scan, Candidates, Slots, Fitting;
    ScanFills(Cleared(t), entries, c.staticDir, c);
    assert Visible(Cleared(t)) == [];
    assert [] + Slots(LoadedFiles(entries, c)) == Slots(LoadedFiles(entries, c));
  }

  /** No file before x number k is loaded under the same name. */
  predicate FirstCut(xs: seq<Candidate>, k: nat)
    requires k < |xs|
  {
    forall j :: 0 <= j < k ==> CutKey(xs[j].key) != CutKey(xs[k].key)
  }

  /** The file that the cut key names has the same answer as the file that was loaded. */
  predicate SameUnderCutKey(x: Candidate, disk: map<string, FileData>, base: string) {
    var full := base + CutKey(x.key);
    && full in disk && disk[full].content == x.data.content
    && MimeOf(full) == MimeOf(x.key) && PriorityOf(full) == PriorityOf(CutKey(x.key))
  }

  /** A cache built from any directory tree, whatever the length of its names: the server
      agrees with the file system on every path exactly when each key of 255 characters or
      more that is loaded and can be requested names, when it is cut, a file of the same
      content and type. */
  lemma BuiltServerAgreesIff(t: Table, entries: seq<Named>, disk: map<string, FileData>, c: Config)
    requires WellFormed(t) && Holds(disk, entries, c.staticDir)
    ensures var xs := LoadedFiles(entries, c);
            HybridAgrees(Build(t, entries, c), disk, c)
            <==> forall k ::
                   && 0 <= k < |xs| && |xs[k].key| >= 255 && FirstCut(xs, k)
                   && Requested(CutKey(xs[k].key), c)
                   ==> SameUnderCutKey(xs[k], disk, c.staticDir)
  {
    var xs, built := LoadedFiles(entries, c), Build(t, entries, c);
    FullNamesDecide(t, entries, disk, c);
    BuiltFrom(t, entries, c);
    hide HybridAgrees, Build, LoadedFiles, Reached, FirstCut, SameUnderCutKey, AnswersAsFile, Requested, Slot, CutKey;
    assert |xs| == built.count;
    forall k | 0 <= k < |xs|
      ensures AnswersAsFile(built.slots[k], disk, c.staticDir) == SameUnderCutKey(xs[k], disk, c.staticDir)
      ensures Reached(built, k, c) == (FirstCut(xs, k) && Requested(CutKey(xs[k].key), c))
      ensures |built.slots[k].name| >= MAX_FILENAME - 1 <==> |xs[k].key| >= MAX_FILENAME - 1
    {
      SlotOf(built, xs, k);
      SlotAnswersAsFile(xs[k], disk, c.staticDir);
      SlotReached(built, xs, k, c);
      SlotName(xs[k]);
    }
  }

  lemma SlotOf(t: Table, xs: seq<Candidate>, k: nat)
    requires WellFormed(t) && Visible(t) == Slots(xs) && k < |xs|
    ensures t.count == |xs| && t.slots[k] == Slot(xs[k])
  {
    hide Slot;
    assert Visible(t)[k] == t.slots[k];
  }

  lemma SlotName(x: Candidate)
    ensures Slot(x).name == CutKey(x.key) && (|Slot(x).name| >= MAX_FILENAME - 1 <==> |x.key| >= MAX_FILENAME - 1)
  {
    hide MimeOf;
  }

  lemma SlotAnswersAsFile(x: Candidate, disk: map<string, FileData>, base: string)
    ensures AnswersAsFile(Slot(x), disk, base) == SameUnderCutKey(x, disk, base)
  {
    MimeFits(x.key);
    hide MimeOf, PriorityOf;
  }

  lemma SlotReached(t: Table, xs: seq<Candidate>, k: nat, c: Config)
    requires WellFormed(t) && Visible(t) == Slots(xs) && k < |xs|
    ensures t.count == |xs| && Reached(t, k, c) == (FirstCut(xs, k) && Requested(CutKey(xs[k].key), c))
  {
    hide CutKey, MimeOf, Requested;
    forall j | 0 <= j <= k
      ensures t.slots[j] == Slot(xs[j])
    {
      SlotOf(t, xs, j);
    }
  }

  // ----------------------------------------------------------------------- a witness

  /** The name of a file whose key does not fit. */
  const LONG_NAME: string := seq(300, _ => 'a')

  lemma NoDots(s: string)
    requires forall k :: 0 <= k < |s| ==> s[k] != '.'
    requires forall k :: 0 < k < |s| ==> s[k] != '/' || s[k - 1] != '/'
    ensures !Traverses(s)
  {
    forall p: nat
      ensures !At(s, p, "..") && !At(s, p, "//")
    {
      if At(s, p, "..") {
        AtChar(s, p, "..", 0);
      }
      if At(s, p, "//") {
        AtChar(s, p, "//", 0);
        AtChar(s, p, "//", 1);
      }
    }
  }

  lemma OneFile(t: Table, name: string, data: FileData, c: Config)
    requires WellFormed(t) && name != "" && name[0] != '.' && !c.excluded("/" + name)
    ensures Build(t, [Named(name, File(data))], c) == LoadFile(Cleared(t), data, "/" + name, c)
  {
    var e := Named(name, File(data));
    var full := c.staticDir + "/" + name;
    assert full[|c.staticDir|..] == "/" + name && ("/" + name)[1..] == name;
    assert [e][1..] == [] && [e][0] == e;
    hide LoadFile;
    assert ScanOne(Cleared(t), e, c.staticDir, c) == LoadFile(Cleared(t), data, "/" + name, c);
    assert Scan(ScanOne(Cleared(t), e, c.staticDir, c), [], c.staticDir, c) == ScanOne(Cleared(t), e, c.staticDir, c);
  }

  lemma LongKeyIsCut()
    ensures Clip("/" + LONG_NAME, MAX_FILENAME) == "/" + LONG_NAME[..254]
    ensures !Traverses("/assets/" + LONG_NAME[..254])
  {
    NoDots("/assets/" + LONG_NAME[..254]);
  }

  /** With one such file in the static directory and the default prefix, the hybrid server
      answers for a path that is no file. */
  lemma LongKeyExample(t: Table, data: FileData, c: Config)
    requires WellFormed(t) && |data.content| <= c.maxFileSize && c.lookupPath == "/assets/"
             && !c.excluded("/" + LONG_NAME)
    ensures var built := Build(t, [Named(LONG_NAME, File(data))], c);
            var disk := map[c.staticDir + "/" + LONG_NAME := data];
            var path := "/assets/" + LONG_NAME[..254];
            && Holds(disk, [Named(LONG_NAME, File(data))], c.staticDir)
            && Handle(built, disk, path, Hybrid, c).status == 200 && FileAnswer(disk, path, c) == NOT_FOUND
  {
    var e := Named(LONG_NAME, File(data));
    var path, cut := "/assets/" + LONG_NAME[..254], "/" + LONG_NAME[..254];
    LongKeyIsCut();
    OneFile(t, LONG_NAME, data, c);
    assert CacheKey(path, c) == cut by { assert path[8..] == LONG_NAME[..254]; }
    assert |c.staticDir + cut| < |c.staticDir + "/" + LONG_NAME|;
    assert [e][1..] == [];
    hide Traverses, MimeOf, PriorityOf, CacheKey, Build, Clip;
    assert FindFrom(Build(t, [e], c), cut, 0) == Some(0);
  }
}
