/** The folder structure `create_folder_structure_info` detects in uploaded
    names, and its rendering by `display_folder_structure`.

    The source keeps a nested dictionary per directory whose keys are the
    sub-directory names plus the reserved key `_files`, mapped to the list of
    file names at that level.  Here a directory node is the sequence of its
    entries in insertion order (the order a Python dictionary iterates in): a
    file list, or a named sub-directory.  `Insert` files under a tagged key,
    so a directory that happens to be called `_files` stays a directory;
    `InsertAsWritten` compares keys as the source's strings do. */
module FolderTree {
  import opened Wrappers
  import opened UploadNames

  const FilesKeyName := "_files"

  datatype Slot = FileSlot(names: seq<string>) | DirSlot(name: string, child: Node)
  datatype Node = Node(slots: seq<Slot>)

  /** The key of an entry, kept apart from the way the source spells it. */
  datatype Key = FilesKey | DirKey(name: string)

  function KeyOf(s: Slot): Key
  {
    if s.FileSlot? then FilesKey else DirKey(s.name)
  }

  /** The dictionary key the source uses for an entry. */
  function PyKey(k: Key): string
  {
    if k.FilesKey? then FilesKeyName else k.name
  }

  /** The position of the entry with key `k`, or the number of entries. */
  function Find(ss: seq<Slot>, k: Key): (i: nat)
    ensures i <= |ss|
    ensures i < |ss| ==> KeyOf(ss[i]) == k
    ensures forall j :: 0 <= j < i ==> KeyOf(ss[j]) != k
  {
    if ss == [] then 0 else if KeyOf(ss[0]) == k then 0 else 1 + Find(ss[1..], k)
  }

  /** `key in current_level` and the lookup that follows, on the source's
      string keys. */
  function FindPy(ss: seq<Slot>, key: string): (i: nat)
    ensures i <= |ss|
    ensures i < |ss| ==> PyKey(KeyOf(ss[i])) == key
    ensures forall j :: 0 <= j < i ==> PyKey(KeyOf(ss[j])) != key
  {
    if ss == [] then 0 else if PyKey(KeyOf(ss[0])) == key then 0 else 1 + FindPy(ss[1..], key)
  }

  lemma FindIs(ss: seq<Slot>, k: Key, i: nat)
    requires i <= |ss|
    requires i < |ss| ==> KeyOf(ss[i]) == k
    requires forall j :: 0 <= j < i ==> KeyOf(ss[j]) != k
    ensures Find(ss, k) == i
  {
    if ss != [] && KeyOf(ss[0]) != k {
      FindIs(ss[1..], k, i - 1);
    }
  }

  /** Appending an entry does not move a key that was already there. */
  lemma FindAppend(ss: seq<Slot>, x: Slot, k: Key)
    ensures Find(ss + [x], k) ==
      if Find(ss, k) < |ss| then Find(ss, k) else if KeyOf(x) == k then |ss| else |ss| + 1
  {
    var t := ss + [x];
    var i := Find(ss, k);
    assert forall j :: 0 <= j < |ss| ==> t[j] == ss[j];
    if i < |ss| {
      FindIs(t, k, i);
    } else if KeyOf(x) == k {
      FindIs(t, k, |ss|);
    } else {
      FindIs(t, k, |ss| + 1);
    }
  }

  /** Replacing an entry by one with the same key moves no key. */
  lemma FindUpdate(ss: seq<Slot>, i: nat, x: Slot, k: Key)
    requires i < |ss| && KeyOf(x) == KeyOf(ss[i])
    ensures Find(ss[i := x], k) == Find(ss, k)
  {
    var t := ss[i := x];
    assert forall j :: 0 <= j < |ss| ==> KeyOf(t[j]) == KeyOf(ss[j]);
    FindIs(t, k, Find(ss, k));
  }

  // ---------------------------------------------------------------------
  // Building the structure

  /** Append a file name to a node's file list, creating the list first. */
  function AddFile(n: Node, f: string): Node
  {
    var i := Find(n.slots, FilesKey);
    if i == |n.slots| then Node(n.slots + [FileSlot([f])])
    else Node(n.slots[i := FileSlot(n.slots[i].names + [f])])
  }

  /** Walk `dirs` from `n`, creating each missing directory, and append `f`
      to the file list of the node reached. */
  function Insert(n: Node, dirs: seq<string>, f: string): Node
    decreases |dirs|
  {
    if dirs == [] then AddFile(n, f)
    else
      var i := Find(n.slots, DirKey(dirs[0]));
      if i == |n.slots| then Node(n.slots + [DirSlot(dirs[0], Insert(Node([]), dirs[1..], f))])
      else Node(n.slots[i := DirSlot(dirs[0], Insert(n.slots[i].child, dirs[1..], f))])
  }

  /** How an uploaded name is cut up: with a separator, the backslashes
      become slashes and the name is split on slashes; without one it is a
      single part. */
  function NameParts(name: string): (parts: seq<string>)
    ensures |parts| >= 1
  {
    if HasSeparator(name) then Split(Normalize(name)) else [name]
  }

  /** The directory chain of an uploaded name: all parts but the last. */
  function DirsOf(name: string): seq<string>
  {
    var parts := NameParts(name);
    parts[..|parts| - 1]
  }

  /** The file name of an uploaded name: its last part. */
  function FileOf(name: string): string
  {
    var parts := NameParts(name);
    parts[|parts| - 1]
  }

  function InsertName(n: Node, name: string): Node
  {
    Insert(n, DirsOf(name), FileOf(name))
  }

  /** The structure after inserting `names` in order. */
  function Build(names: seq<string>): Node
  {
    if names == [] then Node([])
    else InsertName(Build(names[..|names| - 1]), names[|names| - 1])
  }

  // ---------------------------------------------------------------------
  // Looking things up

  /** The file list of the node reached by following `dirs` from `n`, or
      the empty list when there is no such node or it has no files. */
  function FilesAt(n: Node, dirs: seq<string>): seq<string>
    decreases |dirs|
  {
    if dirs == [] then
      var i := Find(n.slots, FilesKey);
      if i < |n.slots| then n.slots[i].names else []
    else
      var i := Find(n.slots, DirKey(dirs[0]));
      if i < |n.slots| then FilesAt(n.slots[i].child, dirs[1..]) else []
  }

  lemma FilesAtEmpty(dirs: seq<string>)
    ensures FilesAt(Node([]), dirs) == []
  {
  }

  /** After an insertion the file name is at the end of the file list at
      its directory chain. */
  lemma {:induction false} InsertAppends(n: Node, dirs: seq<string>, f: string)
    ensures FilesAt(Insert(n, dirs, f), dirs) == FilesAt(n, dirs) + [f]
    decreases |dirs|
  {
    var ss := n.slots;
    if dirs == [] {
      var i := Find(ss, FilesKey);
      if i == |ss| {
        FindAppend(ss, FileSlot([f]), FilesKey);
      } else {
        FindUpdate(ss, i, FileSlot(ss[i].names + [f]), FilesKey);
      }
    } else {
      var d, rest := dirs[0], dirs[1..];
      var i := Find(ss, DirKey(d));
      if i == |ss| {
        var c := Insert(Node([]), rest, f);
        FindAppend(ss, DirSlot(d, c), DirKey(d));
        InsertAppends(Node([]), rest, f);
        FilesAtEmpty(rest);
      } else {
        var c := Insert(ss[i].child, rest, f);
        FindUpdate(ss, i, DirSlot(d, c), DirKey(d));
        InsertAppends(ss[i].child, rest, f);
      }
    }
  }

  /** An insertion changes no other file list: existing directory nodes are
      extended in place, never replaced by fresh ones. */
  lemma {:induction false} InsertFrame(n: Node, dirs: seq<string>, f: string, q: seq<string>)
    requires q != dirs
    ensures FilesAt(Insert(n, dirs, f), q) == FilesAt(n, q)
    decreases |dirs|
  {
    var ss := n.slots;
    var m := Insert(n, dirs, f);
    var k := if q == [] then FilesKey else DirKey(q[0]);
    if dirs == [] {
      var i := Find(ss, FilesKey);
      if i == |ss| {
        FindAppend(ss, FileSlot([f]), k);
      } else {
        FindUpdate(ss, i, FileSlot(ss[i].names + [f]), k);
      }
    } else {
      var d, rest := dirs[0], dirs[1..];
      var i := Find(ss, DirKey(d));
      if i == |ss| {
        var c := Insert(Node([]), rest, f);
        FindAppend(ss, DirSlot(d, c), k);
        if q != [] && q[0] == d {
          assert q[1..] != rest;
          InsertFrame(Node([]), rest, f, q[1..]);
          FilesAtEmpty(q[1..]);
        }
      } else {
        var c := Insert(ss[i].child, rest, f);
        FindUpdate(ss, i, DirSlot(d, c), k);
        if q != [] && q[0] == d {
          assert q[1..] != rest;
          InsertFrame(ss[i].child, rest, f, q[1..]);
        }
      }
    }
  }

  /** The names whose file goes into the list at `dirs`, in upload order. */
  function FilesUnder(names: seq<string>, dirs: seq<string>): seq<string>
  {
    if names == [] then []
    else
      var last := names[|names| - 1];
      FilesUnder(names[..|names| - 1], dirs) + (if DirsOf(last) == dirs then [FileOf(last)] else [])
  }

  /** The lookup invariant of the whole structure: the file list at any
      directory chain holds exactly the files uploaded under that chain, in
      upload order. */
  lemma {:induction false} BuildFiles(names: seq<string>, dirs: seq<string>)
    ensures FilesAt(Build(names), dirs) == FilesUnder(names, dirs)
  {
    if names == [] {
      FilesAtEmpty(dirs);
    } else {
      var init, last := names[..|names| - 1], names[|names| - 1];
      BuildFiles(init, dirs);
      if DirsOf(last) == dirs {
        InsertAppends(Build(init), dirs, FileOf(last));
      } else {
        InsertFrame(Build(init), DirsOf(last), FileOf(last), dirs);
      }
    }
  }

  /** A name without separators goes, whole, into the root file list. */
  lemma RootName(name: string)
    requires !HasSeparator(name)
    ensures DirsOf(name) == [] && FileOf(name) == name
  {
  }

  /** A name written as segments joined by `/` or `\` files its last segment
      under the directory chain of the others. */
  lemma JoinedNameParts(segs: seq<string>, sep: char)
    requires sep == '/' || sep == '\\'
    requires |segs| >= 1
    requires forall k :: 0 <= k < |segs| ==> '/' !in segs[k] && '\\' !in segs[k]
    ensures DirsOf(Join(segs, sep)) == segs[..|segs| - 1]
    ensures FileOf(Join(segs, sep)) == segs[|segs| - 1]
  {
    JoinedNameSplits(segs, sep);
  }

  lemma JoinedNameSplits(segs: seq<string>, sep: char)
    requires sep == '/' || sep == '\\'
    requires |segs| >= 1
    requires forall k :: 0 <= k < |segs| ==> '/' !in segs[k] && '\\' !in segs[k]
    ensures NameParts(Join(segs, sep)) == segs
  {
    var name := Join(segs, sep);
    JoinedStagingPath(segs, sep);
    SplitJoin(segs);
    if |segs| > 1 {
      var j := Join(segs[..|segs| - 1], sep);
      assert name[|j|] == sep;
    }
  }

  /** Insertion keeps every existing entry at its place with its key, and
      adds at most one entry, at the end: the order the source's dictionary
      iterates in. */
  lemma InsertKeepsOrder(n: Node, dirs: seq<string>, f: string)
    ensures var m := Insert(n, dirs, f);
      && |n.slots| <= |m.slots| <= |n.slots| + 1
      && forall i :: 0 <= i < |n.slots| ==> KeyOf(m.slots[i]) == KeyOf(n.slots[i])
  {
  }

  // ---------------------------------------------------------------------
  // The dictionary invariant: keys are unique at every level

  ghost predicate WellFormed(n: Node)
  {
    && (forall i, j :: 0 <= i < j < |n.slots| ==> KeyOf(n.slots[i]) != KeyOf(n.slots[j]))
    && (forall i :: 0 <= i < |n.slots| ==> n.slots[i].DirSlot? ==> WellFormed(n.slots[i].child))
  }

  lemma {:induction false} InsertWellFormed(n: Node, dirs: seq<string>, f: string)
    requires WellFormed(n)
    ensures WellFormed(Insert(n, dirs, f))
    decreases |dirs|
  {
    var ss := n.slots;
    var m := Insert(n, dirs, f);
    InsertKeepsOrder(n, dirs, f);
    if dirs == [] {
      var i := Find(ss, FilesKey);
      assert forall j :: 0 <= j < |ss| && j != i ==> m.slots[j] == ss[j];
    } else {
      var d, rest := dirs[0], dirs[1..];
      var i := Find(ss, DirKey(d));
      if i == |ss| {
        InsertWellFormed(Node([]), rest, f);
      } else {
        InsertWellFormed(ss[i].child, rest, f);
      }
      assert forall j :: 0 <= j < |ss| && j != i ==> m.slots[j] == ss[j];
    }
  }

  lemma {:induction false} BuildWellFormed(names: seq<string>)
    ensures WellFormed(Build(names))
  {
    if names != [] {
      var init, last := names[..|names| - 1], names[|names| - 1];
      BuildWellFormed(init);
      InsertWellFormed(Build(init), DirsOf(last), FileOf(last));
    }
  }

  // ---------------------------------------------------------------------
  // Counting files

  function SlotsFiles(ss: seq<Slot>): nat
    decreases ss
  {
    if ss == [] then 0 else SlotsFiles(ss[..|ss| - 1]) + SlotFiles(ss[|ss| - 1])
  }

  function SlotFiles(s: Slot): nat
    decreases s
  {
    match s
    case FileSlot(ns) => |ns|
    case DirSlot(_, c) => SlotsFiles(c.slots)
  }

  /** The number of file names in a structure, at every level. */
  function TotalFiles(n: Node): nat
  {
    SlotsFiles(n.slots)
  }

  lemma {:induction false} SlotsFilesUpdate(ss: seq<Slot>, i: nat, x: Slot)
    requires i < |ss|
    ensures SlotsFiles(ss[i := x]) + SlotFiles(ss[i]) == SlotsFiles(ss) + SlotFiles(x)
  {
    var t := ss[i := x];
    if i < |ss| - 1 {
      assert t[..|t| - 1] == ss[..|ss| - 1][i := x];
      SlotsFilesUpdate(ss[..|ss| - 1], i, x);
    } else {
      assert t[..|t| - 1] == ss[..|ss| - 1];
    }
  }

  lemma SlotsFilesAppend(ss: seq<Slot>, x: Slot)
    ensures SlotsFiles(ss + [x]) == SlotsFiles(ss) + SlotFiles(x)
  {
    assert (ss + [x])[..|ss|] == ss;
  }

  /** Each insertion adds exactly one file name. */
  lemma {:induction false} InsertCountsOne(n: Node, dirs: seq<string>, f: string)
    ensures TotalFiles(Insert(n, dirs, f)) == TotalFiles(n) + 1
    decreases |dirs|
  {
    var ss := n.slots;
    if dirs == [] {
      var i := Find(ss, FilesKey);
      if i == |ss| {
        SlotsFilesAppend(ss, FileSlot([f]));
      } else {
        SlotsFilesUpdate(ss, i, FileSlot(ss[i].names + [f]));
      }
    } else {
      var d, rest := dirs[0], dirs[1..];
      var i := Find(ss, DirKey(d));
      if i == |ss| {
        InsertCountsOne(Node([]), rest, f);
        SlotsFilesAppend(ss, DirSlot(d, Insert(Node([]), rest, f)));
      } else {
        InsertCountsOne(ss[i].child, rest, f);
        SlotsFilesUpdate(ss, i, DirSlot(d, Insert(ss[i].child, rest, f)));
      }
    }
  }

  /** A structure built from `names` holds exactly `|names|` file names. */
  lemma {:induction false} BuildCounts(names: seq<string>)
    ensures TotalFiles(Build(names)) == |names|
  {
    if names != [] {
      var init, last := names[..|names| - 1], names[|names| - 1];
      BuildCounts(init);
      InsertCountsOne(Build(init), DirsOf(last), FileOf(last));
    }
  }

  // ---------------------------------------------------------------------
  // Rendering

  /** One line `display_folder_structure` writes, before it is spelled out. */
  datatype Line = FileLine(depth: nat, name: string) | DirLine(depth: nat, name: string)

  function SlotsLines(ss: seq<Slot>, depth: nat): seq<Line>
    decreases ss
  {
    if ss == [] then [] else SlotsLines(ss[..|ss| - 1], depth) + SlotLines(ss[|ss| - 1], depth)
  }

  function SlotLines(s: Slot, depth: nat): seq<Line>
    decreases s
  {
    match s
    case FileSlot(ns) => FileLines(ns, depth)
    case DirSlot(k, c) => [DirLine(depth, k)] + SlotsLines(c.slots, depth + 1)
  }

  function FileLines(ns: seq<string>, depth: nat): (ls: seq<Line>)
    ensures |ls| == |ns|
    ensures forall i :: 0 <= i < |ns| ==> ls[i] == FileLine(depth, ns[i])
  {
    if ns == [] then [] else FileLines(ns[..|ns| - 1], depth) + [FileLine(depth, ns[|ns| - 1])]
  }

  /** `display_folder_structure(structure, prefix)` with `prefix` made of
      `depth` indentation steps. */
  function Display(n: Node, depth: nat): seq<Line>
  {
    SlotsLines(n.slots, depth)
  }

  function CountFileLines(ls: seq<Line>): nat
  {
    if ls == [] then 0
    else CountFileLines(ls[..|ls| - 1]) + (if ls[|ls| - 1].FileLine? then 1 else 0)
  }

  lemma {:induction false} CountFileLinesAppend(a: seq<Line>, b: seq<Line>)
    ensures CountFileLines(a + b) == CountFileLines(a) + CountFileLines(b)
    decreases |b|
  {
    if b == [] {
      assert a + b == a;
    } else {
      assert (a + b)[..|a + b| - 1] == a + b[..|b| - 1];
      CountFileLinesAppend(a, b[..|b| - 1]);
    }
  }

  lemma {:induction false} CountFileLinesOfFiles(ns: seq<string>, depth: nat)
    ensures CountFileLines(FileLines(ns, depth)) == |ns|
  {
    if ns != [] {
      var ls := FileLines(ns, depth);
      assert ls[..|ls| - 1] == FileLines(ns[..|ns| - 1], depth);
      CountFileLinesOfFiles(ns[..|ns| - 1], depth);
    }
  }

  /** The rendering shows one file line per file name of the structure. */
  lemma {:induction false} SlotsLinesCount(ss: seq<Slot>, depth: nat)
    ensures CountFileLines(SlotsLines(ss, depth)) == SlotsFiles(ss)
    decreases ss
  {
    if ss != [] {
      SlotsLinesCount(ss[..|ss| - 1], depth);
      SlotLinesCount(ss[|ss| - 1], depth);
      CountFileLinesAppend(SlotsLines(ss[..|ss| - 1], depth), SlotLines(ss[|ss| - 1], depth));
    }
  }

  lemma {:induction false} SlotLinesCount(s: Slot, depth: nat)
    ensures CountFileLines(SlotLines(s, depth)) == SlotFiles(s)
    decreases s
  {
    match s
    case FileSlot(ns) =>
      CountFileLinesOfFiles(ns, depth);
    case DirSlot(k, c) =>
      SlotsLinesCount(c.slots, depth + 1);
      CountFileLinesAppend([DirLine(depth, k)], SlotsLines(c.slots, depth + 1));
      assert CountFileLines([DirLine(depth, k)]) == 0;
  }

  /** The display of the built structure has one file line per upload, and
      the file lines carry exactly the uploads' file names, each as often as
      it was uploaded. */
  lemma DisplayShowsEveryFile(names: seq<string>)
    ensures CountFileLines(Display(Build(names), 0)) == |names|
    ensures multiset(FileLineNames(Display(Build(names), 0))) == multiset(UploadedFiles(names))
  {
    BuildCounts(names);
    SlotsLinesCount(Build(names).slots, 0);
    BuildNames(names);
    SlotsLinesNames(Build(names).slots, 0);
  }

  /** The lines of a structure are never shallower than the level it is
      shown at. */
  lemma {:induction false} SlotsLinesDepth(ss: seq<Slot>, depth: nat)
    ensures forall l :: l in SlotsLines(ss, depth) ==> l.depth >= depth
    decreases ss
  {
    if ss != [] {
      SlotsLinesDepth(ss[..|ss| - 1], depth);
      SlotLinesDepth(ss[|ss| - 1], depth);
    }
  }

  lemma {:induction false} SlotLinesDepth(s: Slot, depth: nat)
    ensures forall l :: l in SlotLines(s, depth) ==> l.depth >= depth
    decreases s
  {
    match s
    case FileSlot(ns) =>
    case DirSlot(k, c) =>
      SlotsLinesDepth(c.slots, depth + 1);
  }

  // ---------------------------------------------------------------------
  // Which names the file lines carry, and at which depth

  function SlotsNames(ss: seq<Slot>): multiset<string>
    decreases ss
  {
    if ss == [] then multiset{} else SlotsNames(ss[..|ss| - 1]) + SlotNames(ss[|ss| - 1])
  }

  function SlotNames(s: Slot): multiset<string>
    decreases s
  {
    match s
    case FileSlot(ns) => multiset(ns)
    case DirSlot(_, c) => SlotsNames(c.slots)
  }

  /** The file names of a structure, at every level, with repetitions. */
  function TreeNames(n: Node): multiset<string>
  {
    SlotsNames(n.slots)
  }

  /** Replacing an entry by one holding `m` more names adds `m` to the node. */
  lemma {:induction false} SlotsNamesGrow(ss: seq<Slot>, i: nat, x: Slot, m: multiset<string>)
    requires i < |ss|
    requires SlotNames(x) == SlotNames(ss[i]) + m
    ensures SlotsNames(ss[i := x]) == SlotsNames(ss) + m
  {
    var t := ss[i := x];
    var init := ss[..|ss| - 1];
    assert SlotsNames(ss) == SlotsNames(init) + SlotNames(ss[|ss| - 1]);
    if i < |ss| - 1 {
      assert t[..|t| - 1] == init[i := x];
      assert t[|t| - 1] == ss[|ss| - 1];
      SlotsNamesGrow(init, i, x, m);
    } else {
      assert t[..|t| - 1] == init;
    }
  }

  lemma SlotsNamesAppend(ss: seq<Slot>, x: Slot)
    ensures SlotsNames(ss + [x]) == SlotsNames(ss) + SlotNames(x)
  {
    assert (ss + [x])[..|ss|] == ss;
  }

  lemma AddFileAddsName(n: Node, f: string)
    ensures TreeNames(AddFile(n, f)) == TreeNames(n) + multiset{f}
  {
    var ss := n.slots;
    var i := Find(ss, FilesKey);
    if i == |ss| {
      SlotsNamesAppend(ss, FileSlot([f]));
      assert SlotNames(FileSlot([f])) == multiset{f};
    } else {
      var x := FileSlot(ss[i].names + [f]);
      assert SlotNames(x) == SlotNames(ss[i]) + multiset{f};
      SlotsNamesGrow(ss, i, x, multiset{f});
    }
  }

  /** Each insertion adds its file name to the structure and nothing else. */
  lemma {:induction false} InsertAddsName(n: Node, dirs: seq<string>, f: string)
    ensures TreeNames(Insert(n, dirs, f)) == TreeNames(n) + multiset{f}
    decreases |dirs|
  {
    var ss := n.slots;
    if dirs == [] {
      AddFileAddsName(n, f);
    } else {
      var d, rest := dirs[0], dirs[1..];
      var i := Find(ss, DirKey(d));
      if i == |ss| {
        var c := Insert(Node([]), rest, f);
        InsertAddsName(Node([]), rest, f);
        SlotsNamesAppend(ss, DirSlot(d, c));
      } else {
        var c := Insert(ss[i].child, rest, f);
        InsertAddsName(ss[i].child, rest, f);
        SlotsNamesGrow(ss, i, DirSlot(d, c), multiset{f});
      }
    }
  }

  /** The file names of the uploads, in upload order. */
  function UploadedFiles(names: seq<string>): (r: seq<string>)
    ensures |r| == |names|
    ensures forall k :: 0 <= k < |names| ==> r[k] == FileOf(names[k])
  {
    if names == [] then [] else UploadedFiles(names[..|names| - 1]) + [FileOf(names[|names| - 1])]
  }

  /** The structure built from `names` holds exactly the uploads' file
      names, each as often as it was uploaded. */
  lemma {:induction false} BuildNames(names: seq<string>)
    ensures TreeNames(Build(names)) == multiset(UploadedFiles(names))
  {
    if names != [] {
      var init, last := names[..|names| - 1], names[|names| - 1];
      BuildNames(init);
      InsertAddsName(Build(init), DirsOf(last), FileOf(last));
      assert UploadedFiles(names) == UploadedFiles(init) + [FileOf(last)];
    }
  }

  /** The names carried by the file lines, in display order. */
  function FileLineNames(ls: seq<Line>): seq<string>
  {
    if ls == [] then []
    else FileLineNames(ls[..|ls| - 1]) + (if ls[|ls| - 1].FileLine? then [ls[|ls| - 1].name] else [])
  }

  lemma {:induction false} FileLineNamesAppend(a: seq<Line>, b: seq<Line>)
    ensures FileLineNames(a + b) == FileLineNames(a) + FileLineNames(b)
    decreases |b|
  {
    if b == [] {
      assert a + b == a;
    } else {
      assert (a + b)[..|a + b| - 1] == a + b[..|b| - 1];
      FileLineNamesAppend(a, b[..|b| - 1]);
    }
  }

  /** A file list is shown as its names, in order. */
  lemma {:induction false} FileLineNamesOfFiles(ns: seq<string>, depth: nat)
    ensures FileLineNames(FileLines(ns, depth)) == ns
  {
    if ns != [] {
      var ls := FileLines(ns, depth);
      assert ls[..|ls| - 1] == FileLines(ns[..|ns| - 1], depth);
      FileLineNamesOfFiles(ns[..|ns| - 1], depth);
      assert ns == ns[..|ns| - 1] + [ns[|ns| - 1]];
    }
  }

  /** The file lines of a node's display carry exactly its file names. */
  lemma {:induction false} SlotsLinesNames(ss: seq<Slot>, depth: nat)
    ensures multiset(FileLineNames(SlotsLines(ss, depth))) == SlotsNames(ss)
    decreases ss
  {
    if ss != [] {
      SlotsLinesNames(ss[..|ss| - 1], depth);
      SlotLinesNames(ss[|ss| - 1], depth);
      FileLineNamesAppend(SlotsLines(ss[..|ss| - 1], depth), SlotLines(ss[|ss| - 1], depth));
    }
  }

  lemma {:induction false} SlotLinesNames(s: Slot, depth: nat)
    ensures multiset(FileLineNames(SlotLines(s, depth))) == SlotNames(s)
    decreases s
  {
    match s
    case FileSlot(ns) =>
      FileLineNamesOfFiles(ns, depth);
    case DirSlot(k, c) =>
      SlotsLinesNames(c.slots, depth + 1);
      FileLineNamesAppend([DirLine(depth, k)], SlotsLines(c.slots, depth + 1));
      assert FileLineNames([DirLine(depth, k)]) == [];
  }

  /** The lines of one entry are among the lines of its node. */
  lemma {:induction false} SlotInLines(ss: seq<Slot>, i: nat, depth: nat)
    requires i < |ss|
    ensures forall l :: l in SlotLines(ss[i], depth) ==> l in SlotsLines(ss, depth)
  {
    assert SlotsLines(ss, depth) == SlotsLines(ss[..|ss| - 1], depth) + SlotLines(ss[|ss| - 1], depth);
    if i < |ss| - 1 {
      SlotInLines(ss[..|ss| - 1], i, depth);
      assert ss[..|ss| - 1][i] == ss[i];
    }
  }

  /** A file filed under the chain `dirs` is shown `|dirs|` levels below the
      node, and every directory of the chain is shown at its own level. */
  lemma {:induction false} FileShownAtDepth(n: Node, dirs: seq<string>, f: string, depth: nat)
    requires f in FilesAt(n, dirs)
    ensures FileLine(depth + |dirs|, f) in SlotsLines(n.slots, depth)
    ensures forall j :: 0 <= j < |dirs| ==> DirLine(depth + j, dirs[j]) in SlotsLines(n.slots, depth)
    decreases |dirs|
  {
    var ss := n.slots;
    if dirs == [] {
      var i := Find(ss, FilesKey);
      assert ss[i].FileSlot?;
      var ns := ss[i].names;
      var k :| 0 <= k < |ns| && ns[k] == f;
      assert FileLines(ns, depth)[k] == FileLine(depth, f);
      SlotInLines(ss, i, depth);
    } else {
      var i := Find(ss, DirKey(dirs[0]));
      assert ss[i].DirSlot?;
      var c := ss[i].child;
      FileShownAtDepth(c, dirs[1..], f, depth + 1);
      assert SlotLines(ss[i], depth) == [DirLine(depth, dirs[0])] + SlotsLines(c.slots, depth + 1);
      SlotInLines(ss, i, depth);
      forall j | 0 < j < |dirs|
        ensures DirLine(depth + j, dirs[j]) in SlotsLines(ss, depth)
      {
        assert dirs[1..][j - 1] == dirs[j];
        assert DirLine(depth + 1 + (j - 1), dirs[1..][j - 1]) in SlotsLines(c.slots, depth + 1);
      }
    }
  }

  /** Every upload is filed in the list of its own directory chain. */
  lemma {:induction false} UploadFiled(names: seq<string>, k: nat)
    requires k < |names|
    ensures FileOf(names[k]) in FilesUnder(names, DirsOf(names[k]))
  {
    var init := names[..|names| - 1];
    if k < |names| - 1 {
      UploadFiled(init, k);
      assert init[k] == names[k];
    }
  }

  /** Every upload is shown as a file line at the depth of its directory
      chain, below a directory line for each directory of the chain. */
  lemma UploadShownAtDepth(names: seq<string>, k: nat)
    requires k < |names|
    ensures FileLine(|DirsOf(names[k])|, FileOf(names[k])) in Display(Build(names), 0)
    ensures forall j :: 0 <= j < |DirsOf(names[k])| ==>
              DirLine(j, DirsOf(names[k])[j]) in Display(Build(names), 0)
  {
    UploadFiled(names, k);
    BuildFiles(names, DirsOf(names[k]));
    ShownAtDepth(Build(names), DirsOf(names[k]), FileOf(names[k]));
  }

  lemma ShownAtDepth(t: Node, dirs: seq<string>, f: string)
    requires f in FilesAt(t, dirs)
    ensures FileLine(|dirs|, f) in Display(t, 0)
    ensures forall j :: 0 <= j < |dirs| ==> DirLine(j, dirs[j]) in Display(t, 0)
  {
    FileShownAtDepth(t, dirs, f, 0);
  }

  function Indent(depth: nat): (s: string)
    ensures |s| == 2 * depth
    ensures forall i :: 0 <= i < |s| ==> s[i] == ' '
  {
    if depth == 0 then "" else Indent(depth - 1) + "  "
  }

  /** The text of a line: `{prefix}📄 {name}` or `{prefix}📁 {name}/`. */
  function Render(l: Line): string
  {
    match l
    case FileLine(d, nm) => Indent(d) + "\U{1F4C4} " + nm
    case DirLine(d, nm) => Indent(d) + "\U{1F4C1} " + nm + "/"
  }

  function RenderAll(ls: seq<Line>): (r: seq<string>)
    ensures |r| == |ls|
    ensures forall i :: 0 <= i < |ls| ==> r[i] == Render(ls[i])
  {
    if ls == [] then [] else RenderAll(ls[..|ls| - 1]) + [Render(ls[|ls| - 1])]
  }

  const Header := "**\U{1F4C1} Detected folder structure:**"

  /** What `create_folder_structure_info` writes for a structure: nothing
      for an empty one, otherwise the header and the rendering. */
  function Shown(t: Node): seq<string>
  {
    if t.slots == [] then [] else [Header] + RenderAll(Display(t, 0))
  }

  /** `create_folder_structure_info`: insert every uploaded name, in order,
      then write the structure; an empty upload writes nothing. */
  method CreateFolderStructureInfo(names: seq<string>) returns (lines: seq<string>)
    ensures names == [] ==> lines == []
    ensures names != [] ==> lines == Shown(Build(names))
  {
    if names == [] {
      return [];
    }
    var tree := Node([]);
    for k := 0 to |names|
      invariant tree == Build(names[..k])
    {
      assert names[..k + 1][..k] == names[..k];
      tree := InsertName(tree, names[k]);
    }
    assert names[..|names|] == names;
    if tree.slots != [] {
      lines := [Header] + RenderAll(Display(tree, 0));
    } else {
      lines := [];
    }
  }

  /** A non-empty upload always yields a non-empty structure, so the header
      is written. */
  lemma BuildNonEmpty(names: seq<string>)
    requires names != []
    ensures Build(names).slots != []
  {
    BuildCounts(names);
  }

  // ---------------------------------------------------------------------
  // The structure as the source builds it

  /** The exceptions the source's dictionary walk can raise. */
  datatype PyError =
    | ListIndexedByString   // TypeError: a file list indexed by a name
    | DictHasNoAppend       // AttributeError: append on a directory dictionary

  /** The loop body of `create_folder_structure_info`, comparing entries by
      their string keys: a directory called `_files` is the same key as the
      file list. */
  function InsertAsWritten(n: Node, dirs: seq<string>, f: string): Result<Node, PyError>
    decreases |dirs|
  {
    var ss := n.slots;
    if dirs == [] then
      var i := FindPy(ss, FilesKeyName);
      if i == |ss| then Ok(Node(ss + [FileSlot([f])]))
      else if ss[i].FileSlot? then Ok(Node(ss[i := FileSlot(ss[i].names + [f])]))
      else Err(DictHasNoAppend)
    else
      var i := FindPy(ss, dirs[0]);
      if i == |ss| then
        match InsertAsWritten(Node([]), dirs[1..], f)
        case Ok(c) => Ok(Node(ss + [DirSlot(dirs[0], c)]))
        case Err(e) => Err(e)
      else if ss[i].FileSlot? then Err(ListIndexedByString)
      else
        match InsertAsWritten(ss[i].child, dirs[1..], f)
        case Ok(c) => Ok(Node(ss[i := DirSlot(dirs[0], c)]))
        case Err(e) => Err(e)
  }

  function BuildAsWritten(names: seq<string>): Result<Node, PyError>
  {
    if names == [] then Ok(Node([]))
    else
      match BuildAsWritten(names[..|names| - 1])
      case Ok(t) =>
        var last := names[|names| - 1];
        InsertAsWritten(t, DirsOf(last), FileOf(last))
      case Err(e) => Err(e)
  }

  /** No directory anywhere in the structure is called `_files`. */
  ghost predicate NoFilesDir(n: Node)
  {
    forall i :: 0 <= i < |n.slots| ==> n.slots[i].DirSlot? ==>
      n.slots[i].name != FilesKeyName && NoFilesDir(n.slots[i].child)
  }

  lemma FindPyAgrees(ss: seq<Slot>, k: Key)
    requires forall j :: 0 <= j < |ss| ==> ss[j].DirSlot? ==> ss[j].name != FilesKeyName
    requires k.DirKey? ==> k.name != FilesKeyName
    ensures FindPy(ss, PyKey(k)) == Find(ss, k)
  {
    var i := FindPy(ss, PyKey(k));
    assert forall j :: 0 <= j < |ss| ==> (PyKey(KeyOf(ss[j])) == PyKey(k) <==> KeyOf(ss[j]) == k);
    FindIs(ss, k, i);
  }

  /** Where no directory is called `_files`, the source's walk builds exactly
      the corrected structure and raises nothing. */
  lemma {:induction false} InsertAsWrittenAgrees(n: Node, dirs: seq<string>, f: string)
    requires NoFilesDir(n)
    requires FilesKeyName !in dirs
    ensures InsertAsWritten(n, dirs, f) == Ok(Insert(n, dirs, f))
    ensures NoFilesDir(Insert(n, dirs, f))
    decreases |dirs|
  {
    var ss := n.slots;
    var m := Insert(n, dirs, f);
    InsertKeepsOrder(n, dirs, f);
    if dirs == [] {
      FindPyAgrees(ss, FilesKey);
      var i := Find(ss, FilesKey);
      assert forall j :: 0 <= j < |ss| && j != i ==> m.slots[j] == ss[j];
    } else {
      var d, rest := dirs[0], dirs[1..];
      assert d in dirs;
      assert forall x :: x in rest ==> x in dirs;
      FindPyAgrees(ss, DirKey(d));
      var i := Find(ss, DirKey(d));
      if i == |ss| {
        InsertAsWrittenAgrees(Node([]), rest, f);
      } else {
        InsertAsWrittenAgrees(ss[i].child, rest, f);
      }
      assert forall j :: 0 <= j < |ss| && j != i ==> m.slots[j] == ss[j];
    }
  }

  /** An upload in which no name has a directory called `_files` is built by
      the source exactly as by the corrected model. */
  lemma {:induction false} BuildAsWrittenAgrees(names: seq<string>)
    requires forall k :: 0 <= k < |names| ==> FilesKeyName !in DirsOf(names[k])
    ensures BuildAsWritten(names) == Ok(Build(names))
    ensures NoFilesDir(Build(names))
  {
    if names != [] {
      var init, last := names[..|names| - 1], names[|names| - 1];
      BuildAsWrittenAgrees(init);
      InsertAsWrittenAgrees(Build(init), DirsOf(last), FileOf(last));
    }
  }

  lemma ExampleRootName(a: string)
    requires a == "x.docx"
    ensures DirsOf(a) == [] && FileOf(a) == a
  {
    assert forall i :: 0 <= i < |a| ==> a[i] != '/' && a[i] != '\\';
    RootName(a);
  }

  lemma ExampleFilesDirName(b: string)
    requires b == "_files/y.docx"
    ensures DirsOf(b) == [FilesKeyName] && FileOf(b) == "y.docx"
  {
    var segs := [FilesKeyName, "y.docx"];
    assert Join(segs[..1], '/') == FilesKeyName;
    assert Join(segs, '/') == FilesKeyName + ['/'] + "y.docx";
    assert b == Join(segs, '/');
    JoinedNameParts(segs, '/');
  }

  lemma ExampleBuilds(a: string, b: string)
    requires DirsOf(a) == [] && FileOf(a) == a
    requires DirsOf(b) == [FilesKeyName] && FileOf(b) == "y.docx"
    ensures Build([a]) == Node([FileSlot([a])])
    ensures Build([b]) == Node([DirSlot(FilesKeyName, Node([FileSlot(["y.docx"])]))])
  {
    assert [a][..0] == [] && [b][..0] == [];
    var inner := Insert(Node([]), [], "y.docx");
    assert inner == Node([FileSlot(["y.docx"])]);
    assert [FilesKeyName][1..] == [];
    assert Insert(Node([]), [FilesKeyName], "y.docx") == Node([DirSlot(FilesKeyName, inner)]);
  }

  lemma FileThenFilesDir(a: string, b: string)
    requires DirsOf(a) == [] && FileOf(a) == a
    requires DirsOf(b) == [FilesKeyName] && FileOf(b) == "y.docx"
    ensures BuildAsWritten([a, b]) == Err(ListIndexedByString)
  {
    ExampleBuilds(a, b);
    assert [a, b][..1] == [a];
    assert BuildAsWritten([a]) == Ok(Build([a]));
  }

  lemma FilesDirThenFile(a: string, b: string)
    requires DirsOf(a) == [] && FileOf(a) == a
    requires DirsOf(b) == [FilesKeyName] && FileOf(b) == "y.docx"
    ensures BuildAsWritten([b, a]) == Err(DictHasNoAppend)
  {
    ExampleBuilds(a, b);
    assert [b, a][..1] == [b];
    assert NoFilesDir(Node([]));
    InsertAsWrittenAgrees(Node([]), [], "y.docx");
    assert [FilesKeyName][1..] == [];
    assert BuildAsWritten([b]) == Ok(Build([b]));
  }

  lemma FileThenFilesDirCorrected(a: string, b: string)
    requires DirsOf(a) == [] && FileOf(a) == a
    requires DirsOf(b) == [FilesKeyName] && FileOf(b) == "y.docx"
    ensures FilesAt(Build([a, b]), []) == [a]
    ensures FilesAt(Build([a, b]), [FilesKeyName]) == ["y.docx"]
  {
    var names := [a, b];
    assert names[..1] == [a] && [a][..0] == [];
    assert FilesUnder([a], []) == [a];
    assert FilesUnder([a], [FilesKeyName]) == [];
    assert FilesUnder(names, []) == [a];
    assert FilesUnder(names, [FilesKeyName]) == ["y.docx"];
    BuildFiles(names, []);
    BuildFiles(names, [FilesKeyName]);
  }

  /** The collision: a root file followed by a directory called `_files`
      makes the source index the root file list by a name, and the other
      order makes it call `append` on a dictionary.  The corrected model
      files both names. */
  lemma FilesDirCollision(a: string, b: string)
    requires a == "x.docx" && b == "_files/y.docx"
    ensures BuildAsWritten([a, b]) == Err(ListIndexedByString)
    ensures BuildAsWritten([b, a]) == Err(DictHasNoAppend)
    ensures FilesAt(Build([a, b]), []) == [a]
    ensures FilesAt(Build([a, b]), [FilesKeyName]) == ["y.docx"]
  {
    ExampleRootName(a);
    ExampleFilesDirName(b);
    FileThenFilesDir(a, b);
    FilesDirThenFile(a, b);
    FileThenFilesDirCorrected(a, b);
  }
}
