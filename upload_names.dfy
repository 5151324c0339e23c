/** How `process_uploaded_files_with_structure` turns an uploaded file's name
    into a place under the staging root: backslashes become slashes, and the
    name is then read as a relative path the way `PurePath` reads one (empty
    and `.` segments vanish; a leading slash makes it absolute). */
module UploadNames {
  import opened PurePaths

  /** `'\\' in name or '/' in name` */
  predicate HasSeparator(name: string)
  {
    '\\' in name || '/' in name
  }

  /** `name.replace('\\', '/')` */
  function Normalize(name: string): (r: string)
    ensures |r| == |name|
    ensures forall i :: 0 <= i < |name| ==> r[i] == (if name[i] == '\\' then '/' else name[i])
  {
    if name == [] then [] else [if name[0] == '\\' then '/' else name[0]] + Normalize(name[1..])
  }

  /** `s.split('/')`: the pieces between the slashes, always at least one. */
  function Split(s: string): (parts: seq<string>)
    ensures |parts| >= 1
    ensures forall k :: 0 <= k < |parts| ==> '/' !in parts[k]
  {
    if s == [] then [""]
    else
      var init := Split(s[..|s| - 1]);
      var c := s[|s| - 1];
      if c == '/' then init + [""]
      else init[..|init| - 1] + [init[|init| - 1] + [c]]
  }

  /** `sep.join(parts)` */
  function Join(parts: seq<string>, sep: char): string
  {
    if parts == [] then ""
    else if |parts| == 1 then parts[0]
    else Join(parts[..|parts| - 1], sep) + [sep] + parts[|parts| - 1]
  }

  /** Splitting on `/` and joining back with `/` gives the string back. */
  lemma {:induction false} JoinSplit(s: string)
    ensures Join(Split(s), '/') == s
  {
    if s != [] {
      var s' := s[..|s| - 1];
      var init := Split(s');
      JoinSplit(s');
      if s[|s| - 1] != '/' {
        JoinLast(init, '/', [s[|s| - 1]]);
      }
      assert s == s' + [s[|s| - 1]];
    }
  }

  /** Extending the last piece extends the joined string. */
  lemma {:induction false} JoinLast(parts: seq<string>, sep: char, tail: string)
    requires |parts| >= 1
    ensures Join(parts[..|parts| - 1] + [parts[|parts| - 1] + tail], sep) == Join(parts, sep) + tail
  {
    var q := parts[..|parts| - 1] + [parts[|parts| - 1] + tail];
    assert q[..|q| - 1] == parts[..|parts| - 1];
  }

  /** Appending characters other than `/` extends the last piece. */
  lemma {:induction false} SplitPlain(s: string, tail: string)
    requires '/' !in tail
    ensures var p := Split(s);
      Split(s + tail) == p[..|p| - 1] + [p[|p| - 1] + tail]
    decreases |tail|
  {
    if tail == [] {
      SplitPlainBase(s, tail);
    } else {
      var t', c := tail[..|tail| - 1], tail[|tail| - 1];
      assert c in tail;
      assert '/' !in t' by {
        assert forall x :: x in t' ==> x in tail;
      }
      SplitPlain(s, t');
      SplitPlainStep(s, t', c);
      assert t' + [c] == tail;
    }
  }

  lemma SplitPlainBase(s: string, tail: string)
    requires tail == []
    ensures var p := Split(s);
      Split(s + tail) == p[..|p| - 1] + [p[|p| - 1] + tail]
  {
    assert s + tail == s;
    var p := Split(s);
    assert p[|p| - 1] + tail == p[|p| - 1];
    assert p[..|p| - 1] + [p[|p| - 1]] == p;
  }

  lemma SplitPlainStep(s: string, t: string, c: char)
    requires c != '/'
    requires var p := Split(s);
      Split(s + t) == p[..|p| - 1] + [p[|p| - 1] + t]
    ensures var p := Split(s);
      Split(s + (t + [c])) == p[..|p| - 1] + [p[|p| - 1] + (t + [c])]
  {
    SplitExtend(s + t, c);
    assert s + (t + [c]) == (s + t) + [c];
    LastPieceAppend(Split(s), t, c);
  }

  /** One character other than `/` extends the last piece. */
  lemma SplitExtend(u: string, c: char)
    requires c != '/'
    ensures var init := Split(u);
      Split(u + [c]) == init[..|init| - 1] + [init[|init| - 1] + [c]]
  {
    assert (u + [c])[..|u + [c]| - 1] == u;
  }

  lemma LastPieceAppend(p: seq<string>, t: string, c: char)
    requires |p| >= 1
    ensures var init := p[..|p| - 1] + [p[|p| - 1] + t];
      init[..|init| - 1] + [init[|init| - 1] + [c]] == p[..|p| - 1] + [p[|p| - 1] + (t + [c])]
  {
    var init := p[..|p| - 1] + [p[|p| - 1] + t];
    assert init[..|init| - 1] == p[..|p| - 1];
    assert p[|p| - 1] + t + [c] == p[|p| - 1] + (t + [c]);
  }

  /** A string without `/` splits into itself alone. */
  lemma SplitNoSlash(s: string)
    requires '/' !in s
    ensures Split(s) == [s]
  {
    SplitPlain("", s);
    assert "" + s == s;
  }

  /** Joining pieces without `/` and splitting again gives the pieces back. */
  lemma {:induction false} SplitJoin(parts: seq<string>)
    requires |parts| >= 1
    requires forall k :: 0 <= k < |parts| ==> '/' !in parts[k]
    ensures Split(Join(parts, '/')) == parts
  {
    if |parts| == 1 {
      SplitNoSlash(parts[0]);
    } else {
      var init, last := parts[..|parts| - 1], parts[|parts| - 1];
      var j := Join(init, '/');
      SplitJoin(init);
      assert '/' !in last;
      SplitAfterSlash(j);
      SplitPlain(j + ['/'], last);
      assert Join(parts, '/') == j + ['/'] + last;
      SplitJoinStep(init, last, Split(j + ['/']));
    }
  }

  lemma SplitAfterSlash(s: string)
    ensures Split(s + ['/']) == Split(s) + [""]
  {
    assert (s + ['/'])[..|s + ['/']| - 1] == s;
  }

  lemma SplitJoinStep(init: seq<string>, last: string, q: seq<string>)
    requires q == init + [""]
    ensures q[..|q| - 1] + [q[|q| - 1] + last] == init + [last]
  {
    assert q[..|q| - 1] == init;
    assert q[|q| - 1] + last == last;
  }

  /** Replacing backslashes by slashes turns a backslash-joined name into the
      slash-joined one. */
  lemma {:induction false} NormalizeJoin(parts: seq<string>)
    requires forall k :: 0 <= k < |parts| ==> '\\' !in parts[k]
    ensures Normalize(Join(parts, '\\')) == Join(parts, '/')
    ensures Normalize(Join(parts, '/')) == Join(parts, '/')
  {
    if |parts| == 1 {
      NormalizeKeeps(parts[0]);
    } else if |parts| > 1 {
      var init, last := parts[..|parts| - 1], parts[|parts| - 1];
      NormalizeJoin(init);
      NormalizeAppend(Join(init, '\\') + ['\\'], last);
      NormalizeAppend(Join(init, '\\'), ['\\']);
      NormalizeAppend(Join(init, '/') + ['/'], last);
      NormalizeAppend(Join(init, '/'), ['/']);
      NormalizeKeeps(last);
      NormalizeKeeps(['/']);
    }
  }

  lemma NormalizeKeeps(s: string)
    requires '\\' !in s
    ensures Normalize(s) == s
  {
  }

  lemma NormalizeAppend(a: string, b: string)
    ensures Normalize(a + b) == Normalize(a) + Normalize(b)
  {
    var l, r := Normalize(a + b), Normalize(a) + Normalize(b);
    forall i | 0 <= i < |a + b|
      ensures l[i] == r[i]
    {
      if i < |a| {
        assert (a + b)[i] == a[i];
      } else {
        assert (a + b)[i] == b[i - |a|];
      }
    }
  }

  /** A segment `PurePath` keeps: not empty and not `.`. */
  predicate Kept(seg: string)
  {
    seg != "" && seg != "."
  }

  /** The segments `PurePath` keeps, in order. */
  function KeptSegments(parts: seq<string>): (r: Path)
    ensures forall k :: 0 <= k < |r| ==> Kept(r[k]) && r[k] in parts
    ensures (forall k :: 0 <= k < |parts| ==> Kept(parts[k])) ==> r == parts
  {
    if parts == [] then []
    else
      var init := KeptSegments(parts[..|parts| - 1]);
      assert forall x :: x in parts[..|parts| - 1] ==> x in parts;
      var last := parts[|parts| - 1];
      if Kept(last) then init + [last] else init
  }

  /** A single segment survives exactly when it is kept. */
  lemma KeptSegmentsOne(x: string)
    ensures KeptSegments([x]) == if Kept(x) then [x] else []
  {
    assert [x][..0] == [];
  }

  /** Segments are filtered one by one: the kept segments of a concatenation
      are those of each part, in order. */
  lemma {:induction false} KeptSegmentsAppend(a: seq<string>, b: seq<string>)
    ensures KeptSegments(a + b) == KeptSegments(a) + KeptSegments(b)
    decreases |b|
  {
    if b == [] {
      assert a + b == a;
    } else {
      var b' := b[..|b| - 1];
      assert (a + b)[..|a + b| - 1] == a + b';
      assert (a + b)[|a + b| - 1] == b[|b| - 1];
      KeptSegmentsAppend(a, b');
    }
  }

  /** Where an uploaded file is written, relative to the staging root. */
  datatype Placement =
    | InStaging(rel: Path)        // input_dir / rel
    | OutsideStaging(abs: Path)   // an absolute name replaces input_dir

  /** The name as the source joins it to the staging root: normalised when
      it has a separator, as it is otherwise. */
  function StagingPath(name: string): string
  {
    if HasSeparator(name) then Normalize(name) else name
  }

  /** The target of `open(file_path, "wb")` for an uploaded name. */
  function StagingPlacement(name: string): (p: Placement)
    ensures p.InStaging? ==> forall k :: 0 <= k < |p.rel| ==>
              Kept(p.rel[k]) && '/' !in p.rel[k] && '\\' !in p.rel[k]
    ensures !HasSeparator(name) ==> p == InStaging(KeptSegments([name]))
  {
    var path := StagingPath(name);
    var segs := KeptSegments(Split(path));
    assert forall k :: 0 <= k < |segs| ==> '\\' !in segs[k] by {
      forall k | 0 <= k < |segs|
        ensures '\\' !in segs[k]
      {
        assert segs[k] in Split(path);
        SplitPiecesIn(path, segs[k]);
      }
    }
    assert !HasSeparator(name) ==> Split(name) == [name] by {
      if !HasSeparator(name) { SplitNoSlash(name); }
    }
    if |path| > 0 && path[0] == '/' then OutsideStaging(segs) else InStaging(segs)
  }

  /** Every character of a piece of a split string occurs in the string. */
  lemma {:induction false} SplitPiecesIn(s: string, piece: string)
    requires piece in Split(s)
    ensures forall c :: c in piece ==> c in s
  {
    if s != [] {
      var s' := s[..|s| - 1];
      var init := Split(s');
      var c := s[|s| - 1];
      assert forall x :: x in s' ==> x in s;
      if c == '/' {
        if piece != "" {
          assert piece in init;
          SplitPiecesIn(s', piece);
        }
      } else {
        var last := init[|init| - 1] + [c];
        if piece == last {
          assert init[|init| - 1] in init;
          SplitPiecesIn(s', init[|init| - 1]);
        } else {
          assert piece in init[..|init| - 1];
          assert piece in init;
          SplitPiecesIn(s', piece);
        }
      }
    }
  }

  /** A name without separators is placed directly under the staging root,
      unless it is empty or `.`, which name the root itself. */
  lemma RootPlacement(name: string)
    requires !HasSeparator(name)
    ensures Kept(name) ==> StagingPlacement(name) == InStaging([name])
    ensures !Kept(name) ==> StagingPlacement(name) == InStaging([])
  {
  }

  /** A segment an uploaded name may carry between separators. */
  predicate CleanSegment(seg: string)
  {
    Kept(seg) && '/' !in seg && '\\' !in seg
  }

  /** The first piece of a join starts it. */
  lemma {:induction false} JoinStartsWithFirst(parts: seq<string>, sep: char)
    requires |parts| >= 1
    ensures |Join(parts, sep)| >= |parts[0]|
    ensures Join(parts, sep)[..|parts[0]|] == parts[0]
  {
    if |parts| > 1 {
      var init := parts[..|parts| - 1];
      JoinStartsWithFirst(init, sep);
      assert init[0] == parts[0];
      var j := Join(init, sep);
      assert (j + [sep] + parts[|parts| - 1])[..|j|] == j;
    }
  }

  /** A name of backslash-free segments joined by `/` or by `\` reaches the
      staging root as their `/`-join. */
  lemma JoinedStagingPath(segs: seq<string>, sep: char)
    requires sep == '/' || sep == '\\'
    requires |segs| >= 1
    requires forall k :: 0 <= k < |segs| ==> '\\' !in segs[k]
    ensures StagingPath(Join(segs, sep)) == Join(segs, '/')
  {
    NormalizeJoin(segs);
    if |segs| > 1 {
      var j := Join(segs[..|segs| - 1], sep);
      assert Join(segs, sep)[|j|] == sep;
    }
  }

  /** A name made of clean segments joined by `/` or by `\` is placed at
      exactly that chain of segments under the staging root. */
  lemma JoinedNamePlacement(segs: seq<string>, sep: char)
    requires sep == '/' || sep == '\\'
    requires |segs| >= 1
    requires forall k :: 0 <= k < |segs| ==> CleanSegment(segs[k])
    ensures StagingPlacement(Join(segs, sep)) == InStaging(segs)
  {
    JoinedStagingPath(segs, sep);
    SplitJoin(segs);
    JoinStartsWithFirst(segs, '/');
    assert segs[0][0] in segs[0];
  }

  /** Any name of separator-free segments joined by `/` or by `\\`: its
      empty and `.` segments vanish and the others keep their order; it lands
      outside the staging root exactly when it starts with a separator. */
  lemma JoinedNameAnyPlacement(segs: seq<string>, sep: char)
    requires sep == '/' || sep == '\\'
    requires |segs| >= 1
    requires forall k :: 0 <= k < |segs| ==> '/' !in segs[k] && '\\' !in segs[k]
    ensures StagingPlacement(Join(segs, sep)) ==
      if |segs| > 1 && segs[0] == "" then OutsideStaging(KeptSegments(segs))
      else InStaging(KeptSegments(segs))
  {
    var path := StagingPath(Join(segs, sep));
    JoinedStagingPath(segs, sep);
    SplitJoin(segs);
    JoinStartsWithFirst(segs, '/');
    if segs[0] != "" {
      assert path[0] == segs[0][0];
      assert segs[0][0] in segs[0];
    } else if |segs| > 1 {
      JoinFirstSeparator(segs);
    }
  }

  /** A `/`-join whose first piece is empty, with more pieces after it,
      starts with `/`. */
  lemma {:induction false} JoinFirstSeparator(segs: seq<string>)
    requires |segs| > 1 && segs[0] == ""
    ensures |Join(segs, '/')| > 0 && Join(segs, '/')[0] == '/'
  {
    var init := segs[..|segs| - 1];
    if |segs| == 2 {
      assert init == [""];
      assert Join(segs, '/') == "" + ['/'] + segs[1];
    } else {
      assert init[0] == "";
      JoinFirstSeparator(init);
    }
  }

  lemma JoinExample(sep: char)
    ensures Join(["a", "b", "c", "notes.pptx"], sep) == ['a', sep, 'b', sep, 'c', sep] + "notes.pptx"
  {
    var segs := ["a", "b", "c", "notes.pptx"];
    assert segs[..3] == ["a", "b", "c"] && ["a", "b", "c"][..2] == ["a", "b"] && ["a", "b"][..1] == ["a"];
    assert Join(["a", "b"], sep) == ['a', sep, 'b'];
    assert Join(["a", "b", "c"], sep) == ['a', sep, 'b', sep, 'c'];
  }

  lemma ExampleSegments(segs: seq<string>, sep: char)
    requires segs == ["a", "b", "c", "notes.pptx"] && (sep == '/' || sep == '\\')
    ensures StagingPlacement(Join(segs, sep)) == InStaging(segs)
  {
    assert CleanSegment(segs[0]) && CleanSegment(segs[1]) && CleanSegment(segs[2]) && CleanSegment(segs[3]);
    JoinedNamePlacement(segs, sep);
  }

  lemma ExampleName(name: string, sep: char)
    requires name == ['a', sep, 'b', sep, 'c', sep] + "notes.pptx" && (sep == '/' || sep == '\\')
    ensures StagingPlacement(name) == InStaging(["a", "b", "c", "notes.pptx"])
  {
    JoinExample(sep);
    ExampleSegments(["a", "b", "c", "notes.pptx"], sep);
  }

  lemma KeptSegmentsFour(a: string, b: string, c: string, d: string)
    ensures KeptSegments([a, b, c, d]) ==
      KeptSegments([a]) + KeptSegments([b]) + KeptSegments([c]) + KeptSegments([d])
  {
    KeptSegmentsAppend([a, b, c], [d]);
    KeptSegmentsAppend([a, b], [c]);
    KeptSegmentsAppend([a], [b]);
    assert [a, b, c, d] == [a, b, c] + [d];
    assert [a, b, c] == [a, b] + [c];
    assert [a, b] == [a] + [b];
  }

  lemma ExampleMessySegments(segs: seq<string>)
    requires segs == [".", "a", "", "b.docx"]
    ensures KeptSegments(segs) == ["a", "b.docx"]
  {
    KeptSegmentsFour(".", "a", "", "b.docx");
    KeptSegmentsOne(".");
    KeptSegmentsOne("a");
    KeptSegmentsOne("");
    KeptSegmentsOne("b.docx");
  }

  lemma JoinMessyExample(sep: char)
    ensures Join([".", "a", "", "b.docx"], sep) == ['.', sep, 'a', sep, sep] + "b.docx"
  {
    var segs := [".", "a", "", "b.docx"];
    assert segs[..3] == [".", "a", ""] && [".", "a", ""][..2] == [".", "a"] && [".", "a"][..1] == ["."];
    assert Join([".", "a"], sep) == ['.', sep, 'a'];
    assert Join([".", "a", ""], sep) == ['.', sep, 'a', sep];
  }

  lemma ExampleMessyName(name: string, sep: char)
    requires name == ['.', sep, 'a', sep, sep] + "b.docx" && (sep == '/' || sep == '\\')
    ensures StagingPlacement(name) == InStaging(["a", "b.docx"])
  {
    var segs := [".", "a", "", "b.docx"];
    JoinMessyExample(sep);
    assert forall k :: 0 <= k < |segs| ==> '/' !in segs[k] && '\\' !in segs[k];
    JoinedNameAnyPlacement(segs, sep);
    ExampleMessySegments(segs);
  }

  /** A worked example: `./a//b.docx` drops its `.` and empty segments and
      lands at `a/b.docx`. */
  lemma ExampleMessySlashName()
    ensures StagingPlacement("./a//b.docx") == InStaging(["a", "b.docx"])
  {
    ExampleMessyName("./a//b.docx", '/');
  }

  /** Written with backslashes, the same name lands at the same place. */
  lemma ExampleMessyBackslashName()
    ensures StagingPlacement(".\\a\\\\b.docx") == InStaging(["a", "b.docx"])
  {
    ExampleMessyName(".\\a\\\\b.docx", '\\');
  }

  /** A worked example: the name `a/b/c/notes.pptx` lands at
      `a/b/c/notes.pptx` under the staging root. */
  lemma ExampleSlashName()
    ensures StagingPlacement("a/b/c/notes.pptx") == InStaging(["a", "b", "c", "notes.pptx"])
  {
    ExampleName("a/b/c/notes.pptx", '/');
  }

  /** The same name written with backslashes lands at the same place. */
  lemma ExampleBackslashName()
    ensures StagingPlacement("a\\b\\c\\notes.pptx") == InStaging(["a", "b", "c", "notes.pptx"])
  {
    ExampleName("a\\b\\c\\notes.pptx", '\\');
  }
}
