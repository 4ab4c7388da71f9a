/** Value-level specification of what a `TrimLabelImgXML` object does: each
    operation maps the object's fields and the filesystem before the call
    to those after it. The class in module Trimmer is proved against these
    functions; the lemmas here state what the tool promises about them. */
module Engine {
  import opened Common
  import opened Paths
  import opened Xml
  import opened FileSystem
  import opened Naming
  import opened Pairing

  // ---- processXMLFile ----

  /** One entry of `processedFiles`: the dictionary {annotation: new path}. */
  datatype Record = Record(original: string, renamed: string)

  /** The fields of a `TrimLabelImgXML` object that change (`root` stands for
      `tree` and its `getroot()`), together with the filesystem. */
  datatype Session = Session(
    fs: State,
    root: Option<Node>,
    filename: Option<string>,
    imgName: Option<string>,
    records: seq<Record>)

  /** `processXMLFile` returns, raises `ProcessingXMLFailed`, or lets the
      `OSError` of the write escape. */
  datatype ProcessOutcome = Processed | ParseFailed | WriteFailed(target: string)

  /** `processXMLFile(file)` with the random draws d; dir is `self.path`. */
  function Process(s: Session, dir: string, prefix: string, file: string, d: Draw): (r: (Session, ProcessOutcome))
    requires s.fs.Valid() && s.imgName.Some? && ValidDraw(d)
    ensures r.0.fs.Valid()
  {
    if !s.fs.Parses(file) then (s, ParseFailed)
    else
      var name := NewName(prefix, d);
      var newImage := Stem(name) + Ext(s.imgName.value);
      var tree := Rewrite(s.fs.files[file].root, newImage, Join(dir, newImage));
      var target := Join(dir, name);
      var s1 := s.(root := Some(tree), filename := Some(name));
      if target in s.fs.dirs then (s1, WriteFailed(target))
      else
        (s1.(fs := State(s.fs.files[target := Document(tree)] - {file}, s.fs.dirs),
             records := s.records + [Record(file, target)]),
         Processed)
  }

  /** A document that does not parse leaves everything as it was. A write
      that fails (the target is a directory) leaves the filesystem and the
      records as they were: the original is removed only after the write.
      A document that parses is written, rewritten, to `self.path/self.filename`, whose
      stem is a generated stem for the draw; the original is removed after
      the write (so it is gone even when the two paths coincide); exactly one
      record is appended; no other path changes. */
  lemma {:induction false} ProcessContract(s: Session, dir: string, prefix: string, file: string, d: Draw)
    requires s.fs.Valid() && s.imgName.Some? && ValidDraw(d)
    ensures var r := Process(s, dir, prefix, file, d); var t, outcome := r.0, r.1;
      && (outcome == ParseFailed <==> !s.fs.Parses(file))
      && (outcome == ParseFailed ==> t == s)
      && (outcome == Processed <==> s.fs.Parses(file) && Join(dir, NewName(prefix, d)) !in s.fs.dirs)
      && (outcome.WriteFailed? ==>
           && outcome.target == Join(dir, NewName(prefix, d))
           && t.fs == s.fs && t.records == s.records
           && t.filename == Some(NewName(prefix, d)))
      && (outcome == Processed ==>
           var name := t.filename.value;
           var target := Join(dir, name);
           var newImage := Stem(name) + Ext(s.imgName.value);
           && ParseStem(prefix, Stem(name)) == Some(d)
           && Ext(name) == XmlExt
           && !t.fs.Exists(file)
           && (target != file ==>
                t.fs.files[target] == Document(Rewrite(s.fs.files[file].root, newImage, Join(dir, newImage))))
           && t.records == s.records + [Record(file, target)]
           && t.fs.dirs == s.fs.dirs
           && (forall p | p != file && p != target :: (p in t.fs.files <==> p in s.fs.files))
           && (forall p | p in t.fs.files && p != target :: t.fs.files[p] == s.fs.files[p]))
  {
    if s.fs.Parses(file) {
      var name := NewName(prefix, d);
      var newImage := Stem(name) + Ext(s.imgName.value);
      var tree := Rewrite(s.fs.files[file].root, newImage, Join(dir, newImage));
      NewNameSplits(prefix, d);
      ParseNewStem(prefix, d);
      WriteThenRemove(s.fs.files, file, Join(dir, name), Document(tree));
    }
  }

  /** Processing an annotation whose generated name is its own name (an
      earlier run named it, and the draw repeats) writes the rewritten
      document over it and then removes it: the annotation is lost, yet the
      outcome is `Processed` and a record is added. */
  lemma ReprocessingLosesAnnotation(s: Session, dir: string, prefix: string, file: string, d: Draw)
    requires s.fs.Valid() && s.imgName.Some? && ValidDraw(d)
    requires s.fs.Parses(file) && Join(dir, NewName(prefix, d)) == file
    ensures var r := Process(s, dir, prefix, file, d);
      && r.1 == Processed
      && !r.0.fs.Exists(file)
      && r.0.records == s.records + [Record(file, file)]
  {
    ProcessContract(s, dir, prefix, file, d);
  }

  /** Writing c to target and then removing file, on the file map. */
  lemma WriteThenRemove(files: map<string, Content>, file: string, target: string, c: Content)
    ensures var f := files[target := c] - {file};
      && file !in f
      && (target != file ==> target in f && f[target] == c)
      && (forall p | p != file && p != target :: (p in f <==> p in files))
      && (forall p | p in f && p != target :: f[p] == files[p])
  {
  }

  // ---- run ----

  /** Why `run` stops early: the root is missing (`PathDoesNotExist`), a
      listed file is not an annotation (`ValueError`), or a write or rename
      raised `OSError`. */
  datatype RunError = PathDoesNotExist | NotAnXml(file: string) | OsError(path: string)

  /** The name `glob` reports for the pattern dir + "/" + "*.xml": an entry directly in dir whose
      name ends in `.xml` (case-sensitive) and does not start with a dot. */
  predicate GlobMatch(dir: string, p: string)
  {
    && |p| >= |dir| + 6
    && p[..|dir| + 1] == dir + [Sep]
    && Sep !in p[|dir| + 1..]
    && p[|dir| + 1] != Dot
    && p[|p| - 4..] == XmlExt
  }

  /** listing is what `glob` returned: each matching entry once. */
  predicate GlobXml(fs: State, dir: string, listing: seq<string>)
  {
    && (forall i, j | 0 <= i < j < |listing| :: listing[i] != listing[j])
    && (forall i | 0 <= i < |listing| :: GlobMatch(dir, listing[i]) && fs.Exists(listing[i]))
    && (forall p | p in fs.files && GlobMatch(dir, p) :: p in listing)
    && (forall p | p in fs.dirs && GlobMatch(dir, p) :: p in listing)
  }

  /** A globbed entry is dir/<name>.xml with its extension `.xml`, so
      `getIMGName` never raises `ValueError` on it. */
  lemma GlobMatchSplits(dir: string, p: string)
    requires GlobMatch(dir, p)
    ensures SplitExt(p) == (p[..|p| - 4], XmlExt)
    ensures p[..|p| - 4] == Join(dir, p[|dir| + 1..|p| - 4])
  {
    var stem := p[..|p| - 4];
    var base := p[|dir| + 1..];
    assert stem == dir + [Sep] + p[|dir| + 1..|p| - 4];
    RFindAbsent(p[|dir| + 1..|p| - 4], Sep);
    RFindAppend(dir + [Sep], p[|dir| + 1..|p| - 4], Sep);
    RFindAppend(dir, [Sep], Sep);
    assert stem[|dir| + 1] != Dot;
    assert p == stem + [Dot] + "xml";
    SplitExtOfAppend(stem, "xml");
  }

  /** One pass of `run`'s loop body for `file`, with its draw. A step adds
      at most one record, for its own file and the name generated for it. */
  function Step(s: Session, dir: string, prefix: string, file: string, d: Draw): (r: (Session, Option<RunError>))
    requires s.fs.Valid() && ValidDraw(d)
    ensures r.0.fs.Valid()
    ensures || r.0.records == s.records
            || r.0.records == s.records + [Record(file, Join(dir, NewName(prefix, d)))]
  {
    match ImageFor(s.fs, file)
    case NotApplicable => (s, Some(NotAnXml(file)))
    case Missing => (s, None)
    case Found(img) => ProcessPair(s, dir, prefix, file, d, img)
  }

  /** The loop body once `getIMGName` has found img: `processXMLFile`, then
      the image rename unless the document did not parse. */
  function ProcessPair(s: Session, dir: string, prefix: string, file: string, d: Draw, img: string): (r: (Session, Option<RunError>))
    requires s.fs.Valid() && ValidDraw(d)
    ensures r.0.fs.Valid()
    ensures || r.0.records == s.records
            || r.0.records == s.records + [Record(file, Join(dir, NewName(prefix, d)))]
  {
    var p := Process(s.(imgName := Some(img)), dir, prefix, file, d);
    var s2 := p.0;
    match p.1
    case ParseFailed => (s2, None)
    case WriteFailed(target) => (s2, Some(OsError(target)))
    case Processed => RenameImage(s2, dir, img)
  }

  /** The end of the loop body: `os.rename(self.IMGName, dir/<stem of
      self.filename><extension of self.IMGName>)`. */
  function RenameImage(s: Session, dir: string, img: string): (r: (Session, Option<RunError>))
    requires s.fs.Valid() && s.filename.Some?
    ensures r.0.fs.Valid()
    ensures r.0.records == s.records
  {
    var newImg := Join(dir, Stem(s.filename.value) + Ext(img));
    match s.fs.Rename(img, newImg)
    case None => (s, Some(OsError(img)))
    case Some(fs2) => (s.(fs := fs2), None)
  }

  /** A listed annotation without an image, or one that does not parse, is
      skipped: the loop goes on, no file changes and no record is added. */
  lemma StepSkips(s: Session, dir: string, prefix: string, file: string, d: Draw)
    requires s.fs.Valid() && ValidDraw(d)
    requires ImageFor(s.fs, file).Missing? || (ImageFor(s.fs, file).Found? && !s.fs.Parses(file))
    ensures var r := Step(s, dir, prefix, file, d);
      && r.1 == None
      && r.0.fs == s.fs && r.0.records == s.records
      && r.0.filename == s.filename && r.0.root == s.root
  {
    if ImageFor(s.fs, file).Found? {
      var img := ImageFor(s.fs, file).path;
      ProcessContract(s.(imgName := Some(img)), dir, prefix, file, d);
    }
  }

  /** A globbed entry is an annotation to `getIMGName`, so the `ValueError`
      never escapes `run`. */
  lemma GlobbedStepIsNoValueError(s: Session, dir: string, prefix: string, file: string, d: Draw)
    requires s.fs.Valid() && ValidDraw(d) && GlobMatch(dir, file)
    ensures Step(s, dir, prefix, file, d).1 != Some(NotAnXml(file))
  {
    GlobMatchSplits(dir, file);
    XmlExtIsXml();
  }

  predicate ValidDraws(draws: seq<Draw>)
  {
    forall i | 0 <= i < |draws| :: ValidDraw(draws[i])
  }

  /** `run`'s loop over the listed annotations, in order, stopping at the
      first escaping exception. */
  function Sweep(s: Session, dir: string, prefix: string, files: seq<string>, draws: seq<Draw>): (r: (Session, Option<RunError>))
    requires s.fs.Valid() && |draws| == |files| && ValidDraws(draws)
    ensures r.0.fs.Valid()
    ensures |s.records| <= |r.0.records|
    decreases |files|
  {
    if files == [] then (s, None)
    else
      var first := Step(s, dir, prefix, files[0], draws[0]);
      if first.1.Some? then first
      else Sweep(first.0, dir, prefix, files[1..], draws[1..])
  }

  /** The record each listed annotation would get, in listing order. */
  function Generated(dir: string, prefix: string, files: seq<string>, draws: seq<Draw>): (g: seq<Record>)
    requires |draws| == |files| && ValidDraws(draws)
    ensures |g| == |files|
    decreases |files|
  {
    if files == [] then []
    else [Record(files[0], Join(dir, NewName(prefix, draws[0])))] + Generated(dir, prefix, files[1..], draws[1..])
  }

  /** a is b with some entries left out and the others kept in order. */
  predicate InOrder(a: seq<Record>, b: seq<Record>)
    decreases |b|
  {
    if a == [] then true
    else if b == [] then false
    else (a[0] == b[0] && InOrder(a[1..], b[1..])) || InOrder(a, b[1..])
  }

  /** The records a run appends: the old ones stay in front, and the new
      ones are the generated records of some of the listed annotations, in
      listing order, each at most once. */
  lemma {:induction false} SweepRecords(s: Session, dir: string, prefix: string, files: seq<string>, draws: seq<Draw>)
    requires s.fs.Valid() && |draws| == |files| && ValidDraws(draws)
    ensures var t := Sweep(s, dir, prefix, files, draws).0;
      && |s.records| <= |t.records| <= |s.records| + |files|
      && t.records[..|s.records|] == s.records
      && InOrder(t.records[|s.records|..], Generated(dir, prefix, files, draws))
    decreases |files|
  {
    var t := Sweep(s, dir, prefix, files, draws).0;
    if files == [] {
      assert t.records[|s.records|..] == [];
    } else {
      var first := Step(s, dir, prefix, files[0], draws[0]);
      if first.1.Some? {
        var g := Generated(dir, prefix, files, draws);
        assert g[1..] == Generated(dir, prefix, files[1..], draws[1..]);
        InOrderOfOne(t.records[|s.records|..], g);
      } else {
        var u := first.0;
        var rest, restDraws := files[1..], draws[1..];
        SweepRecords(u, dir, prefix, rest, restDraws);
        assert t == Sweep(u, dir, prefix, rest, restDraws).0;
        var g0 := Record(files[0], Join(dir, NewName(prefix, draws[0])));
        assert Generated(dir, prefix, files, draws) == [g0] + Generated(dir, prefix, rest, restDraws);
        RecordsExtend(s.records, u.records, t.records, g0, Generated(dir, prefix, rest, restDraws));
      }
    }
  }

  /** A run given a listing without repeats (as `glob` returns it) adds at
      most one record per annotation. */
  lemma OneRecordPerAnnotation(s: Session, dir: string, prefix: string, files: seq<string>, draws: seq<Draw>)
    requires s.fs.Valid() && |draws| == |files| && ValidDraws(draws)
    requires forall i, j | 0 <= i < j < |files| :: files[i] != files[j]
    ensures var added := Sweep(s, dir, prefix, files, draws).0.records[|s.records|..];
      forall i, j | 0 <= i < j < |added| :: added[i].original != added[j].original
  {
    SweepRecords(s, dir, prefix, files, draws);
    GeneratedOriginals(dir, prefix, files, draws);
    InOrderKeepsDistinct(Sweep(s, dir, prefix, files, draws).0.records[|s.records|..], Generated(dir, prefix, files, draws));
  }

  /** The i-th generated record belongs to the i-th listed annotation. */
  lemma {:induction false} GeneratedOriginals(dir: string, prefix: string, files: seq<string>, draws: seq<Draw>)
    requires |draws| == |files| && ValidDraws(draws)
    ensures forall i | 0 <= i < |files| :: Generated(dir, prefix, files, draws)[i].original == files[i]
    decreases |files|
  {
    if files != [] {
      GeneratedOriginals(dir, prefix, files[1..], draws[1..]);
      var g := Generated(dir, prefix, files, draws);
      forall i | 1 <= i < |files| ensures g[i].original == files[i] {
        assert g[i] == Generated(dir, prefix, files[1..], draws[1..])[i - 1];
      }
    }
  }

  /** What is kept in order is taken from b. */
  lemma {:induction false} InOrderMembers(a: seq<Record>, b: seq<Record>)
    requires InOrder(a, b)
    ensures forall i | 0 <= i < |a| :: a[i] in b
    decreases |b|
  {
    if a != [] {
      if a[0] == b[0] && InOrder(a[1..], b[1..]) {
        InOrderMembers(a[1..], b[1..]);
        forall i | 1 <= i < |a| ensures a[i] in b {
          assert a[i] == a[1..][i - 1];
          assert a[i] in b[1..];
        }
      } else {
        InOrderMembers(a, b[1..]);
        forall i | 0 <= i < |a| ensures a[i] in b {
          assert a[i] in b[1..];
        }
      }
    }
  }

  /** Keeping entries in order from records with distinct annotations gives
      records with distinct annotations. */
  lemma {:induction false} InOrderKeepsDistinct(a: seq<Record>, b: seq<Record>)
    requires InOrder(a, b)
    requires forall i, j | 0 <= i < j < |b| :: b[i].original != b[j].original
    ensures forall i, j | 0 <= i < j < |a| :: a[i].original != a[j].original
    decreases |b|
  {
    if a != [] {
      if a[0] == b[0] && InOrder(a[1..], b[1..]) {
        InOrderKeepsDistinct(a[1..], b[1..]);
        InOrderMembers(a[1..], b[1..]);
        forall i, j | 0 <= i < j < |a| ensures a[i].original != a[j].original {
          assert a[j] == a[1..][j - 1];
          if i == 0 {
            var k :| 0 <= k < |b[1..]| && b[1..][k] == a[j];
            assert b[k + 1] == a[j];
          } else {
            assert a[i] == a[1..][i - 1];
          }
        }
      } else {
        InOrderKeepsDistinct(a, b[1..]);
      }
    }
  }

  /** A step that stops the run adds at most the first generated record. */
  lemma InOrderOfOne(a: seq<Record>, g: seq<Record>)
    requires |g| >= 1 && (a == [] || a == [g[0]])
    ensures InOrder(a, g)
  {
    if a != [] {
      assert a[1..] == [];
    }
  }

  /** The bookkeeping of SweepRecords' induction step, on plain sequences. */
  lemma RecordsExtend(old0: seq<Record>, mid: seq<Record>, new0: seq<Record>, g0: Record, later: seq<Record>)
    requires mid == old0 || mid == old0 + [g0]
    requires |mid| <= |new0| <= |mid| + |later| && new0[..|mid|] == mid
    requires InOrder(new0[|mid|..], later)
    ensures |old0| <= |new0| <= |old0| + 1 + |later| && new0[..|old0|] == old0
    ensures InOrder(new0[|old0|..], [g0] + later)
  {
    assert mid[..|old0|] == old0;
    var a, b := new0[|old0|..], [g0] + later;
    assert b[1..] == later;
    if mid == old0 {
      assert a == new0[|mid|..];
    } else {
      assert a[0] == mid[|old0|] == g0;
      assert a[1..] == new0[|mid|..];
    }
  }

  /** dir/stem.body splits into dir/stem and .body, and its base name is
      stem.body, for a one-component stem ending in a letter. */
  lemma JoinedNameSplits(dir: string, stem: string, body: string)
    requires Sep !in stem && |stem| >= 1 && stem[|stem| - 1] != Dot
    requires forall j | 0 <= j < |body| :: body[j] != Dot && body[j] != Sep
    ensures SplitExt(Join(dir, stem + [Dot] + body)) == (Join(dir, stem), [Dot] + body)
    ensures Basename(Join(dir, stem + [Dot] + body)) == stem + [Dot] + body
  {
    var js := Join(dir, stem);
    assert js[|js| - 1] == stem[|stem| - 1];
    NamedTailOfLast(js);
    assert Join(dir, stem + [Dot] + body) == js + [Dot] + body;
    SplitExtOfAppend(js, body);
    var name := stem + [Dot] + body;
    forall i | 0 <= i < |name| ensures name[i] != Sep {
      if i >= |stem| + 1 {
        assert name[i] == body[i - |stem| - 1];
      } else if i < |stem| {
        assert name[i] == stem[i];
      }
    }
    BasenameOfJoin(dir, name);
  }

  /** The step for a listed annotation whose image exists and whose document
      parses: the annotation is rewritten to dir/<generated name>, the image
      is renamed to dir/<generated stem><its extension>, the old annotation
      is gone, exactly one record is added, and nothing else changes. */
  lemma StepRenamesPair(s: Session, dir: string, prefix: string, file: string, d: Draw)
    requires s.fs.Valid() && ValidDraw(d) && Sep !in prefix
    requires GlobMatch(dir, file) && s.fs.Parses(file)
    requires ImageFor(s.fs, file).Found? && ImageFor(s.fs, file).path in s.fs.files
    requires Join(dir, NewName(prefix, d)) !in s.fs.dirs
    requires Join(dir, NewStem(prefix, d) + Ext(ImageFor(s.fs, file).path)) !in s.fs.dirs
    ensures var img := ImageFor(s.fs, file).path;
      && Stem(img) == Stem(file)
      && Step(s, dir, prefix, file, d) == ProcessPair(s, dir, prefix, file, d, img)
      && PairRenamed(s, dir, prefix, file, d, img, Step(s, dir, prefix, file, d))
  {
    var img := ImageFor(s.fs, file).path;
    GlobMatchSplits(dir, file);
    var k := FoundImageSplits(s.fs, file);
    ProcessPairRenames(s, dir, prefix, file, d, img, k);
  }

  /** What a step that processed file and renamed its image img leaves behind. */
  ghost predicate PairRenamed(s: Session, dir: string, prefix: string, file: string, d: Draw, img: string,
                              r: (Session, Option<RunError>))
    requires ValidDraw(d) && s.fs.Parses(file) && img in s.fs.files
  {
    var newXml := Join(dir, NewName(prefix, d));
    var newImg := Join(dir, NewStem(prefix, d) + Ext(img));
    var t := r.0;
    && r.1 == None
    && t.imgName == Some(img) && t.filename == Some(NewName(prefix, d))
    && newImg in t.fs.files && t.fs.files[newImg] == s.fs.files[img]
    && (newXml != file ==>
          newXml in t.fs.files && t.fs.files[newXml] == Document(Rewrite(s.fs.files[file].root, Basename(newImg), newImg)))
    && !t.fs.Exists(file)
    && (img != newImg ==> !t.fs.Exists(img))
    && t.records == s.records + [Record(file, newXml)]
    && t.fs.dirs == s.fs.dirs
    && t.fs.files - {file, img, newXml, newImg} == s.fs.files - {file, img, newXml, newImg}
  }

  /** `processXMLFile` followed by the image rename, for an image whose
      extension is one of the six searched for. */
  lemma ProcessPairRenames(s: Session, dir: string, prefix: string, file: string, d: Draw, img: string, k: int)
    requires s.fs.Valid() && ValidDraw(d) && Sep !in prefix
    requires |file| >= 1 && file[|file| - 1] == 'l' && s.fs.Parses(file)
    requires img in s.fs.files && 0 <= k < |ImageExtBodies| && Ext(img) == [Dot] + ImageExtBodies[k]
    requires Join(dir, NewName(prefix, d)) !in s.fs.dirs
    requires Join(dir, NewStem(prefix, d) + Ext(img)) !in s.fs.dirs
    ensures PairRenamed(s, dir, prefix, file, d, img, ProcessPair(s, dir, prefix, file, d, img))
  {
    var name := NewName(prefix, d);
    var stem := NewStem(prefix, d);
    var newXml := Join(dir, name);
    var newImg := Join(dir, stem + Ext(img));
    PairNames(dir, prefix, d, file, img, k);
    var tree := Rewrite(s.fs.files[file].root, stem + Ext(img), newImg);
    var p := Process(s.(imgName := Some(img)), dir, prefix, file, d);
    var s2 := p.0;
    var files1 := s.fs.files[newXml := Document(tree)] - {file};
    assert p.1 == Processed && s2.filename == Some(name) && s2.imgName == Some(img)
      && s2.fs == State(files1, s.fs.dirs)
      && s2.records == s.records + [Record(file, newXml)];
    RenameImageMovesFile(s2, dir, img, newImg);
    MovedPair(s.fs.files, file, img, newXml, newImg, Document(tree));
    var files2 := files1 - {img} + map[newImg := files1[img]];
    var t := s2.(fs := State(files2, s.fs.dirs));
    assert ProcessPair(s, dir, prefix, file, d, img) == (t, None);
    assert file !in s.fs.dirs && img !in s.fs.dirs;
  }

  /** The names a processed pair ends up with: dir/<stem>.xml and
      dir/<stem><image extension>, distinct from each other and from the old
      names, which end in a different letter. */
  lemma PairNames(dir: string, prefix: string, d: Draw, file: string, img: string, k: int)
    requires ValidDraw(d) && Sep !in prefix
    requires |file| >= 1 && file[|file| - 1] == 'l'
    requires 0 <= k < |ImageExtBodies| && Ext(img) == [Dot] + ImageExtBodies[k]
    ensures var stem := NewStem(prefix, d);
      var newXml := Join(dir, NewName(prefix, d));
      var newImg := Join(dir, stem + Ext(img));
      && Stem(NewName(prefix, d)) == stem
      && img != file && img != newXml && newImg != file && newImg != newXml
      && Basename(newImg) == stem + Ext(img)
  {
    var newXml := Join(dir, NewName(prefix, d));
    var newImg := Join(dir, NewStem(prefix, d) + Ext(img));
    NewNameSplits(prefix, d);
    ImageEndsInG(img, k);
    NewImageSplits(dir, prefix, d, k, Ext(img));
    NewXmlSplits(dir, prefix, d);
    ImagesAndAnnotationsDiffer(img, newImg, file, newXml);
  }

  /** Names ending in 'g' or 'G' differ from names ending in 'l'. */
  lemma ImagesAndAnnotationsDiffer(img: string, newImg: string, file: string, newXml: string)
    requires |img| >= 1 && (img[|img| - 1] == 'g' || img[|img| - 1] == 'G')
    requires |newImg| >= 1 && (newImg[|newImg| - 1] == 'g' || newImg[|newImg| - 1] == 'G')
    requires |file| >= 1 && file[|file| - 1] == 'l'
    requires |newXml| >= 1 && newXml[|newXml| - 1] == 'l'
    ensures img != file && img != newXml && newImg != file && newImg != newXml
  {
  }

  /** The renamed annotation and the renamed image share the stem
      dir/<generated stem>; the image keeps its extension, case included. */
  lemma RenamedPairShareStem(dir: string, prefix: string, d: Draw, img: string, k: int)
    requires ValidDraw(d) && Sep !in prefix
    requires 0 <= k < |ImageExtBodies| && Ext(img) == [Dot] + ImageExtBodies[k]
    ensures var newXml := Join(dir, NewName(prefix, d));
      var newImg := Join(dir, NewStem(prefix, d) + Ext(img));
      && Stem(newXml) == Stem(newImg) == Join(dir, NewStem(prefix, d))
      && Ext(newXml) == XmlExt
      && Ext(newImg) == Ext(img)
  {
    NewImageSplits(dir, prefix, d, k, Ext(img));
    NewXmlSplits(dir, prefix, d);
  }

  /** A file with one of the image extensions ends in 'g' or 'G'. */
  lemma ImageEndsInG(img: string, k: int)
    requires 0 <= k < |ImageExtBodies| && Ext(img) == [Dot] + ImageExtBodies[k]
    ensures |img| >= 1 && (img[|img| - 1] == 'g' || img[|img| - 1] == 'G')
  {
    ImageBodyPlain(k);
    var ext := Ext(img);
    assert Stem(img) + ext == img;
    assert img[|img| - 1] == ext[|ext| - 1];
  }

  /** dir/<generated stem><ext> splits at the stem and keeps its base name. */
  lemma NewImageSplits(dir: string, prefix: string, d: Draw, k: int, ext: string)
    requires ValidDraw(d) && Sep !in prefix
    requires 0 <= k < |ImageExtBodies| && ext == [Dot] + ImageExtBodies[k]
    ensures var stem := NewStem(prefix, d);
      var newImg := Join(dir, stem + ext);
      && SplitExt(newImg) == (Join(dir, stem), ext)
      && Basename(newImg) == stem + ext
      && (newImg[|newImg| - 1] == 'g' || newImg[|newImg| - 1] == 'G')
  {
    var stem := NewStem(prefix, d);
    var body := ImageExtBodies[k];
    NewStemPlain(prefix, d);
    ImageBodyPlain(k);
    assert stem + ext == stem + [Dot] + body;
    JoinedNameSplits(dir, stem, body);
  }

  /** dir/<generated name> splits at dir/<generated stem> and ends in 'l'. */
  lemma NewXmlSplits(dir: string, prefix: string, d: Draw)
    requires ValidDraw(d) && Sep !in prefix
    ensures var newXml := Join(dir, NewName(prefix, d));
      && SplitExt(newXml) == (Join(dir, NewStem(prefix, d)), XmlExt)
      && newXml[|newXml| - 1] == 'l'
  {
    var stem := NewStem(prefix, d);
    NewStemPlain(prefix, d);
    assert XmlExt == [Dot] + "xml";
    assert NewName(prefix, d) == stem + [Dot] + "xml";
    JoinedNameSplits(dir, stem, "xml");
  }

  /** The image rename of a file onto a path that is not a directory. */
  lemma RenameImageMovesFile(s: Session, dir: string, img: string, newImg: string)
    requires s.fs.Valid() && s.filename.Some?
    requires newImg == Join(dir, Stem(s.filename.value) + Ext(img))
    requires img in s.fs.files && newImg !in s.fs.dirs
    ensures RenameImage(s, dir, img)
      == (s.(fs := State(s.fs.files - {img} + map[newImg := s.fs.files[img]], s.fs.dirs)), None)
  {
  }

  /** Writing doc to newXml, removing file, then moving img to newImg. */
  lemma MovedPair(files: map<string, Content>, file: string, img: string, newXml: string, newImg: string, doc: Content)
    requires img in files && img != file && img != newXml && newImg != file && newImg != newXml
    ensures var f1 := files[newXml := doc] - {file};
      var f2 := f1 - {img} + map[newImg := f1[img]];
      && newImg in f2 && f2[newImg] == files[img]
      && (newXml != file ==> newXml in f2 && f2[newXml] == doc)
      && file !in f2
      && (img != newImg ==> img !in f2)
      && f2 - {file, img, newXml, newImg} == files - {file, img, newXml, newImg}
  {
  }
}
