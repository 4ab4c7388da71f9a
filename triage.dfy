/** The three triage handlers the scanner runs on every file:
    `move_img_without_xml`, `move_xml_without_img` and
    `move_unnecessary_files`. Each moves a file of its class into a
    quarantine directory beside it, created on demand, and the scanner does
    not descend into quarantine directories. */
module Triage {
  import opened Common
  import opened Paths
  import opened FileSystem
  import opened Pairing

  const ImgWithoutXml: string := "IMG_WITHOUT_XML"
  const XmlWithoutImg: string := "XML_WITHOUT_IMG"
  const FilesNotNeeded: string := "FILES_NOT_NEEDED"

  /** The scanner's test on a sub-directory name before it recurses. */
  predicate Descends(name: string)
  {
    name != ImgWithoutXml && name != FilesNotNeeded && name != XmlWithoutImg
  }

  /** `os.sep.join([os.path.dirname(file), name])`. */
  function QuarantineDir(file: string, name: string): string
  {
    Join(Dirname(file), name)
  }

  /** The scanner never walks into the quarantine directory a handler fills. */
  lemma QuarantineIsSkipped(file: string, name: string)
    requires name in {ImgWithoutXml, XmlWithoutImg, FilesNotNeeded}
    ensures Basename(QuarantineDir(file, name)) == name
    ensures !Descends(Basename(QuarantineDir(file, name)))
  {
    BasenameOfJoin(Dirname(file), name);
  }

  /** `if not os.path.exists(dirpath): os.mkdir(dirpath)`. */
  function MakeQuarantine(fs: State, q: string): (r: State)
    requires fs.Valid()
    ensures r.Valid() && r.Exists(q)
    ensures r.files == fs.files && fs.dirs <= r.dirs <= fs.dirs + {q}
    ensures q !in fs.files ==> r.dirs == fs.dirs + {q}
  {
    if fs.Exists(q) then fs else State(fs.files, fs.dirs + {q})
  }

  /** The path `shutil.move(src, dst)` renames src to, followed on
      `shutil.Error` by `shutil.move(src, os.sep.join([dst, basename]))`;
      None when the second call fails too and its error escapes.
      Into a directory dst, src goes to dst/basename unless that exists;
      an existing file there is replaced by the retry; an existing
      directory there receives src one level deeper. */
  function MoveTarget(fs: State, src: string, dst: string): (r: Option<string>)
    ensures r.Some? ==> r.value == src || r.value !in fs.dirs
    ensures r.Some? ==>
      || r.value == dst
      || r.value == Join(dst, Basename(src))
      || r.value == Join(Join(dst, Basename(src)), Basename(src))
    ensures dst in fs.dirs && src != dst && !fs.Exists(Join(dst, Basename(src))) ==>
      r == Some(Join(dst, Basename(src)))
  {
    var base := Basename(src);
    if dst !in fs.dirs || src == dst then Some(dst)
    else
      var inside := Join(dst, base);
      if inside !in fs.dirs || src == inside then Some(inside)
      else
        var deeper := Join(inside, base);
        if fs.Exists(deeper) then None else Some(deeper)
  }

  /** The net effect of the handlers' `shutil.move` with its retry. */
  function Move(fs: State, src: string, dst: string): (r: Option<State>)
    requires fs.Valid()
    ensures r.Some? ==> r.value.Valid() && MoveTarget(fs, src, dst).Some?
    ensures r.Some? && src in fs.files ==>
      var t := MoveTarget(fs, src, dst).value;
      r.value == State(fs.files - {src} + map[t := fs.files[src]], fs.dirs)
    ensures r.None? ==> MoveTarget(fs, src, dst).None? || !fs.Exists(src) || src in fs.dirs
  {
    match MoveTarget(fs, src, dst)
    case None => None
    case Some(t) => fs.Rename(src, t)
  }

  /** A file moved into a directory lands under its own name there with its
      content, and leaves its old place; nothing else changes. */
  lemma MoveIntoDirectory(fs: State, src: string, dst: string)
    requires fs.Valid() && src in fs.files && dst in fs.dirs
    requires !fs.Exists(Join(dst, Basename(src)))
    ensures var t := Join(dst, Basename(src));
      && Basename(t) == Basename(src)
      && Move(fs, src, dst) == Some(State(fs.files - {src} + map[t := fs.files[src]], fs.dirs))
  {
    BasenameOfJoin(dst, Basename(src));
  }

  /** When dst/basename already holds a file, `shutil.move` refuses and the
      retry renames src over it: the old file there is replaced. */
  lemma MoveReplacesFile(fs: State, src: string, dst: string)
    requires fs.Valid() && src in fs.files && dst in fs.dirs
    requires Join(dst, Basename(src)) in fs.files && Join(dst, Basename(src)) != src
    ensures var t := Join(dst, Basename(src));
      Move(fs, src, dst) == Some(State(fs.files - {src} + map[t := fs.files[src]], fs.dirs))
  {
  }

  /** `move_img_without_xml(file)`. */
  function MoveImgWithoutXml(fs: State, file: string): (r: Option<State>)
    requires fs.Valid()
    ensures r.Some? ==> r.value.Valid()
  {
    if !fs.Exists(file) || !IsImageFile(file) then Some(fs)
    else
      var q := QuarantineDir(file, ImgWithoutXml);
      var fs1 := MakeQuarantine(fs, q);
      if XmlFor(fs1, file).Missing? then Move(fs1, file, q) else Some(fs1)
  }

  /** `move_xml_without_img(file)`. */
  function MoveXmlWithoutImg(fs: State, file: string): (r: Option<State>)
    requires fs.Valid()
    ensures r.Some? ==> r.value.Valid()
  {
    if !fs.Exists(file) || !IsXmlFile(file) then Some(fs)
    else
      var q := QuarantineDir(file, XmlWithoutImg);
      var fs1 := MakeQuarantine(fs, q);
      if ImageFor(fs1, file).Missing? then Move(fs1, file, q) else Some(fs1)
  }

  /** `move_unnecessary_files(file)`. */
  function MoveUnneeded(fs: State, file: string): (r: Option<State>)
    requires fs.Valid()
    ensures r.Some? ==> r.value.Valid()
  {
    if !fs.Exists(file) || !IsUnneededFile(file) then Some(fs)
    else
      var q := QuarantineDir(file, FilesNotNeeded);
      Move(MakeQuarantine(fs, q), file, q)
  }

  /** Every handler is a no-op on a path that no longer exists, and on a
      file outside its class. */
  lemma HandlersIgnoreOthers(fs: State, file: string)
    requires fs.Valid()
    ensures !fs.Exists(file) ==>
      && MoveImgWithoutXml(fs, file) == Some(fs)
      && MoveXmlWithoutImg(fs, file) == Some(fs)
      && MoveUnneeded(fs, file) == Some(fs)
    ensures !IsImageFile(file) ==> MoveImgWithoutXml(fs, file) == Some(fs)
    ensures !IsXmlFile(file) ==> MoveXmlWithoutImg(fs, file) == Some(fs)
    ensures !IsUnneededFile(file) ==> MoveUnneeded(fs, file) == Some(fs)
  {
  }

  // ---- the lookups do not see the quarantine directory ----

  /** `getXMLFileName`'s candidate ends in 'l', IMG_WITHOUT_XML in 'L'. */
  lemma AnnotationIsNotQuarantine(file: string, d: string)
    ensures XmlCandidate(file) != Join(d, ImgWithoutXml)
  {
    var c, q := XmlCandidate(file), Join(d, ImgWithoutXml);
    assert c[|c| - 1] == 'l';
    assert q[|q| - 1] == 'L';
  }

  /** `getIMGName`'s candidates end in "ng", "NG", "pg", "PG", "eg" or "EG",
      XML_WITHOUT_IMG in "MG". */
  lemma ImageIsNotQuarantine(file: string, d: string, k: int)
    requires 0 <= k < |ImageExtBodies|
    ensures ImageCandidate(file, k) != Join(d, XmlWithoutImg)
  {
    var c, q := ImageCandidate(file, k), Join(d, XmlWithoutImg);
    var b := ImageExtBodies[k];
    assert c[|c| - 2] == b[|b| - 2];
    assert q[|q| - 2] == 'M';
  }

  /** `getIMGName` from the k-th extension on answers alike on two
      filesystems that agree on which of its candidates exist. */
  lemma {:induction false} FirstImageIgnores(fs: State, fs1: State, file: string, k: nat)
    requires k <= |ImageExtBodies|
    requires forall j | k <= j < |ImageExtBodies| ::
      fs1.Exists(ImageCandidate(file, j)) == fs.Exists(ImageCandidate(file, j))
    ensures FirstImage(fs1, file, k) == FirstImage(fs, file, k)
    decreases |ImageExtBodies| - k
  {
    if k < |ImageExtBodies| {
      FirstImageIgnores(fs, fs1, file, k + 1);
    }
  }

  /** Creating the quarantine directory before the lookup does not change the
      lookup's answer, in either handler. */
  lemma LookupsIgnoreQuarantine(fs: State, file: string)
    requires fs.Valid()
    ensures XmlFor(MakeQuarantine(fs, QuarantineDir(file, ImgWithoutXml)), file) == XmlFor(fs, file)
    ensures ImageFor(MakeQuarantine(fs, QuarantineDir(file, XmlWithoutImg)), file) == ImageFor(fs, file)
  {
    AnnotationIsNotQuarantine(file, Dirname(file));
    var fs1 := MakeQuarantine(fs, QuarantineDir(file, XmlWithoutImg));
    forall j | 0 <= j < |ImageExtBodies|
      ensures fs1.Exists(ImageCandidate(file, j)) == fs.Exists(ImageCandidate(file, j))
    {
      ImageIsNotQuarantine(file, Dirname(file), j);
    }
    FirstImageIgnores(fs, fs1, file, 0);
  }

  // ---- what each handler does to a file of its class ----

  /** The file, once moved, is quarantine/basename. */
  function Quarantined(file: string, name: string): string
  {
    Join(QuarantineDir(file, name), Basename(file))
  }

  /** The destination lies inside the quarantine directory, so it is not that
      directory itself. */
  lemma QuarantinedIsInside(file: string, name: string)
    ensures Quarantined(file, name) != QuarantineDir(file, name)
  {
  }

  /** What a handler leaves when the quarantine directory can be made and
      the destination inside it is free: the file moved there when unpaired,
      the file in place otherwise; the directory exists either way. */
  lemma QuarantineOutcome(fs: State, file: string, name: string, unpaired: bool)
    requires fs.Valid() && file in fs.files
    requires QuarantineDir(file, name) !in fs.files && !fs.Exists(Quarantined(file, name))
    ensures var q := QuarantineDir(file, name);
      var fs1 := MakeQuarantine(fs, q);
      var dest := Quarantined(file, name);
      (if unpaired then Move(fs1, file, q) else Some(fs1))
        == if unpaired then Some(State(fs.files - {file} + map[dest := fs.files[file]], fs.dirs + {q}))
           else Some(State(fs.files, fs.dirs + {q}))
  {
    var q := QuarantineDir(file, name);
    QuarantinedIsInside(file, name);
    if unpaired {
      MoveIntoDirectory(MakeQuarantine(fs, q), file, q);
    }
  }

  /** An image without an annotation moves to IMG_WITHOUT_XML/basename beside
      it; an image with one stays. Either way IMG_WITHOUT_XML exists
      afterwards and is the only new directory. */
  lemma ImageWithoutAnnotationIsQuarantined(fs: State, file: string)
    requires fs.Valid() && file in fs.files && IsImageFile(file)
    requires QuarantineDir(file, ImgWithoutXml) !in fs.files
    requires !fs.Exists(Quarantined(file, ImgWithoutXml))
    ensures var q := QuarantineDir(file, ImgWithoutXml);
      var dest := Quarantined(file, ImgWithoutXml);
      && (XmlFor(fs, file).Missing? ==>
            MoveImgWithoutXml(fs, file) == Some(State(fs.files - {file} + map[dest := fs.files[file]], fs.dirs + {q})))
      && (!XmlFor(fs, file).Missing? ==>
            MoveImgWithoutXml(fs, file) == Some(State(fs.files, fs.dirs + {q})))
  {
    var q := QuarantineDir(file, ImgWithoutXml);
    var fs1 := MakeQuarantine(fs, q);
    LookupsIgnoreQuarantine(fs, file);
    var unpaired := XmlFor(fs, file).Missing?;
    assert MoveImgWithoutXml(fs, file) == if unpaired then Move(fs1, file, q) else Some(fs1);
    QuarantineOutcome(fs, file, ImgWithoutXml, unpaired);
  }

  /** An annotation without an image moves to XML_WITHOUT_IMG/basename beside
      it; one with an image stays. */
  lemma AnnotationWithoutImageIsQuarantined(fs: State, file: string)
    requires fs.Valid() && file in fs.files && IsXmlFile(file)
    requires QuarantineDir(file, XmlWithoutImg) !in fs.files
    requires !fs.Exists(Quarantined(file, XmlWithoutImg))
    ensures var q := QuarantineDir(file, XmlWithoutImg);
      var dest := Quarantined(file, XmlWithoutImg);
      && (ImageFor(fs, file).Missing? ==>
            MoveXmlWithoutImg(fs, file) == Some(State(fs.files - {file} + map[dest := fs.files[file]], fs.dirs + {q})))
      && (!ImageFor(fs, file).Missing? ==>
            MoveXmlWithoutImg(fs, file) == Some(State(fs.files, fs.dirs + {q})))
  {
    AnnotationHandlerShape(fs, file);
    QuarantineOutcome(fs, file, XmlWithoutImg, ImageFor(fs, file).Missing?);
  }

  /** `move_xml_without_img` on an annotation, with the lookup taken before
      the quarantine directory is made. */
  lemma AnnotationHandlerShape(fs: State, file: string)
    requires fs.Valid() && file in fs.files && IsXmlFile(file)
    ensures var q := QuarantineDir(file, XmlWithoutImg);
      var fs1 := MakeQuarantine(fs, q);
      MoveXmlWithoutImg(fs, file) == if ImageFor(fs, file).Missing? then Move(fs1, file, q) else Some(fs1)
  {
    LookupsIgnoreQuarantine(fs, file);
  }

  /** A file that is neither an image nor an annotation always moves to
      FILES_NOT_NEEDED/basename beside it. */
  lemma UnneededFileIsQuarantined(fs: State, file: string)
    requires fs.Valid() && file in fs.files && IsUnneededFile(file)
    requires QuarantineDir(file, FilesNotNeeded) !in fs.files
    requires !fs.Exists(Quarantined(file, FilesNotNeeded))
    ensures var q := QuarantineDir(file, FilesNotNeeded);
      var dest := Quarantined(file, FilesNotNeeded);
      MoveUnneeded(fs, file) == Some(State(fs.files - {file} + map[dest := fs.files[file]], fs.dirs + {q}))
  {
    QuarantineOutcome(fs, file, FilesNotNeeded, true);
  }
}
