/** The `TrimLabelImgXML` object: its fields, `processXMLFile`, the shallow
    `run`, `changeFileExtension` and the three triage handlers, each proved
    to do what the matching function of Engine, Extension or Triage says. */
module Trimmer {
  import opened Common
  import opened Paths
  import opened Xml
  import opened FileSystem
  import opened Naming
  import opened Pairing
  import opened Engine
  import opened Extension
  import opened Triage

  /** What one call of `shutil.move` reports: done, `shutil.Error` because
      the destination inside a directory exists, or an escaping `OSError`. */
  datatype MoveResult = Moved | AlreadyExists | MoveFailed

  class TrimLabelImgXML {
    var path: string
    /** The module-level `baseFileName` the generated names start with. */
    const prefix: string
    const disk: Disk
    var root: Option<Node>
    var filename: Option<string>
    var imgName: Option<string>
    var processedFiles: seq<Record>

    /** The object's changing fields and the filesystem, as Engine sees them. */
    function Snapshot(): Session
      reads this, disk
    {
      Session(disk.View(), root, filename, imgName, processedFiles)
    }

    predicate Valid()
      reads this, disk
    {
      disk.Valid()
    }

    /** `__init__(path)`, with prefix0 the `baseFileName` in force
        (`BaseFileName` unless the program changed it). */
    constructor (path0: string, prefix0: string, disk0: Disk)
      requires disk0.Valid()
      ensures Valid() && disk == disk0 && path == path0 && prefix == prefix0
      ensures root == None && filename == None && imgName == None && processedFiles == []
    {
      path, prefix, disk := path0, prefix0, disk0;
      root, filename, imgName := None, None, None;
      processedFiles := [];
    }

    /** `processXMLFile(file)` with d for its random draws. */
    method ProcessXMLFile(file: string, d: Draw) returns (outcome: ProcessOutcome)
      requires Valid() && imgName.Some? && ValidDraw(d)
      modifies this, disk
      ensures Valid() && path == old(path)
      ensures (Snapshot(), outcome) == Process(old(Snapshot()), path, prefix, file, d)
    {
      if !disk.View().Parses(file) {
        return ParseFailed;
      }
      var name := NewName(prefix, d);
      filename := Some(name);
      var newImage := Stem(name) + Ext(imgName.value);
      var tree := Rewrite(disk.files[file].root, newImage, Join(path, newImage));
      root := Some(tree);
      var target := Join(path, name);
      var ok := disk.Write(target, Document(tree));
      if !ok {
        return WriteFailed(target);
      }
      disk.Remove(file);
      processedFiles := processedFiles + [Record(file, target)];
      return Processed;
    }

    /** The body of `run`'s loop for one globbed annotation. */
    method RunStep(file: string, d: Draw) returns (failure: Option<RunError>)
      requires Valid() && ValidDraw(d)
      modifies this, disk
      ensures Valid() && path == old(path)
      ensures (Snapshot(), failure) == Step(old(Snapshot()), path, prefix, file, d)
    {
      var look := ImageFor(disk.View(), file);
      if look.NotApplicable? {
        return Some(NotAnXml(file));
      } else if look.Missing? {
        return None;
      }
      var img := look.path;
      imgName := Some(img);
      var outcome := ProcessXMLFile(file, d);
      if outcome.ParseFailed? {
        return None;
      } else if outcome.WriteFailed? {
        return Some(OsError(outcome.target));
      }
      ghost var s2 := Snapshot();
      var newImg := Join(path, Stem(filename.value) + Ext(img));
      var ok := disk.Rename(img, newImg);
      failure := if ok then None else Some(OsError(img));
      assert (Snapshot(), failure) == RenameImage(s2, path, img);
    }

    /** `run()` in shallow mode; listing is what `glob` returns for the
        annotations directly in path and draws are the random draws, one per
        listed file. */
    method Run(listing: seq<string>, draws: seq<Draw>) returns (failure: Option<RunError>)
      requires Valid() && |draws| == |listing| && ValidDraws(draws)
      requires disk.View().Exists(path) ==> GlobXml(disk.View(), path, listing)
      modifies this, disk
      ensures Valid() && path == old(path)
      ensures !old(disk.View()).Exists(path) ==>
        failure == Some(PathDoesNotExist) && Snapshot() == old(Snapshot())
      ensures old(disk.View()).Exists(path) ==>
        (Snapshot(), failure) == Sweep(old(Snapshot()), path, prefix, listing, draws)
    {
      if !disk.View().Exists(path) {
        return Some(PathDoesNotExist);
      }
      ghost var goal := Sweep(Snapshot(), path, prefix, listing, draws);
      var i := 0;
      while i < |listing|
        invariant 0 <= i <= |listing| && Valid() && path == old(path)
        invariant goal == Sweep(Snapshot(), path, prefix, listing[i..], draws[i..])
        decreases |listing| - i
      {
        assert listing[i..][1..] == listing[i + 1..] && draws[i..][1..] == draws[i + 1..];
        failure := RunStep(listing[i], draws[i]);
        assert goal == if failure.Some? then (Snapshot(), failure)
                       else Sweep(Snapshot(), path, prefix, listing[i + 1..], draws[i + 1..]);
        if failure.Some? {
          return;
        }
        i := i + 1;
      }
      assert listing[i..] == [];
      return None;
    }

    /** `changeFileExtension(file, (fromExt, toExt))`; ok false is the
        escaping `OSError` of the rename. */
    method ChangeFileExtension(file: string, fromExt: string, toExt: string) returns (ok: bool)
      requires Valid() && |fromExt| > 0 && |toExt| > 0
      modifies disk
      ensures Valid()
      ensures ok <==> ChangeExtension(old(disk.View()), file, fromExt, toExt).Some?
      ensures ok ==> disk.View() == ChangeExtension(old(disk.View()), file, fromExt, toExt).value
      ensures !ok ==> disk.View() == old(disk.View())
    {
      ok := true;
      if disk.View().Exists(file) {
        var target := ExtensionTarget(file, fromExt, toExt);
        if target.Some? {
          ok := disk.Rename(file, target.value);
        }
      }
    }

    /** One `shutil.move(src, dst)`: into an existing directory dst it goes
        to dst/basename, refused when that exists; anywhere else `os.rename`. */
    method ShutilMove(src: string, dst: string) returns (result: MoveResult)
      requires Valid()
      modifies disk
      ensures Valid()
      ensures result == AlreadyExists <==>
        dst in old(disk.dirs) && src != dst && old(disk.View()).Exists(Join(dst, Basename(src)))
      ensures result == AlreadyExists ==> disk.View() == old(disk.View())
      ensures result != AlreadyExists ==>
        var t := if dst in old(disk.dirs) && src != dst then Join(dst, Basename(src)) else dst;
        && (result == Moved <==> old(disk.View()).Rename(src, t).Some?)
        && (result == Moved ==> disk.View() == old(disk.View()).Rename(src, t).value)
        && (result == MoveFailed ==> disk.View() == old(disk.View()))
    {
      var target := dst;
      if dst in disk.dirs && src != dst {
        target := Join(dst, Basename(src));
        if disk.View().Exists(target) {
          return AlreadyExists;
        }
      }
      var ok := disk.Rename(src, target);
      result := if ok then Moved else MoveFailed;
    }

    /** The handlers' `try: shutil.move(file, dirpath) except shutil.Error:
        shutil.move(file, dirpath/basename)`; ok false when an exception
        escapes. */
    method MoveWithRetry(src: string, dst: string) returns (ok: bool)
      requires Valid()
      modifies disk
      ensures Valid()
      ensures ok <==> Move(old(disk.View()), src, dst).Some?
      ensures ok ==> disk.View() == Move(old(disk.View()), src, dst).value
      ensures !ok ==> disk.View() == old(disk.View())
    {
      var first := ShutilMove(src, dst);
      if first == AlreadyExists {
        var second := ShutilMove(src, Join(dst, Basename(src)));
        ok := second == Moved;
      } else {
        ok := first == Moved;
      }
    }

    /** `if not os.path.exists(dirpath): os.mkdir(dirpath)`. */
    method EnsureQuarantine(q: string)
      requires Valid()
      modifies disk
      ensures Valid() && disk.View() == MakeQuarantine(old(disk.View()), q)
    {
      if !disk.View().Exists(q) {
        disk.Mkdir(q);
      }
    }

    /** `move_img_without_xml(file)`. */
    method MoveImgWithoutXml(file: string) returns (ok: bool)
      requires Valid()
      modifies disk
      ensures Valid()
      ensures ok <==> Triage.MoveImgWithoutXml(old(disk.View()), file).Some?
      ensures ok ==> disk.View() == Triage.MoveImgWithoutXml(old(disk.View()), file).value
      ensures !ok ==> disk.View() == MakeQuarantine(old(disk.View()), QuarantineDir(file, ImgWithoutXml))
    {
      ok := true;
      if disk.View().Exists(file) && IsImageFile(file) {
        var q := QuarantineDir(file, ImgWithoutXml);
        EnsureQuarantine(q);
        if XmlFor(disk.View(), file).Missing? {
          ok := MoveWithRetry(file, q);
        }
      }
    }

    /** `move_xml_without_img(file)`. */
    method MoveXmlWithoutImg(file: string) returns (ok: bool)
      requires Valid()
      modifies disk
      ensures Valid()
      ensures ok <==> Triage.MoveXmlWithoutImg(old(disk.View()), file).Some?
      ensures ok ==> disk.View() == Triage.MoveXmlWithoutImg(old(disk.View()), file).value
      ensures !ok ==> disk.View() == MakeQuarantine(old(disk.View()), QuarantineDir(file, XmlWithoutImg))
    {
      ok := true;
      if disk.View().Exists(file) && IsXmlFile(file) {
        var q := QuarantineDir(file, XmlWithoutImg);
        EnsureQuarantine(q);
        if ImageFor(disk.View(), file).Missing? {
          ok := MoveWithRetry(file, q);
        }
      }
    }

    /** `move_unnecessary_files(file)`. */
    method MoveUnnecessaryFiles(file: string) returns (ok: bool)
      requires Valid()
      modifies disk
      ensures Valid()
      ensures ok <==> MoveUnneeded(old(disk.View()), file).Some?
      ensures ok ==> disk.View() == MoveUnneeded(old(disk.View()), file).value
      ensures !ok ==> disk.View() == MakeQuarantine(old(disk.View()), QuarantineDir(file, FilesNotNeeded))
    {
      ok := true;
      if disk.View().Exists(file) && IsUnneededFile(file) {
        var q := QuarantineDir(file, FilesNotNeeded);
        EnsureQuarantine(q);
        ok := MoveWithRetry(file, q);
      }
    }
  }
}
