# trimLabelImgXML in Dafny

A model of the `TrimLabelImgXML` class of `trimLabelImgXML.py`, a tool that
tidies a directory of LabelImg annotations. It pairs every annotation
`stem.xml` with its image (`stem.png`, `.PNG`, `.jpg`, `.JPG`, `.jpeg`,
`.JPEG`). It gives both files a fresh random stem `VVM_IMAGE_<r>_<symbols>`,
and rewrites the `filename` and `path` elements of the annotation to the new
image name. Besides that, it can normalise file extensions and move unpaired
or unneeded files into quarantine directories (`IMG_WITHOUT_XML`,
`XML_WITHOUT_IMG`, `FILES_NOT_NEEDED`).

The filesystem is a value (`FileSystem.State`): a map from path to content
(a parsed annotation tree or an opaque blob) and a set of directories.
`os.path.exists` holds for both. The operating system's filesystem, as the
object sees it, is the class `FileSystem.Disk`. Its methods are `mkdir`,
`ElementTree.write`, `os.remove` and `os.rename`.

Modules:

- `Text`: ASCII `upper`, `lower` and `isupper`, and `%d` together with its inverse.
- `Paths`: POSIX `splitext`, `basename`, `dirname` and `os.sep.join`.
- `Xml`: the annotation tree and the rewrite of `filename`/`path` elements.
- `Naming`: the generated name and a parser that reads the draw back from it.
- `Pairing`: `getIMGName`, `getXMLFileName` and the handlers' extension classes.
- `Engine`: value-level specifications of `processXMLFile` and of one pass of `run`, with the lemmas about them.
- `Extension`: `changeFileExtension`.
- `Triage`: the three `move_*` handlers, `shutil.move` with the handlers' retry, and the scanner's skip test.
- `Trimmer`: the class `TrimLabelImgXML`. Its fields are updated in place, and each method is proved equal to the matching function of Engine, Extension or Triage.

`getIMGName` and `getXMLFileName` only read the filesystem, so they are
functions. Their exceptions become the `Lookup` outcomes `NotApplicable`
(`ValueError`) and `Missing` (the "does not exist" exceptions). An exception
that escapes a method (`OSError` from a write or rename, the `ValueError` of
a non-annotation in `run`, `PathDoesNotExist`) becomes a failure result, and
the state is then exactly what the source leaves behind at that point.

## Model

| member | source | states |
|---|---|---|
| Pairing.ImageFor | trimLabelImgXML.py:172-194 | `ValueError` exactly for a non-empty extension other than `.xml` in any case. Otherwise, the result is the first existing `stem.png/.PNG/.jpg/.JPG/.jpeg/.JPEG` in that order, and `IMGFileDoesNotExist` exactly when none exists. |
| Pairing.FirstImage | trimLabelImgXML.py:179-190 | The `elif` chain from the k-th extension on: the result is the first existing candidate from there, and `Missing` exactly when none exists. |
| Pairing.XmlFor | trimLabelImgXML.py:196-204 | `ValueError` exactly for a non-empty extension other than `.png/.jpg/.jpeg` in any case. Otherwise `stem + ".xml"` (lower case only) if it exists, else `XMLFileDoesNotExist`. |
| Pairing.FoundImageSplits | trimLabelImgXML.py:173-190 | For a file with an extension (every caller passes one), the found image has the file's stem and one of the six extensions. |
| Pairing.PairingIsMutual | trimLabelImgXML.py:172-204 | For `stem.xml`, the image `getIMGName` finds has that same file as its `getXMLFileName` answer. |
| Pairing.PairingFromImage | trimLabelImgXML.py:172-204 | For an image with one of the six case-exact extensions `.png/.PNG/.jpg/.JPG/.jpeg/.JPEG`, when `getXMLFileName` finds its annotation, `getIMGName` pairs that annotation back with an image of the same stem. This does not hold for a mixed-case extension such as `.Png` (see the next rows). |
| Pairing.UpperCaseAnnotationIsOneSided | trimLabelImgXML.py:176-203 | Concrete case: `a.XML` beside `a.png` has an image, but the image has no annotation. |
| Pairing.MixedCaseImageIsOneSided | trimLabelImgXML.py:179-203 | Concrete case: `a.Png` has the annotation `a.xml`, but `a.xml` has no image. |
| Pairing.ClassesPartition | trimLabelImgXML.py:107-160 | The handlers' three extension tests split all files: every file is in exactly one class, and a file without an extension is unneeded. |
| Naming.NewNameSplits | trimLabelImgXML.py:242-251 | `splitext` of the generated name `Naming.NewName` gives the generated stem and `.xml`. |
| Naming.NewStem | trimLabelImgXML.py:242-246 | The generated stem starts with `baseFileName_`; `Naming.ParseNewStem` and `Naming.NewStemOfParse` give the rest of its shape. |
| Naming.NewStemPlain | trimLabelImgXML.py:242-246 | For a prefix without `/`, the generated stem is one path component ending in a letter. |
| Naming.ParseNewStem | trimLabelImgXML.py:242-246 | Every generated stem is recognised, and the draw can be read back from it. |
| Naming.NewStemOfParse | trimLabelImgXML.py:242-246 | Every recognised stem is the generated stem of a possible draw: r in [0, 1000) written without leading zeros, then four distinct symbols. |
| Naming.ParseStemParts | trimLabelImgXML.py:242-246 | A recognised stem is `prefix_digits_symbols`, and its draw is read from those parts. |
| Naming.DecodeConcat | trimLabelImgXML.py:245 | The joined symbol sample splits back into the same picks. The alphabet has no symbol that is a prefix of another. |
| Naming.ConcatDecode | trimLabelImgXML.py:245 | A string that splits into symbols is the join of that split. |
| Naming.PicksGiveDistinctSymbols | trimLabelImgXML.py:245 | Distinct sample indices give distinct symbols. |
| Text.Decimal | trimLabelImgXML.py:244 | `%d` output has no leading zero, and has one digit exactly below 10. |
| Text.DecimalBelowThousand | trimLabelImgXML.py:244 | A draw of `randrange(0, 1000)` prints with one to three digits. |
| Text.ParseDecimalOfDecimal | trimLabelImgXML.py:244 | Reading back what `%d` printed gives the number. |
| Text.DecimalOfParseDecimal | trimLabelImgXML.py:244 | Every numeral without leading zeros is what `%d` prints for its value. |
| Xml.Rewrite | trimLabelImgXML.py:248-254 | The rewritten tree has the same shape and tags as the original. |
| Xml.PreorderOfRewrite | trimLabelImgXML.py:248-254 | In `root.iter()` order, the rewritten tree shows each original element relabelled, with nothing added, dropped or reordered. |
| Xml.RewriteFields | trimLabelImgXML.py:248-254 | Every element at any depth, the root included, keeps its tag. A `filename` element gets the new image name, a `path` element gets `path/new image name`, and every other element keeps its text. |
| Engine.Process | trimLabelImgXML.py:231-259 | `processXMLFile` as a map from the object's fields and the filesystem to the new ones and the outcome; it keeps the filesystem well formed. What it does is stated in `Engine.ProcessContract`. |
| Engine.ProcessContract | trimLabelImgXML.py:231-259 | On a parse failure nothing changes. The outcome is `Processed` exactly when the document parses and `path/filename` is not a directory. When the write fails, the filesystem and the records are as they were (the original is removed only after a successful write), and `filename` already holds the new name. When processed: the new name's stem parses back to the draw, and its extension is `.xml`. The rewritten tree is at `path/filename`. The original is gone, even when the two paths coincide. Exactly one record is appended, and no other path changes. |
| Engine.ReprocessingLosesAnnotation | trimLabelImgXML.py:242-259 | When the generated `path/filename` is the annotation's own path (an earlier run produced that name and the draw repeats), the write overwrites the annotation and the `os.remove` then deletes it. The outcome is still `Processed`, and a record is added. |
| Engine.Step | trimLabelImgXML.py:62-75 | One loop pass adds either no record or exactly one record, `(file, path/generated name)`. |
| Engine.ProcessPair | trimLabelImgXML.py:64-75 | The loop body once the image is found: it adds either no record or exactly `(file, path/generated name)`. |
| Engine.RenameImage | trimLabelImgXML.py:72-75 | The image rename leaves the records alone. |
| Engine.StepRenamesPair | trimLabelImgXML.py:62-75 | For a globbed annotation that parses, whose image is a regular file, with a prefix that has no `/`, and where neither new name is an existing directory: the annotation is rewritten to `path/<new stem>.xml` and the image is renamed to `path/<new stem><its own extension>`, keeping its content. The old names are gone, one record is added, and nothing else changes. |
| Engine.RenamedPairShareStem | trimLabelImgXML.py:72-75 | The renamed annotation and the renamed image share the stem `path/<new stem>`, and the image keeps its extension, case included. |
| Engine.StepSkips | trimLabelImgXML.py:63-70 | An annotation without an image, or one that does not parse, is skipped. The loop goes on, no file changes, and no record is added. |
| Engine.GlobbedStepIsNoValueError | trimLabelImgXML.py:62-64 | A globbed entry never makes `getIMGName` raise `ValueError`. |
| Engine.GlobMatchSplits | trimLabelImgXML.py:62 | A globbed entry is `path/<name>.xml`, and its extension is `.xml`. |
| Engine.Sweep | trimLabelImgXML.py:59-75 | `run`'s loop, stopping at the first escaping error: it keeps the filesystem well formed and never drops records. `Engine.SweepRecords` gives the records it adds. |
| Engine.SweepRecords | trimLabelImgXML.py:59-75 | A run keeps the old records in front. The new records are the generated records (a listed annotation with the name from its draw) of some of the listed annotations, in listing order, each at most once. |
| Engine.OneRecordPerAnnotation | trimLabelImgXML.py:59-75 | With a listing without repeats, as `glob` gives it, no annotation gets two new records. |
| Extension.ExtensionTarget | trimLabelImgXML.py:208-217 | A new name is computed exactly when the extension is `fromExt` in any case or is all upper case. For an all-upper-case extension it is the stem with the extension lower-cased, whatever `fromExt` says. |
| Extension.ChangeExtension | trimLabelImgXML.py:206-220 | A path that does not exist, or gets no new name, is left alone. For a regular file with a new name, the whole new state is given: the rename fails exactly when the new name is a directory; otherwise the file's content moves to the new name, and every other file and all directories stay as they were. |
| Extension.ExtensionTargetKeepsStem | trimLabelImgXML.py:206-220 | The file is renamed exactly when its extension is `fromExt` in any case or is all upper case. When `toExt` (without its leading dot) has no dot and no `/`, only the extension changes: it becomes the lower-cased extension when that was all upper case (this rule wins), and `.toExt` otherwise. A `toExt` such as `tar.gz` moves the split point and is not covered. |
| Extension.SecondPassChangesNothing | trimLabelImgXML.py:206-220 | When `toExt` (without its leading dot) has no dot or `/` and is not all upper case, a name produced by the `fromExt` rule is mapped to nothing or to itself when the handler runs again. |
| Extension.ChangeExtensionIdempotent | trimLabelImgXML.py:206-220 | Under the same condition on `toExt`, running the handler again on a file renamed by the `fromExt` rule leaves the filesystem as it is. |
| Extension.UpperCaseExtensionNeedsTwoPasses | trimLabelImgXML.py:212-217 | For an all-upper-case `fromExt` extension, the first pass only lower-cases it (`photo.JPEG` becomes `photo.jpeg`), and a second pass is needed to reach `toExt`. |
| Extension.UpperCaseTargetNeedsTwoPasses | trimLabelImgXML.py:212-217 | For an all-upper-case `toExt`, the first pass renames `p.jpeg` to `p.JPG`, and a second pass lower-cases that to `p.jpg`. |
| Triage.QuarantineIsSkipped | trimLabelImgXML.py:92-95 | The base name of a quarantine directory is its constant, which fails the scanner's test `Triage.Descends`, so the scanner does not walk into it. |
| Triage.MakeQuarantine | trimLabelImgXML.py:113-115 | Afterwards the quarantine directory exists. It is the only directory that can be new, and files are unchanged. |
| Triage.MoveTarget | trimLabelImgXML.py:119-123 | `shutil.move` with the retry ends at `dst`, `dst/base` or `dst/base/base`, never on an existing directory. Into a directory where `dst/base` is free, it ends at `dst/base`. |
| Triage.Move | trimLabelImgXML.py:119-123 | A regular file moved with the retry ends at `MoveTarget`'s path with its content, and nothing else changes. For a regular file, the move fails only when `MoveTarget` has no path. |
| Triage.MoveIntoDirectory | trimLabelImgXML.py:119-120 | A file moved into a directory lands under its base name with its content, and nothing else changes. |
| Triage.MoveReplacesFile | trimLabelImgXML.py:121-123 | When `dst/base` already holds a file, the retry moves the file over it. |
| Triage.HandlersIgnoreOthers | trimLabelImgXML.py:103-170 | Each handler leaves the filesystem as it is for a path that does not exist, and for a file outside its class. |
| Triage.MoveImgWithoutXml | trimLabelImgXML.py:103-125 | `move_img_without_xml` on the filesystem value; it keeps the filesystem well formed. `Triage.HandlersIgnoreOthers` and `Triage.ImageWithoutAnnotationIsQuarantined` state what it does. |
| Triage.MoveXmlWithoutImg | trimLabelImgXML.py:127-149 | `move_xml_without_img` on the filesystem value; it keeps the filesystem well formed. `Triage.HandlersIgnoreOthers` and `Triage.AnnotationWithoutImageIsQuarantined` state what it does. |
| Triage.MoveUnneeded | trimLabelImgXML.py:151-170 | `move_unnecessary_files` on the filesystem value; it keeps the filesystem well formed. `Triage.HandlersIgnoreOthers` and `Triage.UnneededFileIsQuarantined` state what it does. |
| Triage.FirstImageIgnores | trimLabelImgXML.py:179-190 | `getIMGName` answers alike on filesystems that agree on its candidates. |
| Triage.LookupsIgnoreQuarantine | trimLabelImgXML.py:113-117 | Creating the quarantine directory before the lookup does not change either handler's lookup answer. |
| Triage.ImageWithoutAnnotationIsQuarantined | trimLabelImgXML.py:103-125 | When the quarantine path is not a regular file and `IMG_WITHOUT_XML/basename` is free: `IMG_WITHOUT_XML` is created beside every image, an image without `stem.xml` moves to `IMG_WITHOUT_XML/basename` with its content, and a paired image stays. |
| Triage.AnnotationWithoutImageIsQuarantined | trimLabelImgXML.py:127-149 | When the quarantine path is not a regular file and `XML_WITHOUT_IMG/basename` is free: `XML_WITHOUT_IMG` is created beside every annotation, an annotation without an image moves to `XML_WITHOUT_IMG/basename`, and a paired annotation stays. |
| Triage.UnneededFileIsQuarantined | trimLabelImgXML.py:151-170 | When the quarantine path is not a regular file and `FILES_NOT_NEEDED/basename` is free, a file of the unneeded class moves to `FILES_NOT_NEEDED/basename`. The case where a file already holds that name is `Triage.MoveReplacesFile`. |
| Trimmer.TrimLabelImgXML.constructor | trimLabelImgXML.py:51-57 | Stores `path` and the `baseFileName` prefix in force; `filename` and the image name are unset, there is no tree, and the records are empty. |
| Trimmer.TrimLabelImgXML.ProcessXMLFile | trimLabelImgXML.py:231-259 | Fields and filesystem afterwards, and the outcome, are those `Engine.Process` gives (see `Engine.ProcessContract`). |
| Trimmer.TrimLabelImgXML.RunStep | trimLabelImgXML.py:63-75 | One loop pass is `Engine.Step`. |
| Trimmer.TrimLabelImgXML.Run | trimLabelImgXML.py:59-77 | A missing path gives `PathDoesNotExist` and changes nothing. Otherwise the loop over the listing ends as `Engine.Sweep` does, stopping at the first escaping error. |
| Trimmer.TrimLabelImgXML.ChangeFileExtension | trimLabelImgXML.py:206-220 | The filesystem afterwards is the one `Extension.ChangeExtension` gives, or is unchanged when the rename fails. |
| Trimmer.TrimLabelImgXML.ShutilMove | trimLabelImgXML.py:120 | One `shutil.move` call: refused exactly when `dst/base` exists inside a directory `dst`, and otherwise an `os.rename` to `dst/base` or `dst`. |
| Trimmer.TrimLabelImgXML.MoveWithRetry | trimLabelImgXML.py:119-123 | The move followed by the retry is `Triage.Move`. |
| Trimmer.TrimLabelImgXML.EnsureQuarantine | trimLabelImgXML.py:114-115 | The directory is created only when nothing exists at that path. |
| Trimmer.TrimLabelImgXML.MoveImgWithoutXml | trimLabelImgXML.py:103-125 | The filesystem afterwards is the one `Triage.MoveImgWithoutXml` gives. |
| Trimmer.TrimLabelImgXML.MoveXmlWithoutImg | trimLabelImgXML.py:127-149 | The filesystem afterwards is the one `Triage.MoveXmlWithoutImg` gives. |
| Trimmer.TrimLabelImgXML.MoveUnnecessaryFiles | trimLabelImgXML.py:151-170 | The filesystem afterwards is the one `Triage.MoveUnneeded` gives. |
| FileSystem.Disk.Write | trimLabelImgXML.py:256 | The file is created or replaced. Writing onto a directory fails and changes nothing. |
| FileSystem.Disk.Remove | trimLabelImgXML.py:257 | Exactly that file is gone. |
| FileSystem.Disk.Rename | trimLabelImgXML.py:75 | Afterwards the filesystem is the `os.rename` of the value model, or is unchanged on failure. |
| FileSystem.Disk.Mkdir | trimLabelImgXML.py:115 | Exactly one new directory is added. |

## Left out

- `main`, the command line, `displayStats`, logging and `print` are not modelled: they are I/O and argument parsing.
- `scanner` and its `os.walk` traversal are not modelled. Only its skip test for quarantine directories is, as `Triage.Descends`.
- `random.randrange` and `random.sample` are not modelled. Their results are the `Draw` parameters, with the preconditions `ValidDraw` and `ValidDraws`.
- XML parsing and serialisation are not modelled. A file's content is either a parsed tree or an unparseable blob, and a write stores the tree.
- Xml.Rewrite: the loop that updates element texts in place while iterating `root.iter()` is modelled by a function on tree values. Aliasing between elements and the tree is not captured.
- `os.path.normpath` and `os.path.abspath` are not modelled: paths are taken as already absolute and normalised. `os.sep` is `/`.
- Letter case is ASCII only: `upper`, `lower` and `isupper` are not modelled for non-ASCII characters.
- FileSystem.State.Rename: renaming a directory onto an existing empty directory fails here, while POSIX `os.rename` replaces the empty directory. Directory contents are not tracked, so emptiness cannot be told. The tool only renames regular files.
- Trimmer.TrimLabelImgXML.constructor: `baseFileName` is a module-level variable that the source reads at each call. Here it is fixed when the object is created.
- Parent directories are not modelled: the filesystem is flat. `mkdir` does not check the parent, and renaming a directory does not carry its contents along.
- Triage.Move: the copy fallbacks of `shutil.move` after a failed `os.rename` are not modelled. A failed rename is an escaping error. The check that refuses to move a directory into itself is not modelled either.
- Trimmer.TrimLabelImgXML.Run: the glob listing is a parameter, tied to the filesystem by the precondition `GlobXml` (the entries directly in `path` that end in `.xml` and do not start with a dot). Glob metacharacters in `path` are not modelled.
- Trimmer.TrimLabelImgXML.ProcessXMLFile: requires the image name to be set, as `run` does before calling it. Called without it, the source raises `TypeError` inside the rewrite loop.
- Trimmer.TrimLabelImgXML.ChangeFileExtension: requires non-empty `fromExt` and `toExt` even for a path that does not exist. The source raises `IndexError` on an empty one only after its existence test.
- The object's `tree` field is not modelled separately from `root`.
- The scanner's reassignment of `path` is not modelled.
- `Extension.SecondPassChangesNothing` and `Extension.ChangeExtensionIdempotent`: applying `changeFileExtension` twice equals applying it once only when the first rename came from the `fromExt` rule and `toExt` has no dot or `/` and is not all upper case. An all-upper-case `toExt` is lower-cased by the second pass (`Extension.UpperCaseTargetNeedsTwoPasses`). For an all-upper-case extension, the upper-case rule wins, so `photo.JPEG` with `jpeg` to `jpg` needs two passes (`Extension.UpperCaseExtensionNeedsTwoPasses`).
