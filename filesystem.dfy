/** The part of the operating system's filesystem the tool touches: regular
    files with their contents and directories, keyed by path. Parent
    directories are not tracked. */
module FileSystem {
  import opened Common
  import Xml

  /** What a file holds: an annotation document `ET.parse` can read, or
      anything else (an image, a text file, a malformed document). */
  datatype Content = Document(root: Xml.Node) | Blob(bytes: seq<int>)

  datatype State = State(files: map<string, Content>, dirs: set<string>) {

    /** No path is both a regular file and a directory. */
    predicate Valid() { files.Keys !! dirs }

    /** `os.path.exists(p)`: true for files and directories alike. */
    predicate Exists(p: string) { p in files || p in dirs }

    /** `ET.parse(p)` succeeds exactly on a file holding a document. */
    predicate Parses(p: string) { p in files && files[p].Document? }

    /** `os.rename(src, dst)` on POSIX. A file replaces a file at dst and
        fails onto a directory; a directory moves to a free path. Renaming a
        path to itself changes nothing. None is the `OSError` case. */
    function Rename(src: string, dst: string): (r: Option<State>)
      requires Valid()
      ensures r.Some? <==>
        (src in files && dst !in dirs) || (src in dirs && (src == dst || !Exists(dst)))
      ensures r.Some? ==> r.value.Valid()
      ensures r.Some? && src in files ==>
        && r.value.files == files - {src} + map[dst := files[src]]
        && r.value.dirs == dirs
      ensures r.Some? && src in dirs ==>
        r.value.files == files && r.value.dirs == dirs - {src} + {dst}
    {
      if src in files && dst !in dirs then
        Some(State(files - {src} + map[dst := files[src]], dirs))
      else if src in dirs && (src == dst || !Exists(dst)) then
        Some(State(files, dirs - {src} + {dst}))
      else
        None
    }
  }

  /** The filesystem as the program sees it through system calls. */
  class Disk {
    var files: map<string, Content>
    var dirs: set<string>

    function View(): State
      reads this
    {
      State(files, dirs)
    }

    predicate Valid()
      reads this
    {
      View().Valid()
    }

    constructor (files0: map<string, Content>, dirs0: set<string>)
      requires files0.Keys !! dirs0
      ensures Valid() && files == files0 && dirs == dirs0
    {
      files, dirs := files0, dirs0;
    }

    /** `os.mkdir(p)`; every caller has checked that p does not exist. */
    method Mkdir(p: string)
      requires Valid() && !View().Exists(p)
      modifies this
      ensures Valid()
      ensures files == old(files) && dirs == old(dirs) + {p}
    {
      dirs := dirs + {p};
    }

    /** `ElementTree.write(p)`: creates or replaces the file p; raises
        `IsADirectoryError` (ok false, nothing changes) when p is a directory. */
    method Write(p: string, c: Content) returns (ok: bool)
      requires Valid()
      modifies this
      ensures Valid()
      ensures ok <==> p !in old(dirs)
      ensures ok ==> files == old(files)[p := c] && dirs == old(dirs)
      ensures !ok ==> files == old(files) && dirs == old(dirs)
    {
      ok := p !in dirs;
      if ok {
        files := files[p := c];
      }
    }

    /** `os.remove(p)` on a regular file. */
    method Remove(p: string)
      requires Valid() && p in files
      modifies this
      ensures Valid()
      ensures files == old(files) - {p} && dirs == old(dirs)
    {
      files := files - {p};
    }

    /** `os.rename(src, dst)`; ok false is the `OSError` case, which changes nothing. */
    method Rename(src: string, dst: string) returns (ok: bool)
      requires Valid()
      modifies this
      ensures Valid()
      ensures ok <==> old(View()).Rename(src, dst).Some?
      ensures ok ==> View() == old(View()).Rename(src, dst).value
      ensures !ok ==> View() == old(View())
    {
      var r := View().Rename(src, dst);
      ok := r.Some?;
      if ok {
        files, dirs := r.value.files, r.value.dirs;
      }
    }
  }
}
