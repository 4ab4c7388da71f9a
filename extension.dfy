/** `changeFileExtension(file, (fromExt, toExt))`: rename a file whose
    extension is fromExt (compared case-insensitively) to toExt, and give an
    all-upper-case extension its lower-case spelling; the second rule wins
    when both apply. */
module Extension {
  import opened Common
  import opened Text
  import opened Paths
  import opened FileSystem

  /** `x if x[0] != "." else x[1:]`. */
  function StripDot(x: string): (r: string)
    requires |x| > 0
    ensures x == if x[0] == Dot then [Dot] + r else r
  {
    if x[0] != Dot then x else x[1..]
  }

  /** The `newFileName` `changeFileExtension` computes for file, or None when
      it stays None. */
  function ExtensionTarget(file: string, fromExt: string, toExt: string): (r: Option<string>)
    requires |fromExt| > 0 && |toExt| > 0
    ensures r.Some? <==>
      Ext(file) != [] && (IsUpper(Ext(file)[1..]) || Upper(Ext(file))[1..] == Upper(StripDot(fromExt)))
    ensures Ext(file) != [] && IsUpper(Ext(file)[1..]) ==> r == Some(Stem(file) + Lower(Ext(file)))
  {
    var stem, ext := Stem(file), Ext(file);
    var from, to := StripDot(fromExt), StripDot(toExt);
    var byRequest := if ext != [] && Upper(ext)[1..] == Upper(from) then Some(stem + [Dot] + to) else None;
    if ext != [] && IsUpper(ext[1..]) then Some(stem + Lower(ext)) else byRequest
  }

  /** The whole handler on the filesystem: nothing happens to a path that does
      not exist or that keeps its name; otherwise `os.rename`, whose failure
      (None) escapes. */
  function ChangeExtension(fs: State, file: string, fromExt: string, toExt: string): (r: Option<State>)
    requires fs.Valid() && |fromExt| > 0 && |toExt| > 0
    ensures r.Some? ==> r.value.Valid()
    ensures !fs.Exists(file) || ExtensionTarget(file, fromExt, toExt).None? ==> r == Some(fs)
    ensures r.Some? && file in fs.files && ExtensionTarget(file, fromExt, toExt).Some? ==>
      var n := ExtensionTarget(file, fromExt, toExt).value;
      && n in r.value.files && r.value.files[n] == fs.files[file]
      && (n != file ==> file !in r.value.files)
      && r.value.dirs == fs.dirs
    ensures file in fs.files && ExtensionTarget(file, fromExt, toExt).Some? ==>
      var n := ExtensionTarget(file, fromExt, toExt).value;
      r == if n in fs.dirs then None else Some(State(fs.files - {file} + map[n := fs.files[file]], fs.dirs))
  {
    if !fs.Exists(file) then Some(fs)
    else
      match ExtensionTarget(file, fromExt, toExt)
      case None => Some(fs)
      case Some(n) => fs.Rename(file, n)
  }

  /** The body of an extension: no dot and no separator. */
  predicate PlainBody(b: string)
  {
    forall j | 0 <= j < |b| :: b[j] != Dot && b[j] != Sep
  }

  /** A file is renamed exactly when it has an extension that is fromExt in
      any case or is all upper case. Only the extension changes: the new name
      has the old stem, and its extension is the old one in lower case when
      that was all upper case (whatever fromExt says), the dot and toExt
      otherwise. */
  lemma ExtensionTargetKeepsStem(file: string, fromExt: string, toExt: string)
    requires |fromExt| > 0 && |toExt| > 0 && PlainBody(StripDot(toExt))
    ensures var r := ExtensionTarget(file, fromExt, toExt);
      var ext := Ext(file);
      && (r.Some? <==> ext != [] && (IsUpper(ext[1..]) || Upper(ext)[1..] == Upper(StripDot(fromExt))))
      && (r.Some? ==> Stem(r.value) == Stem(file))
      && (r.Some? && IsUpper(ext[1..]) ==> Ext(r.value) == Lower(ext))
      && (r.Some? && !IsUpper(ext[1..]) ==> Ext(r.value) == [Dot] + StripDot(toExt))
  {
    var stem, ext := Stem(file), Ext(file);
    var to := StripDot(toExt);
    if ext != [] {
      SplitExtNamed(file);
      if IsUpper(ext[1..]) {
        LowerExtension(ext);
        SplitExtOfAppend(stem, Lower(ext)[1..]);
        assert stem + Lower(ext) == stem + [Dot] + Lower(ext)[1..];
      } else {
        SplitExtOfAppend(stem, to);
      }
    }
  }

  /** Lower-casing an extension keeps it an extension. */
  lemma LowerExtension(ext: string)
    requires IsExtension(ext)
    ensures Lower(ext) == [Dot] + Lower(ext)[1..] && PlainBody(Lower(ext)[1..])
  {
    var l := Lower(ext);
    assert l[0] == Dot;
    forall j | 0 <= j < |l[1..]| ensures l[1..][j] != Dot && l[1..][j] != Sep {
      assert l[1..][j] == LowerChar(ext[j + 1]);
    }
  }

  /** Applying the handler again to the name it produced by the fromExt rule
      changes nothing, provided toExt is a plain, not all upper-case body. */
  lemma SecondPassChangesNothing(file: string, fromExt: string, toExt: string)
    requires |fromExt| > 0 && |toExt| > 0
    requires PlainBody(StripDot(toExt)) && !IsUpper(StripDot(toExt))
    requires ExtensionTarget(file, fromExt, toExt).Some? && !IsUpper(Ext(file)[1..])
    ensures var n := ExtensionTarget(file, fromExt, toExt).value;
      var again := ExtensionTarget(n, fromExt, toExt);
      again == None || again == Some(n)
  {
    var n := ExtensionTarget(file, fromExt, toExt).value;
    var to := StripDot(toExt);
    ExtensionTargetKeepsStem(file, fromExt, toExt);
    assert Ext(n) == [Dot] + to && Stem(n) == Stem(file);
    assert Ext(n)[1..] == to;
    assert n == Stem(n) + Ext(n);
  }

  /** The same on the filesystem: once a file has been renamed by the fromExt
      rule, running the handler on its new name leaves everything as it is. */
  lemma ChangeExtensionIdempotent(fs: State, file: string, fromExt: string, toExt: string)
    requires fs.Valid() && |fromExt| > 0 && |toExt| > 0
    requires PlainBody(StripDot(toExt)) && !IsUpper(StripDot(toExt))
    requires file in fs.files && ExtensionTarget(file, fromExt, toExt).Some? && !IsUpper(Ext(file)[1..])
    requires ChangeExtension(fs, file, fromExt, toExt).Some?
    ensures var fs2 := ChangeExtension(fs, file, fromExt, toExt).value;
      var n := ExtensionTarget(file, fromExt, toExt).value;
      ChangeExtension(fs2, n, fromExt, toExt) == Some(fs2)
  {
    var n := ExtensionTarget(file, fromExt, toExt).value;
    var fs2 := fs.Rename(file, n).value;
    assert ChangeExtension(fs, file, fromExt, toExt) == Some(fs2);
    SecondPassChangesNothing(file, fromExt, toExt);
    var again := ExtensionTarget(n, fromExt, toExt);
    if again.Some? {
      RenameInPlace(fs2, n);
    }
  }

  /** Renaming a file onto itself changes nothing. */
  lemma RenameInPlace(fs: State, n: string)
    requires fs.Valid() && n in fs.files
    ensures fs.Rename(n, n) == Some(fs)
  {
    assert fs.files - {n} + map[n := fs.files[n]] == fs.files;
  }

  /** Not so for an upper-case extension: asked to turn jpeg into jpg, the
      handler first only lower-cases photo.JPEG to photo.jpeg, and needs a
      second pass to reach photo.jpg. */
  lemma UpperCaseExtensionNeedsTwoPasses(stem: string, body: string, fromExt: string, toExt: string)
    requires |fromExt| > 0 && |toExt| > 0
    requires NamedTail(stem) && PlainBody(body) && IsUpper(body)
    requires Upper(body) == Upper(StripDot(fromExt)) && Lower(body) != StripDot(toExt)
    ensures ExtensionTarget(stem + [Dot] + body, fromExt, toExt) == Some(stem + [Dot] + Lower(body))
    ensures stem + [Dot] + Lower(body) != stem + [Dot] + StripDot(toExt)
    ensures ExtensionTarget(stem + [Dot] + Lower(body), fromExt, toExt) == Some(stem + [Dot] + StripDot(toExt))
  {
    var lower := Lower(body);
    LowerBody(body);
    AppendedExtension(stem, body);
    UpperRuleFires(stem + [Dot] + body, fromExt, toExt);
    LowerOfUpperCase(body);
    AppendedExtension(stem, lower);
    RequestRuleFires(stem + [Dot] + lower, fromExt, toExt);
  }

  /** Nor for an upper-case toExt: asked to turn jpeg into JPG, the handler
      renames p.jpeg to p.JPG, and a second pass lower-cases that to p.jpg. */
  lemma UpperCaseTargetNeedsTwoPasses(stem: string, body: string, fromExt: string, toExt: string)
    requires |fromExt| > 0 && |toExt| > 0
    requires NamedTail(stem) && PlainBody(body) && !IsUpper(body) && Upper(body) == Upper(StripDot(fromExt))
    requires PlainBody(StripDot(toExt)) && IsUpper(StripDot(toExt))
    ensures ExtensionTarget(stem + [Dot] + body, fromExt, toExt) == Some(stem + [Dot] + StripDot(toExt))
    ensures Lower(StripDot(toExt)) != StripDot(toExt)
    ensures ExtensionTarget(stem + [Dot] + StripDot(toExt), fromExt, toExt) == Some(stem + [Dot] + Lower(StripDot(toExt)))
  {
    AppendedExtension(stem, body);
    RequestRuleFires(stem + [Dot] + body, fromExt, toExt);
    UpperBodyLowered(stem, StripDot(toExt), fromExt, toExt);
  }

  /** stem.BODY with an all-upper-case BODY becomes stem.body, a new name. */
  lemma UpperBodyLowered(stem: string, body: string, fromExt: string, toExt: string)
    requires |fromExt| > 0 && |toExt| > 0
    requires NamedTail(stem) && PlainBody(body) && IsUpper(body)
    ensures Lower(body) != body
    ensures ExtensionTarget(stem + [Dot] + body, fromExt, toExt) == Some(stem + [Dot] + Lower(body))
  {
    UpperExtensionLowered(stem, body, fromExt, toExt);
    LowerBody(body);
    Reassociate(stem, Lower([Dot] + body), Lower(body));
    var i :| 0 <= i < |body| && IsUpperLetter(body[i]);
    assert Lower(body)[i] != body[i];
  }

  /** stem.BODY with an all-upper-case BODY becomes stem.body. */
  lemma UpperExtensionLowered(stem: string, body: string, fromExt: string, toExt: string)
    requires |fromExt| > 0 && |toExt| > 0
    requires NamedTail(stem) && PlainBody(body) && IsUpper(body)
    ensures ExtensionTarget(stem + [Dot] + body, fromExt, toExt) == Some(stem + Lower([Dot] + body))
  {
    AppendedExtension(stem, body);
  }

  lemma Reassociate(stem: string, ext: string, body: string)
    requires ext == [Dot] + body
    ensures stem + ext == stem + [Dot] + body
  {
  }

  /** Lower-casing an extension body keeps it plain. */
  lemma LowerBody(body: string)
    requires PlainBody(body)
    ensures PlainBody(Lower(body)) && Lower([Dot] + body) == [Dot] + Lower(body)
  {
    var lower := Lower(body);
    forall j | 0 <= j < |lower| ensures lower[j] != Dot && lower[j] != Sep {
      assert lower[j] == LowerChar(body[j]);
    }
  }

  /** A plain body after a dot is what `splitext` splits off. */
  lemma AppendedExtension(stem: string, body: string)
    requires NamedTail(stem) && PlainBody(body)
    ensures var f := stem + [Dot] + body;
      Stem(f) == stem && Ext(f) == [Dot] + body && Ext(f)[1..] == body && Upper(Ext(f))[1..] == Upper(body)
  {
    SplitExtOfAppend(stem, body);
    var e := [Dot] + body;
    assert e[1..] == body;
    assert Upper(e)[1..] == Upper(body);
  }

  /** Where the extension is all upper case, the lower-case rule decides. */
  lemma UpperRuleFires(file: string, fromExt: string, toExt: string)
    requires |fromExt| > 0 && |toExt| > 0
    requires Ext(file) != [] && IsUpper(Ext(file)[1..])
    ensures ExtensionTarget(file, fromExt, toExt) == Some(Stem(file) + Lower(Ext(file)))
  {
  }

  /** Otherwise an extension that is fromExt in any case becomes toExt. */
  lemma RequestRuleFires(file: string, fromExt: string, toExt: string)
    requires |fromExt| > 0 && |toExt| > 0
    requires Ext(file) != [] && !IsUpper(Ext(file)[1..])
    requires Upper(Ext(file))[1..] == Upper(StripDot(fromExt))
    ensures ExtensionTarget(file, fromExt, toExt) == Some(Stem(file) + [Dot] + StripDot(toExt))
  {
  }
}
