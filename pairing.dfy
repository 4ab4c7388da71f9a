/** Pair lookup (`getIMGName`, `getXMLFileName`) and the extension classes
    the triage handlers use. Both lookups only test paths for existence. */
module Pairing {
  import opened Text
  import opened Paths
  import opened FileSystem

  /** The image extensions `getIMGName` tries, in its order. */
  const ImageExtBodies: seq<string> := ["png", "PNG", "jpg", "JPG", "jpeg", "JPEG"]

  /** A lookup's outcome: the path found, the `ValueError` raised for an
      input of the wrong kind, or the "does not exist" exception. */
  datatype Lookup = Found(path: string) | NotApplicable | Missing

  /** `ext.upper() == ".XML"`. */
  predicate IsXmlExt(ext: string) { Upper(ext) == ".XML" }

  /** `ext.upper() in (".PNG", ".JPEG", ".JPG")`. */
  predicate IsImageExt(ext: string) { Upper(ext) in {".PNG", ".JPEG", ".JPG"} }

  /** `'.'.join([filename, body])` for the k-th image extension. */
  function ImageCandidate(file: string, k: int): string
    requires 0 <= k < |ImageExtBodies|
  {
    Stem(file) + [Dot] + ImageExtBodies[k]
  }

  /** `getIMGName(file)`. */
  function ImageFor(fs: State, file: string): (r: Lookup)
    ensures r.NotApplicable? <==> Ext(file) != [] && !IsXmlExt(Ext(file))
    ensures r.Found? ==> exists k | 0 <= k < |ImageExtBodies| ::
      && r.path == ImageCandidate(file, k)
      && fs.Exists(r.path)
      && forall j | 0 <= j < k :: !fs.Exists(ImageCandidate(file, j))
    ensures r.Missing? <==>
      && (Ext(file) == [] || IsXmlExt(Ext(file)))
      && forall k | 0 <= k < |ImageExtBodies| :: !fs.Exists(ImageCandidate(file, k))
  {
    var ext := Ext(file);
    if ext != [] && !IsXmlExt(ext) then NotApplicable
    else FirstImage(fs, file, 0)
  }

  /** `getIMGName`'s chain of `elif`s from the k-th extension on: the first
      candidate that exists. */
  function FirstImage(fs: State, file: string, k: nat): (r: Lookup)
    requires k <= |ImageExtBodies|
    ensures !r.NotApplicable?
    ensures r.Found? ==> exists j | k <= j < |ImageExtBodies| ::
      && r.path == ImageCandidate(file, j)
      && fs.Exists(r.path)
      && forall i | k <= i < j :: !fs.Exists(ImageCandidate(file, i))
    ensures r.Missing? <==> forall j | k <= j < |ImageExtBodies| :: !fs.Exists(ImageCandidate(file, j))
    decreases |ImageExtBodies| - k
  {
    if k == |ImageExtBodies| then Missing
    else if fs.Exists(ImageCandidate(file, k)) then Found(ImageCandidate(file, k))
    else FirstImage(fs, file, k + 1)
  }

  /** `".".join([filename, "xml"])`. */
  function XmlCandidate(imgfile: string): string
  {
    Stem(imgfile) + ".xml"
  }

  /** `getXMLFileName(imgfile)`. */
  function XmlFor(fs: State, imgfile: string): (r: Lookup)
    ensures r.NotApplicable? <==> Ext(imgfile) != [] && !IsImageExt(Ext(imgfile))
    ensures r.Found? ==> r.path == Stem(imgfile) + ".xml" && fs.Exists(r.path)
    ensures r.Missing? <==>
      (Ext(imgfile) == [] || IsImageExt(Ext(imgfile))) && !fs.Exists(Stem(imgfile) + ".xml")
  {
    var ext := Ext(imgfile);
    if ext != [] && !IsImageExt(ext) then NotApplicable
    else if !fs.Exists(XmlCandidate(imgfile)) then Missing
    else Found(XmlCandidate(imgfile))
  }

  /** The found image has the annotation's stem and one of the six image
      extensions; k is the index of that extension in the search order. */
  lemma FoundImageSplits(fs: State, file: string) returns (k: int)
    requires Ext(file) != [] && ImageFor(fs, file).Found?
    ensures 0 <= k < |ImageExtBodies|
    ensures var img := ImageFor(fs, file).path;
      && img == ImageCandidate(file, k)
      && Stem(img) == Stem(file)
      && Ext(img) == [Dot] + ImageExtBodies[k]
  {
    k :| 0 <= k < |ImageExtBodies| && ImageFor(fs, file).path == ImageCandidate(file, k);
    SplitExtOfAppend(Stem(file), ImageExtBodies[k]);
  }

  /** The image extension bodies are plain: no dot, no separator, and they
      end in 'g' or 'G'. */
  lemma ImageBodyPlain(k: int)
    requires 0 <= k < |ImageExtBodies|
    ensures var b := ImageExtBodies[k];
      && |b| >= 3
      && (forall j | 0 <= j < |b| :: b[j] != Dot && b[j] != Sep)
      && (b[|b| - 1] == 'g' || b[|b| - 1] == 'G')
  {
  }

  lemma ImageExtIsImage(k: int)
    requires 0 <= k < |ImageExtBodies|
    ensures IsImageExt([Dot] + ImageExtBodies[k])
  {
    var e := [Dot] + ImageExtBodies[k];
    if k == 0 { assert Upper(e) == ".PNG"; }
    else if k == 1 { assert Upper(e) == ".PNG"; }
    else if k == 2 { assert Upper(e) == ".JPG"; }
    else if k == 3 { assert Upper(e) == ".JPG"; }
    else if k == 4 { assert Upper(e) == ".JPEG"; }
    else { assert Upper(e) == ".JPEG"; }
  }

  /** An annotation named `stem.xml` whose image `getIMGName` finds is in turn
      the annotation `getXMLFileName` finds for that image. */
  lemma PairingIsMutual(fs: State, file: string)
    requires Ext(file) == ".xml" && fs.Exists(file)
    requires ImageFor(fs, file).Found?
    ensures XmlFor(fs, ImageFor(fs, file).path) == Found(file)
  {
    var img := ImageFor(fs, file).path;
    var k := FoundImageSplits(fs, file);
    ImageExtIsImage(k);
    assert file == Stem(img) + ".xml";
  }

  /** An image with one of the six extensions whose annotation
      `getXMLFileName` finds is paired by `getIMGName` with an image of the
      same stem (possibly another one, earlier in the lookup order). */
  lemma PairingFromImage(fs: State, img: string, k: int)
    requires 0 <= k < |ImageExtBodies| && Ext(img) == [Dot] + ImageExtBodies[k]
    requires fs.Exists(img)
    requires XmlFor(fs, img).Found?
    ensures var xml := XmlFor(fs, img).path;
      && ImageFor(fs, xml).Found?
      && Stem(ImageFor(fs, xml).path) == Stem(img)
  {
    var xml := XmlFor(fs, img).path;
    CandidateRoundTrip(img, k);
    XmlExtIsXml();
    var j := FoundImageSplits(fs, xml);
  }

  /** The annotation name of an image, stem.xml, has that image as its k-th
      candidate. */
  lemma CandidateRoundTrip(img: string, k: int)
    requires 0 <= k < |ImageExtBodies| && Ext(img) == [Dot] + ImageExtBodies[k]
    ensures var xml := Stem(img) + ".xml";
      && Stem(xml) == Stem(img) && Ext(xml) == ".xml"
      && ImageCandidate(xml, k) == img
  {
    var stem := Stem(img);
    SplitExtNamed(img);
    assert stem + ".xml" == stem + [Dot] + "xml";
    SplitExtOfAppend(stem, "xml");
    assert img == stem + Ext(img);
  }

  lemma XmlExtIsXml()
    ensures IsXmlExt(".xml")
  {
    assert Upper(".xml") == ".XML";
  }

  /** `getXMLFileName` looks for a lower-case `.xml` only, while `getIMGName`
      takes `.XML` as well: `a.XML` beside `a.png` is an annotation with an
      image, yet the image counts as having no annotation. */
  lemma UpperCaseAnnotationIsOneSided()
    ensures var fs := State(map["d/a.XML" := Blob([]), "d/a.png" := Blob([])], {});
      && ImageFor(fs, "d/a.XML") == Found("d/a.png")
      && XmlFor(fs, "d/a.png") == Missing
  {
    UpperCaseAnnotationHasImage();
    ImageOfUpperCaseAnnotationHasNone();
  }

  lemma UpperCaseAnnotationHasImage()
    ensures var fs := State(map["d/a.XML" := Blob([]), "d/a.png" := Blob([])], {});
      ImageFor(fs, "d/a.XML") == Found("d/a.png")
  {
    var stem := "d/a";
    NamedTailOfLast(stem);
    assert SplitExt("d/a.XML") == (stem, ".XML") by {
      SplitExtOfAppend(stem, "XML");
      assert "d/a.XML" == stem + [Dot] + "XML";
    }
    assert IsXmlExt(".XML") by { assert Upper(".XML") == ".XML"; }
    assert ImageCandidate("d/a.XML", 0) == "d/a.png";
  }

  lemma ImageOfUpperCaseAnnotationHasNone()
    ensures var fs := State(map["d/a.XML" := Blob([]), "d/a.png" := Blob([])], {});
      XmlFor(fs, "d/a.png") == Missing
  {
    var fs := State(map["d/a.XML" := Blob([]), "d/a.png" := Blob([])], {});
    var stem := "d/a";
    NamedTailOfLast(stem);
    assert SplitExt("d/a.png") == (stem, ".png") by {
      SplitExtOfAppend(stem, "png");
      assert "d/a.png" == stem + [Dot] + "png";
    }
    ImageExtIsImage(0);
    assert [Dot] + ImageExtBodies[0] == ".png";
    assert XmlCandidate("d/a.png") == "d/a.xml";
    assert !fs.Exists("d/a.xml") by {
      assert "d/a.xml" != "d/a.XML" by { assert "d/a.xml"[4] != "d/a.XML"[4]; }
      assert "d/a.xml" != "d/a.png" by { assert "d/a.xml"[4] != "d/a.png"[4]; }
    }
  }

  /** A mixed-case image extension is an image to `getXMLFileName` but not
      among the six names `getIMGName` tries: `a.xml` beside `a.Png` counts
      as an annotation without an image. */
  lemma MixedCaseImageIsOneSided()
    ensures var fs := State(map["d/a.xml" := Blob([]), "d/a.Png" := Blob([])], {});
      && XmlFor(fs, "d/a.Png") == Found("d/a.xml")
      && ImageFor(fs, "d/a.xml") == Missing
  {
    MixedCaseImageHasAnnotation();
    AnnotationOfMixedCaseImageHasNone();
  }

  lemma MixedCaseImageHasAnnotation()
    ensures var fs := State(map["d/a.xml" := Blob([]), "d/a.Png" := Blob([])], {});
      XmlFor(fs, "d/a.Png") == Found("d/a.xml")
  {
    var stem := "d/a";
    NamedTailOfLast(stem);
    assert SplitExt("d/a.Png") == (stem, ".Png") by {
      SplitExtOfAppend(stem, "Png");
      assert "d/a.Png" == stem + [Dot] + "Png";
    }
    assert IsImageExt(".Png") by { assert Upper(".Png") == ".PNG"; }
    assert XmlCandidate("d/a.Png") == "d/a.xml";
  }

  lemma AnnotationOfMixedCaseImageHasNone()
    ensures var fs := State(map["d/a.xml" := Blob([]), "d/a.Png" := Blob([])], {});
      ImageFor(fs, "d/a.xml") == Missing
  {
    var fs := State(map["d/a.xml" := Blob([]), "d/a.Png" := Blob([])], {});
    var stem := "d/a";
    NamedTailOfLast(stem);
    assert SplitExt("d/a.xml") == (stem, ".xml") by {
      SplitExtOfAppend(stem, "xml");
      assert "d/a.xml" == stem + [Dot] + "xml";
    }
    XmlExtIsXml();
    forall k | 0 <= k < |ImageExtBodies| ensures !fs.Exists(ImageCandidate("d/a.xml", k)) {
      CandidatesOfA(k);
    }
  }

  /** The candidates for d/a.xml are neither d/a.xml nor d/a.Png. */
  lemma CandidatesOfA(k: int)
    requires 0 <= k < |ImageExtBodies|
    ensures var c := "d/a" + [Dot] + ImageExtBodies[k];
      c != "d/a.xml" && c != "d/a.Png"
  {
    var c := "d/a" + [Dot] + ImageExtBodies[k];
    assert c[4] == ImageExtBodies[k][0];
    assert c[4] != 'x';
    assert c[4] != 'P' || c[5] != 'n';
  }


  // ---- the triage handlers' file classes ----

  /** `move_img_without_xml`'s test. */
  predicate IsImageFile(file: string) { Ext(file) != [] && IsImageExt(Ext(file)) }

  /** `move_xml_without_img`'s test. */
  predicate IsXmlFile(file: string) { IsXmlExt(Ext(file)) }

  /** `move_unnecessary_files`'s test. */
  predicate IsUnneededFile(file: string)
  {
    (Ext(file) != [] && Upper(Ext(file)) !in {".XML", ".PNG", ".JPEG", ".JPG"}) || Ext(file) == []
  }

  /** Every file falls in exactly one of the three classes; a file without an
      extension is always unneeded. */
  lemma {:induction false} ClassesPartition(file: string)
    ensures IsImageFile(file) || IsXmlFile(file) || IsUnneededFile(file)
    ensures !(IsImageFile(file) && IsXmlFile(file))
    ensures !(IsImageFile(file) && IsUnneededFile(file))
    ensures !(IsXmlFile(file) && IsUnneededFile(file))
    ensures Ext(file) == [] ==> IsUnneededFile(file)
  {
    if Ext(file) == [] {
      assert |Upper(Ext(file))| == 0;
    }
  }
}
