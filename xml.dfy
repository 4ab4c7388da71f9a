/** The annotation document as an element tree (`xml.etree.ElementTree`):
    each element has a tag, a text and its child elements. An element whose
    text is `None` is modelled with the empty text; both serialise alike. */
module Xml {

  datatype Node = Node(tag: string, text: string, children: seq<Node>)

  /** What `Element.iter()` yields, reduced to what the tool looks at. */
  datatype Label = Label(tag: string, text: string)

  const FilenameTag := "filename"
  const PathTag := "path"

  /** The per-element rule of the rewrite loop: a `filename` element gets
      fileText, a `path` element gets pathText, any other keeps its text. */
  function NewText(tag: string, text: string, fileText: string, pathText: string): string
  {
    if tag == FilenameTag then fileText
    else if tag == PathTag then pathText
    else text
  }

  function Relabel(l: Label, fileText: string, pathText: string): Label
  {
    Label(l.tag, NewText(l.tag, l.text, fileText, pathText))
  }

  /** Two trees with the same tags arranged the same way. */
  predicate SameShape(a: Node, b: Node)
  {
    && a.tag == b.tag
    && |a.children| == |b.children|
    && forall i | 0 <= i < |a.children| :: SameShape(a.children[i], b.children[i])
  }

  /** The elements in the order `root.iter()` visits them: the element
      itself, then each child's subtree in document order. */
  function Preorder(n: Node): (ls: seq<Label>)
    ensures |ls| >= 1 && ls[0] == Label(n.tag, n.text)
  {
    [Label(n.tag, n.text)] + PreorderAll(n.children)
  }

  function PreorderAll(cs: seq<Node>): seq<Label>
  {
    if cs == [] then [] else Preorder(cs[0]) + PreorderAll(cs[1..])
  }

  /** The tree after the loop `for child in root.iter()` has updated every
      element it visits, the root included. */
  function Rewrite(n: Node, fileText: string, pathText: string): (r: Node)
    ensures SameShape(n, r)
  {
    Node(n.tag, NewText(n.tag, n.text, fileText, pathText), RewriteAll(n.children, fileText, pathText))
  }

  function RewriteAll(cs: seq<Node>, fileText: string, pathText: string): (rs: seq<Node>)
    ensures |rs| == |cs|
    ensures forall i | 0 <= i < |cs| :: SameShape(cs[i], rs[i])
  {
    if cs == [] then []
    else [Rewrite(cs[0], fileText, pathText)] + RewriteAll(cs[1..], fileText, pathText)
  }

  /** The rewritten tree visits, element for element, the relabelled
      elements of the original: nothing is added, dropped or reordered, and
      each element's new text depends only on its own tag and text. */
  lemma {:induction false} PreorderOfRewrite(n: Node, fileText: string, pathText: string)
    ensures |Preorder(Rewrite(n, fileText, pathText))| == |Preorder(n)|
    ensures forall i | 0 <= i < |Preorder(n)| ::
      Preorder(Rewrite(n, fileText, pathText))[i] == Relabel(Preorder(n)[i], fileText, pathText)
  {
    PreorderAllOfRewrite(n.children, fileText, pathText);
  }

  lemma {:induction false} PreorderAllOfRewrite(cs: seq<Node>, fileText: string, pathText: string)
    ensures |PreorderAll(RewriteAll(cs, fileText, pathText))| == |PreorderAll(cs)|
    ensures forall i | 0 <= i < |PreorderAll(cs)| ::
      PreorderAll(RewriteAll(cs, fileText, pathText))[i] == Relabel(PreorderAll(cs)[i], fileText, pathText)
  {
    if cs != [] {
      var rs := RewriteAll(cs, fileText, pathText);
      assert rs[0] == Rewrite(cs[0], fileText, pathText);
      assert rs[1..] == RewriteAll(cs[1..], fileText, pathText);
      PreorderOfRewrite(cs[0], fileText, pathText);
      PreorderAllOfRewrite(cs[1..], fileText, pathText);
    }
  }

  /** After the rewrite every `filename` element, at any depth, holds
      fileText, every `path` element holds pathText, and every other element
      holds the text it had. */
  lemma RewriteFields(n: Node, fileText: string, pathText: string)
    ensures var after := Preorder(Rewrite(n, fileText, pathText));
      && |after| == |Preorder(n)|
      && forall i | 0 <= i < |after| ::
           && after[i].tag == Preorder(n)[i].tag
           && (after[i].tag == FilenameTag ==> after[i].text == fileText)
           && (after[i].tag == PathTag ==> after[i].text == pathText)
           && (after[i].tag != FilenameTag && after[i].tag != PathTag ==> after[i].text == Preorder(n)[i].text)
  {
    PreorderOfRewrite(n, fileText, pathText);
  }
}
