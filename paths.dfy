/** POSIX path handling as `os.path` does it: `rfind`, `splitext`,
    `basename`, `dirname`, and the tool's own `os.sep.join([a, b])`. */
module Paths {

  const Sep: char := '/'
  const Dot: char := '.'

  /** `s.rfind(c)`: the last index holding c, or -1. */
  function RFind(s: string, c: char): (i: int)
    ensures -1 <= i < |s|
    ensures 0 <= i ==> s[i] == c
    ensures forall j :: i < j < |s| ==> s[j] != c
  {
    if s == [] then -1
    else if s[|s| - 1] == c then |s| - 1
    else RFind(s[..|s| - 1], c)
  }

  /** Where the last occurrence of c lies in a concatenation. */
  lemma {:induction false} RFindAppend(s: string, t: string, c: char)
    ensures RFind(s + t, c) == if RFind(t, c) >= 0 then |s| + RFind(t, c) else RFind(s, c)
  {
    if t != [] {
      var st := s + t;
      assert st[..|st| - 1] == s + t[..|t| - 1];
      if t[|t| - 1] != c {
        RFindAppend(s, t[..|t| - 1], c);
      }
    } else {
      assert s + t == s;
    }
  }

  lemma RFindAbsent(s: string, c: char)
    requires forall j | 0 <= j < |s| :: s[j] != c
    ensures RFind(s, c) == -1
  {
  }

  /** The last component of s holds a character other than '.', which is what
      `splitext` asks of the part before an extension. */
  predicate NamedTail(s: string)
  {
    exists k | RFind(s, Sep) < k < |s| :: s[k] != Dot
  }

  /** A component ending in a character other than a separator or a dot has a
      named tail. */
  lemma NamedTailOfLast(s: string)
    requires |s| >= 1 && s[|s| - 1] != Sep && s[|s| - 1] != Dot
    ensures NamedTail(s)
  {
    assert RFind(s, Sep) < |s| - 1;
  }

  /** A candidate extension: a dot followed by neither dots nor separators. */
  predicate IsExtension(e: string)
  {
    |e| >= 1 && e[0] == Dot && forall j | 1 <= j < |e| :: e[j] != Dot && e[j] != Sep
  }

  /** `os.path.splitext(p)` on POSIX: split at the last dot of the last
      component, unless everything before that dot in the component is dots. */
  function SplitExt(p: string): (r: (string, string))
    ensures r.0 + r.1 == p
    ensures r.1 == [] || IsExtension(r.1)
  {
    var sep := RFind(p, Sep);
    var dot := RFind(p, Dot);
    if dot > sep then
      var r := SkipLeadingDots(p, sep + 1, dot);
      if r.1 != [] then ExtSplitFacts(p, sep, dot); r else r
    else
      (p, [])
  }

  /** The scan of `splitext` over the component before the dot at index dot,
      from index i: the first character other than a dot means the dot starts
      an extension. */
  function SkipLeadingDots(p: string, i: nat, dot: nat): (r: (string, string))
    requires i <= dot < |p|
    ensures r == (p, []) || r == (p[..dot], p[dot..])
    ensures r.1 != [] <==> exists k | i <= k < dot :: p[k] != Dot
    decreases dot - i
  {
    if i == dot then (p, [])
    else if p[i] != Dot then (p[..dot], p[dot..])
    else SkipLeadingDots(p, i + 1, dot)
  }

  /** What precedes an extension has a named last component. */
  lemma SplitExtNamed(p: string)
    requires SplitExt(p).1 != []
    ensures NamedTail(SplitExt(p).0)
  {
    ExtSplitFacts(p, RFind(p, Sep), RFind(p, Dot));
  }

  lemma ExtSplitFacts(p: string, sep: int, dot: int)
    requires sep == RFind(p, Sep) && dot == RFind(p, Dot) && dot > sep
    requires exists k | sep + 1 <= k < dot :: p[k] != Dot
    ensures IsExtension(p[dot..])
    ensures NamedTail(p[..dot])
  {
    var stem, ext := p[..dot], p[dot..];
    assert p == stem + ext;
    RFindAbsent(ext, Sep);
    RFindAppend(stem, ext, Sep);
  }

  function Stem(p: string): string { SplitExt(p).0 }
  function Ext(p: string): string { SplitExt(p).1 }

  /** Appending a dot and an extension body to a named stem is undone by
      `splitext`. */
  lemma {:induction false} SplitExtOfAppend(stem: string, body: string)
    requires NamedTail(stem)
    requires forall j | 0 <= j < |body| :: body[j] != Dot && body[j] != Sep
    ensures SplitExt(stem + [Dot] + body) == (stem, [Dot] + body)
  {
    var p := stem + [Dot] + body;
    var ext := [Dot] + body;
    assert p == stem + ext;
    RFindAbsent(ext, Sep);
    RFindAppend(stem, ext, Sep);
    RFindAbsent(body, Dot);
    RFindAppend([Dot], body, Dot);
    RFindAppend(stem, ext, Dot);
    var k :| RFind(stem, Sep) < k < |stem| && stem[k] != Dot;
    assert p[k] == stem[k];
    assert p[..|stem|] == stem;
  }

  /** `os.sep.join([dir, name])`. */
  function Join(dir: string, name: string): string
  {
    dir + [Sep] + name
  }

  /** `os.path.basename(p)`: everything after the last separator. */
  function Basename(p: string): (b: string)
    ensures Sep !in b
    ensures |b| <= |p| && p[|p| - |b|..] == b
  {
    p[RFind(p, Sep) + 1..]
  }

  /** The name given to `Join` is what `basename` recovers. */
  lemma {:induction false} BasenameOfJoin(dir: string, name: string)
    requires Sep !in name
    ensures Basename(Join(dir, name)) == name
  {
    RFindAbsent(name, Sep);
    RFindAppend(dir + [Sep], name, Sep);
    RFindAppend(dir, [Sep], Sep);
  }

  predicate AllSeps(s: string)
  {
    forall i | 0 <= i < |s| :: s[i] == Sep
  }

  function TrimTrailingSeps(s: string): (r: string)
    ensures |r| <= |s| && r == s[..|r|]
  {
    if s != [] && s[|s| - 1] == Sep then TrimTrailingSeps(s[..|s| - 1]) else s
  }

  /** `os.path.dirname(p)`: everything up to the last separator, with trailing
      separators dropped unless the head consists of separators only. */
  function Dirname(p: string): string
  {
    var head := p[..RFind(p, Sep) + 1];
    if head != [] && !AllSeps(head) then TrimTrailingSeps(head) else head
  }
}
