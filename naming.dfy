/** The new base name of a pair: `"%s_%d_%s.xml" % (baseFileName,
    random.randrange(0, 1000), ''.join(random.sample(symbols, 4)))`.
    The random draws are inputs here. */
module Naming {
  import opened Common
  import opened Text
  import Paths

  /** The default prefix (`baseFileName`). */
  const BaseFileName := "VVM_IMAGE"

  /** The alphabet `random.sample` draws from, in the source's order. */
  const Symbols: seq<string> := ["a", "b", "B", "zB", "P", "p", "F", "f"]

  const XmlExt := ".xml"

  /** One outcome of the two random calls: the integer and the indices into
      Symbols that `random.sample` picked, in the order it picked them. */
  datatype Draw = Draw(r: int, picks: seq<int>)

  /** What `randrange(0, 1000)` and `sample(Symbols, 4)` can return. */
  predicate ValidDraw(d: Draw)
  {
    && 0 <= d.r < 1000
    && |d.picks| == 4
    && (forall i | 0 <= i < 4 :: 0 <= d.picks[i] < |Symbols|)
    && (forall i, j | 0 <= i < j < 4 :: d.picks[i] != d.picks[j])
  }

  /** The picked symbols joined in pick order. */
  function Concat(picks: seq<int>): string
    requires forall i | 0 <= i < |picks| :: 0 <= picks[i] < |Symbols|
  {
    if picks == [] then [] else Symbols[picks[0]] + Concat(picks[1..])
  }

  /** The stem shared by the renamed annotation and image. */
  function NewStem(prefix: string, d: Draw): (r: string)
    requires ValidDraw(d)
    ensures |r| > |prefix| + 1 && r[..|prefix| + 1] == prefix + "_"
  {
    prefix + "_" + Decimal(d.r) + "_" + Concat(d.picks)
  }

  /** `self.filename` after processing. */
  function NewName(prefix: string, d: Draw): string
    requires ValidDraw(d)
  {
    NewStem(prefix, d) + XmlExt
  }

  /** The joined symbols are letters: no separator, no dot. */
  lemma {:induction false} ConcatPlain(picks: seq<int>)
    requires forall i | 0 <= i < |picks| :: 0 <= picks[i] < |Symbols|
    ensures forall i | 0 <= i < |Concat(picks)| :: Concat(picks)[i] != Paths.Sep && Concat(picks)[i] != Paths.Dot
  {
    if picks != [] {
      ConcatPlain(picks[1..]);
      var s := Concat(picks);
      forall i | 0 <= i < |s| ensures s[i] != Paths.Sep && s[i] != Paths.Dot {
        if i >= |Symbols[picks[0]]| {
          assert s[i] == Concat(picks[1..])[i - |Symbols[picks[0]]|];
        }
      }
    }
  }

  lemma ConcatEndsWithLetter(picks: seq<int>)
    requires |picks| >= 1 && forall i | 0 <= i < |picks| :: 0 <= picks[i] < |Symbols|
    ensures var s := Concat(picks); |s| >= 1 && s[|s| - 1] != Paths.Sep && s[|s| - 1] != Paths.Dot
  {
    ConcatPlain(picks);
  }

  /** With a prefix free of separators the stem is a single path component,
      and it ends in a letter. */
  lemma NewStemPlain(prefix: string, d: Draw)
    requires ValidDraw(d) && Paths.Sep !in prefix
    ensures Paths.Sep !in NewStem(prefix, d)
    ensures var s := NewStem(prefix, d); s[|s| - 1] != Paths.Sep && s[|s| - 1] != Paths.Dot
  {
    ConcatPlain(d.picks);
    var digits := Decimal(d.r);
    var s := NewStem(prefix, d);
    forall i | 0 <= i < |s| ensures s[i] != Paths.Sep {
      if i < |prefix| {
        assert s[i] == prefix[i];
      } else if i < |prefix| + 1 + |digits| + 1 {
      } else {
        assert s[i] == Concat(d.picks)[i - (|prefix| + 1 + |digits| + 1)];
      }
    }
    assert s[|s| - 1] == Concat(d.picks)[|Concat(d.picks)| - 1];
  }

  /** `os.path.splitext(self.filename)` gives back the stem and `.xml`,
      whatever the prefix is. */
  lemma NewNameSplits(prefix: string, d: Draw)
    requires ValidDraw(d)
    ensures Paths.SplitExt(NewName(prefix, d)) == (NewStem(prefix, d), XmlExt)
  {
    var stem := NewStem(prefix, d);
    ConcatEndsWithLetter(d.picks);
    assert stem[|stem| - 1] == Concat(d.picks)[|Concat(d.picks)| - 1];
    Paths.NamedTailOfLast(stem);
    assert XmlExt == [Paths.Dot] + "xml";
    Paths.SplitExtOfAppend(stem, "xml");
  }

  // ---- reading a generated stem back ----

  /** `s.find(c)`: the first index holding c, or -1. */
  function Find(s: string, c: char): (i: int)
    ensures -1 <= i < |s|
    ensures 0 <= i ==> s[i] == c
    ensures forall j | 0 <= j < |s| && (i < 0 || j < i) :: s[j] != c
  {
    if s == [] then -1
    else if s[0] == c then 0
    else var k := Find(s[1..], c); if k < 0 then -1 else k + 1
  }

  /** The index of a one-character symbol, or -1. */
  function SingleSymbol(c: char): int
  {
    match c
    case 'a' => 0
    case 'b' => 1
    case 'B' => 2
    case 'P' => 4
    case 'p' => 5
    case 'F' => 6
    case 'f' => 7
    case _ => -1
  }

  /** Splits a string into alphabet symbols. No symbol is a prefix of another,
      so the split is unique: 'z' can only begin "zB". */
  function DecodeSymbols(s: string): Option<seq<int>>
  {
    if s == [] then Some([])
    else if s[0] == 'z' then
      if |s| >= 2 && s[1] == 'B' then
        match DecodeSymbols(s[2..])
        case Some(rest) => Some([3] + rest)
        case None => None
      else None
    else if SingleSymbol(s[0]) < 0 then None
    else
      match DecodeSymbols(s[1..])
      case Some(rest) => Some([SingleSymbol(s[0])] + rest)
      case None => None
  }

  /** Recognises a stem of the generated form for the given prefix and
      returns the draw that produced it. */
  function ParseStem(prefix: string, stem: string): Option<Draw>
  {
    var lead := prefix + "_";
    if |stem| < |lead| || stem[..|lead|] != lead then None
    else
      var rest := stem[|lead|..];
      var i := Find(rest, '_');
      if i < 0 || !Canonical(rest[..i]) then None
      else
        var r := ParseDecimal(rest[..i]);
        match DecodeSymbols(rest[i + 1..])
        case None => None
        case Some(picks) =>
          if ValidDraw(Draw(r, picks)) then Some(Draw(r, picks)) else None
  }

  lemma {:induction false} DecodeConcat(picks: seq<int>)
    requires forall i | 0 <= i < |picks| :: 0 <= picks[i] < |Symbols|
    ensures DecodeSymbols(Concat(picks)) == Some(picks)
  {
    if picks != [] {
      DecodeConcat(picks[1..]);
      DecodeOne(picks[0], Concat(picks[1..]));
      assert picks == [picks[0]] + picks[1..];
    }
  }

  /** Decoding reads one symbol off the front. */
  lemma DecodeOne(p: int, rest: string)
    requires 0 <= p < |Symbols| && DecodeSymbols(rest).Some?
    ensures DecodeSymbols(Symbols[p] + rest) == Some([p] + DecodeSymbols(rest).value)
  {
    var s := Symbols[p] + rest;
    if p == 3 {
      assert s[0] == 'z' && s[1] == 'B' && s[2..] == rest;
    } else {
      assert s[0] == Symbols[p][0] && s[1..] == rest;
      assert SingleSymbol(s[0]) == p;
    }
  }

  lemma {:induction false} ConcatDecode(s: string)
    requires DecodeSymbols(s).Some?
    ensures var picks := DecodeSymbols(s).value;
      && (forall i | 0 <= i < |picks| :: 0 <= picks[i] < |Symbols|)
      && Concat(picks) == s
  {
    if s != [] {
      var picks := DecodeSymbols(s).value;
      if s[0] == 'z' {
        ConcatDecode(s[2..]);
        assert picks[1..] == DecodeSymbols(s[2..]).value;
        assert s == "zB" + s[2..];
      } else {
        ConcatDecode(s[1..]);
        assert picks[1..] == DecodeSymbols(s[1..]).value;
        assert s == [s[0]] + s[1..];
      }
    }
  }

  /** Every generated stem is recognised, and it determines the draw. */
  lemma ParseNewStem(prefix: string, d: Draw)
    requires ValidDraw(d)
    ensures ParseStem(prefix, NewStem(prefix, d)) == Some(d)
  {
    var lead := prefix + "_";
    var digits := Decimal(d.r);
    var stem := NewStem(prefix, d);
    var rest := digits + "_" + Concat(d.picks);
    assert stem == lead + rest;
    assert stem[..|lead|] == lead && stem[|lead|..] == rest;
    FindAfterDigits(digits, Concat(d.picks));
    assert rest[..|digits|] == digits;
    assert rest[|digits| + 1..] == Concat(d.picks);
    ParseDecimalOfDecimal(d.r);
    DecodeConcat(d.picks);
  }

  lemma FindAfterDigits(digits: string, tail: string)
    requires AllDigits(digits)
    ensures Find(digits + "_" + tail, '_') == |digits|
  {
    var s := digits + "_" + tail;
    assert s[|digits|] == '_';
  }

  /** Conversely, whatever is recognised is exactly the generated stem of a
      possible draw: prefix, `_`, a number below 1000 without leading zeros,
      `_`, four pairwise distinct symbols of the alphabet. */
  lemma NewStemOfParse(prefix: string, stem: string)
    requires ParseStem(prefix, stem).Some?
    ensures var d := ParseStem(prefix, stem).value;
      ValidDraw(d) && NewStem(prefix, d) == stem
  {
    var lead, digits, symbols := ParseStemParts(prefix, stem);
    var d := ParseStem(prefix, stem).value;
    DecimalOfParseDecimal(digits);
    ConcatDecode(symbols);
    assert NewStem(prefix, d) == lead + digits + "_" + symbols;
  }

  /** A recognised stem is prefix + "_" + digits + "_" + symbols, and its
      draw is read off the two parts. */
  lemma ParseStemParts(prefix: string, stem: string) returns (lead: string, digits: string, symbols: string)
    requires ParseStem(prefix, stem).Some?
    ensures lead == prefix + "_" && stem == lead + digits + "_" + symbols
    ensures Canonical(digits) && DecodeSymbols(symbols).Some?
    ensures ParseStem(prefix, stem).value == Draw(ParseDecimal(digits), DecodeSymbols(symbols).value)
  {
    lead := prefix + "_";
    var rest := stem[|lead|..];
    var i := Find(rest, '_');
    digits, symbols := rest[..i], rest[i + 1..];
    assert rest == digits + "_" + symbols;
    assert stem == lead + rest;
  }


  /** The alphabet's symbols are pairwise different, so distinct picks give
      distinct symbols. */
  lemma PicksGiveDistinctSymbols(d: Draw)
    requires ValidDraw(d)
    ensures forall i, j | 0 <= i < j < 4 :: Symbols[d.picks[i]] != Symbols[d.picks[j]]
  {
    forall i, j | 0 <= i < j < 4 ensures Symbols[d.picks[i]] != Symbols[d.picks[j]] {
      var a, b := d.picks[i], d.picks[j];
      assert Symbols[a][0] != Symbols[b][0] || |Symbols[a]| != |Symbols[b]|;
    }
  }
}
