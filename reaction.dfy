/** The reaction equations of the XML `parse_item` test suite
    (src/xylose/xml/test/Doc.cpp): a term is a count and a particle name, a
    side of an equation is a `std::set` of terms ordered by particle name, and
    an equation has an in-side and an out-side.

    A set of terms is the sequence of its members in ascending particle name;
    the XML nodes are given as the values their queries return. */
module Reaction {
  import opened Wrappers
  import Ordered
  import Text

  /** `Term`: how many of a particle, and the particle's name. */
  datatype Term = Term(n: int, p: string)

  /** `Equation`: the terms going in and the terms coming out. */
  datatype Equation = Equation(inTerms: seq<Term>, outTerms: seq<Term>)

  function Particle(t: Term): string {
    t.p
  }

  /** `operator<` on terms: the particle names decide, the counts play no part. */
  predicate TermLess(a: Term, b: Term) {
    Text.StrLess(a.p, b.p)
  }

  /** Two terms are equivalent under `operator<` (neither is less than the
      other), which is how `std::set` decides that a term is already present,
      exactly when they name the same particle, whatever their counts. */
  lemma EquivalentIffSameParticle(a: Term, b: Term)
    ensures (!TermLess(a, b) && !TermLess(b, a)) <==> a.p == b.p
  {
    Text.StrLessIrreflexive(a.p);
    Text.StrLessTotal(a.p, b.p);
  }

  /** A `std::set<Term>`: members in strictly ascending particle name. */
  predicate IsTermSet(s: seq<Term>) {
    Ordered.Ascending(s, Particle, Text.StrLess)
  }

  // ---------------------------------------------------------------------------
  // Output

  /** `out << t`: the count and a space only when the count exceeds one, then
      the particle name. */
  function TermText(t: Term): string {
    if t.n > 1 then Text.Decimal(t.n) + " " + t.p else t.p
  }

  /** The number of leading decimal digits of `s`. */
  function LeadingDigits(s: string): (k: nat)
    ensures k <= |s| && Text.AllDigits(s[..k])
    ensures k == |s| || !Text.IsDigit(s[k])
  {
    if s == [] || !Text.IsDigit(s[0]) then 0 else 1 + LeadingDigits(s[1..])
  }

  /** Reading a printed term back: a run of digits followed by a space is the
      count, the rest the particle; without one the count is 1. */
  function ReadTerm(s: string): Term {
    var k := LeadingDigits(s);
    if 0 < k < |s| && s[k] == ' ' then Term(Text.DigitsValue(s[..k]), s[k + 1..])
    else Term(1, s)
  }

  lemma {:induction false} LeadingDigitsOfNumber(d: string, rest: string)
    requires Text.AllDigits(d)
    requires rest == [] || !Text.IsDigit(rest[0])
    ensures LeadingDigits(d + rest) == |d|
  {
    if d != [] {
      assert (d + rest)[1..] == d[1..] + rest;
      LeadingDigitsOfNumber(d[1..], rest);
    } else {
      assert d + rest == rest;
    }
  }

  /** A printed term reads back as the term, except that every count of one
      or less reads back as 1: such counts are not printed. This holds for
      every particle name that reads back as itself, i.e. one that does not
      begin with digits followed by a space. */
  lemma ReadTermText(t: Term)
    requires ReadTerm(t.p) == Term(1, t.p)
    ensures ReadTerm(TermText(t)) == Term(if t.n > 1 then t.n else 1, t.p)
  {
    if t.n > 1 {
      var d := Text.Decimal(t.n);
      var s := d + " " + t.p;
      LeadingDigitsOfNumber(d, " " + t.p);
      assert s == d + (" " + t.p);
      assert s[..|d|] == d;
      assert s[|d| + 1..] == t.p;
    }
  }

  /** The printed form of each member of a set, in the set's order. */
  function TermTexts(s: seq<Term>): (texts: seq<string>)
    ensures |texts| == |s|
    ensures forall i :: 0 <= i < |s| ==> texts[i] == TermText(s[i])
  {
    seq(|s|, i requires 0 <= i < |s| => TermText(s[i]))
  }

  lemma TermTextsSnoc(s: seq<Term>, i: nat)
    requires i < |s|
    ensures TermTexts(s[..i + 1]) == TermTexts(s[..i]) + [TermText(s[i])]
  {
  }

  /** What `out << s` writes for a set of terms. */
  function SetText(s: seq<Term>): string {
    Text.Join(TermTexts(s), " + ")
  }

  /** `out << s` for a set of terms: each member in ascending particle order,
      written after a separator that is empty before the first member and
      `" + "` after it; the empty set writes nothing. */
  method PrintTermSet(s: seq<Term>) returns (text: string)
    ensures text == SetText(s)
  {
    text := "";
    var sep := "";
    for i := 0 to |s|
      invariant text == Text.Join(TermTexts(s[..i]), " + ")
      invariant sep == if i == 0 then "" else " + "
    {
      TermTextsSnoc(s, i);
      if i > 0 {
        Text.JoinSnoc(TermTexts(s[..i]), TermText(s[i]), " + ");
      }
      text := text + sep + TermText(s[i]);
      sep := " + ";
    }
    assert s[..|s|] == s;
  }

  /** `out << eq`: the in-side, the arrow `"  -->  "`, the out-side. */
  function EquationText(eq: Equation): string {
    SetText(eq.inTerms) + "  -->  " + SetText(eq.outTerms)
  }

  // ---------------------------------------------------------------------------
  // Input

  /** A `T` node: the value of its `n` child if it has one, and of its `P` child. */
  datatype TermNode = TermNode(n: Option<int>, p: string)

  /** An equation node: the `T` nodes under `In` and under `Out`, in document order. */
  datatype EquationNode = EquationNode(inNodes: seq<TermNode>, outNodes: seq<TermNode>)

  /** `parse_item(Term&, x)`: the count is the `n` child, 1 when there is none;
      the particle is the `P` child. */
  function ParseTerm(node: TermNode): (t: Term)
    ensures t.p == node.p
    ensures node.n.None? ==> t.n == 1
    ensures node.n.Some? ==> t.n == node.n.value
  {
    Term(node.n.GetOr(1), node.p)
  }

  function ParsedTerms(nodes: seq<TermNode>): (ts: seq<Term>)
    ensures |ts| == |nodes|
    ensures forall i :: 0 <= i < |nodes| ==> ts[i] == ParseTerm(nodes[i])
  {
    seq(|nodes|, i requires 0 <= i < |nodes| => ParseTerm(nodes[i]))
  }

  /** `parse_item(std::set<Term>&, x)`: inserts the parsed terms into `s`, in
      document order, into whatever `s` already holds. */
  method ParseTermSet(s0: seq<Term>, nodes: seq<TermNode>) returns (s: seq<Term>)
    requires IsTermSet(s0)
    ensures IsTermSet(s)
    ensures (Text.StrLessIsStrictTotalOrder();
             s == Ordered.InsertAll(s0, ParsedTerms(nodes), Particle, Text.StrLess))
  {
    Text.StrLessIsStrictTotalOrder();
    var terms := ParsedTerms(nodes);
    s := s0;
    for i := 0 to |nodes|
      invariant s == Ordered.InsertAll(s0, terms[..i], Particle, Text.StrLess)
    {
      var t := ParseTerm(nodes[i]);
      assert t == terms[i] && terms[..i + 1][..i] == terms[..i];
      s := Ordered.Insert(s, t, Particle, Text.StrLess);
    }
    assert terms[..|nodes|] == terms;
  }

  /** The set a query for a side of an equation yields: a fresh set filled by
      `parse_item(std::set<Term>&, x)`. */
  function SideOf(nodes: seq<TermNode>): (s: seq<Term>)
    ensures IsTermSet(s)
  {
    Text.StrLessIsStrictTotalOrder();
    Ordered.InsertAll([], ParsedTerms(nodes), Particle, Text.StrLess)
  }

  /** `parse_item(Equation&, x)`: the in-side from `In`, the out-side from `Out`. */
  function ParseEquation(node: EquationNode): (eq: Equation)
    ensures IsTermSet(eq.inTerms) && IsTermSet(eq.outTerms)
  {
    Equation(SideOf(node.inNodes), SideOf(node.outNodes))
  }

  /** Of several `T` nodes naming the same particle, the set keeps the first
      in document order, and it is the only member naming that particle. */
  lemma FirstTermWins(nodes: seq<TermNode>, i: nat)
    requires i < |nodes|
    requires forall j :: 0 <= j < i ==> nodes[j].p != nodes[i].p
    ensures ParseTerm(nodes[i]) in SideOf(nodes)
    ensures forall t :: t in SideOf(nodes) && t.p == nodes[i].p ==> t == ParseTerm(nodes[i])
  {
    FirstTermFound(nodes, i);
    OneTermPerParticle(SideOf(nodes), ParseTerm(nodes[i]));
  }

  lemma FirstTermFound(nodes: seq<TermNode>, i: nat)
    requires i < |nodes|
    requires forall j :: 0 <= j < i ==> nodes[j].p != nodes[i].p
    ensures Ordered.Find(SideOf(nodes), Particle, nodes[i].p) == Some(ParseTerm(nodes[i]))
  {
    var ts := ParsedTerms(nodes);
    Ordered.FindFirstOccurrence(ts, Particle, i);
    assert [] + ts == ts;
  }

  /** A set of terms holds at most one term per particle. */
  lemma OneTermPerParticle(s: seq<Term>, x: Term)
    requires IsTermSet(s) && x in s
    ensures forall t :: t in s && t.p == x.p ==> t == x
  {
    forall k ensures !Text.StrLess(k, k) {
      Text.StrLessIrreflexive(k);
    }
    forall t | t in s && t.p == x.p ensures t == x {
      Ordered.AscendingKeysUnique(s, Particle, Text.StrLess, t, x);
    }
  }

  /** The check of the `query` test case: whichever order the two `T` nodes
      of each side come in, and whether the rubidium term has no count or a
      count of one or less, the fourth equation prints exactly
      `87Rb + 2 e^-  -->  87Rb + 2 e^-`. */
  lemma FourthEquationText(rb: Option<int>, ins: seq<TermNode>, outs: seq<TermNode>)
    requires rb.None? || rb.value <= 1
    requires ins == [TermNode(rb, "87Rb"), TermNode(Some(2), "e^-")]
          || ins == [TermNode(Some(2), "e^-"), TermNode(rb, "87Rb")]
    requires outs == [TermNode(rb, "87Rb"), TermNode(Some(2), "e^-")]
          || outs == [TermNode(Some(2), "e^-"), TermNode(rb, "87Rb")]
    ensures EquationText(ParseEquation(EquationNode(ins, outs))) == "87Rb + 2 e^-  -->  87Rb + 2 e^-"
  {
    var eq := ParseEquation(EquationNode(ins, outs));
    FourthSide(rb, ins);
    FourthSide(rb, outs);
    assert EquationText(eq) == "87Rb + 2 e^-" + "  -->  " + "87Rb + 2 e^-";
    FourthEquationLiteral();
  }

  lemma FourthEquationLiteral()
    ensures "87Rb + 2 e^-" + "  -->  " + "87Rb + 2 e^-" == "87Rb + 2 e^-  -->  87Rb + 2 e^-"
  {
  }

  lemma FourthSide(rb: Option<int>, nodes: seq<TermNode>)
    requires rb.None? || rb.value <= 1
    requires nodes == [TermNode(rb, "87Rb"), TermNode(Some(2), "e^-")]
          || nodes == [TermNode(Some(2), "e^-"), TermNode(rb, "87Rb")]
    ensures SetText(SideOf(nodes)) == "87Rb + 2 e^-"
  {
    assert Text.StrLess("87Rb", "e^-") by {
      assert "87Rb"[0] == '8' && "e^-"[0] == 'e';
    }
    SideOfTwo(TermNode(rb, "87Rb"), TermNode(Some(2), "e^-"));
    var s := [ParseTerm(TermNode(rb, "87Rb")), Term(2, "e^-")];
    assert SideOf(nodes) == s;
    assert TermText(s[0]) == "87Rb";
    assert TermText(s[1]) == "2 e^-" by {
      assert Text.Decimal(2) == "2";
    }
    assert TermTexts(s) == ["87Rb", "2 e^-"];
    assert ["87Rb", "2 e^-"][1..] == ["2 e^-"];
    assert SetText(s) == "87Rb" + " + " + "2 e^-";
  }

  /** Two terms naming different particles make up the set, in particle
      order, whichever of them comes first in the document. */
  lemma SideOfTwo(x: TermNode, y: TermNode)
    requires Text.StrLess(x.p, y.p)
    ensures SideOf([x, y]) == [ParseTerm(x), ParseTerm(y)]
    ensures SideOf([y, x]) == [ParseTerm(x), ParseTerm(y)]
  {
    Text.StrLessIrreflexive(x.p);
    Text.StrLessAsymmetric(x.p, y.p);
    SideOfPair(x, y);
    SideOfPair(y, x);
  }

  lemma SideOfPair(x: TermNode, y: TermNode)
    requires x.p != y.p
    ensures SideOf([x, y]) == if Text.StrLess(x.p, y.p) then [ParseTerm(x), ParseTerm(y)] else [ParseTerm(y), ParseTerm(x)]
  {
    InsertTwo(ParseTerm(x), ParseTerm(y));
    assert ParsedTerms([x, y]) == [ParseTerm(x), ParseTerm(y)];
  }

  lemma InsertTwo(a: Term, b: Term)
    requires a.p != b.p
    ensures (Text.StrLessIsStrictTotalOrder();
             Ordered.InsertAll([], [a, b], Particle, Text.StrLess) ==
             if Text.StrLess(a.p, b.p) then [a, b] else [b, a])
  {
    Text.StrLessIsStrictTotalOrder();
    assert [a, b][..1] == [a] && [a][..0] == [];
    assert Ordered.InsertAll([], [], Particle, Text.StrLess) == [];
    assert Ordered.Insert([], a, Particle, Text.StrLess) == [a];
    assert Ordered.InsertAll([], [a], Particle, Text.StrLess) == [a];
    if Text.StrLess(a.p, b.p) {
      Text.StrLessAsymmetric(a.p, b.p);
      assert Ordered.Insert([a], b, Particle, Text.StrLess) == [a] + Ordered.Insert([], b, Particle, Text.StrLess);
    } else {
      Text.StrLessTotal(a.p, b.p);
      assert Ordered.Insert([a], b, Particle, Text.StrLess) == [b] + [a];
    }
  }
}
