/** The `Dimensions<dir0, dir1, dir2>` descriptors (src/xylose/Dimensions.hpp):
    three direction indices as template arguments, where the second and third
    default to the first. Which specialisation a set of arguments selects
    decides the number of dimensions, which directions the descriptor exposes,
    its `reverse` and its printer. */
module Dimensions {
  import Text

  /** An `unsigned int` template argument. */
  type Dir = d: nat | d < 0x1_0000_0000

  /** The template arguments `<dir0, dir1, dir2>` as given or defaulted. */
  datatype Dimensions = Dimensions(dir0: Dir, dir1: Dir, dir2: Dir)

  /** `Dimensions<d0>`: both defaults taken. */
  function OneDir(d0: Dir): Dimensions {
    Dimensions(d0, d0, d0)
  }

  /** `Dimensions<d0, d1>`: the third argument defaults to the first. */
  function TwoDirs(d0: Dir, d1: Dir): Dimensions {
    Dimensions(d0, d1, d0)
  }

  /** `ndims`: 1 for `<d,d,d>` (the most specialised match), 2 for
      `<d0,d1,d0>` with `d1` different, 3 for the primary template, i.e.
      whenever the third argument differs from the first, even when the
      second equals the first. */
  function NDims(d: Dimensions): (n: nat)
    ensures n == 1 <==> d.dir0 == d.dir1 == d.dir2
    ensures n == 2 <==> d.dir2 == d.dir0 && d.dir1 != d.dir0
    ensures n == 3 <==> d.dir2 != d.dir0
  {
    if d.dir0 == d.dir1 == d.dir2 then 1
    else if d.dir2 == d.dir0 then 2
    else 3
  }

  /** The directions the selected specialisation declares: `dir0` only,
      `dir0` and `dir1`, or all three. */
  function Dirs(d: Dimensions): (ds: seq<Dir>)
    ensures |ds| == NDims(d)
  {
    match NDims(d)
    case 1 => [d.dir0]
    case 2 => [d.dir0, d.dir1]
    case _ => [d.dir0, d.dir1, d.dir2]
  }

  /** The template arguments of the type written with the directions `ds`,
      the omitted ones taking their defaults. */
  function FromDirs(ds: seq<Dir>): Dimensions
    requires 1 <= |ds| <= 3
  {
    if |ds| == 1 then OneDir(ds[0])
    else if |ds| == 2 then TwoDirs(ds[0], ds[1])
    else Dimensions(ds[0], ds[1], ds[2])
  }

  /** The directions a descriptor exposes determine it: naming them, with the
      defaults for the rest, gives back the same descriptor. */
  lemma DirsDetermine(d: Dimensions)
    ensures FromDirs(Dirs(d)) == d
  {
  }

  /** Conversely, the directions written determine what is exposed, as long
      as they select the specialisation of their own length: two different
      directions, or three whose last differs from the first. */
  lemma FromDirsExposes(ds: seq<Dir>)
    requires 1 <= |ds| <= 3
    requires |ds| == 2 ==> ds[1] != ds[0]
    requires |ds| == 3 ==> ds[2] != ds[0]
    ensures Dirs(FromDirs(ds)) == ds
  {
  }

  /** `reverse` as each specialisation defines it: `<d0>` for one dimension,
      `<d1, d0>` for two, `<d2, d1, d0>` for three. */
  function Reverse(d: Dimensions): Dimensions {
    match NDims(d)
    case 1 => OneDir(d.dir0)
    case 2 => TwoDirs(d.dir1, d.dir0)
    case _ => Dimensions(d.dir2, d.dir1, d.dir0)
  }

  function Reversed(ds: seq<Dir>): (r: seq<Dir>)
    ensures |r| == |ds|
    ensures forall i :: 0 <= i < |ds| ==> r[i] == ds[|ds| - 1 - i]
  {
    if ds == [] then [] else Reversed(ds[1..]) + [ds[0]]
  }

  /** The reverse exposes the same directions in the opposite order, so it
      has as many dimensions. */
  lemma ReverseReversesDirs(d: Dimensions)
    ensures Dirs(Reverse(d)) == Reversed(Dirs(d))
    ensures NDims(Reverse(d)) == NDims(d)
  {
  }

  /** Reversing twice gives back the descriptor. */
  lemma ReverseInvolution(d: Dimensions)
    ensures Reverse(Reverse(d)) == d
  {
    ReverseReversesDirs(d);
  }

  // ---------------------------------------------------------------------------
  // Output

  function DirTexts(ds: seq<Dir>): (ts: seq<string>)
    ensures |ts| == |ds|
    ensures forall i :: 0 <= i < |ds| ==> ts[i] == Text.Decimal(ds[i])
  {
    seq(|ds|, i requires 0 <= i < |ds| => Text.Decimal(ds[i]))
  }

  /** `out << dims`: `ndims`, `"D-{"`, the exposed directions separated by
      commas without spaces, `'}'`. */
  function Show(d: Dimensions): string {
    Text.Decimal(NDims(d)) + "D-{" + Text.Join(DirTexts(Dirs(d)), ",") + "}"
  }

  /** The three-dimensional printer. */
  lemma ShowThreeExample()
    ensures Show(Dimensions(0, 1, 2)) == "3D-{0,1,2}"
  {
    assert DirTexts([0, 1, 2]) == ["0", "1", "2"];
    assert ["0", "1", "2"][1..] == ["1", "2"] && ["1", "2"][1..] == ["2"];
  }

  /** The three-dimensional printer also serves when the second direction
      repeats the first. */
  lemma ShowThreeRepeatedExample()
    ensures Show(Dimensions(0, 0, 2)) == "3D-{0,0,2}"
  {
    assert DirTexts([0, 0, 2]) == ["0", "0", "2"];
    assert ["0", "0", "2"][1..] == ["0", "2"] && ["0", "2"][1..] == ["2"];
  }

  /** The two-dimensional printer, on a two-digit direction. */
  lemma ShowTwoExample()
    ensures Show(TwoDirs(2, 10)) == "2D-{2,10}"
  {
    assert Text.Decimal(10) == "10" by {
      assert Text.Decimal(1) == "1" && Text.Decimal(0) == "0";
    }
    assert DirTexts([2, 10]) == ["2", "10"];
    assert ["2", "10"][1..] == ["10"];
  }

  /** The one-dimensional printer. */
  lemma ShowOneExample()
    ensures Show(OneDir(1)) == "1D-{1}"
  {
    assert DirTexts([1]) == ["1"];
  }

  /** Different descriptors print differently. */
  lemma ShowInjective(d: Dimensions, e: Dimensions)
    requires Show(d) == Show(e)
    ensures d == e
  {
    var s, t := Show(d), Show(e);
    var jd, je := Text.Join(DirTexts(Dirs(d)), ","), Text.Join(DirTexts(Dirs(e)), ",");
    assert |Text.Decimal(NDims(d))| == 1 && |Text.Decimal(NDims(e))| == 1;
    assert s[0] == t[0];
    assert NDims(d) == NDims(e) by {
      Text.DecimalInjective(NDims(d), NDims(e));
    }
    assert s[4..|s| - 1] == jd && t[4..|t| - 1] == je;
    NoCommaInDecimals(Dirs(d));
    NoCommaInDecimals(Dirs(e));
    JoinInjective(DirTexts(Dirs(d)), DirTexts(Dirs(e)), ',');
    forall i | 0 <= i < |Dirs(d)| ensures Dirs(d)[i] == Dirs(e)[i] {
      Text.DecimalInjective(Dirs(d)[i], Dirs(e)[i]);
    }
    DirsDetermine(d);
    DirsDetermine(e);
  }

  lemma NoCommaInDecimals(ds: seq<Dir>)
    ensures forall i :: 0 <= i < |ds| ==> ',' !in DirTexts(ds)[i]
  {
    forall i | 0 <= i < |ds| ensures ',' !in DirTexts(ds)[i] {
      var t := Text.Decimal(ds[i]);
      assert Text.AllDigits(t);
    }
  }

  /** A join of at least one part has the separator in it exactly when there
      is more than one part, the parts themselves being free of it. */
  lemma JoinHasSeparator(xs: seq<string>, c: char)
    requires |xs| >= 1
    requires forall i :: 0 <= i < |xs| ==> c !in xs[i]
    ensures (c in Text.Join(xs, [c])) <==> |xs| > 1
  {
    if |xs| > 1 {
      var j := Text.Join(xs, [c]);
      assert j[|xs[0]|] == c;
    } else {
      assert Text.Join(xs, [c]) == xs[0];
    }
  }

  /** Splitting at the first separator gives back the first part. */
  lemma FirstFieldOfJoin(xs: seq<string>, c: char)
    requires |xs| > 1
    requires forall i :: 0 <= i < |xs| ==> c !in xs[i]
    ensures Text.Join(xs, [c]) == xs[0] + [c] + Text.Join(xs[1..], [c])
  {
  }

  /** Joining parts free of the separator loses nothing. */
  lemma {:induction false} JoinInjective(xs: seq<string>, ys: seq<string>, c: char)
    requires |xs| >= 1 && |ys| >= 1
    requires forall i :: 0 <= i < |xs| ==> c !in xs[i]
    requires forall i :: 0 <= i < |ys| ==> c !in ys[i]
    requires Text.Join(xs, [c]) == Text.Join(ys, [c])
    ensures xs == ys
  {
    var s := Text.Join(xs, [c]);
    JoinHasSeparator(xs, c);
    JoinHasSeparator(ys, c);
    if |xs| > 1 {
      FirstFieldOfJoin(xs, c);
      FirstFieldOfJoin(ys, c);
      SameFirstField(xs[0], ys[0], Text.Join(xs[1..], [c]), Text.Join(ys[1..], [c]), c);
      JoinInjective(xs[1..], ys[1..], c);
      assert xs == [xs[0]] + xs[1..] && ys == [ys[0]] + ys[1..];
    } else {
      assert s == xs[0] && s == ys[0];
    }
  }

  /** Two strings free of `c`, each followed by `c`, that start equal strings
      are equal, and so are the rests. */
  lemma SameFirstField(a: string, b: string, ra: string, rb: string, c: char)
    requires c !in a && c !in b
    requires a + [c] + ra == b + [c] + rb
    ensures a == b && ra == rb
  {
    var s := a + [c] + ra;
    assert s[|a|] == c && s[|b|] == c;
    assert forall i :: 0 <= i < |a| ==> s[i] == a[i] != c;
    assert forall i :: 0 <= i < |b| ==> s[i] == b[i] != c;
    assert |a| == |b|;
    assert a == s[..|a|] && b == s[..|b|];
    assert ra == s[|a| + 1..] && rb == s[|b| + 1..];
  }
}
