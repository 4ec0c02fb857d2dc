/** `xylose::data_set` (src/xylose/data_set.h): two-dimensional data read from
    XML nodes into an ordered map from x to y, and written back out as XML.

    Both coordinate types are taken to be `double`, modelled as exact reals.
    A `data_set` is the sequence of its entries in ascending x, the order in
    which `std::map` iterates. How the stream renders a number is the
    parameter `show`. The XML nodes are given as their already-queried
    attribute values. */
module DataSet {
  import opened Wrappers
  import Ordered
  import Text

  /** `data_point<double, double>`: the pair (x, y). */
  datatype DataPoint = DataPoint(x: real, y: real)

  function XOf(p: DataPoint): real {
    p.x
  }

  /** `std::less<double>` on the map's keys. */
  predicate RealLess(a: real, b: real) {
    a < b
  }

  lemma RealLessIsStrictTotalOrder()
    ensures Ordered.StrictTotalOrder(RealLess)
  {
  }

  /** A `data_set`: entries in strictly ascending x, one per key. */
  predicate IsDataSet(ds: seq<DataPoint>) {
    Ordered.Ascending(ds, XOf, RealLess)
  }

  /** The entry of `ds` for key `x`, if any. */
  function Lookup(ds: seq<DataPoint>, x: real): Option<DataPoint> {
    Ordered.Find(ds, XOf, x)
  }

  // ---------------------------------------------------------------------------
  // Output

  /** `out << p` for a data point: `<data x='X' y='Y'/>`. */
  function PointText(p: DataPoint, show: real -> string): string {
    "<data x='" + show(p.x) + "' y='" + show(p.y) + "'/>"
  }

  /** What the loop of `out << data` writes for the entries `ds`: each point
      followed by a newline. */
  function EntryText(ds: seq<DataPoint>, show: real -> string): string {
    if ds == [] then ""
    else EntryText(ds[..|ds| - 1], show) + PointText(ds[|ds| - 1], show) + "\n"
  }

  /** Everything `out << data` writes. */
  function DataSetText(ds: seq<DataPoint>, show: real -> string): string {
    "<dataset>\n" + EntryText(ds, show) + "</dataset>"
  }

  /** `out << data`: the opening tag and a newline, then each entry in
      ascending key order followed by a newline, then the closing tag. */
  method PrintDataSet(ds: seq<DataPoint>, show: real -> string) returns (text: string)
    ensures text == DataSetText(ds, show)
  {
    text := "<dataset>\n";
    for i := 0 to |ds|
      invariant text == "<dataset>\n" + EntryText(ds[..i], show)
    {
      assert ds[..i + 1][..i] == ds[..i];
      text := text + PointText(ds[i], show) + "\n";
    }
    assert ds[..|ds|] == ds;
    text := text + "</dataset>";
  }

  /** The line of each entry, in the order of the container. */
  function EntryLines(ds: seq<DataPoint>, show: real -> string): (lines: seq<string>)
    ensures |lines| == |ds|
    ensures forall i :: 0 <= i < |ds| ==> lines[i] == PointText(ds[i], show)
  {
    seq(|ds|, i requires 0 <= i < |ds| => PointText(ds[i], show))
  }

  /** The printed data set is exactly these lines joined by newlines: the
      opening tag, one line per entry in ascending key order, and the closing
      tag, with no newline after it. */
  lemma DataSetTextIsLines(ds: seq<DataPoint>, show: real -> string)
    ensures DataSetText(ds, show) == Text.Join(["<dataset>"] + EntryLines(ds, show) + ["</dataset>"], "\n")
  {
    OpenedLines(ds, show);
    Text.JoinSnoc(["<dataset>"] + EntryLines(ds, show), "</dataset>", "\n");
  }

  lemma {:induction false} OpenedLines(ds: seq<DataPoint>, show: real -> string)
    ensures "<dataset>\n" + EntryText(ds, show) == Text.Join(["<dataset>"] + EntryLines(ds, show), "\n") + "\n"
  {
    if ds != [] {
      var init, last := ds[..|ds| - 1], ds[|ds| - 1];
      OpenedLines(init, show);
      assert EntryLines(ds, show) == EntryLines(init, show) + [PointText(last, show)];
      assert ["<dataset>"] + EntryLines(ds, show) == (["<dataset>"] + EntryLines(init, show)) + [PointText(last, show)];
      Text.JoinSnoc(["<dataset>"] + EntryLines(init, show), PointText(last, show), "\n");
    } else {
      assert ["<dataset>"] + EntryLines(ds, show) == ["<dataset>"];
    }
  }

  // ---------------------------------------------------------------------------
  // Input

  /** A `val` node: the values of its `@x` and `@y` attributes. */
  datatype ValNode = ValNode(atX: real, atY: real)

  /** A data-set node: its `@xscale` and `@yscale` attributes and its `val`
      children in document order. */
  datatype DataSetNode = DataSetNode(xscale: real, yscale: real, vals: seq<ValNode>)

  /** `parse_item(data_point&, x)`: the pair of `@x` and `@y`, in that order. */
  function ParsePoint(n: ValNode): DataPoint {
    DataPoint(n.atX, n.atY)
  }

  /** A point with x multiplied by `xscale` and y by `yscale`. */
  function Scale(p: DataPoint, xscale: real, yscale: real): DataPoint {
    DataPoint(p.x * xscale, p.y * yscale)
  }

  /** The points of `node` as `parse_item(data_set&, x)` inserts them: parsed,
      then x scaled by `@xscale` and y by `@yscale`. */
  function ScaledPoints(node: DataSetNode): (ps: seq<DataPoint>)
    ensures |ps| == |node.vals|
    ensures forall i :: 0 <= i < |ps| ==> ps[i] == Scale(ParsePoint(node.vals[i]), node.xscale, node.yscale)
  {
    seq(|node.vals|, i requires 0 <= i < |node.vals| => Scale(ParsePoint(node.vals[i]), node.xscale, node.yscale))
  }

  /** Each point is inserted with its `@x` times `@xscale` as x and its `@y`
      times `@yscale` as y. */
  lemma ScaledPointsScale(node: DataSetNode)
    ensures forall i :: 0 <= i < |node.vals| ==>
              ScaledPoints(node)[i] == DataPoint(node.vals[i].atX * node.xscale, node.vals[i].atY * node.yscale)
  {
  }

  /** `parse_item(data_set&, x)`: inserts the scaled points one by one into
      `out`, which is not cleared first. */
  method ParseDataSet(out0: seq<DataPoint>, node: DataSetNode) returns (out: seq<DataPoint>)
    requires IsDataSet(out0)
    ensures IsDataSet(out)
    ensures (RealLessIsStrictTotalOrder();
             out == Ordered.InsertAll(out0, ScaledPoints(node), XOf, RealLess))
  {
    RealLessIsStrictTotalOrder();
    var xscale := node.xscale;
    var yscale := node.yscale;
    var points := ScaledPoints(node);
    out := out0;
    for i := 0 to |node.vals|
      invariant out == Ordered.InsertAll(out0, points[..i], XOf, RealLess)
    {
      var dp := ParsePoint(node.vals[i]);
      dp := Scale(dp, xscale, yscale);
      assert dp == points[i] && points[..i + 1][..i] == points[..i];
      out := Ordered.Insert(out, dp, XOf, RealLess);
    }
    assert points[..|node.vals|] == points;
  }

  /** What the parsed data set holds for each key: an entry that was in `out`
      before stays as it was; otherwise the first point of the node that
      scales to that key is the one kept; a key neither had is absent. */
  lemma ParsedEntries(out0: seq<DataPoint>, node: DataSetNode, x: real)
    requires IsDataSet(out0)
    ensures (RealLessIsStrictTotalOrder();
             Lookup(Ordered.InsertAll(out0, ScaledPoints(node), XOf, RealLess), x) ==
             if Lookup(out0, x).Some? then Lookup(out0, x) else Lookup(ScaledPoints(node), x))
  {
    RealLessIsStrictTotalOrder();
    Ordered.FindAppend(out0, ScaledPoints(node), XOf, x);
  }

  /** Among the node's points that scale to the same key, the first one in
      document order is the one a fresh data set keeps. */
  lemma {:induction false} FirstPointWins(node: DataSetNode, i: nat)
    requires i < |node.vals|
    requires forall j :: 0 <= j < i ==> ScaledPoints(node)[j].x != ScaledPoints(node)[i].x
    ensures (RealLessIsStrictTotalOrder();
             Lookup(Ordered.InsertAll([], ScaledPoints(node), XOf, RealLess), ScaledPoints(node)[i].x) ==
             Some(ScaledPoints(node)[i]))
  {
    RealLessIsStrictTotalOrder();
    var ps := ScaledPoints(node);
    Ordered.FindFirstOccurrence(ps, XOf, i);
    assert [] + ps == ps;
  }

  // ---------------------------------------------------------------------------
  // Conversion

  /** A physical quantity: a coefficient in some units. */
  datatype Quantity<U> = Quantity(coeff: real, units: U)

  /** What `assertMatch` throws when a quantity is not in the expected units. */
  datatype ConvertError = UnitMismatch

  /** The pair's coefficients when both quantities are in the expected units. */
  predicate InUnits<U(==)>(pair: (Quantity<U>, Quantity<U>), units: (U, U)) {
    pair.0.units == units.0 && pair.1.units == units.1
  }

  function Coefficients<U>(pairs: seq<(Quantity<U>, Quantity<U>)>): (ps: seq<DataPoint>)
    ensures |ps| == |pairs|
    ensures forall i :: 0 <= i < |pairs| ==> ps[i] == DataPoint(pairs[i].0.coeff, pairs[i].1.coeff)
  {
    seq(|pairs|, i requires 0 <= i < |pairs| => DataPoint(pairs[i].0.coeff, pairs[i].1.coeff))
  }

  /** `convert_data_set(i, f, units)`: a fresh data set of the coefficients of
      each pair, inserted in order (so the first pair wins a shared key);
      throws as soon as a quantity is not in the given units. */
  method ConvertDataSet<U(==)>(pairs: seq<(Quantity<U>, Quantity<U>)>, units: (U, U))
    returns (r: Result<seq<DataPoint>, ConvertError>)
    ensures r.Failure? <==> exists i :: 0 <= i < |pairs| && !InUnits(pairs[i], units)
    ensures r.Success? ==> IsDataSet(r.value)
    ensures r.Success? ==> (RealLessIsStrictTotalOrder();
                            r.value == Ordered.InsertAll([], Coefficients(pairs), XOf, RealLess))
  {
    RealLessIsStrictTotalOrder();
    var points := Coefficients(pairs);
    var retval: seq<DataPoint> := [];
    for i := 0 to |pairs|
      invariant forall j :: 0 <= j < i ==> InUnits(pairs[j], units)
      invariant retval == Ordered.InsertAll([], points[..i], XOf, RealLess)
    {
      var (qx, qy) := pairs[i];
      if qx.units != units.0 || qy.units != units.1 {
        assert !InUnits(pairs[i], units);
        return Failure(UnitMismatch);
      }
      assert points[..i + 1][..i] == points[..i];
      retval := Ordered.Insert(retval, DataPoint(qx.coeff, qy.coeff), XOf, RealLess);
    }
    assert points[..|pairs|] == points;
    r := Success(retval);
  }
}
