/**
 * The legend's class rows: one row per interval between consecutive
 * breaks, each a colour swatch followed by a "low - high" label written
 * with thousands separators.
 */
module Legend {
  import opened PyStr
  import Classes

  /** The text before the colour of a row. */
  const SwatchOpen: string :=
    "<div style=\"display:flex; align-items:center; margin:4px 0;\">"
    + "<span style=\"background-color:"

  /** The text between the colour and the label of a row. */
  const SwatchClose: string :=
    "; border:1px solid gray; width:20px; height:14px; "
    + "display:inline-block; flex-shrink:0;\"></span>"
    + "<span style=\"margin-left:6px; font-size:12px;\">"

  /** The text after the label of a row. */
  const RowEnd: string := "</span></div>"

  /** The two bounds of an interval, `f"{lo:,}" + ' - ' + f"{hi:,}"`. The
      label reads back as the interval: its text before " - " parses to the
      lower bound and its text after to the upper bound. */
  function Label(lo: int, hi: int): (t: string)
    ensures var n := |Thousands(lo)|;
      && |t| == n + 3 + |Thousands(hi)|
      && t[..n] == Thousands(lo) && t[n..n + 3] == " - " && t[n + 3..] == Thousands(hi)
      && IsThousandsText(t[..n]) && ParseThousands(t[..n]) == lo
      && IsThousandsText(t[n + 3..]) && ParseThousands(t[n + 3..]) == hi
  {
    var tl, th := Thousands(lo), Thousands(hi);
    SliceSplit(tl, " - " + th);
    SliceSplit(" - ", th);
    ThousandsRoundTrip(lo);
    ThousandsRoundTrip(hi);
    tl + (" - " + th)
  }

  /** One legend row: the swatch in the given colour, then the label. */
  function Row(color: string, lo: int, hi: int): string {
    SwatchOpen + (color + (SwatchClose + (Label(lo, hi) + RowEnd)))
  }

  /** `len(range(len(bins) - 1))`. */
  function RowCount(bins: seq<int>): nat {
    if |bins| == 0 then 0 else |bins| - 1
  }

  /** The rows of the legend, in interval order. */
  function Rows(bins: seq<int>, colors: seq<string>): (rows: seq<string>)
    requires |colors| >= RowCount(bins)
    ensures |rows| == RowCount(bins)
  {
    seq(RowCount(bins), i requires 0 <= i < RowCount(bins) => Row(colors[i], bins[i], bins[i + 1]))
  }

  /** The `legend_rows` loop: appends one row per interval. */
  method LegendRows(bins: seq<int>, colors: seq<string>) returns (legendRows: string)
    requires |colors| >= RowCount(bins)
    ensures legendRows == Concat(Rows(bins, colors))
  {
    ghost var rows := Rows(bins, colors);
    legendRows := "";
    var n := if |bins| == 0 then 0 else |bins| - 1;
    for i := 0 to n
      invariant legendRows == Concat(rows[..i])
    {
      legendRows := legendRows + Row(colors[i], bins[i], bins[i + 1]);
      ConcatTake(rows, i);
    }
    assert rows[..n] == rows;
  }

  /** A row opens with the swatch, shows its colour right after the swatch
      opening and its label right after the swatch. */
  lemma RowCarries(color: string, lo: int, hi: int)
    ensures var r := Row(color, lo, hi);
      var c0 := |SwatchOpen|;
      var l0 := c0 + |color| + |SwatchClose|;
      && |r| == l0 + |Label(lo, hi)| + |RowEnd|
      && r[..c0] == SwatchOpen
      && r[c0..c0 + |color|] == color
      && r[l0..l0 + |Label(lo, hi)|] == Label(lo, hi)
  {
    var tail := SwatchClose + (Label(lo, hi) + RowEnd);
    SliceTwo(SwatchOpen, color, SwatchClose, Label(lo, hi), RowEnd);
    SliceSplit(SwatchOpen, color + tail);
  }

  /** Row i sits in the legend after rows 0 .. i-1 and shows colour i and
      the bounds bins[i] and bins[i+1]. */
  lemma LegendRowAt(bins: seq<int>, colors: seq<string>, i: nat)
    requires |colors| >= RowCount(bins) && i < RowCount(bins)
    ensures Concat(Rows(bins, colors)) ==
              Concat(Rows(bins, colors)[..i]) + Row(colors[i], bins[i], bins[i + 1])
              + Concat(Rows(bins, colors)[i + 1..])
  {
    ConcatAt(Rows(bins, colors), i);
  }

  /** On strictly increasing breaks, the colour a legend row shows is the
      colour the map paints a polygon whose population equals the row's
      lower bound. */
  lemma RowColorMatchesMap(bins: seq<int>, colors: seq<string>, i: nat)
    requires |colors| >= 1 && |bins| == |colors| + 1
    requires Classes.StrictlyIncreasing(bins) && i < |bins| - 1
    ensures Rows(bins, colors)[i] == Row(colors[Classes.ColorIndex(bins, bins[i])], bins[i], bins[i + 1])
  {
    Classes.BreakGetsItsColor(bins, i);
  }
}
