/** The terminal column width of text: every code point is zero, one or two columns
    wide according to an ordered table of upper bounds (crawlPractice.py, `widths` and
    `get_width`), and a string is as wide as the sum of its code points. */
module DisplayWidth {
  import opened Wrappers

  /** One row of the width table: the code points above the previous row's bound and
      up to `bound` are `width` columns wide. */
  datatype Row = Row(bound: nat, width: nat)

  /** The width table, in the order the lookup scans it. */
  const Widths: seq<Row> := [
    Row(126, 1), Row(159, 0), Row(687, 1), Row(710, 0), Row(711, 1),
    Row(727, 0), Row(733, 1), Row(879, 0), Row(1154, 1), Row(1161, 0),
    Row(4347, 1), Row(4447, 2), Row(7467, 1), Row(7521, 0), Row(8369, 1),
    Row(8426, 0), Row(9000, 1), Row(9002, 2), Row(11021, 1), Row(12350, 2),
    Row(12351, 1), Row(12438, 2), Row(12442, 0), Row(19893, 2), Row(19967, 1),
    Row(55203, 2), Row(63743, 1), Row(64106, 2), Row(65039, 1), Row(65059, 0),
    Row(65131, 2), Row(65279, 1), Row(65376, 2), Row(65500, 1), Row(65510, 2),
    Row(120831, 1), Row(262141, 2), Row(1114109, 1)
  ]

  /** The largest bound of the table; code points above it fall back to width 1. */
  const LastBound: nat := 1114109

  /** Shift-out and shift-in, the two control characters that take no column. */
  const ShiftOut: nat := 0x0E
  const ShiftIn: nat := 0x0F

  ghost predicate Ascending(t: seq<Row>) {
    forall i, j :: 0 <= i < j < |t| ==> t[i].bound < t[j].bound
  }

  ghost predicate WidthsAtMostTwo(t: seq<Row>) {
    forall i :: 0 <= i < |t| ==> t[i].width <= 2
  }

  /** A table whose neighbouring bounds ascend is ascending throughout. */
  lemma {:induction false} NeighboursAscending(t: seq<Row>)
    requires forall i :: 0 <= i < |t| - 1 ==> t[i].bound < t[i + 1].bound
    ensures Ascending(t)
  {
    if |t| > 1 {
      NeighboursAscending(t[1..]);
      assert forall i :: 0 < i < |t| ==> t[0].bound < t[1].bound <= t[i].bound by {
        forall i | 1 < i < |t| ensures t[1].bound < t[i].bound {
          assert t[1..][0] == t[1] && t[1..][i - 1] == t[i];
        }
      }
      forall i, j | 0 <= i < j < |t| ensures t[i].bound < t[j].bound {
        if i > 0 {
          assert t[1..][i - 1] == t[i] && t[1..][j - 1] == t[j];
        }
      }
    }
  }

  /** The table is strictly ascending by bound, every width is 0, 1 or 2 and its
      last bound is LastBound. */
  lemma WidthsWellFormed()
    ensures |Widths| == 38
    ensures Ascending(Widths)
    ensures WidthsAtMostTwo(Widths)
    ensures Widths[|Widths| - 1].bound == LastBound
  {
    WidthsNeighboursAscend();
    NeighboursAscending(Widths);
  }

  lemma WidthsNeighboursAscend()
    ensures |Widths| == 38
    ensures forall i :: 0 <= i < |Widths| - 1 ==> Widths[i].bound < Widths[i + 1].bound
  {
  }

  /** The index of the first row whose bound is at least `o`, if there is one. */
  function FirstCovering(t: seq<Row>, o: nat): (r: Option<nat>)
    ensures r.Some? ==> r.value < |t| && o <= t[r.value].bound
    ensures r.Some? ==> forall j :: 0 <= j < r.value ==> t[j].bound < o
    ensures r.None? ==> forall j :: 0 <= j < |t| ==> t[j].bound < o
  {
    if t == [] then None
    else if o <= t[0].bound then Some(0)
    else
      match FirstCovering(t[1..], o)
      case None => None
      case Some(k) => Some(k + 1)
  }

  /** The column width of code point `o`. */
  function CharWidth(o: nat): (w: nat)
    ensures w <= 2
    ensures o == ShiftOut || o == ShiftIn ==> w == 0
    ensures o > LastBound ==> w == 1
  {
    WidthsWellFormed();
    if o == ShiftOut || o == ShiftIn then 0
    else
      match FirstCovering(Widths, o)
      case Some(i) => Widths[i].width
      case None => 1
  }

  /** Away from shift-out and shift-in, a code point of row i's interval (above the
      previous bound, at most row i's bound) has row i's width. */
  lemma CharWidthInRow(i: nat, o: nat)
    requires i < |Widths|
    requires o <= Widths[i].bound
    requires i == 0 || Widths[i - 1].bound < o
    requires o != ShiftOut && o != ShiftIn
    ensures CharWidth(o) == Widths[i].width
  {
    WidthsWellFormed();
  }

  /** Row i is the first row of the table whose bound is at least `o`. */
  ghost predicate FirstRowCovering(i: int, o: nat) {
    0 <= i < |Widths| && o <= Widths[i].bound && forall j :: 0 <= j < i ==> Widths[j].bound < o
  }

  /** The first row covering `o` decides its width: for every code point other than
      shift-out and shift-in, the width is that of the first row whose bound is at
      least `o`, and is 1 when no row's bound is. */
  lemma CharWidthFirstRow(o: nat)
    requires o != ShiftOut && o != ShiftIn
    ensures forall i :: FirstRowCovering(i, o) ==> CharWidth(o) == Widths[i].width
    ensures (forall i :: 0 <= i < |Widths| ==> Widths[i].bound < o) ==> CharWidth(o) == 1
  {
    forall i | FirstRowCovering(i, o)
      ensures CharWidth(o) == Widths[i].width
    {
      if i > 0 {
        assert Widths[i - 1].bound < o;
      }
      CharWidthInRow(i, o);
    }
  }

  /** Code points 0 to 126, other than shift-out and shift-in, are one column wide. */
  lemma AsciiIsNarrow(o: nat)
    requires o <= 126 && o != ShiftOut && o != ShiftIn
    ensures CharWidth(o) == 1
  {
    CharWidthInRow(0, o);
  }

  /** DEL and the C1 control characters take no column. */
  lemma C1ControlsTakeNoColumn(o: nat)
    requires 127 <= o <= 159
    ensures CharWidth(o) == 0
  {
    CharWidthInRow(1, o);
  }

  /** Code points U+4E00 to U+D7A3 are two columns wide. */
  lemma RangeFrom4E00IsWide(o: nat)
    requires 19968 <= o <= 55203
    ensures CharWidth(o) == 2
  {
    CharWidthInRow(25, o);
  }

  /** The fullwidth forms U+FF00 to U+FF60 are two columns wide. */
  lemma FullwidthFormsAreWide(o: nat)
    requires 65280 <= o <= 65376
    ensures CharWidth(o) == 2
  {
    CharWidthInRow(32, o);
  }

  /** The column width of a string: the sum of its code points' widths. */
  function GetWidth(s: string): (w: nat)
    ensures w <= 2 * |s|
  {
    if s == [] then 0 else CharWidth(s[0] as nat) + GetWidth(s[1..])
  }

  lemma GetWidthSingle(c: char)
    ensures GetWidth([c]) == CharWidth(c as nat)
  {
    assert [c][1..] == [];
  }

  /** Width is additive over concatenation. */
  lemma {:induction false} GetWidthAppend(a: string, b: string)
    ensures GetWidth(a + b) == GetWidth(a) + GetWidth(b)
  {
    if a == [] {
      assert a + b == b;
    } else {
      assert (a + b)[1..] == a[1..] + b;
      GetWidthAppend(a[1..], b);
    }
  }

  /** A string of shift-out and shift-in characters takes no column. */
  lemma {:induction false} ShiftsTakeNoColumn(s: string)
    requires forall k :: 0 <= k < |s| ==> s[k] as nat == ShiftOut || s[k] as nat == ShiftIn
    ensures GetWidth(s) == 0
  {
    if s != [] {
      assert forall k :: 0 <= k < |s| - 1 ==> s[1..][k] == s[k + 1];
      ShiftsTakeNoColumn(s[1..]);
    }
  }

  /** Printable ASCII text is exactly as wide as it is long. */
  lemma {:induction false} PrintableAsciiWidth(s: string)
    requires forall k :: 0 <= k < |s| ==> 32 <= s[k] as nat <= 126
    ensures GetWidth(s) == |s|
  {
    if s != [] {
      AsciiIsNarrow(s[0] as nat);
      assert forall k :: 0 <= k < |s| - 1 ==> s[1..][k] == s[k + 1];
      PrintableAsciiWidth(s[1..]);
    }
  }

  /** Text made of code points U+4E00 to U+D7A3 is twice as wide as it is long. */
  lemma {:induction false} RangeFrom4E00TextWidth(s: string)
    requires forall k :: 0 <= k < |s| ==> 19968 <= s[k] as nat <= 55203
    ensures GetWidth(s) == 2 * |s|
  {
    if s != [] {
      RangeFrom4E00IsWide(s[0] as nat);
      assert forall k :: 0 <= k < |s| - 1 ==> s[1..][k] == s[k + 1];
      RangeFrom4E00TextWidth(s[1..]);
    }
  }
}
