/** Reading availability off the reservation page once a day is on show.
    The page lists one table row per room; a row's free slots are its
    images whose alt text is 予約可能 ("can be reserved").  The primary check
    looks at the FIRST row whose text contains 体育館 (gymnasium), the
    secondary check at the LAST row whose text contains 体育館 or アリーナ
    (arena).  A facility is available when that row has at least one such
    image. */
module Availability {
  import opened Base
  import opened Text

  /** A table row as the page renders it: its text content and the alt
      texts of the images inside it, in document order. */
  datatype Row = Row(text: string, imageAlts: seq<string>)

  const Gymnasium: string := "体育館"
  const Arena: string := "アリーナ"
  const SlotAvailable: string := "予約可能"

  /** The primary check's row filter, `has_text="体育館"`. */
  predicate IsPrimaryRow(row: Row) {
    Contains(row.text, Gymnasium)
  }

  /** The secondary check's row filter, `has_text=re.compile("体育館|アリーナ")`:
      a search for either alternative anywhere in the text. */
  predicate IsSecondaryRow(row: Row) {
    Contains(row.text, Gymnasium) || Contains(row.text, Arena)
  }

  /** Index of the first row that matches, as a locator's `.first`. */
  function FirstIndex(rows: seq<Row>, matches: Row -> bool): (r: Option<nat>)
    ensures r.None? <==> forall i :: 0 <= i < |rows| ==> !matches(rows[i])
    ensures r.Some? ==> r.value < |rows| && matches(rows[r.value])
    ensures r.Some? ==> forall j :: 0 <= j < r.value ==> !matches(rows[j])
  {
    if rows == [] then None
    else if matches(rows[0]) then Some(0)
    else
      var rest := FirstIndex(rows[1..], matches);
      assert forall j :: 1 <= j < |rows| ==> rows[j] == rows[1..][j - 1];
      if rest.Some? then Some(rest.value + 1) else None
  }

  /** Index of the last row that matches, as a locator's `.last`. */
  function LastIndex(rows: seq<Row>, matches: Row -> bool): (r: Option<nat>)
    ensures r.None? <==> forall i :: 0 <= i < |rows| ==> !matches(rows[i])
    ensures r.Some? ==> r.value < |rows| && matches(rows[r.value])
    ensures r.Some? ==> forall j :: r.value < j < |rows| ==> !matches(rows[j])
  {
    if rows == [] then None
    else if matches(rows[|rows| - 1]) then Some(|rows| - 1)
    else
      var rest := LastIndex(rows[..|rows| - 1], matches);
      assert forall j :: 0 <= j < |rows| - 1 ==> rows[j] == rows[..|rows| - 1][j];
      rest
  }

  /** The positions of a row's 予約可能 images, in document order:
      `row.locator("img[alt='予約可能']").all()`. */
  function OpenSlots(alts: seq<string>): (r: seq<nat>)
    ensures forall k :: 0 <= k < |r| ==> r[k] < |alts| && alts[r[k]] == SlotAvailable
    ensures forall i :: 0 <= i < |alts| && alts[i] == SlotAvailable ==> i in r
    ensures forall k, l :: 0 <= k < l < |r| ==> r[k] < r[l]
  {
    if alts == [] then []
    else
      var front := OpenSlots(alts[..|alts| - 1]);
      assert forall i :: 0 <= i < |alts| - 1 ==> alts[i] == alts[..|alts| - 1][i];
      if alts[|alts| - 1] == SlotAvailable then front + [|alts| - 1] else front
  }

  /** A row has a free slot exactly when the list of its 予約可能 images
      is non-empty. */
  lemma OpenSlotsNonEmpty(row: Row)
    ensures |OpenSlots(row.imageAlts)| > 0 <==> SlotAvailable in row.imageAlts
  {
    var r := OpenSlots(row.imageAlts);
    if |r| > 0 {
      assert row.imageAlts[r[0]] == SlotAvailable;
    }
  }

  predicate HasOpenSlot(row: Row) {
    |OpenSlots(row.imageAlts)| > 0
  }

  /** The result of the primary check's row inspection; no gymnasium row
      means no slots. */
  function PrimaryAvailable(rows: seq<Row>): (r: bool)
    ensures r ==> exists i :: 0 <= i < |rows| && IsPrimaryRow(rows[i]) && HasOpenSlot(rows[i])
  {
    var i := FirstIndex(rows, IsPrimaryRow);
    i.Some? && HasOpenSlot(rows[i.value])
  }

  /** The result of `check_for_second_taikukan`; no matching row means no
      slots. */
  function SecondaryAvailable(rows: seq<Row>): (r: bool)
    ensures r ==> exists i :: 0 <= i < |rows| && IsSecondaryRow(rows[i]) && HasOpenSlot(rows[i])
  {
    var i := LastIndex(rows, IsSecondaryRow);
    i.Some? && HasOpenSlot(rows[i.value])
  }

  /** The primary check answers true exactly when some gymnasium row is
      preceded by no other gymnasium row and has a 予約可能 image. */
  lemma PrimaryAvailableSpec(rows: seq<Row>)
    ensures PrimaryAvailable(rows) <==>
      exists i :: 0 <= i < |rows| && IsPrimaryRow(rows[i])
        && (forall j :: 0 <= j < i ==> !IsPrimaryRow(rows[j]))
        && SlotAvailable in rows[i].imageAlts
  {
    var f := FirstIndex(rows, IsPrimaryRow);
    if f.Some? {
      OpenSlotsNonEmpty(rows[f.value]);
    }
  }

  /** The secondary check answers true exactly when some gymnasium or arena
      row is followed by no other such row and has a 予約可能 image. */
  lemma SecondaryAvailableSpec(rows: seq<Row>)
    ensures SecondaryAvailable(rows) <==>
      exists i :: 0 <= i < |rows| && IsSecondaryRow(rows[i])
        && (forall j :: i < j < |rows| ==> !IsSecondaryRow(rows[j]))
        && SlotAvailable in rows[i].imageAlts
  {
    var l := LastIndex(rows, IsSecondaryRow);
    if l.Some? {
      OpenSlotsNonEmpty(rows[l.value]);
    }
  }

  /** Rows after the first gymnasium row do not influence the primary check. */
  lemma PrimaryIgnoresLaterRows(rows: seq<Row>, later: seq<Row>)
    requires exists i :: 0 <= i < |rows| && IsPrimaryRow(rows[i])
    ensures PrimaryAvailable(rows + later) == PrimaryAvailable(rows)
  {
    var f := FirstIndex(rows, IsPrimaryRow);
    var g := FirstIndex(rows + later, IsPrimaryRow);
    assert (rows + later)[f.value] == rows[f.value];
    assert g.value == f.value;
  }

  /** Rows before the last gymnasium or arena row do not influence the
      secondary check. */
  lemma SecondaryIgnoresEarlierRows(earlier: seq<Row>, rows: seq<Row>)
    requires exists i :: 0 <= i < |rows| && IsSecondaryRow(rows[i])
    ensures SecondaryAvailable(earlier + rows) == SecondaryAvailable(rows)
  {
    var l := LastIndex(rows, IsSecondaryRow);
    var m := LastIndex(earlier + rows, IsSecondaryRow);
    assert (earlier + rows)[|earlier| + l.value] == rows[l.value];
    assert m.value == |earlier| + l.value;
  }

  /** A page with no row of the kind looked for reads as not available:
      the model of a locator that matches nothing. */
  lemma NoMatchingRowIsUnavailable(rows: seq<Row>)
    ensures (forall i :: 0 <= i < |rows| ==> !IsPrimaryRow(rows[i])) ==> !PrimaryAvailable(rows)
    ensures (forall i :: 0 <= i < |rows| ==> !IsSecondaryRow(rows[i])) ==> !SecondaryAvailable(rows)
  {
  }

  /** An arena row with a free slot after a full gymnasium row counts for
      the secondary check only. */
  lemma ArenaOpenGymnasiumFull()
    ensures var rows := [Row("第1体育館", ["予約済"]), Row("メインアリーナ", [SlotAvailable])];
      !PrimaryAvailable(rows) && SecondaryAvailable(rows)
  {
    var gym := Row("第1体育館", ["予約済"]);
    var arena := Row("メインアリーナ", [SlotAvailable]);
    assert OccursAt(gym.text, Gymnasium, 2);
    assert OccursAt(arena.text, Arena, 3);
    MissingCharNotContained(arena.text, Gymnasium, 2);
    OpenSlotsNonEmpty(gym);
    OpenSlotsNonEmpty(arena);
  }

  /** A full arena row after an open gymnasium row counts for the primary
      check only. */
  lemma GymnasiumOpenArenaFull()
    ensures var rows := [Row("体育館", [SlotAvailable]), Row("アリーナ", ["予約済"])];
      PrimaryAvailable(rows) && !SecondaryAvailable(rows)
  {
    var gym := Row("体育館", [SlotAvailable]);
    var arena := Row("アリーナ", ["予約済"]);
    assert OccursAt(gym.text, Gymnasium, 0);
    assert OccursAt(arena.text, Arena, 0);
    OpenSlotsNonEmpty(gym);
    OpenSlotsNonEmpty(arena);
  }
}
