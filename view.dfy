/** The read-only view: the filtered rows, each styled by `highlight_row`. */
module View {
  import opened Records
  import opened Styling
  import opened StatusFilter

  /** `df.style.apply(highlight_row, axis=1)` over the filtered frame. */
  function StyledView(rows: seq<Row>, selector: string): (view: seq<seq<string>>)
    ensures |view| == |FilterByStatus(rows, selector)|
    ensures forall k :: 0 <= k < |view| ==> |view[k]| == |Columns|
  {
    var shown := FilterByStatus(rows, selector);
    seq(|shown|, k requires 0 <= k < |shown| => HighlightRow(shown[k]))
  }

  /**
   * Selecting one status shows rows that all look alike, and selecting
   * "Not Submitted" shows only red rows.
   */
  lemma SelectedRowsLookAlike(rows: seq<Row>, selector: string, k: nat, l: nat)
    requires selector != All
    requires k < |StyledView(rows, selector)| && l < |StyledView(rows, selector)|
    ensures StyledView(rows, selector)[k] == StyledView(rows, selector)[l]
    ensures selector == "Not Submitted" ==> StyledView(rows, selector)[k][0] == Css(Alert)
  {
    var shown := FilterByStatus(rows, selector);
    assert shown[k] in shown && shown[l] in shown;
    NotSubmittedIsAlert();
  }
}
