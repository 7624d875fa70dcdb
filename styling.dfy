/** Status-driven row colouring of the read-only table. */
module Styling {
  import opened Strings
  import opened Records

  /** The three coloured styles and the empty one. */
  datatype Style = Alert | Pending | Success | NoStyle

  const BaseStyle: string := "color: white; font-weight: bold;"

  /** The CSS text the table cell receives for each style. */
  function Css(style: Style): (css: string)
    ensures css == "" <==> style == NoStyle
    ensures style != NoStyle ==> BaseStyle <= css
  {
    match style
    case Alert => BaseStyle + " background-color: #FF4C4C"
    case Pending => BaseStyle + " background-color: #FFA500"
    case Success => BaseStyle + " background-color: #2E8B57"
    case NoStyle => ""
  }

  /** Distinct styles render as distinct CSS text. */
  lemma CssInjective(a: Style, b: Style)
    ensures Css(a) == Css(b) <==> a == b
  {
    var n := |BaseStyle|;
    assert Css(Alert)[n + 20] == 'F' && Css(Alert)[n + 22] == '4';
    assert Css(Pending)[n + 20] == 'F' && Css(Pending)[n + 22] == 'A';
    assert Css(Success)[n + 20] == '2';
  }

  /**
   * The decision of `highlight_row`: exact "Not Submitted" first, then the
   * substring "Submitted", then "Approved" or "Registered", else nothing.
   * The contract states the four cases against the slice definition of a
   * substring, each in both directions.
   */
  function Classify(status: string): (style: Style)
    ensures style == Alert <==> status == "Not Submitted"
    ensures style == Pending <==> status != "Not Submitted" && IsSubstring("Submitted", status)
    ensures style == Success <==>
              !IsSubstring("Submitted", status)
              && (IsSubstring("Approved", status) || IsSubstring("Registered", status))
    ensures style == NoStyle <==>
              !IsSubstring("Submitted", status)
              && !IsSubstring("Approved", status) && !IsSubstring("Registered", status)
  {
    NotSubmittedContainsSubmitted();
    if status == "Not Submitted" then Alert
    else if Contains(status, "Submitted") then Pending
    else if Contains(status, "Approved") || Contains(status, "Registered") then Success
    else NoStyle
  }

  /** "Not Submitted" contains "Submitted", so the order of the first two checks decides it. */
  lemma NotSubmittedContainsSubmitted()
    ensures IsSubstring("Submitted", "Not Submitted")
  {
    assert SliceAt("Not Submitted", "Submitted", 4);
  }

  /**
   * The one ordering rule: "Not Submitted" matches the pending test too,
   * yet it is classified as alert, never as pending.
   */
  lemma NotSubmittedIsAlert()
    ensures IsSubstring("Submitted", "Not Submitted")
    ensures Classify("Not Submitted") == Alert
  {
    NotSubmittedContainsSubmitted();
  }

  /**
   * `highlight_row`: one CSS string per column of the row, all of them the
   * style that the row's status selects.
   */
  function HighlightRow(row: Row): (styles: seq<string>)
    ensures |styles| == |Columns|
    ensures forall i, j :: 0 <= i < |styles| && 0 <= j < |styles| ==> styles[i] == styles[j]
    ensures forall i :: 0 <= i < |styles| ==> (styles[i] == "" <==> Classify(row.fields.status) == NoStyle)
  {
    var css := Css(Classify(row.fields.status));
    seq(|Columns|, _ => css)
  }

  /**
   * The style of a row can be read back from any of its cells: two rows get
   * the same cell styles exactly when their statuses classify alike.
   */
  lemma HighlightDeterminesClass(a: Row, b: Row)
    ensures HighlightRow(a) == HighlightRow(b) <==> Classify(a.fields.status) == Classify(b.fields.status)
  {
    CssInjective(Classify(a.fields.status), Classify(b.fields.status));
    if HighlightRow(a) == HighlightRow(b) {
      assert HighlightRow(a)[0] == HighlightRow(b)[0];
    }
  }

  /**
   * A stage name followed by " Submitted" is pending, whatever the stage,
   * except for the stage "Not".
   */
  lemma StageSubmittedPending(stage: string)
    requires stage != "Not"
    ensures Classify(stage + " Submitted") == Pending
  {
    var status := stage + " Submitted";
    assert status[|stage| + 1..] == "Submitted";
    assert SliceAt(status, "Submitted", |stage| + 1);
    if |stage| == 3 {
      assert status[..3] == stage;
      assert "Not Submitted"[..3] == "Not";
    } else {
      assert |status| != |"Not Submitted"|;
    }
  }

  /** The two "... Submitted" sample statuses are orange. */
  lemma SubmittedSamplesPending()
    ensures Classify("DHET Submitted") == Pending
    ensures Classify("CHE Submitted") == Pending
  {
    StageSubmittedPending("DHET");
    assert "DHET" + " Submitted" == "DHET Submitted";
    StageSubmittedPending("CHE");
    assert "CHE" + " Submitted" == "CHE Submitted";
  }

  /** "DHET Approved" is green. */
  lemma ApprovedSampleSuccess()
    ensures Classify("DHET Approved") == Success
  {
    MissingCharNotSubstring("DHET Approved", "Submitted", 'S');
    assert SliceAt("DHET Approved", "Approved", 5);
  }

  /** "SAQA Registration" contains neither "Approved" nor "Registered": no style. */
  lemma SaqaRegistrationUnstyled()
    ensures Classify("SAQA Registration") == NoStyle
  {
    var saqa := "SAQA Registration";
    MissingCharNotSubstring(saqa, "Submitted", 'u');
    MissingCharNotSubstring(saqa, "Approved", 'p');
    MissingCharNotSubstring(saqa, "Registered", 'd');
  }

  /** The scan finds no "Approved" in "CHE Recommendation Approval". */
  lemma ApprovalIsNotApproved()
    ensures !IsSubstring("Approved", "CHE Recommendation Approval")
  {
    var che := "CHE Recommendation Approval";
    OnlyCandidateFails(che, "Approved", 19);
  }

  /** "CHE Recommendation Approval" says "Approval", not "Approved": no style. */
  lemma CheApprovalUnstyled()
    ensures Classify("CHE Recommendation Approval") == NoStyle
  {
    var che := "CHE Recommendation Approval";
    MissingCharNotSubstring(che, "Submitted", 'S');
    MissingCharNotSubstring(che, "Registered", 'g');
    ApprovalIsNotApproved();
  }

  /** A row whose status cell is empty is left unstyled. */
  lemma EmptyStatusUnstyled()
    ensures Classify("") == NoStyle
  {
    MissingCharNotSubstring("", "Submitted", 'S');
    MissingCharNotSubstring("", "Approved", 'A');
    MissingCharNotSubstring("", "Registered", 'R');
  }
}
