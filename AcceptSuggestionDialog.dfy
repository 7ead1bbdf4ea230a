/** The admin's "Accept Certification Suggestion" dialog
    (src/components/certifications/AcceptSuggestionDialog.tsx): a checkbox the admin must tick
    to confirm that the certification was added to the spreadsheet, and optional notes.
    `onOpenChange(false)` is modelled as clearing the `open` field. */
module AcceptSuggestionDialog {
  import opened Wrappers

  /** The notes passed to `onConfirm`: none unless the box is ticked. */
  function ConfirmCall(hasAddedToSpreadsheet: bool, adminNotes: string): (r: Option<string>)
    ensures r.Some? <==> hasAddedToSpreadsheet
    ensures r.Some? ==> r.value == adminNotes
  {
    if hasAddedToSpreadsheet then Some(adminNotes) else None
  }

  class AcceptDialog {
    var open: bool
    var adminNotes: string
    var hasAddedToSpreadsheet: bool

    constructor (open: bool)
      ensures this.open == open && Reset()
    {
      this.open := open;
      adminNotes := "";
      hasAddedToSpreadsheet := false;
    }

    /** No notes, box unticked. */
    predicate Reset()
      reads this
    {
      adminNotes == "" && !hasAddedToSpreadsheet
    }

    /** The accept button is disabled exactly while the box is unticked. */
    predicate ConfirmDisabled()
      reads this
    {
      !hasAddedToSpreadsheet
    }

    /** `handleConfirm`: with the box unticked nothing happens; otherwise `onConfirm` gets the
        notes, the notes and the box are reset and the dialog closes. */
    method HandleConfirm() returns (call: Option<string>)
      modifies this
      ensures call == ConfirmCall(old(hasAddedToSpreadsheet), old(adminNotes))
      ensures call.None? ==> unchanged(this)
      ensures call.Some? ==> Reset() && !open
    {
      if !hasAddedToSpreadsheet {
        return None;
      }
      call := Some(adminNotes);
      adminNotes := "";
      hasAddedToSpreadsheet := false;
      open := false;
    }

    /** `handleCancel`: the same reset and close, and `onConfirm` is not called. */
    method HandleCancel()
      modifies this
      ensures Reset() && !open
    {
      adminNotes := "";
      hasAddedToSpreadsheet := false;
      open := false;
    }
  }

  /** A confirmation always ends in the state a cancel would leave, after which the button
      is disabled again. */
  method ConfirmLeavesCancelState(d: AcceptDialog) returns (call: Option<string>)
    modifies d
    ensures old(d.ConfirmDisabled()) <==> call.None?
    ensures call.Some? ==> d.Reset() && !d.open && d.ConfirmDisabled()
  {
    call := d.HandleConfirm();
  }
}
