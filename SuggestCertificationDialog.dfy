/** The "Suggest New Certification" dialog
    (src/components/certifications/SuggestCertificationDialog.tsx): four text fields, a submit
    button guarded by `isFormValid`, and a cancel button. `onOpenChange(false)` is modelled as
    clearing the `open` field. */
module SuggestCertificationDialog {
  import opened Wrappers
  import opened Text

  /** The string holds a character that is not whitespace. */
  predicate HasVisibleChar(s: string) {
    exists k :: 0 <= k < |s| && !IsJsSpace(s[k])
  }

  /** `isFormValid`: name, reason and url each non-blank after trimming; the provider is
      optional. */
  predicate FormValid(certificationName: string, reason: string, url: string)
    ensures FormValid(certificationName, reason, url) <==>
      HasVisibleChar(certificationName) && HasVisibleChar(reason) && HasVisibleChar(url)
  {
    !IsBlank(certificationName) && !IsBlank(reason) && !IsBlank(url)
  }

  /** The arguments of one `onSuggest` call. */
  datatype Suggestion = Suggestion(certificationName: string, provider: string, reason: string, url: string)

  class SuggestDialog {
    var open: bool
    var certificationName: string
    var provider: string
    var reason: string
    var url: string

    constructor (open: bool)
      ensures this.open == open && Cleared()
    {
      this.open := open;
      certificationName, provider, reason, url := "", "", "", "";
    }

    /** All four fields are empty. */
    predicate Cleared()
      reads this
    {
      certificationName == "" && provider == "" && reason == "" && url == ""
    }

    /** The submit button is disabled while the form is invalid. */
    predicate SubmitDisabled()
      reads this
    {
      !FormValid(certificationName, reason, url)
    }

    /** `handleSubmit`: an invalid form is left as it is; a valid one passes the fields,
        untrimmed, to `onSuggest`, then every field is cleared and the dialog closes. */
    method HandleSubmit() returns (call: Option<Suggestion>)
      modifies this
      ensures !old(FormValid(certificationName, reason, url)) ==> call.None? && unchanged(this)
      ensures old(FormValid(certificationName, reason, url)) ==>
        && call == Some(old(Suggestion(certificationName, provider, reason, url)))
        && Cleared() && !open
    {
      var valid := FormValid(certificationName, reason, url);
      if !valid {
        return None;
      }
      call := Some(Suggestion(certificationName, provider, reason, url));
      Clear();
    }

    /** `handleClose`: the same reset and close, without a suggestion. */
    method HandleClose()
      modifies this
      ensures Cleared() && !open
    {
      Clear();
    }

    method Clear()
      modifies this
      ensures Cleared() && !open
    {
      certificationName, provider, reason, url := "", "", "", "";
      open := false;
    }
  }

  /** The button's disabled state predicts whether a submit suggests anything, and after a
      real submit the dialog is in the state a close leaves it in, still disabled. */
  method SubmitMatchesButton(d: SuggestDialog) returns (call: Option<Suggestion>)
    modifies d
    ensures old(d.SubmitDisabled()) <==> call.None?
    ensures call.Some? ==> d.Cleared() && !d.open && d.SubmitDisabled()
    ensures call.Some? ==> HasVisibleChar(call.value.certificationName) && HasVisibleChar(call.value.url)
  {
    call := d.HandleSubmit();
  }
}
