/** The "Apply for Funding" dialog (src/components/certifications/ApplyFundingDialog.tsx): a
    reason text box for one certification and a submit button. `onOpenChange(false)` is
    modelled as clearing the `open` field. */
module ApplyFundingDialog {
  import opened Wrappers
  import opened Text
  import opened CertificationData

  /** The arguments of one `onApply` call. */
  datatype FundingRequest = FundingRequest(certificationId: string, certificationName: string,
                                           reason: string, estimatedCost: real)

  /** The request `handleSubmit` makes: none without a certification or with a blank reason;
      otherwise the certification's id and name, the reason as typed, and the EUR price as the
      estimated cost. Whether the user already applied is not consulted. */
  function SubmitRequest(certification: Option<Certification>, reason: string): (r: Option<FundingRequest>)
    ensures r.Some? <==> certification.Some? && exists k :: 0 <= k < |reason| && !IsJsSpace(reason[k])
    ensures r.Some? ==> r.value.certificationId == certification.value.id
    ensures r.Some? ==> r.value.certificationName == certification.value.certificationName
    ensures r.Some? ==> r.value.reason == reason && r.value.estimatedCost == certification.value.priceInEUR
  {
    if certification.None? || IsBlank(reason) then None
    else
      var c := certification.value;
      Some(FundingRequest(c.id, c.certificationName, reason, c.priceInEUR))
  }

  /** The submit button is disabled when the reason is blank or the user already applied. */
  predicate SubmitDisabled(reason: string, hasAlreadyApplied: bool) {
    IsBlank(reason) || hasAlreadyApplied
  }

  /** An enabled button always submits, and a disabled one for a user who has not applied
      yet never does: the button adds only the already-applied check. */
  lemma ButtonAgreesWithGuard(c: Certification, reason: string, hasAlreadyApplied: bool)
    ensures !SubmitDisabled(reason, hasAlreadyApplied) ==> SubmitRequest(Some(c), reason).Some?
    ensures SubmitDisabled(reason, hasAlreadyApplied) && SubmitRequest(Some(c), reason).Some? ==> hasAlreadyApplied
  {
  }

  /** The component renders nothing without a certification. */
  predicate Renders(certification: Option<Certification>) {
    certification.Some?
  }

  class FundingDialog {
    var open: bool
    var reason: string

    constructor (open: bool)
      ensures this.open == open && reason == ""
    {
      this.open := open;
      reason := "";
    }

    /** `handleSubmit`: when a request is made, the reason is cleared and the dialog closes;
        otherwise nothing changes. */
    method HandleSubmit(certification: Option<Certification>) returns (call: Option<FundingRequest>)
      modifies this
      ensures call == SubmitRequest(certification, old(reason))
      ensures call.None? ==> unchanged(this)
      ensures call.Some? ==> reason == "" && !open
    {
      call := SubmitRequest(certification, reason);
      if call.Some? {
        reason := "";
        open := false;
      }
    }
  }
}
