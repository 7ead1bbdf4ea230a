/** The "Add Completed Certification" dialog
    (src/components/certifications/AddCertificationDialog.tsx): a searchable list of the
    catalog entries not yet completed, a selection, an optional expiry date, and an add
    button. The dialog's `open` flag belongs to its parent; `onOpenChange(false)` is modelled
    as clearing the `open` field. */
module AddCertificationDialog {
  import opened Wrappers
  import opened Text
  import opened Sorting
  import opened CertificationData

  /** `filteredCerts`: the certifications not in `completedIds` whose name contains the
      search text, ignoring case, in catalog order. */
  function FilteredCerts(certs: seq<Certification>, completedIds: seq<string>, search: string)
    : (r: seq<Certification>)
    ensures IsSubsequence(r, certs)
    ensures forall c :: c in r <==>
      c in certs && c.id !in completedIds && Contains(Lower(c.certificationName), Lower(search))
  {
    FilterSubsequence(certs, Offered(completedIds, search));
    Filter(certs, Offered(completedIds, search))
  }

  function Offered(completedIds: seq<string>, search: string): Certification -> bool {
    (c: Certification) => c.id !in completedIds && Contains(Lower(c.certificationName), Lower(search))
  }

  /** No completed certification is ever offered. */
  lemma CompletedNeverListed(certs: seq<Certification>, completedIds: seq<string>, search: string)
    ensures forall i :: 0 <= i < |FilteredCerts(certs, completedIds, search)| ==>
      FilteredCerts(certs, completedIds, search)[i].id !in completedIds
  {
    var r := FilteredCerts(certs, completedIds, search);
    forall i | 0 <= i < |r| ensures r[i].id !in completedIds {
      assert r[i] in r;
    }
  }

  /** With an empty search and nothing completed, the whole catalog is listed in order. */
  lemma EmptySearchListsAll(certs: seq<Certification>)
    ensures FilteredCerts(certs, [], "") == certs
  {
    assert Lower("") == "";
    forall i | 0 <= i < |certs| ensures Offered([], "")(certs[i]) {
      assert "" <= Lower(certs[i].certificationName);
    }
    FilterKeepsAll(certs, Offered([], ""));
  }

  /** `expiresAt || undefined`: an empty date is not passed on. */
  function ExpiresArgument(expiresAt: string): (r: Option<string>)
    ensures r.None? <==> expiresAt == ""
    ensures r.Some? ==> r.value == expiresAt
  {
    if expiresAt == "" then None else Some(expiresAt)
  }

  /** The arguments of one `onAdd` call. */
  datatype AddRequest = AddRequest(certificationId: string, certificationName: string, expiresAt: Option<string>)

  class AddDialog {
    var open: bool
    var search: string
    var selected: Option<Certification>
    var expiresAt: string

    /** A dialog as first shown: nothing typed, nothing selected. */
    constructor (open: bool)
      ensures this.open == open && search == "" && selected.None? && expiresAt == ""
    {
      this.open := open;
      search := "";
      selected := None;
      expiresAt := "";
    }

    /** The add button is disabled while nothing is selected. */
    predicate AddDisabled()
      reads this
    {
      selected.None?
    }

    /** `handleAdd`: without a selection nothing happens; otherwise `onAdd` is called with the
        selected id and name and the expiry date (if any), the selection, the date and the
        search are cleared and the dialog closes. */
    method HandleAdd() returns (call: Option<AddRequest>)
      modifies this
      ensures old(selected).None? ==> call.None? && unchanged(this)
      ensures old(selected).Some? ==>
        && call == Some(AddRequest(old(selected).value.id, old(selected).value.certificationName,
                                   ExpiresArgument(old(expiresAt))))
        && selected.None? && expiresAt == "" && search == "" && !open
    {
      if selected.None? {
        return None;
      }
      call := Some(AddRequest(selected.value.id, selected.value.certificationName, ExpiresArgument(expiresAt)));
      selected := None;
      expiresAt := "";
      search := "";
      open := false;
    }
  }

  /** A disabled button matches a `handleAdd` that does nothing, and after an add the list
      offers every certification not completed. */
  method AddThenList(d: AddDialog, certs: seq<Certification>, completedIds: seq<string>)
    returns (call: Option<AddRequest>)
    modifies d
    ensures old(d.AddDisabled()) <==> call.None?
    ensures call.Some? ==>
      forall c :: c in FilteredCerts(certs, completedIds, d.search) <==> c in certs && c.id !in completedIds
  {
    call := d.HandleAdd();
  }
}
