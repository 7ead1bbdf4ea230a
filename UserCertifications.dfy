/** The per-user store (src/hooks/useUserCertifications.ts): three database tables read back
    filtered by the signed-in user, the views derived from them (favorites, applications,
    completed certifications and four predicates) and the mutations that write to them.
    The tables are fields of `UserCertificationStore`; the join with the catalog is a map
    argument; ids, timestamps and `new Date(x).getTime()` that the database or the host
    supplies are arguments as well. */
module UserCertifications {
  import opened Wrappers
  import opened Text
  import opened Sorting
  import CertificationsQuery

  const Saved: string := "saved"
  const Completed: string := "completed"
  const Pending: string := "pending"
  const LoginRequired: string := "Must be logged in"

  /** A row of `user_certifications`. */
  datatype UserCertRow = UserCertRow(
    id: string, user_id: string, certification_id: string, status: string,
    completed_at: Option<string>, updated_at: string,
    credential_url: Option<string>, expires_at: Option<string>)

  /** A row of `external_certifications`. */
  datatype ExternalRow = ExternalRow(
    id: string, user_id: string, certification_name: string, provider: Option<string>,
    completed_at: string, credential_url: Option<string>, expires_at: Option<string>)

  /** A row of `applications`. */
  datatype ApplicationRow = ApplicationRow(
    id: string, user_id: string, certification_id: string, status: string,
    created_at: string, reason: Option<string>, estimated_cost: Option<real>)

  /** The provider column as the join returns it: text, or a list. */
  datatype ProviderValue = ProviderText(text: Option<string>) | ProviderList(items: seq<string>)

  /** The columns the `certifications (...)` join brings along. */
  datatype CatalogEntry = CatalogEntry(certification_name: Option<string>, provider: ProviderValue)

  /** The records the hook hands to the pages. */
  datatype FundingApplication = FundingApplication(
    id: string, certificationId: string, certificationName: string, status: string,
    appliedAt: string, reason: string, estimatedCost: real)

  datatype CompletedCertification = CompletedCertification(
    id: string, certificationId: string, certificationName: string, completedAt: string,
    credentialUrl: Option<string>, provider: Option<string>, isExternal: bool,
    expiresAt: Option<string>)

  // ---------------------------------------------------------------------------
  // Reading the tables

  /** The row filters of `.eq('user_id', user.id)`, one per table. */
  function OwnCert(user: string): UserCertRow -> bool {
    (x: UserCertRow) => x.user_id == user
  }

  function OwnExternal(user: string): ExternalRow -> bool {
    (x: ExternalRow) => x.user_id == user
  }

  function OwnApplication(user: string): ApplicationRow -> bool {
    (x: ApplicationRow) => x.user_id == user
  }

  /** `.eq('user_id', user.id)` and the defensive `filter` after it; no user reads nothing.
      Each of the user's rows is kept as often as it occurs, in table order. */
  function VisibleCerts(rows: seq<UserCertRow>, user: Option<string>): (r: seq<UserCertRow>)
    ensures forall x :: x in r <==> x in rows && user.Some? && x.user_id == user.value
    ensures IsSubsequence(r, rows)
  {
    if user.None? then []
    else
      FilterSubsequence(rows, OwnCert(user.value));
      Filter(rows, OwnCert(user.value))
  }

  function VisibleExternal(rows: seq<ExternalRow>, user: Option<string>): (r: seq<ExternalRow>)
    ensures forall x :: x in r <==> x in rows && user.Some? && x.user_id == user.value
    ensures IsSubsequence(r, rows)
  {
    if user.None? then []
    else
      FilterSubsequence(rows, OwnExternal(user.value));
      Filter(rows, OwnExternal(user.value))
  }

  function VisibleApplications(rows: seq<ApplicationRow>, user: Option<string>): (r: seq<ApplicationRow>)
    ensures forall x :: x in r <==> x in rows && user.Some? && x.user_id == user.value
    ensures IsSubsequence(r, rows)
  {
    if user.None? then []
    else
      FilterSubsequence(rows, OwnApplication(user.value));
      Filter(rows, OwnApplication(user.value))
  }

  /** The three views keep every copy of each of the user's rows: with their subsequence
      clauses this fixes them completely. */
  lemma ViewsKeepEveryCopy(certs: seq<UserCertRow>, external: seq<ExternalRow>,
                           apps: seq<ApplicationRow>, user: string)
    ensures forall x :: multiset(VisibleCerts(certs, Some(user)))[x] == if x.user_id == user then multiset(certs)[x] else 0
    ensures forall x :: multiset(VisibleExternal(external, Some(user)))[x] == if x.user_id == user then multiset(external)[x] else 0
    ensures forall x :: multiset(VisibleApplications(apps, Some(user)))[x] == if x.user_id == user then multiset(apps)[x] else 0
  {
    FilterMultiset(certs, OwnCert(user));
    FilterMultiset(external, OwnExternal(user));
    FilterMultiset(apps, OwnApplication(user));
  }

  predicate IsSavedRow(x: UserCertRow) {
    x.status == Saved
  }

  /** `favorites`: the certification ids of the 'saved' rows, in row order. */
  function SavedIds(rows: seq<UserCertRow>): (r: seq<string>)
    ensures forall c :: c in r <==> exists x :: x in rows && x.status == Saved && x.certification_id == c
    ensures var saved := Filter(rows, IsSavedRow);
      |r| == |saved| && forall k :: 0 <= k < |r| ==> r[k] == saved[k].certification_id
  {
    var saved := Filter(rows, IsSavedRow);
    var r := seq(|saved|, k requires 0 <= k < |saved| => saved[k].certification_id);
    forall c | c in r
      ensures exists x :: x in rows && x.status == Saved && x.certification_id == c
    {
      var k :| 0 <= k < |r| && r[k] == c;
      assert saved[k] in saved;
    }
    forall x | x in rows && x.status == Saved
      ensures x.certification_id in r
    {
      assert x in saved;
      var k :| 0 <= k < |saved| && saved[k] == x;
      assert r[k] == x.certification_id;
    }
    r
  }

  /** `c.certifications?.certification_name || "Unknown"`. */
  function JoinedName(catalog: map<string, CatalogEntry>, certId: string): string {
    if certId in catalog then OrElse(catalog[certId].certification_name, "Unknown") else "Unknown"
  }

  /** A provider list is joined with ", "; text is taken as it is. */
  function JoinedProvider(catalog: map<string, CatalogEntry>, certId: string): Option<string> {
    if certId !in catalog then None
    else match catalog[certId].provider
      case ProviderList(items) => Some(Join(items, ", "))
      case ProviderText(text) => text
  }

  function InternalCompletion(c: UserCertRow, catalog: map<string, CatalogEntry>): (r: CompletedCertification)
    ensures r.id == c.id && r.certificationId == c.certification_id && !r.isExternal
    ensures r.completedAt == OrElse(c.completed_at, c.updated_at)
  {
    CompletedCertification(c.id, c.certification_id, JoinedName(catalog, c.certification_id),
      OrElse(c.completed_at, c.updated_at), c.credential_url, JoinedProvider(catalog, c.certification_id),
      false, c.expires_at)
  }

  /** An external entry names itself: its own id is its certification id. */
  function ExternalCompletion(c: ExternalRow): (r: CompletedCertification)
    ensures r.id == c.id && r.certificationId == c.id && r.isExternal
  {
    CompletedCertification(c.id, c.id, c.certification_name, c.completed_at, c.credential_url,
      c.provider, true, c.expires_at)
  }

  /** `e` is the mapping of some 'completed' row of `rows`. */
  predicate OfCompletedRow(e: CompletedCertification, rows: seq<UserCertRow>, catalog: map<string, CatalogEntry>) {
    exists x :: x in rows && x.status == Completed && e == InternalCompletion(x, catalog)
  }

  predicate IsCompletedRow(x: UserCertRow) {
    x.status == Completed
  }

  /** `internalCompleted`: the 'completed' rows, mapped, in row order. */
  function InternalCompleted(rows: seq<UserCertRow>, catalog: map<string, CatalogEntry>): (r: seq<CompletedCertification>)
    ensures forall k :: 0 <= k < |r| ==> !r[k].isExternal
    ensures forall x :: x in rows && x.status == Completed ==> InternalCompletion(x, catalog) in r
    ensures forall k :: 0 <= k < |r| ==> OfCompletedRow(r[k], rows, catalog)
    ensures var done := Filter(rows, IsCompletedRow);
      |r| == |done| && forall k :: 0 <= k < |r| ==> r[k] == InternalCompletion(done[k], catalog)
  {
    var done := Filter(rows, IsCompletedRow);
    var r := seq(|done|, k requires 0 <= k < |done| => InternalCompletion(done[k], catalog));
    forall x | x in rows && x.status == Completed
      ensures InternalCompletion(x, catalog) in r
    {
      assert x in done;
      var k :| 0 <= k < |done| && done[k] == x;
      assert r[k] == InternalCompletion(x, catalog);
    }
    forall k | 0 <= k < |r|
      ensures OfCompletedRow(r[k], rows, catalog)
    {
      assert done[k] in done;
    }
    r
  }

  function ExternalCompleted(rows: seq<ExternalRow>): (r: seq<CompletedCertification>)
    ensures |r| == |rows|
    ensures forall k :: 0 <= k < |r| ==> r[k] == ExternalCompletion(rows[k])
  {
    seq(|rows|, k requires 0 <= k < |rows| => ExternalCompletion(rows[k]))
  }

  /** The application mapping, with its three defaults. */
  function ToApplication(a: ApplicationRow, catalog: map<string, CatalogEntry>): (r: FundingApplication)
    ensures r.id == a.id && r.certificationId == a.certification_id && r.status == a.status
    ensures r.appliedAt == a.created_at
    ensures r.reason == OrElse(a.reason, "Funding Requested")
    ensures a.reason.None? || a.reason == Some("") ==> r.reason == "Funding Requested"
    ensures r.estimatedCost == CertificationsQuery.NumberOrZero(a.estimated_cost)
    ensures a.certification_id !in catalog ==> r.certificationName == "Unknown"
  {
    FundingApplication(a.id, a.certification_id, JoinedName(catalog, a.certification_id), a.status,
      a.created_at, OrElse(a.reason, "Funding Requested"), CertificationsQuery.NumberOrZero(a.estimated_cost))
  }

  function ToApplications(rows: seq<ApplicationRow>, catalog: map<string, CatalogEntry>): (r: seq<FundingApplication>)
    ensures |r| == |rows|
    ensures forall k :: 0 <= k < |r| ==> r[k] == ToApplication(rows[k], catalog)
  {
    seq(|rows|, k requires 0 <= k < |rows| => ToApplication(rows[k], catalog))
  }

  function ForCert(certId: string): FundingApplication -> bool {
    (a: FundingApplication) => a.certificationId == certId
  }

  /** `applications.filter(a => a.certificationId === id)`, in the order of `apps`. */
  function ApplicationsFor(apps: seq<FundingApplication>, certId: string): (r: seq<FundingApplication>)
    ensures forall a :: a in r <==> a in apps && a.certificationId == certId
    ensures IsSubsequence(r, apps)
  {
    FilterSubsequence(apps, ForCert(certId));
    Filter(apps, ForCert(certId))
  }

  /** Every copy of an application for the certification is kept. */
  lemma ApplicationsForKeepsEveryCopy(apps: seq<FundingApplication>, certId: string)
    ensures forall a :: (multiset(ApplicationsFor(apps, certId))[a] ==
                         if a.certificationId == certId then multiset(apps)[a] else 0)
  {
    FilterMultiset(apps, ForCert(certId));
  }

  /** The comparator `time(b) - time(a)` gives `le(a, b)` exactly when `a` is at least as recent. */
  function MostRecentFirst(time: string -> int): (FundingApplication, FundingApplication) -> bool {
    (a: FundingApplication, b: FundingApplication) => time(b.appliedAt) - time(a.appliedAt) <= 0
  }

  lemma MostRecentFirstConsistent(time: string -> int)
    ensures TotalPreorder(MostRecentFirst(time))
  {
  }

  /** `c[k]` has the greatest `appliedAt` of `c`, and every application before it is older. */
  predicate FirstMostRecent(c: seq<FundingApplication>, time: string -> int, k: int) {
    && 0 <= k < |c|
    && (forall j :: 0 <= j < |c| ==> time(c[j].appliedAt) <= time(c[k].appliedAt))
    && (forall j :: 0 <= j < k ==> time(c[j].appliedAt) < time(c[k].appliedAt))
  }

  /** `apps[i]` is an application for `certId` with the greatest `appliedAt` among those, and
      every application for `certId` listed before it is older. */
  predicate LatestFor(apps: seq<FundingApplication>, certId: string, time: string -> int, i: int) {
    && 0 <= i < |apps|
    && apps[i].certificationId == certId
    && (forall j :: 0 <= j < |apps| && apps[j].certificationId == certId ==>
          time(apps[j].appliedAt) <= time(apps[i].appliedAt))
    && (forall j :: 0 <= j < i && apps[j].certificationId == certId ==>
          time(apps[j].appliedAt) < time(apps[i].appliedAt))
  }

  /** `getApplicationStatus(id)`: `None` (null) without an application for the certification;
      otherwise the status of the application for it with the greatest `appliedAt`, the
      earliest listed in `apps` among equally recent ones. */
  function ApplicationStatus(apps: seq<FundingApplication>, certId: string, time: string -> int): (r: Option<string>)
    ensures r.None? <==> forall a :: a in apps ==> a.certificationId != certId
    ensures r.Some? ==> exists i :: LatestFor(apps, certId, time, i) && r.value == apps[i].status
  {
    var c := ApplicationsFor(apps, certId);
    ApplicationsForEmpty(apps, certId);
    if |c| == 0 then None
    else
      LatestOfHead(apps, certId, time);
      Some(MostRecentHead(c, time).status)
  }

  lemma ApplicationsForEmpty(apps: seq<FundingApplication>, certId: string)
    ensures |ApplicationsFor(apps, certId)| == 0 <==> forall a :: a in apps ==> a.certificationId != certId
  {
    var c := ApplicationsFor(apps, certId);
    if |c| > 0 {
      assert c[0] in c;
    }
  }

  /** The head the sort picks from the filtered list is the latest entry of `apps` itself. */
  lemma LatestOfHead(apps: seq<FundingApplication>, certId: string, time: string -> int)
    requires |ApplicationsFor(apps, certId)| > 0
    ensures exists i :: LatestFor(apps, certId, time, i) && apps[i] == MostRecentHead(ApplicationsFor(apps, certId), time)
  {
    var c := ApplicationsFor(apps, certId);
    var h := MostRecentHead(c, time);
    var k :| FirstMostRecent(c, time, k) && h == c[k];
    LatestOfFirstMostRecent(apps, certId, time, k);
    var i :| LatestFor(apps, certId, time, i) && apps[i] == c[k];
    assert apps[i] == h;
  }

  /** The first most recent entry of the filtered list is the latest entry of `apps` for the
      certification: filtering keeps the order. */
  lemma {:induction false} LatestOfFirstMostRecent(apps: seq<FundingApplication>, certId: string,
                                                   time: string -> int, k: int)
    requires FirstMostRecent(Filter(apps, ForCert(certId)), time, k)
    ensures exists i :: LatestFor(apps, certId, time, i) && apps[i] == Filter(apps, ForCert(certId))[k]
    decreases |apps|
  {
    var c := Filter(apps, ForCert(certId));
    assert |apps| > 0;
    var tail := apps[1..];
    var rest := Filter(tail, ForCert(certId));
    FilterFirst(apps, ForCert(certId));
    var head := if apps[0].certificationId == certId then [apps[0]] else [];
    assert c == head + rest;
    if |head| == 1 && k == 0 {
      LatestFirst(apps, certId, time, c);
    } else {
      var k' := k - |head|;
      FirstMostRecentTail(head, rest, time, k);
      LatestOfFirstMostRecent(tail, certId, time, k');
      var i' :| LatestFor(tail, certId, time, i') && tail[i'] == rest[k'];
      assert c[k] == rest[k'];
      LatestShift(apps, certId, time, i', c, k);
    }
  }

  /** Dropping an older head keeps the first most recent entry, one place earlier. */
  lemma FirstMostRecentTail(head: seq<FundingApplication>, rest: seq<FundingApplication>, time: string -> int, k: int)
    requires FirstMostRecent(head + rest, time, k) && |head| <= k
    ensures FirstMostRecent(rest, time, k - |head|)
  {
    var c := head + rest;
    assert forall j :: 0 <= j < |rest| ==> rest[j] == c[j + |head|];
  }

  /** A first application for the certification that the filtered list puts first as most
      recent is the latest one. */
  lemma LatestFirst(apps: seq<FundingApplication>, certId: string, time: string -> int, c: seq<FundingApplication>)
    requires |apps| > 0 && apps[0].certificationId == certId
    requires forall a :: a in c <==> a in apps && a.certificationId == certId
    requires FirstMostRecent(c, time, 0) && c[0] == apps[0]
    ensures LatestFor(apps, certId, time, 0) && apps[0] == c[0]
  {
    forall j | 0 <= j < |apps| && apps[j].certificationId == certId
      ensures time(apps[j].appliedAt) <= time(apps[0].appliedAt)
    {
      assert apps[j] in c;
      var m :| 0 <= m < |c| && c[m] == apps[j];
    }
  }

  /** The latest entry of the tail is the latest of the whole list when the first application,
      if it is for the certification, is older. */
  lemma LatestShift(apps: seq<FundingApplication>, certId: string, time: string -> int, i': int,
                    c: seq<FundingApplication>, k: int)
    requires |apps| > 0 && LatestFor(apps[1..], certId, time, i')
    requires 0 <= k < |c| && c[k] == apps[1..][i']
    requires FirstMostRecent(c, time, k)
    requires apps[0].certificationId == certId ==> 0 < k && c[0] == apps[0]
    ensures LatestFor(apps, certId, time, i' + 1) && apps[i' + 1] == c[k]
  {
    var tail := apps[1..];
    forall j | 0 <= j < |apps| && apps[j].certificationId == certId
      ensures time(apps[j].appliedAt) <= time(apps[i' + 1].appliedAt)
      ensures j < i' + 1 ==> time(apps[j].appliedAt) < time(apps[i' + 1].appliedAt)
    {
      if j > 0 {
        assert apps[j] == tail[j - 1];
      }
    }
  }

  /** After the sort, the head is the first of the most recent applications. */
  function MostRecentHead(c: seq<FundingApplication>, time: string -> int): (head: FundingApplication)
    requires |c| > 0
    ensures exists k :: FirstMostRecent(c, time, k) && head == c[k]
  {
    MostRecentHeadIsFirst(c, time);
    SortBy(c, MostRecentFirst(time))[0]
  }

  lemma MostRecentHeadIsFirst(c: seq<FundingApplication>, time: string -> int)
    requires |c| > 0
    ensures |SortBy(c, MostRecentFirst(time))| > 0
    ensures exists k :: FirstMostRecent(c, time, k) && SortBy(c, MostRecentFirst(time))[0] == c[k]
  {
    var le := MostRecentFirst(time);
    MostRecentFirstConsistent(time);
    SortByHead(c, le);
    var k :| IsFirstMinimum(c, le, k) && SortBy(c, le)[0] == c[k];
    assert forall j :: 0 <= j < |c| ==> le(c[k], c[j]);
    assert forall j :: 0 <= j < k ==> !le(c[j], c[k]);
    assert FirstMostRecent(c, time, k);
  }

  /** A later application decides the status, whatever earlier ones say. */
  lemma LatestApplicationWins(older: FundingApplication, newer: FundingApplication, time: string -> int)
    requires older.certificationId == newer.certificationId
    requires time(older.appliedAt) < time(newer.appliedAt)
    ensures ApplicationStatus([older, newer], newer.certificationId, time) == Some(newer.status)
  {
    var apps := [older, newer];
    assert apps[1] == newer;
    assert !LatestFor(apps, newer.certificationId, time, 0);
  }

  // ---------------------------------------------------------------------------
  // Writing the tables

  /** The row a favorite toggles in. */
  function SavedRow(freshId: string, user: string, certId: string, now: string): UserCertRow {
    UserCertRow(freshId, user, certId, Saved, None, now, None, None)
  }

  function NotSavedBy(user: string, certId: string): UserCertRow -> bool {
    (x: UserCertRow) => !(x.user_id == user && x.certification_id == certId && x.status == Saved)
  }

  /** `.delete().eq('user_id', u).eq('certification_id', c).eq('status', 'saved')`. */
  function DeleteSaved(rows: seq<UserCertRow>, user: string, certId: string): (r: seq<UserCertRow>)
    ensures forall x :: x in r <==> x in rows && !(x.user_id == user && x.certification_id == certId && x.status == Saved)
    ensures IsSubsequence(r, rows)
  {
    FilterSubsequence(rows, NotSavedBy(user, certId));
    Filter(rows, NotSavedBy(user, certId))
  }

  /** The user's favorites as read back from a table. */
  function FavoritesIn(rows: seq<UserCertRow>, user: Option<string>): seq<string> {
    SavedIds(VisibleCerts(rows, user))
  }

  /** What `toggleFavorite` leaves in `user_certifications`: the 'saved' rows deleted when the
      certification is a favorite, one 'saved' row inserted otherwise. */
  function ToggledRows(rows: seq<UserCertRow>, user: string, certId: string, freshId: string, now: string)
    : seq<UserCertRow>
  {
    if certId in FavoritesIn(rows, Some(user)) then DeleteSaved(rows, user, certId)
    else rows + [SavedRow(freshId, user, certId, now)]
  }

  /** Toggling flips the favorite status of that certification and of no other. */
  lemma ToggleFlips(rows: seq<UserCertRow>, user: string, certId: string, freshId: string, now: string, other: string)
    ensures var after := FavoritesIn(ToggledRows(rows, user, certId, freshId, now), Some(user));
      && (certId in after <==> certId !in FavoritesIn(rows, Some(user)))
      && (other != certId ==> (other in after <==> other in FavoritesIn(rows, Some(user))))
  {
    var t := ToggledRows(rows, user, certId, freshId, now);
    if certId !in FavoritesIn(rows, Some(user)) {
      var x := SavedRow(freshId, user, certId, now);
      assert x in t && x.user_id == user;
      assert forall y :: y in t <==> y in rows || y == x;
    }
  }

  /** Toggling twice restores whether the certification is a favorite. */
  lemma ToggleTwice(rows: seq<UserCertRow>, user: string, certId: string, id1: string, id2: string, now: string)
    ensures var twice := ToggledRows(ToggledRows(rows, user, certId, id1, now), user, certId, id2, now);
      certId in FavoritesIn(twice, Some(user)) <==> certId in FavoritesIn(rows, Some(user))
  {
    var once := ToggledRows(rows, user, certId, id1, now);
    ToggleFlips(rows, user, certId, id1, now, certId);
    ToggleFlips(once, user, certId, id2, now, certId);
  }

  /** `params.x || null`. */
  function OrNull(x: Option<string>): (r: Option<string>)
    ensures r.Some? <==> x.Some? && x.value != ""
    ensures r.Some? ==> r == x
  {
    if x.Some? && x.value != "" then x else None
  }

  class UserCertificationStore {
    var user: Option<string>
    var userCerts: seq<UserCertRow>
    var externalCerts: seq<ExternalRow>
    var applicationRows: seq<ApplicationRow>

    constructor (user: Option<string>, userCerts: seq<UserCertRow>, externalCerts: seq<ExternalRow>,
                 applicationRows: seq<ApplicationRow>)
      ensures this.user == user && this.userCerts == userCerts
      ensures this.externalCerts == externalCerts && this.applicationRows == applicationRows
    {
      this.user := user;
      this.userCerts := userCerts;
      this.externalCerts := externalCerts;
      this.applicationRows := applicationRows;
    }

    /** `favorites`: the ids of the signed-in user's 'saved' rows. */
    function Favorites(): (r: seq<string>)
      reads this
      ensures user.None? ==> r == []
      ensures forall id :: id in r <==>
        user.Some? && exists x :: x in userCerts && x.user_id == user.value && x.status == Saved && x.certification_id == id
    {
      FavoritesIn(userCerts, user)
    }

    /** `applications`: one entry per application row of the signed-in user. */
    function Applications(catalog: map<string, CatalogEntry>): (r: seq<FundingApplication>)
      reads this
      ensures user.None? ==> r == []
      ensures forall a :: a in r <==>
        user.Some? && exists x :: x in applicationRows && x.user_id == user.value && a == ToApplication(x, catalog)
    {
      var rows := VisibleApplications(applicationRows, user);
      MappedApplications(rows, catalog);
      ToApplications(rows, catalog)
    }

    /** `completedCertifications`: internal completions first, then every external one; each
        entry comes from one of the user's 'completed' rows or external rows, and each such
        row gives one. */
    function CompletedCertifications(catalog: map<string, CatalogEntry>): (r: seq<CompletedCertification>)
      reads this
      ensures user.None? ==> r == []
      ensures forall c :: c in r && !c.isExternal ==> (user.Some? &&
        exists x :: x in userCerts && x.user_id == user.value && x.status == Completed && c == InternalCompletion(x, catalog))
      ensures forall c :: c in r && c.isExternal ==> (user.Some? &&
        exists e :: e in externalCerts && e.user_id == user.value && c == ExternalCompletion(e))
      ensures user.Some? ==> forall x :: (x in userCerts && x.user_id == user.value && x.status == Completed ==>
        InternalCompletion(x, catalog) in r)
      ensures user.Some? ==> forall e :: e in externalCerts && e.user_id == user.value ==> ExternalCompletion(e) in r
    {
      var internal := InternalCompleted(VisibleCerts(userCerts, user), catalog);
      var ext := VisibleExternal(externalCerts, user);
      CompletedParts(internal, VisibleCerts(userCerts, user), ext, catalog);
      internal + ExternalCompleted(ext)
    }

    /** `isFavorite(id)`: the user has a 'saved' row for the certification. */
    predicate IsFavorite(certId: string): (b: bool)
      reads this
      ensures b <==> (user.Some? &&
        exists x :: x in userCerts && x.user_id == user.value && x.status == Saved && x.certification_id == certId)
    {
      certId in Favorites()
    }

    /** `hasApplied(id)`: some application row of the user targets the certification,
        whatever its status (approved and rejected ones too). */
    predicate HasApplied(catalog: map<string, CatalogEntry>, certId: string): (b: bool)
      reads this
      ensures b <==> (user.Some? &&
        exists x :: x in applicationRows && x.user_id == user.value && x.certification_id == certId)
    {
      AppliedIffRow(VisibleApplications(applicationRows, user), catalog, certId);
      exists a :: a in Applications(catalog) && a.certificationId == certId
    }

    /** `isCompleted(id)`: a 'completed' row of the user for the certification, or an
        external entry of the user whose own id it is. */
    predicate IsCompleted(catalog: map<string, CatalogEntry>, certId: string): (b: bool)
      reads this
      ensures b <==> (user.Some? &&
        ((exists x :: x in userCerts && x.user_id == user.value && x.status == Completed && x.certification_id == certId)
        || exists e :: e in externalCerts && e.user_id == user.value && e.id == certId))
    {
      var done := CompletedCertifications(catalog);
      assert (exists c :: c in done && c.certificationId == certId) ==> user.Some? by {
        if c :| c in done && c.certificationId == certId {
          assert c.isExternal || !c.isExternal;
        }
      }
      assert user.Some? ==>
        ((exists x :: x in userCerts && x.user_id == user.value && x.status == Completed && x.certification_id == certId)
         ==> exists c :: c in done && c.certificationId == certId) by {
        if user.Some? {
          if x :| x in userCerts && x.user_id == user.value && x.status == Completed && x.certification_id == certId {
            assert InternalCompletion(x, catalog) in done;
          }
        }
      }
      assert user.Some? ==>
        ((exists e :: e in externalCerts && e.user_id == user.value && e.id == certId)
         ==> exists c :: c in done && c.certificationId == certId) by {
        if user.Some? {
          if e :| e in externalCerts && e.user_id == user.value && e.id == certId {
            assert ExternalCompletion(e) in done;
          }
        }
      }
      exists c :: c in done && c.certificationId == certId
    }

    /** `getApplicationStatus(id)`: none iff the user has not applied, else the status of the
        latest application (the first listed among equally recent ones). */
    function GetApplicationStatus(catalog: map<string, CatalogEntry>, certId: string, time: string -> int)
      : (r: Option<string>)
      reads this
      ensures r.None? <==> !HasApplied(catalog, certId)
      ensures r.Some? ==> exists i :: LatestFor(Applications(catalog), certId, time, i) && r.value == Applications(catalog)[i].status
    {
      ApplicationStatus(Applications(catalog), certId, time)
    }

    /** `toggleFavorite(certId)`. */
    method ToggleFavorite(certId: string, freshId: string, now: string) returns (r: Result<(), string>)
      modifies this
      ensures user.None? ==> r == Err(LoginRequired) && userCerts == old(userCerts)
      ensures user.Some? ==> r.Ok? && userCerts == ToggledRows(old(userCerts), user.value, certId, freshId, now)
      ensures user.Some? ==> (IsFavorite(certId) <==> !old(IsFavorite(certId)))
      ensures user == old(user) && externalCerts == old(externalCerts) && applicationRows == old(applicationRows)
    {
      if user.None? {
        return Err(LoginRequired);
      }
      ToggleFlips(userCerts, user.value, certId, freshId, now, certId);
      userCerts := ToggledRows(userCerts, user.value, certId, freshId, now);
      r := Ok(());
    }

    /** `applyForFunding`: a 'pending' application. */
    method ApplyForFunding(certId: string, certName: string, reason: string, cost: real, freshId: string, now: string)
      returns (r: Result<(), string>)
      modifies this
      ensures user.None? ==> r == Err(LoginRequired) && applicationRows == old(applicationRows)
      ensures user.Some? ==> (r.Ok? && applicationRows ==
        old(applicationRows) + [ApplicationRow(freshId, user.value, certId, Pending, now, Some(reason), Some(cost))])
      ensures user == old(user) && userCerts == old(userCerts) && externalCerts == old(externalCerts)
    {
      if user.None? {
        return Err(LoginRequired);
      }
      applicationRows := applicationRows + [ApplicationRow(freshId, user.value, certId, Pending, now, Some(reason), Some(cost))];
      r := Ok(());
    }

    /** `addCompletedCertification`: a 'completed' row; an empty url or expiry is stored as null. */
    method AddCompletedCertification(certId: string, certName: string, completedAt: string,
                                     credentialUrl: Option<string>, expiresAt: Option<string>,
                                     freshId: string, now: string)
      returns (r: Result<(), string>)
      modifies this
      ensures user.None? ==> r == Err(LoginRequired) && userCerts == old(userCerts)
      ensures user.Some? ==> (r.Ok? && userCerts == old(userCerts) +
        [UserCertRow(freshId, user.value, certId, Completed, Some(completedAt), now, OrNull(credentialUrl), OrNull(expiresAt))])
      ensures user == old(user) && externalCerts == old(externalCerts) && applicationRows == old(applicationRows)
    {
      if user.None? {
        return Err(LoginRequired);
      }
      userCerts := userCerts +
        [UserCertRow(freshId, user.value, certId, Completed, Some(completedAt), now, OrNull(credentialUrl), OrNull(expiresAt))];
      r := Ok(());
    }

    /** `addExternalCertification`. */
    method AddExternalCertification(certName: string, provider: string, completedAt: string,
                                    credentialUrl: Option<string>, expiresAt: Option<string>, freshId: string)
      returns (r: Result<(), string>)
      modifies this
      ensures user.None? ==> r == Err(LoginRequired) && externalCerts == old(externalCerts)
      ensures user.Some? ==> (r.Ok? && externalCerts == old(externalCerts) +
        [ExternalRow(freshId, user.value, certName, Some(provider), completedAt, OrNull(credentialUrl), OrNull(expiresAt))])
      ensures user == old(user) && userCerts == old(userCerts) && applicationRows == old(applicationRows)
    {
      if user.None? {
        return Err(LoginRequired);
      }
      externalCerts := externalCerts +
        [ExternalRow(freshId, user.value, certName, Some(provider), completedAt, OrNull(credentialUrl), OrNull(expiresAt))];
      r := Ok(());
    }

    /** `removeCompletedCertification(id, isExternal)`: deletes by id from one table, chosen
        by `isExternal`; there is no signed-in check. */
    method RemoveCompletedCertification(id: string, isExternal: bool)
      modifies this
      ensures isExternal ==> externalCerts == RemoveExternalById(old(externalCerts), id) && userCerts == old(userCerts)
      ensures !isExternal ==> userCerts == RemoveCertById(old(userCerts), id) && externalCerts == old(externalCerts)
      ensures user == old(user) && applicationRows == old(applicationRows)
    {
      if isExternal {
        externalCerts := RemoveExternalById(externalCerts, id);
      } else {
        userCerts := RemoveCertById(userCerts, id);
      }
    }
  }

  function CertIdIsNot(id: string): UserCertRow -> bool {
    (x: UserCertRow) => x.id != id
  }

  function ExternalIdIsNot(id: string): ExternalRow -> bool {
    (x: ExternalRow) => x.id != id
  }

  /** `.delete().eq('id', id)` on either table: every other row stays, as often and in the
      order it was. */
  function RemoveCertById(rows: seq<UserCertRow>, id: string): (r: seq<UserCertRow>)
    ensures forall x :: x in r <==> x in rows && x.id != id
    ensures IsSubsequence(r, rows)
  {
    FilterSubsequence(rows, CertIdIsNot(id));
    Filter(rows, CertIdIsNot(id))
  }

  function RemoveExternalById(rows: seq<ExternalRow>, id: string): (r: seq<ExternalRow>)
    ensures forall x :: x in r <==> x in rows && x.id != id
    ensures IsSubsequence(r, rows)
  {
    FilterSubsequence(rows, ExternalIdIsNot(id));
    Filter(rows, ExternalIdIsNot(id))
  }

  /** The deletes remove every copy of a matching row and keep every copy of the others. */
  lemma DeletesKeepEveryOtherCopy(certs: seq<UserCertRow>, external: seq<ExternalRow>,
                                  user: string, certId: string, id: string)
    ensures forall x :: (multiset(DeleteSaved(certs, user, certId))[x] ==
                         if x.user_id == user && x.certification_id == certId && x.status == Saved then 0
                         else multiset(certs)[x])
    ensures forall x :: multiset(RemoveCertById(certs, id))[x] == if x.id == id then 0 else multiset(certs)[x]
    ensures forall x :: multiset(RemoveExternalById(external, id))[x] == if x.id == id then 0 else multiset(external)[x]
  {
    FilterMultiset(certs, NotSavedBy(user, certId));
    FilterMultiset(certs, CertIdIsNot(id));
    FilterMultiset(external, ExternalIdIsNot(id));
  }

  /** Every external entry counts as completed under its own id. */
  lemma ExternalEntriesAreCompleted(s: UserCertificationStore, catalog: map<string, CatalogEntry>, x: ExternalRow)
    requires x in s.externalCerts && s.user == Some(x.user_id)
    ensures s.IsCompleted(catalog, x.id)
  {
    var ext := VisibleExternal(s.externalCerts, s.user);
    assert x in ext;
    ExternalListed(InternalCompleted(VisibleCerts(s.userCerts, s.user), catalog), ext, x);
  }

  /** An external row's entry follows the internal ones under the row's own id. */
  lemma ExternalListed(internal: seq<CompletedCertification>, ext: seq<ExternalRow>, x: ExternalRow)
    requires x in ext
    ensures exists c :: c in internal + ExternalCompleted(ext) && c.certificationId == x.id
  {
    var k :| 0 <= k < |ext| && ext[k] == x;
    var all := internal + ExternalCompleted(ext);
    assert all[|internal| + k] == ExternalCompletion(x);
  }

  /** The application mapping: one entry per row, and every entry comes from a row. */
  lemma MappedApplications(rows: seq<ApplicationRow>, catalog: map<string, CatalogEntry>)
    ensures forall a :: a in ToApplications(rows, catalog) <==> exists x :: x in rows && a == ToApplication(x, catalog)
  {
    var apps := ToApplications(rows, catalog);
    forall a | a in apps ensures exists x :: x in rows && a == ToApplication(x, catalog) {
      var k :| 0 <= k < |apps| && apps[k] == a;
      assert rows[k] in rows;
    }
    forall x | x in rows ensures ToApplication(x, catalog) in apps {
      var k :| 0 <= k < |rows| && rows[k] == x;
      assert apps[k] == ToApplication(x, catalog);
    }
  }

  /** Where the entries of the completed list come from. */
  lemma CompletedParts(internal: seq<CompletedCertification>, rows: seq<UserCertRow>, ext: seq<ExternalRow>,
                       catalog: map<string, CatalogEntry>)
    requires internal == InternalCompleted(rows, catalog)
    ensures forall c :: c in internal + ExternalCompleted(ext) && !c.isExternal ==> OfCompletedRow(c, rows, catalog)
    ensures forall c :: c in internal + ExternalCompleted(ext) && c.isExternal ==>
      exists e :: e in ext && c == ExternalCompletion(e)
    ensures forall e :: e in ext ==> ExternalCompletion(e) in internal + ExternalCompleted(ext)
    ensures forall x :: x in rows && x.status == Completed ==> InternalCompletion(x, catalog) in internal + ExternalCompleted(ext)
  {
    var ec := ExternalCompleted(ext);
    forall c | c in internal + ec && !c.isExternal ensures OfCompletedRow(c, rows, catalog) {
      var k :| 0 <= k < |internal| && internal[k] == c;
    }
    forall c | c in internal + ec && c.isExternal ensures exists e :: e in ext && c == ExternalCompletion(e) {
      var k :| 0 <= k < |ec| && ec[k] == c;
      assert ext[k] in ext;
    }
    forall e | e in ext ensures ExternalCompletion(e) in internal + ec {
      var k :| 0 <= k < |ext| && ext[k] == e;
      assert ec[k] == ExternalCompletion(e);
    }
  }

  /** The application mapping keeps the certification id of every row. */
  lemma AppliedIffRow(rows: seq<ApplicationRow>, catalog: map<string, CatalogEntry>, certId: string)
    ensures (exists a :: a in ToApplications(rows, catalog) && a.certificationId == certId) <==>
      exists x :: x in rows && x.certification_id == certId
  {
    var apps := ToApplications(rows, catalog);
    if exists a :: a in apps && a.certificationId == certId {
      var a :| a in apps && a.certificationId == certId;
      var k :| 0 <= k < |apps| && apps[k] == a;
      assert rows[k] in rows;
    }
    if exists x :: x in rows && x.certification_id == certId {
      var x :| x in rows && x.certification_id == certId;
      var k :| 0 <= k < |rows| && rows[k] == x;
      assert apps[k] in apps;
    }
  }
}
