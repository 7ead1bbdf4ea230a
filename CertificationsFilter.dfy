/** The catalog search and filter hook (src/hooks/useCertificationsFilter.ts). The hook keeps
    three pieces of state — the search text, the favorites-only flag and the filter object —
    and derives the visible rows from the catalog with one `filter` pass. */
module CertificationsFilter {
  import opened Wrappers
  import opened Text
  import opened Sorting
  import opened CertificationData

  const All: string := "all"

  /** The filter object is a plain JavaScript object: `handleFilterChange` writes whatever key
      it is given, so it is modelled as a map from key to value. These are the five keys the
      hook creates and reads. */
  const DomainKey: string := "domain"
  const LanguageKey: string := "languageFramework"
  const ProviderKey: string := "provider"
  const LevelKey: string := "experienceLevel"
  const QualityKey: string := "quality"

  const InitialFilters: map<string, string> :=
    map[DomainKey := All, LanguageKey := All, ProviderKey := All, LevelKey := All, QualityKey := All]

  /** Reading a key of the filter object; `None` is `undefined`. */
  function Get(filters: map<string, string>, key: string): Option<string> {
    if key in filters then Some(filters[key]) else None
  }

  /** `filters.k !== "all"`: an unset key (`undefined`) also counts as active. */
  predicate Active(filters: map<string, string>, key: string) {
    Get(filters, key) != Some(All)
  }

  /** The text a query is matched against: name, domain, the joined languages, the joined
      providers, level and notes, joined by single spaces. */
  function SearchableText(c: Certification): string {
    Join([c.certificationName, c.domain, Join(c.languageFramework, " "), Join(c.provider, " "),
          c.experienceLevel, c.notes], " ")
  }

  /** The predicate passed to `certifications.filter`, in the order the source checks its
      conditions. A kept row is a favorite when favorites-only is on and matches the query;
      since `undefined` is neither "all" nor equal to any field, a filter object lacking one
      of the five keys keeps nothing. */
  predicate Keep(c: Certification, query: string, favoritesOnly: bool,
                 filters: map<string, string>, isFavorite: string -> bool): (b: bool)
    ensures b && favoritesOnly ==> isFavorite(c.id)
    ensures b && query != "" ==> Contains(Lower(SearchableText(c)), Lower(query))
    ensures b ==> DomainKey in filters && LanguageKey in filters && ProviderKey in filters
                  && LevelKey in filters && QualityKey in filters
  {
    if favoritesOnly && !isFavorite(c.id) then false
    else if query != "" && !Contains(Lower(SearchableText(c)), Lower(query)) then false
    else if Active(filters, DomainKey) && Some(c.domain) != Get(filters, DomainKey) then false
    else if Active(filters, LanguageKey)
            && !(Get(filters, LanguageKey).Some? && Get(filters, LanguageKey).value in c.languageFramework) then false
    else if Active(filters, ProviderKey)
            && !(Get(filters, ProviderKey).Some? && Get(filters, ProviderKey).value in c.provider) then false
    else if Active(filters, LevelKey) && Some(c.experienceLevel) != Get(filters, LevelKey) then false
    else if Active(filters, QualityKey) && Some(c.certificateQuality) != Get(filters, QualityKey) then false
    else true
  }

  function Passes(query: string, favoritesOnly: bool, filters: map<string, string>,
                  isFavorite: string -> bool): Certification -> bool
  {
    (c: Certification) => Keep(c, query, favoritesOnly, filters, isFavorite)
  }

  /** `filteredCertifications`: the rows that pass `Keep`, in catalog order. */
  function FilterCatalog(certs: seq<Certification>, query: string, favoritesOnly: bool,
                         filters: map<string, string>, isFavorite: string -> bool): (r: seq<Certification>)
    ensures IsSubsequence(r, certs)
    ensures forall c :: c in r <==> c in certs && Keep(c, query, favoritesOnly, filters, isFavorite)
  {
    FilterSubsequence(certs, Passes(query, favoritesOnly, filters, isFavorite));
    Filter(certs, Passes(query, favoritesOnly, filters, isFavorite))
  }

  /** No row is fabricated or duplicated: a row that passes appears exactly as often as in
      the catalog, any other row not at all. */
  lemma NoRowAdded(certs: seq<Certification>, query: string, favoritesOnly: bool,
                   filters: map<string, string>, isFavorite: string -> bool)
    ensures multiset(FilterCatalog(certs, query, favoritesOnly, filters, isFavorite)) <= multiset(certs)
    ensures forall c :: (multiset(FilterCatalog(certs, query, favoritesOnly, filters, isFavorite))[c] ==
                         if Keep(c, query, favoritesOnly, filters, isFavorite) then multiset(certs)[c] else 0)
  {
    SubsequenceMultiset(FilterCatalog(certs, query, favoritesOnly, filters, isFavorite), certs);
    FilterMultiset(certs, Passes(query, favoritesOnly, filters, isFavorite));
  }

  /** With no search text, favorites-only off and every filter "all", every row is kept. */
  lemma {:induction false} NoCriteriaKeepsAll(certs: seq<Certification>, isFavorite: string -> bool)
    ensures FilterCatalog(certs, "", false, InitialFilters, isFavorite) == certs
  {
    if |certs| > 0 {
      NoCriteriaKeepsAll(certs[1..], isFavorite);
      FilterFirst(certs, Passes("", false, InitialFilters, isFavorite));
      assert [certs[0]] + certs[1..] == certs;
    }
  }

  /** With favorites-only on, every row shown is a favorite. */
  lemma FavoritesOnlyShowsFavorites(certs: seq<Certification>, query: string,
                                    filters: map<string, string>, isFavorite: string -> bool)
    ensures forall c :: c in FilterCatalog(certs, query, true, filters, isFavorite) ==> isFavorite(c.id)
  {
  }

  /** The five filters, against the filter object the hook maintains (all five keys set),
      are ANDed: domain, level and quality by equality, language and provider by membership,
      "all" imposing nothing; the query is a case-insensitive substring match. */
  lemma KeepIsConjunction(c: Certification, query: string, favoritesOnly: bool,
                          filters: map<string, string>, isFavorite: string -> bool)
    requires DomainKey in filters && LanguageKey in filters && ProviderKey in filters
    requires LevelKey in filters && QualityKey in filters
    ensures Keep(c, query, favoritesOnly, filters, isFavorite) <==>
      && (favoritesOnly ==> isFavorite(c.id))
      && (query == "" || exists k :: OccursAt(Lower(SearchableText(c)), Lower(query), k))
      && (filters[DomainKey] == All || c.domain == filters[DomainKey])
      && (filters[LanguageKey] == All || filters[LanguageKey] in c.languageFramework)
      && (filters[ProviderKey] == All || filters[ProviderKey] in c.provider)
      && (filters[LevelKey] == All || c.experienceLevel == filters[LevelKey])
      && (filters[QualityKey] == All || c.certificateQuality == filters[QualityKey])
  {
    ContainsIffOccurs(Lower(SearchableText(c)), Lower(query));
  }

  /** A query may match across the boundary between two fields. */
  lemma MatchSpansFields(c: Certification)
    requires c.certificationName == "AWS" && c.domain == "Cloud"
    ensures Keep(c, "aws cloud", false, InitialFilters, _ => false)
  {
    var fields := [c.certificationName, c.domain, Join(c.languageFramework, " "), Join(c.provider, " "),
                   c.experienceLevel, c.notes];
    var tail := Join(fields[2..], " ");
    var text := SearchableText(c);
    assert Join(fields[1..], " ") == "Cloud" + " " + tail by {
      assert fields[1..][1..] == fields[2..];
    }
    assert text == "AWS" + " " + ("Cloud" + " " + tail);
    assert text == "AWS Cloud" + (" " + tail);
    LowerConcat("AWS Cloud", " " + tail);
    assert Lower("AWS Cloud") == "aws cloud";
    assert Lower("aws cloud") == "aws cloud";
    ContainsInfix("", "aws cloud", Lower(" " + tail));
    assert "" + "aws cloud" + Lower(" " + tail) == Lower(text);
  }

  // ---------------------------------------------------------------------------
  // The hook's state

  /** The hook's three state cells. */
  class FilterState {
    var searchQuery: string
    var showFavoritesOnly: bool
    var filters: map<string, string>

    /** The state a fresh hook starts in. */
    constructor ()
      ensures searchQuery == "" && !showFavoritesOnly && filters == InitialFilters
    {
      searchQuery := "";
      showFavoritesOnly := false;
      filters := InitialFilters;
    }

    /** The hook's memoised result for the current state. */
    function FilteredCertifications(certs: seq<Certification>, isFavorite: string -> bool): seq<Certification>
      reads this
    {
      FilterCatalog(certs, searchQuery, showFavoritesOnly, filters, isFavorite)
    }

    method SetSearchQuery(q: string)
      modifies this
      ensures searchQuery == q
      ensures showFavoritesOnly == old(showFavoritesOnly) && filters == old(filters)
    {
      searchQuery := q;
    }

    method SetShowFavoritesOnly(b: bool)
      modifies this
      ensures showFavoritesOnly == b
      ensures searchQuery == old(searchQuery) && filters == old(filters)
    {
      showFavoritesOnly := b;
    }

    /** `handleFilterChange(key, value)`: `{...prev, [key]: value}`. */
    method HandleFilterChange(key: string, value: string)
      modifies this
      ensures filters == old(filters)[key := value]
      ensures Get(filters, key) == Some(value)
      ensures forall k :: k != key ==> Get(filters, k) == Get(old(filters), k)
      ensures searchQuery == old(searchQuery) && showFavoritesOnly == old(showFavoritesOnly)
    {
      filters := filters[key := value];
    }

    /** `handleClearFilters`: every filter back to "all" and favorites-only off; the search
        text is left alone. */
    method HandleClearFilters()
      modifies this
      ensures filters == InitialFilters && !showFavoritesOnly
      ensures searchQuery == old(searchQuery)
    {
      filters := InitialFilters;
      showFavoritesOnly := false;
    }
  }

  /** Clearing twice is the same as clearing once: `once` is the state after the first clear,
      and the second leaves it as it is. After a clear only the search text still narrows the
      catalog. */
  method ClearIsIdempotent(s: FilterState, certs: seq<Certification>, isFavorite: string -> bool)
    returns (once: (string, bool, map<string, string>))
    modifies s
    ensures once == (old(s.searchQuery), false, InitialFilters)
    ensures (s.searchQuery, s.showFavoritesOnly, s.filters) == once
    ensures s.FilteredCertifications(certs, isFavorite) == FilterCatalog(certs, old(s.searchQuery), false, InitialFilters, isFavorite)
  {
    s.HandleClearFilters();
    once := (s.searchQuery, s.showFavoritesOnly, s.filters);
    s.HandleClearFilters();
  }
}
