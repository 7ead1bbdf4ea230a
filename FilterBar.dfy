/** The facet filter bar (src/components/certifications/FilterBar.tsx): five selectors that
    report a change under a fixed key, and a "Clear filters" button shown while any value of the
    filter object differs from "all". The object the bar receives is the one the filter hook
    maintains, a map from key to value (see `CertificationsFilter`). */
module FilterBar {
  import opened Wrappers
  import opened CertificationData
  import opened CertificationsFilter

  datatype Selector = Area | LanguageFramework | Provider | Level | Quality

  /** The key each selector's `onChange` passes to `onFilterChange`. */
  function SelectorKey(s: Selector): (k: string)
    ensures k in {"area", "languageFramework", "provider", "level", "quality"}
  {
    match s
    case Area => "area"
    case LanguageFramework => "languageFramework"
    case Provider => "provider"
    case Level => "level"
    case Quality => "quality"
  }

  /** Each selector reports under a key of its own. */
  lemma SelectorKeysDistinct(s: Selector, t: Selector)
    ensures SelectorKey(s) == SelectorKey(t) <==> s == t
  {
  }

  /** The value a selector shows: `filters[key]` (`None` is `undefined`, shown as the
      placeholder). */
  function DisplayedValue(filters: map<string, string>, s: Selector): Option<string> {
    Get(filters, SelectorKey(s))
  }

  /** `Object.values(filters).some(v => v !== "all")`. */
  predicate HasActiveFilters(filters: map<string, string>): (b: bool)
    ensures forall k :: k in filters && filters[k] != All ==> b
    ensures (forall k :: k in filters ==> filters[k] == All) ==> !b
  {
    exists k | k in filters :: filters[k] != All
  }

  /** What the bar renders: the five displayed values and whether the Clear button is there. */
  datatype BarView = BarView(shown: Selector -> Option<string>, clearButton: bool)

  function Render(filters: map<string, string>): (v: BarView)
    ensures v.clearButton <==> exists k | k in filters :: filters[k] != All
    ensures forall s :: v.shown(s) == Get(filters, SelectorKey(s))
  {
    BarView(s => DisplayedValue(filters, s), HasActiveFilters(filters))
  }

  /** The hook's starting (and cleared) filter object has no active filter: no Clear button. */
  lemma ClearedHasNoActiveFilter()
    ensures !Render(InitialFilters).clearButton
  {
    forall k | k in InitialFilters ensures InitialFilters[k] == All {
    }
  }

  /** Choosing a value other than "all" on any selector brings the Clear button up. */
  lemma ChoosingShowsClear(filters: map<string, string>, s: Selector, v: string)
    requires v != All
    ensures Render(filters[SelectorKey(s) := v]).clearButton
  {
    var f := filters[SelectorKey(s) := v];
    assert SelectorKey(s) in f && f[SelectorKey(s)] != All;
  }

  /** A choice on selector `s` shows up on `s` and on no other selector. */
  lemma ChoiceRoundTrip(filters: map<string, string>, s: Selector, v: string)
    ensures Render(filters[SelectorKey(s) := v]).shown(s) == Some(v)
    ensures forall t :: t != s ==>
      Render(filters[SelectorKey(s) := v]).shown(t) == Render(filters).shown(t)
  {
    forall t | t != s ensures SelectorKey(t) != SelectorKey(s) {
      SelectorKeysDistinct(s, t);
    }
  }

  /** The Area and Level selectors report under "area" and "level", keys the filter hook never
      reads (it reads "domain" and "experienceLevel"): such a choice changes no row's fate. */
  lemma AreaAndLevelDoNotNarrow(c: Certification, query: string, favoritesOnly: bool,
                                filters: map<string, string>, isFavorite: string -> bool,
                                s: Selector, v: string)
    requires s == Area || s == Level
    ensures Keep(c, query, favoritesOnly, filters[SelectorKey(s) := v], isFavorite)
        == Keep(c, query, favoritesOnly, filters, isFavorite)
  {
    var f := filters[SelectorKey(s) := v];
    assert Get(f, DomainKey) == Get(filters, DomainKey);
    assert Get(f, LanguageKey) == Get(filters, LanguageKey);
    assert Get(f, ProviderKey) == Get(filters, ProviderKey);
    assert Get(f, LevelKey) == Get(filters, LevelKey);
    assert Get(f, QualityKey) == Get(filters, QualityKey);
  }

  /** The other three selectors report under the hook's own keys, so their choice is the
      filter the hook applies. */
  lemma OtherSelectorsNarrow(filters: map<string, string>, s: Selector, v: string)
    requires s == LanguageFramework || s == Provider || s == Quality
    ensures SelectorKey(s) in {LanguageKey, ProviderKey, QualityKey}
    ensures Get(filters[SelectorKey(s) := v], SelectorKey(s)) == Some(v)
  {
  }
}
