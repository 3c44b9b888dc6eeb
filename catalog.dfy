/**
 * The catalog page: which bands renderBandList lists for a genre selection and a search text, the
 * genre options populateGenreFilter offers, and the shortened description shown on each card.
 */
module Catalog {
  import opened Options
  import opened Text
  import opened Seqs

  /** A catalog entry as stored under the "bands" key; `image` holds a path or a data URL. */
  datatype Band = Band(name: string, year: string, genre: string, description: string, image: string, video: string)

  /** The value of the genre selector's first option, which switches the genre filter off. */
  const AllGenres: string := "all"

  /** The genre filter applies: the selector is on the page and holds something other than "all". */
  predicate GenreFilterActive(selection: Option<string>) {
    selection.Some? && selection.value != AllGenres
  }

  /** The search test: the lower-cased search text occurs in the lower-cased band name. */
  predicate NameMatches(name: string, searchText: string) {
    Includes(Lower(name), Lower(searchText))
  }

  /** Reference definition: a band is listed when it passes every active filter. */
  predicate Selected(selection: Option<string>, searchText: string, b: Band) {
    && (GenreFilterActive(selection) ==> b.genre == selection.value)
    && (searchText != "" ==> NameMatches(b.name, searchText))
  }

  /**
   * The filter stage of renderBandList: keep the bands of the selected genre unless the selector is
   * absent or on "all", then keep the bands whose name contains the search text, ignoring case, unless
   * the search text is empty.
   */
  function FilterBands(bands: seq<Band>, selection: Option<string>, searchText: string): (r: seq<Band>)
    ensures |r| <= |bands|
    ensures forall b :: b in r ==> b in bands
  {
    var byGenre :=
      match selection
      case Some(genre) => if genre != AllGenres then Filter(bands, (b: Band) => b.genre == genre) else bands
      case None => bands;
    if searchText != "" then Filter(byGenre, (b: Band) => NameMatches(b.name, searchText)) else byGenre
  }

  /** The two filter steps combine by conjunction: the result is one filter by Selected. */
  lemma FilterBandsIsConjunction(bands: seq<Band>, selection: Option<string>, searchText: string)
    ensures FilterBands(bands, selection, searchText) == Filter(bands, (b: Band) => Selected(selection, searchText, b))
  {
    var selected := (b: Band) => Selected(selection, searchText, b);
    var byName := (b: Band) => NameMatches(b.name, searchText);
    if GenreFilterActive(selection) {
      var byGenre := (b: Band) => b.genre == selection.value;
      if searchText != "" {
        FilterThenFilter(bands, byGenre, byName, selected);
      } else {
        FilterEquivalent(bands, byGenre, selected);
      }
    } else if searchText != "" {
      FilterEquivalent(bands, byName, selected);
    } else {
      FilterKeepsAll(bands, selected);
    }
  }

  /** The listed bands are a subsequence of the catalog: original order, nothing added. */
  lemma FilterBandsIsSubsequence(bands: seq<Band>, selection: Option<string>, searchText: string)
    ensures IsSubsequence(FilterBands(bands, selection, searchText), bands)
  {
    FilterBandsIsConjunction(bands, selection, searchText);
    var _ := FilterIsSubsequence(bands, (b: Band) => Selected(selection, searchText, b));
  }

  /**
   * Soundness and completeness: every listed band passes both active filters, and every catalog band
   * that passes them is listed, as often as it occurs in the catalog.
   */
  lemma FilterBandsListsExactlySelected(bands: seq<Band>, selection: Option<string>, searchText: string, b: Band)
    ensures b in FilterBands(bands, selection, searchText) <==> b in bands && Selected(selection, searchText, b)
    ensures multiset(FilterBands(bands, selection, searchText))[b]
         == if Selected(selection, searchText, b) then multiset(bands)[b] else 0
  {
    FilterBandsIsConjunction(bands, selection, searchText);
    FilterCount(bands, (b: Band) => Selected(selection, searchText, b), b);
  }

  /** With the genre filter on, every listed band has the selected genre. */
  lemma FilterBandsGenreMatches(bands: seq<Band>, genre: string, searchText: string)
    requires genre != AllGenres
    ensures forall b :: b in FilterBands(bands, Some(genre), searchText) ==> b.genre == genre
  {
    forall b | b in FilterBands(bands, Some(genre), searchText) ensures b.genre == genre {
      FilterBandsListsExactlySelected(bands, Some(genre), searchText, b);
    }
  }

  /** With a non-empty search text, every listed band's lower-cased name contains the lower-cased text. */
  lemma FilterBandsNameMatches(bands: seq<Band>, selection: Option<string>, searchText: string)
    requires searchText != ""
    ensures forall b :: b in FilterBands(bands, selection, searchText) ==>
      exists i :: OccursAt(Lower(searchText), Lower(b.name), i)
  {
    forall b | b in FilterBands(bands, selection, searchText)
      ensures exists i :: OccursAt(Lower(searchText), Lower(b.name), i)
    {
      FilterBandsListsExactlySelected(bands, selection, searchText, b);
    }
  }

  /** With no genre selected and an empty search text the whole catalog is listed. */
  lemma NoActiveFilterListsAll(bands: seq<Band>, selection: Option<string>)
    requires !GenreFilterActive(selection)
    ensures FilterBands(bands, selection, "") == bands
  {
  }

  /** Filtering the listed bands again with the same genre and search text changes nothing. */
  lemma FilterBandsIdempotent(bands: seq<Band>, selection: Option<string>, searchText: string)
    ensures FilterBands(FilterBands(bands, selection, searchText), selection, searchText)
         == FilterBands(bands, selection, searchText)
  {
    var selected := (b: Band) => Selected(selection, searchText, b);
    var r := FilterBands(bands, selection, searchText);
    FilterBandsIsConjunction(bands, selection, searchText);
    FilterBandsIsConjunction(r, selection, searchText);
    FilterKeepsAll(r, selected);
  }

  /** The search ignores case: a search text and its lower-cased form list the same bands. */
  lemma SearchIgnoresCase(bands: seq<Band>, selection: Option<string>, searchText: string)
    ensures FilterBands(bands, selection, Lower(searchText)) == FilterBands(bands, selection, searchText)
  {
    LowerIdempotent(searchText);
    FilterBandsIsConjunction(bands, selection, searchText);
    FilterBandsIsConjunction(bands, selection, Lower(searchText));
    FilterEquivalent(bands, (b: Band) => Selected(selection, Lower(searchText), b),
                            (b: Band) => Selected(selection, searchText, b));
  }

  /** A band appended to the catalog is listed last when it passes the filters, and not at all otherwise. */
  lemma AppendedBandListedLast(bands: seq<Band>, b: Band, selection: Option<string>, searchText: string)
    ensures FilterBands(bands + [b], selection, searchText)
         == FilterBands(bands, selection, searchText) + (if Selected(selection, searchText, b) then [b] else [])
  {
    var selected := (b: Band) => Selected(selection, searchText, b);
    FilterBandsIsConjunction(bands + [b], selection, searchText);
    FilterBandsIsConjunction(bands, selection, searchText);
    FilterAppend(bands, [b], selected);
    assert [b][1..] == [];
  }

  /** `bands.map(b => b.genre)`. */
  function Genres(bands: seq<Band>): (r: seq<string>)
    ensures |r| == |bands|
    ensures forall k :: 0 <= k < |bands| ==> r[k] == bands[k].genre
  {
    seq(|bands|, k requires 0 <= k < |bands| => bands[k].genre)
  }

  /** The genres populateGenreFilter offers after "all": each genre of the catalog once. */
  function DistinctGenres(bands: seq<Band>): (r: seq<string>)
    ensures NoDuplicates(r)
    ensures forall k :: 0 <= k < |bands| ==> bands[k].genre in r
  {
    Distinct(Genres(bands))
  }

  /**
   * The genre list has no repeats, holds exactly the genres that occur in the catalog, and orders them
   * by the position of the first band of each genre.
   */
  lemma DistinctGenresSpec(bands: seq<Band>)
    ensures NoDuplicates(DistinctGenres(bands))
    ensures forall g :: g in DistinctGenres(bands) <==> exists k :: 0 <= k < |bands| && bands[k].genre == g
    ensures forall k, l :: 0 <= k < l < |DistinctGenres(bands)| ==>
      FirstIndex(Genres(bands), DistinctGenres(bands)[k]) < FirstIndex(Genres(bands), DistinctGenres(bands)[l])
  {
    var genres := Genres(bands);
    forall g ensures g in DistinctGenres(bands) <==> exists k :: 0 <= k < |bands| && bands[k].genre == g {
      if g in genres {
        var k := FirstIndex(genres, g);
        assert bands[k].genre == g;
      }
    }
    DistinctInFirstOccurrenceOrder(genres);
  }

  /** Adding a band adds its genre at the end of the genre list if it is new, and changes nothing otherwise. */
  lemma AppendedBandGenre(bands: seq<Band>, b: Band)
    ensures DistinctGenres(bands + [b])
         == if b.genre in DistinctGenres(bands) then DistinctGenres(bands) else DistinctGenres(bands) + [b.genre]
  {
    assert Genres(bands + [b]) == Genres(bands) + [b.genre];
    DistinctAppend(Genres(bands), b.genre);
  }

  /** The values of the genre selector's options: "all" first, then the catalog's genres. */
  function GenreOptions(bands: seq<Band>): (r: seq<string>)
    ensures |r| >= 1 && r[0] == AllGenres
    ensures r[1..] == DistinctGenres(bands)
  {
    [AllGenres] + DistinctGenres(bands)
  }

  /** No option of the genre selector, with an empty search, leads to an empty list in a non-empty catalog. */
  lemma EveryGenreOptionListsABand(bands: seq<Band>, option: string)
    requires bands != [] && option in GenreOptions(bands)
    ensures FilterBands(bands, Some(option), "") != []
  {
    if option != AllGenres {
      DistinctGenresSpec(bands);
      var k :| 0 <= k < |bands| && bands[k].genre == option;
      FilterBandsListsExactlySelected(bands, Some(option), "", bands[k]);
    }
  }

  /** The number of description characters a card shows before the ellipsis. */
  const PreviewLength: nat := 100
  const Ellipsis: string := "..."

  /**
   * The description shown on a card: a description longer than 100 characters is cut to its first 100
   * and followed by "...", a shorter one is shown whole.
   */
  function DescriptionPreview(description: string): (r: string)
    ensures |description| <= PreviewLength ==> r == description
    ensures |description| > PreviewLength ==>
      |r| == PreviewLength + |Ellipsis| && r[..PreviewLength] == description[..PreviewLength] && r[PreviewLength..] == Ellipsis
  {
    if |description| > PreviewLength then description[..PreviewLength] + Ellipsis else description
  }

  /** A preview is at most 103 characters long and starts with the description's first characters. */
  lemma PreviewBounded(description: string)
    ensures |DescriptionPreview(description)| <= PreviewLength + |Ellipsis|
    ensures var n := if |description| < PreviewLength then |description| else PreviewLength;
      DescriptionPreview(description)[..n] == description[..n]
  {
  }

  /** Previewing a preview changes nothing. */
  lemma PreviewIdempotent(description: string)
    ensures DescriptionPreview(DescriptionPreview(description)) == DescriptionPreview(description)
  {
  }

  /** The two bands the page falls back to when nothing is stored. */
  const SampleBands: seq<Band> := [
    Band("Imagine Dragons", "2008", "Поп-рок",
         "Американський гурт із Лас-Вегаса, відомий хітами Believer, Demons та Thunder.",
         "images/default_band.png", "https://www.youtube.com/embed/7wtfhZwyrcc"),
    Band("Coldplay", "1996", "Альтернативний рок",
         "Британський гурт із мелодійним звучанням та піснями Yellow, Viva La Vida, Paradise.",
         "images/default_band.png", "https://www.youtube.com/embed/dvgZkm1xWPE")
  ]

  /** "Imagine Dragons" does not contain "COLD", ignoring case. */
  lemma ImagineDragonsMissesCold()
    ensures !NameMatches("Imagine Dragons", "COLD")
  {
    assert Lower("COLD") == "cold";
    assert Lower("Imagine Dragons") == "imagine dragons";
    FirstCharAbsent(Lower("Imagine Dragons"), "cold");
  }

  /** "Coldplay" contains "COLD", ignoring case. */
  lemma ColdplayMatchesCold()
    ensures NameMatches("Coldplay", "COLD")
  {
    assert Lower("COLD") == "cold";
    assert Lower("Coldplay")[0..4] == "cold";
    assert OccursAt("cold", Lower("Coldplay"), 0);
  }

  /** On the sample catalog, searching "COLD" lists Coldplay only. */
  lemma SampleSearchScenario()
    ensures FilterBands(SampleBands, Some(AllGenres), "COLD") == [SampleBands[1]]
  {
    var selected := (b: Band) => Selected(Some(AllGenres), "COLD", b);
    ImagineDragonsMissesCold();
    ColdplayMatchesCold();
    var tail := SampleBands[1..];
    assert tail == [SampleBands[1]] && tail[1..] == [];
    FilterBandsIsConjunction(SampleBands, Some(AllGenres), "COLD");
  }

  /** On the sample catalog, each genre option lists its one band and the genres come in catalog order. */
  lemma SampleGenreScenario()
    ensures FilterBands(SampleBands, Some("Поп-рок"), "") == [SampleBands[0]]
    ensures DistinctGenres(SampleBands) == ["Поп-рок", "Альтернативний рок"]
  {
    var genres := ["Поп-рок", "Альтернативний рок"];
    assert SampleBands[1..][1..] == [];
    assert Genres(SampleBands) == genres;
    assert genres[..1][..0] == [];
    assert Distinct(genres[..1]) == ["Поп-рок"];
  }
}
