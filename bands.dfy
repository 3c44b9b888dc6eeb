/** The add-band form handler: validate the trimmed fields and the chosen image, then append the band. */
module Bands {
  import opened Options
  import opened Text
  import opened Catalog

  /**
   * The band the handler builds from the raw form values, or None when a field is blank once trimmed
   * or no image file is chosen. `image` is the data URL the chosen file is read as.
   */
  function NewBand(name: string, year: string, genre: string, description: string, video: string,
                   image: Option<string>): (r: Option<Band>)
    ensures r.Some? <==>
      !IsBlank(name) && !IsBlank(year) && !IsBlank(genre) && !IsBlank(description) && !IsBlank(video) && image.Some?
    ensures r.Some? ==>
      r.value == Band(Trim(name), Trim(year), Trim(genre), Trim(description), image.value, Trim(video))
  {
    TrimSpec(name); TrimSpec(year); TrimSpec(genre); TrimSpec(description); TrimSpec(video);
    if Trim(name) == "" || Trim(year) == "" || Trim(genre) == "" || Trim(description) == "" || Trim(video) == ""
       || image.None?
    then None
    else Some(Band(Trim(name), Trim(year), Trim(genre), Trim(description), image.value, Trim(video)))
  }

  /** The "bands" list held in local storage. */
  class BandStore {
    var bands: seq<Band>

    constructor (stored: seq<Band>)
      ensures bands == stored
    {
      bands := stored;
    }

    /** The submit handler of the add-band form; no check is made for a band of the same name. */
    method AddBand(name: string, year: string, genre: string, description: string, video: string,
                   image: Option<string>) returns (added: bool)
      modifies this
      ensures added == NewBand(name, year, genre, description, video, image).Some?
      ensures bands == if added then old(bands) + [NewBand(name, year, genre, description, video, image).value]
                       else old(bands)
    {
      var n, y, g := Trim(name), Trim(year), Trim(genre);
      var d, v := Trim(description), Trim(video);
      if n == "" || y == "" || g == "" || d == "" || v == "" || image.None? {
        return false;
      }
      var list := bands;
      list := list + [Band(n, y, g, d, image.value, v)];
      bands := list;
      added := true;
    }
  }

  /** A band the form adds is listed last when its genre is selected and the search text is empty. */
  lemma AddedBandIsListed(bands: seq<Band>, name: string, year: string, genre: string, description: string,
                          video: string, image: Option<string>)
    requires NewBand(name, year, genre, description, video, image).Some?
    ensures var b := NewBand(name, year, genre, description, video, image).value;
      FilterBands(bands + [b], Some(b.genre), "") == FilterBands(bands, Some(b.genre), "") + [b]
  {
    var b := NewBand(name, year, genre, description, video, image).value;
    AppendedBandListedLast(bands, b, Some(b.genre), "");
  }

  /** A complete form adds a band even when one of the same name is already in the store. */
  method SameNameTwice(store: BandStore, name: string, year: string, genre: string, description: string,
                       video: string, image: string)
    requires NewBand(name, year, genre, description, video, Some(image)).Some?
    modifies store
  {
    var first := store.AddBand(name, year, genre, description, video, Some(image));
    var second := store.AddBand(name, year, genre, description, video, Some(image));
    assert first && second;
    assert store.bands[|store.bands| - 1].name == store.bands[|store.bands| - 2].name;
  }
}
