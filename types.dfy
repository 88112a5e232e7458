/**
 Decoded JSON as the scraper sees it, and the flat record it produces.

 Python's `dict.get(key)` answers `None` both for a missing key and for a
 JSON `null`; an `Option` field stands for that answer, its value narrowed to
 the type the API documents for the field. A list field
 read with `dict.get(key, [])` is an `Option<seq<…>>` whose `None` is the
 missing key.
 */
module Types {

  datatype Option<+T> = None | Some(value: T)

  /** One entry of an anime's `titles` list. `kind` is `entry.get('type')`.
      `title` is the `'title'` key: the outer `None` is a missing key (the
      source indexes it with `[]`, so reaching it raises), `Some(None)` is a
      JSON null. */
  datatype TitleVariant = TitleVariant(kind: Option<string>, title: Option<Option<string>>)

  /** One entry of an anime's `genres` list; `None` is a `'name'` key that is
      missing or not a string (either makes the source raise). */
  datatype Genre = Genre(name: Option<string>)

  /** One element of the response's `data` list. */
  datatype RawItem = RawItem(
    titles: Option<seq<TitleVariant>>,
    title: Option<string>,
    score: Option<real>,
    scoredBy: Option<int>,
    rank: Option<int>,
    popularity: Option<int>,
    members: Option<int>,
    favorites: Option<int>,
    genres: Option<seq<Genre>>)

  /** A decoded page body; `data` is `None` when the key is missing. */
  datatype ApiResponse = ApiResponse(data: Option<seq<RawItem>>)

  /** The nine-field output record, in the field order the exporters use. */
  datatype Record = Record(
    id: int,
    title: Option<string>,
    score: Option<real>,
    scoredBy: Option<int>,
    rank: Option<int>,
    popularity: Option<int>,
    members: Option<int>,
    favorites: Option<int>,
    genres: string)
}
