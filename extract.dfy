/**
 Record extraction: one decoded page body becomes a list of flat records,
 one per element of its `data` list, in order.
 */
module Extract {
  import opened Types

  /** Items per page of the listing API; the synthetic ids assume it. */
  const PageSize := 25

  /** What the genre names are joined with. */
  const GenreSeparator := ", "

  function TitlesOf(item: RawItem): seq<TitleVariant> {
    match item.titles
    case Some(vs) => vs
    case None => []
  }

  function GenresOf(item: RawItem): seq<Genre> {
    match item.genres
    case Some(gs) => gs
    case None => []
  }

  function ItemsOf(response: ApiResponse): seq<RawItem> {
    match response.data
    case Some(items) => items
    case None => []
  }

  // ---------------------------------------------------------------------------
  // Title: the first variant typed "Default", else the scalar title
  // ---------------------------------------------------------------------------

  predicate IsDefault(v: TitleVariant) {
    v.kind == Some("Default")
  }

  /** `i` is the position of the first variant typed "Default". */
  predicate IsFirstDefault(vs: seq<TitleVariant>, i: int) {
    0 <= i < |vs| && IsDefault(vs[i]) && forall j :: 0 <= j < i ==> !IsDefault(vs[j])
  }

  /** The lookup is lazy and stops at the first "Default" variant, so that
      variant, and no other, must carry a `'title'` key. */
  predicate TitlesWellFormed(vs: seq<TitleVariant>) {
    forall i :: 0 <= i < |vs| && IsFirstDefault(vs, i) ==> vs[i].title.Some?
  }

  lemma FirstDefaultShift(vs: seq<TitleVariant>)
    requires |vs| > 0 && !IsDefault(vs[0])
    ensures forall i :: IsFirstDefault(vs, i) ==> IsFirstDefault(vs[1..], i - 1)
    ensures forall i :: IsFirstDefault(vs[1..], i) ==> IsFirstDefault(vs, i + 1)
  {
    forall i | IsFirstDefault(vs[1..], i)
      ensures IsFirstDefault(vs, i + 1)
    {
      forall j | 0 <= j < i + 1
        ensures !IsDefault(vs[j])
      {
        if j > 0 { assert vs[j] == vs[1..][j - 1]; }
      }
    }
  }

  /** The title of the first "Default" variant (which may itself be null),
      or `fallback` when no variant is typed "Default". */
  function DefaultTitle(vs: seq<TitleVariant>, fallback: Option<string>): (r: Option<string>)
    requires TitlesWellFormed(vs)
    ensures forall i :: IsFirstDefault(vs, i) ==> vs[i].title == Some(r)
    ensures (forall i :: 0 <= i < |vs| ==> !IsDefault(vs[i])) ==> r == fallback
    decreases |vs|
  {
    if vs == [] then fallback
    else if IsDefault(vs[0]) then
      assert IsFirstDefault(vs, 0);
      vs[0].title.value
    else
      FirstDefaultShift(vs);
      DefaultTitle(vs[1..], fallback)
  }

  // ---------------------------------------------------------------------------
  // Genres: the names joined with ", "
  // ---------------------------------------------------------------------------

  predicate GenresWellFormed(gs: seq<Genre>) {
    forall i :: 0 <= i < |gs| ==> gs[i].name.Some?
  }

  function GenreNames(gs: seq<Genre>): (names: seq<string>)
    requires GenresWellFormed(gs)
    ensures |names| == |gs|
    ensures forall i :: 0 <= i < |gs| ==> gs[i].name == Some(names[i])
  {
    if gs == [] then [] else [gs[0].name.value] + GenreNames(gs[1..])
  }

  function TotalLength(parts: seq<string>): nat {
    if parts == [] then 0 else |parts[0]| + TotalLength(parts[1..])
  }

  /** `sep.join(parts)`: the parts in order with `sep` between neighbours. */
  function Join(parts: seq<string>, sep: string): string {
    if |parts| == 0 then ""
    else if |parts| == 1 then parts[0]
    else parts[0] + sep + Join(parts[1..], sep)
  }

  /** The joined string's length is the parts' total length plus one
      separator per neighbouring pair, and it begins with the first part; no
      parts give "". */
  lemma {:induction false} JoinLength(parts: seq<string>, sep: string)
    ensures parts == [] ==> Join(parts, sep) == ""
    ensures parts != [] ==> |Join(parts, sep)| == TotalLength(parts) + |sep| * (|parts| - 1)
    ensures parts != [] ==> Join(parts, sep)[..|parts[0]|] == parts[0]
    decreases |parts|
  {
    if |parts| > 1 {
      JoinLength(parts[1..], sep);
      assert |sep| * (|parts| - 1) == |sep| + |sep| * (|parts[1..]| - 1);
    }
  }

  /** Adding a part at the end adds the separator and that part: the
      left-to-right accumulation that `str.join` performs. */
  lemma {:induction false} JoinSnoc(parts: seq<string>, sep: string, last: string)
    requires parts != []
    ensures Join(parts + [last], sep) == Join(parts, sep) + sep + last
    decreases |parts|
  {
    if |parts| == 1 {
      assert parts + [last] == [parts[0], last];
    } else {
      assert (parts + [last])[1..] == parts[1..] + [last];
      JoinSnoc(parts[1..], sep, last);
    }
  }

  // ---------------------------------------------------------------------------
  // Records
  // ---------------------------------------------------------------------------

  predicate ItemWellFormed(item: RawItem) {
    TitlesWellFormed(TitlesOf(item)) && GenresWellFormed(GenresOf(item))
  }

  predicate AllWellFormed(items: seq<RawItem>) {
    forall i :: 0 <= i < |items| ==> ItemWellFormed(items[i])
  }

  /** The record for the item at zero-based position `index` of page `page`. */
  function ToRecord(item: RawItem, page: int, index: nat): Record
    requires ItemWellFormed(item)
  {
    Record(
      (page - 1) * PageSize + index + 1,
      DefaultTitle(TitlesOf(item), item.title),
      item.score,
      item.scoredBy,
      item.rank,
      item.popularity,
      item.members,
      item.favorites,
      Join(GenreNames(GenresOf(item)), GenreSeparator))
  }

  /** The records of one page, built by appending one record per item. */
  function Extraction(items: seq<RawItem>, page: int): (records: seq<Record>)
    requires AllWellFormed(items)
    ensures |records| == |items|
  {
    if items == [] then []
    else
      var n := |items| - 1;
      Extraction(items[..n], page) + [ToRecord(items[n], page, n)]
  }

  lemma {:induction false} ExtractionAt(items: seq<RawItem>, page: int, i: int)
    requires AllWellFormed(items)
    requires 0 <= i < |items|
    ensures Extraction(items, page)[i] == ToRecord(items[i], page, i)
    decreases |items|
  {
    var n := |items| - 1;
    PrefixWellFormed(items, n);
    var front := Extraction(items[..n], page);
    var last := ToRecord(items[n], page, n);
    assert Extraction(items, page) == front + [last];
    if i < n {
      ExtractionAt(items[..n], page, i);
      assert items[..n][i] == items[i];
      assert (front + [last])[i] == front[i];
    } else {
      assert (front + [last])[i] == last;
    }
  }

  lemma PrefixWellFormed(items: seq<RawItem>, n: nat)
    requires AllWellFormed(items) && n <= |items|
    ensures AllWellFormed(items[..n])
  {
    forall j | 0 <= j < n ensures ItemWellFormed(items[..n][j]) {
      assert items[..n][j] == items[j];
    }
  }

  /** Exactly one record per item, in item order, with the synthetic id, the
      resolved title, the joined genre names and the numeric fields unchanged. */
  lemma ExtractionSpec(items: seq<RawItem>, page: int)
    requires AllWellFormed(items)
    ensures |Extraction(items, page)| == |items|
    ensures forall i :: 0 <= i < |items| ==>
      var r := Extraction(items, page)[i];
      && r.id == (page - 1) * PageSize + i + 1
      && r.title == DefaultTitle(TitlesOf(items[i]), items[i].title)
      && r.genres == Join(GenreNames(GenresOf(items[i])), GenreSeparator)
      && r.score == items[i].score
      && r.scoredBy == items[i].scoredBy
      && r.rank == items[i].rank
      && r.popularity == items[i].popularity
      && r.members == items[i].members
      && r.favorites == items[i].favorites
  {
    forall i | 0 <= i < |items| ensures Extraction(items, page)[i] == ToRecord(items[i], page, i) {
      ExtractionAt(items, page, i);
    }
  }

  /** The ids of a page run contiguously upwards from `(page - 1) * 25 + 1`;
      with at most a page's worth of items they stay inside that page's
      window of 25 ids. */
  lemma PageIds(items: seq<RawItem>, page: int)
    requires AllWellFormed(items)
    ensures forall i :: 0 <= i < |items| ==> Extraction(items, page)[i].id == (page - 1) * PageSize + i + 1
    ensures forall i, j :: 0 <= i < j < |items| ==> Extraction(items, page)[i].id < Extraction(items, page)[j].id
    ensures |items| <= PageSize ==>
      forall i :: 0 <= i < |items| ==> (page - 1) * PageSize < Extraction(items, page)[i].id <= page * PageSize
  {
    ExtractionSpec(items, page);
  }

  /** `_extract_anime_data`: walks the `data` list (empty when the key is
      missing) and appends one record per item. */
  method ExtractAnimeData(response: ApiResponse, page: int) returns (records: seq<Record>)
    requires AllWellFormed(ItemsOf(response))
    ensures records == Extraction(ItemsOf(response), page)
    ensures response.data.None? ==> records == []
  {
    var items := ItemsOf(response);
    records := [];
    for index := 0 to |items|
      invariant records == Extraction(items[..index], page)
    {
      assert items[..index + 1][..index] == items[..index];
      records := records + [ToRecord(items[index], page, index)];
    }
    assert items[..|items|] == items;
  }

  /** Worked title and genre cases: a "Default" variant beats an earlier
      "Japanese" one, no "Default" variant falls back to the scalar title, and
      genres join with ", " (none give ""). */
  lemma TitleAndGenreExamples()
    ensures DefaultTitle([TitleVariant(Some("Japanese"), Some(Some("A"))),
                          TitleVariant(Some("Default"), Some(Some("B")))], None) == Some("B")
    ensures DefaultTitle([TitleVariant(Some("Japanese"), Some(Some("A")))], Some("C")) == Some("C")
    ensures Join(["Action", "Comedy"], GenreSeparator) == "Action, Comedy"
    ensures Join([], GenreSeparator) == ""
  {
  }
}
