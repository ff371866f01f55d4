/** The genres repository (database/repositories/genres.py): the lookup of genres by a set of ids. */
module GenresRepo {
  import opened Wrappers
  import opened Tables
  import opened Entities

  /** Genre rows as entities, in order. */
  function ToGenres(rows: seq<NamedRow>): (genres: seq<Genre>)
    ensures |genres| == |rows|
    ensures forall k :: 0 <= k < |rows| ==> genres[k] == Genre(Some(rows[k].id), Some(rows[k].name))
  {
    seq(|rows|, k requires 0 <= k < |rows| => Genre(Some(rows[k].id), Some(rows[k].name)))
  }

  /**
   * The genres whose id is one of `genreIds`, each with the id and name of
   * its row; ids without a row are left out silently.
   */
  function GetGenres(table: seq<NamedRow>, genreIds: seq<int>): (r: seq<Genre>)
    ensures forall g :: g in r <==>
      exists row :: row in table && row.id in genreIds && g == Genre(Some(row.id), Some(row.name))
    ensures genreIds == [] ==> r == []
  {
    var rows := SelectByIds(table, genreIds);
    assert genreIds == [] ==> rows == [] by {
      if genreIds == [] {
        FilterKeepsNone(table, IdIn(genreIds));
      }
    }
    assert forall g :: g in ToGenres(rows) ==> exists k :: 0 <= k < |rows| && g == ToGenres(rows)[k];
    ToGenres(rows)
  }

  /** One genre per distinct requested id that has a row, so never more than the distinct ids. */
  lemma GetGenresCount(table: seq<NamedRow>, genreIds: seq<int>)
    requires Distinct(NamedKeys(table))
    ensures |GetGenres(table, genreIds)| == |ToSet(NamedKeys(table)) * ToSet(genreIds)|
    ensures |GetGenres(table, genreIds)| <= |ToSet(genreIds)| <= |genreIds|
  {
    SelectCount(table, genreIds);
    IntersectionCard(ToSet(genreIds), ToSet(NamedKeys(table)));
    assert ToSet(NamedKeys(table)) * ToSet(genreIds) == ToSet(genreIds) * ToSet(NamedKeys(table));
    DistinctCard(genreIds);
  }
}
