/**
 * What the movies repository (database/repositories/movies.py) does to the
 * store, as functions from the tables before a call to the tables after it,
 * with the properties of each: the reading of a movie with its actors and
 * genres, the existence checks, and the effect of create, edit and delete.
 */
module MovieStore {
  import opened Wrappers
  import opened Tables
  import opened Entities
  import opened ActorsRepo
  import opened GenresRepo

  const MissingActors: string := "Some actors don't exist"
  const MissingGenres: string := "Some genres don't exist"

  // ----- reading a movie -----

  /**
   * The rows named by `ids`, in order; an id with no row is skipped, as the
   * inner join of the relationship load skips it.
   */
  function Resolve(named: seq<NamedRow>, ids: seq<int>): (r: seq<NamedRow>)
    ensures |r| <= |ids|
    ensures forall x :: x in r ==> x in named && x.id in ids
  {
    if ids == [] then []
    else
      (match FindNamed(named, ids[0]) case Some(x) => [x] case None => []) + Resolve(named, ids[1..])
  }

  /** With unique ids, the resolved rows are exactly the stored rows whose id is asked for. */
  lemma {:induction false} ResolveMembers(named: seq<NamedRow>, ids: seq<int>)
    requires Distinct(NamedKeys(named))
    ensures forall x :: x in Resolve(named, ids) <==> x in named && x.id in ids
  {
    if ids != [] {
      ResolveMembers(named, ids[1..]);
      forall x | x in named && x.id in ids ensures x in Resolve(named, ids) {
        if x.id == ids[0] {
          FindNamedUnique(named, x);
        } else {
          assert x.id in ids[1..];
        }
      }
    }
  }

  /** When every id names a stored row, resolving keeps every id, in order. */
  lemma {:induction false} ResolveAllStored(named: seq<NamedRow>, ids: seq<int>)
    requires forall k :: 0 <= k < |ids| ==> ids[k] in NamedKeys(named)
    ensures NamedKeys(Resolve(named, ids)) == ids
  {
    if ids != [] {
      var tail := ids[1..];
      assert forall k :: 0 <= k < |tail| ==> tail[k] == ids[k + 1];
      ResolveAllStored(named, tail);
      ResolveStep(named, ids, FindNamed(named, ids[0]).value);
    }
  }

  /** One step of `ResolveAllStored`: a stored first id comes out in front of the rest. */
  lemma ResolveStep(named: seq<NamedRow>, ids: seq<int>, x: NamedRow)
    requires ids != [] && FindNamed(named, ids[0]) == Some(x)
    requires NamedKeys(Resolve(named, ids[1..])) == ids[1..]
    ensures NamedKeys(Resolve(named, ids)) == ids
  {
    var rest := Resolve(named, ids[1..]);
    calc {
      NamedKeys(Resolve(named, ids));
      NamedKeys([x] + rest);
      { NamedKeysPrepend(x, rest); }
      [x.id] + NamedKeys(rest);
      [ids[0]] + ids[1..];
      ids;
    }
  }

  /** The rows of `actor` (or `genre`) linked to a movie through its join rows. */
  function LinkedRows(named: seq<NamedRow>, links: seq<LinkRow>, movieId: int): seq<NamedRow> {
    Resolve(named, RefIds(Filter(links, OfMovie(movieId))))
  }

  /** `_model_to_entity`: a movie row with the actors and genres linked to it. */
  function ToEntity(s: Store, row: MovieRow): (m: Movie)
    ensures m.id == Some(row.id) && m.title == row.title && m.year == row.year
  {
    Movie(row.title, row.year, Some(row.id),
          ToActors(LinkedRows(s.actors, s.actorMovies, row.id)),
          ToGenres(LinkedRows(s.genres, s.genreMovies, row.id)))
  }

  /** `get_movie`: nothing when no movie row has the id, else the movie with its relations. */
  function Fetch(s: Store, movieId: int): (r: Option<Movie>)
    ensures r.None? <==> movieId !in MovieKeys(s.movies)
    ensures r.Some? ==> exists row :: row in s.movies && row.id == movieId && r.value == ToEntity(s, row)
  {
    match FindMovie(s.movies, movieId)
    case None => None
    case Some(row) => Some(ToEntity(s, row))
  }

  /**
   * A fetched movie has the title and year of its row, and its actors (and
   * genres) are exactly the stored rows that one of its join rows links.
   */
  lemma FetchMeaning(s: Store, movieId: int, row: MovieRow)
    requires s.Valid() && row in s.movies && row.id == movieId
    ensures Fetch(s, movieId).Some?
    ensures var m := Fetch(s, movieId).value;
      && m.id == Some(movieId) && m.title == row.title && m.year == row.year
      && (forall a :: a in m.actors <==>
            exists x, l :: x in s.actors && l in s.actorMovies && l.movieId == movieId && l.refId == x.id
                        && a == Actor(Some(x.id), Some(x.name)))
      && (forall g :: g in m.genres <==>
            exists x, l :: x in s.genres && l in s.genreMovies && l.movieId == movieId && l.refId == x.id
                        && g == Genre(Some(x.id), Some(x.name)))
  {
    FindMovieUnique(s.movies, row);
    var m := Fetch(s, movieId).value;
    LinkedMembers(s.actors, s.actorMovies, movieId);
    LinkedMembers(s.genres, s.genreMovies, movieId);
    var actorRows := LinkedRows(s.actors, s.actorMovies, movieId);
    var genreRows := LinkedRows(s.genres, s.genreMovies, movieId);
    assert m.actors == ToActors(actorRows) && m.genres == ToGenres(genreRows);
    ActorsOfRows(actorRows);
    GenresOfRows(genreRows);
  }

  /** The actors built from rows are exactly the rows' ids and names. */
  lemma ActorsOfRows(rows: seq<NamedRow>)
    ensures forall a :: a in ToActors(rows) <==> exists x :: x in rows && a == Actor(Some(x.id), Some(x.name))
  {
    var actors := ToActors(rows);
    forall a ensures a in actors <==> exists x :: x in rows && a == Actor(Some(x.id), Some(x.name)) {
      if a in actors {
        var k :| 0 <= k < |actors| && actors[k] == a;
        assert rows[k] in rows;
      }
    }
  }

  /** The genres built from rows are exactly the rows' ids and names. */
  lemma GenresOfRows(rows: seq<NamedRow>)
    ensures forall g :: g in ToGenres(rows) <==> exists x :: x in rows && g == Genre(Some(x.id), Some(x.name))
  {
    var genres := ToGenres(rows);
    forall g ensures g in genres <==> exists x :: x in rows && g == Genre(Some(x.id), Some(x.name)) {
      if g in genres {
        var k :| 0 <= k < |genres| && genres[k] == g;
        assert rows[k] in rows;
      }
    }
  }

  /** A row is linked to a movie iff it is stored and one of the movie's join rows names it. */
  lemma LinkedMembers(named: seq<NamedRow>, links: seq<LinkRow>, movieId: int)
    requires Distinct(NamedKeys(named))
    ensures forall x :: x in LinkedRows(named, links, movieId) <==>
      x in named && exists l :: l in links && l.movieId == movieId && l.refId == x.id
  {
    var own := Filter(links, OfMovie(movieId));
    ResolveMembers(named, RefIds(own));
    forall x | x in named
      ensures x.id in RefIds(own) <==> exists l :: l in links && l.movieId == movieId && l.refId == x.id
    {
      if x.id in RefIds(own) {
        var k :| 0 <= k < |own| && RefIds(own)[k] == x.id;
        assert own[k] in own;
      }
      if exists l :: l in links && l.movieId == movieId && l.refId == x.id {
        var l :| l in links && l.movieId == movieId && l.refId == x.id;
        assert l in own;
        var k :| 0 <= k < |own| && own[k] == l;
        assert RefIds(own)[k] == x.id;
      }
    }
  }

  // ----- existence checks -----

  /** `_check_for_actor_existence` passes: the lookup finds no fewer actors than were given. */
  predicate ActorsFound(s: Store, actors: seq<Actor>) {
    !(|GetActors(s.actors, KnownIds(ActorIds(actors)))| < |actors|)
  }

  /** `_check_for_genre_existence` passes. */
  predicate GenresFound(s: Store, genres: seq<Genre>) {
    !(|GetGenres(s.genres, KnownIds(GenreIds(genres)))| < |genres|)
  }

  /** Every reference is present, names a stored row, and none is repeated. */
  ghost predicate References(named: seq<NamedRow>, ids: seq<Option<int>>) {
    && (forall k :: 0 <= k < |ids| ==> ids[k].Some? && ids[k].value in NamedKeys(named))
    && Distinct(ids)
  }

  /** The error the two checks raise, actors first; none when both pass. */
  function ExistenceError(s: Store, movie: Movie): (e: Option<ObjectDoesNotExistError>)
    ensures e.None? <==> ActorsFound(s, movie.actors) && GenresFound(s, movie.genres)
    ensures e.Some? ==> e.value.message in {MissingActors, MissingGenres}
    ensures e == Some(ObjectDoesNotExistError(MissingActors)) <==> !ActorsFound(s, movie.actors)
    ensures e == Some(ObjectDoesNotExistError(MissingGenres)) <==>
      ActorsFound(s, movie.actors) && !GenresFound(s, movie.genres)
  {
    if !ActorsFound(s, movie.actors) then Some(ObjectDoesNotExistError(MissingActors))
    else if !GenresFound(s, movie.genres) then Some(ObjectDoesNotExistError(MissingGenres))
    else None
  }

  /**
   * The count checks pass iff every actor id and every genre id names a
   * stored row and no id is repeated; a failing actor check is reported
   * before the genres are looked at.
   */
  lemma ExistenceCheckIff(s: Store, movie: Movie)
    requires s.Valid()
    ensures ActorsFound(s, movie.actors) <==> References(s.actors, ActorIds(movie.actors))
    ensures GenresFound(s, movie.genres) <==> References(s.genres, GenreIds(movie.genres))
    ensures ExistenceError(s, movie) == Some(ObjectDoesNotExistError(MissingActors))
        <==> !References(s.actors, ActorIds(movie.actors))
    ensures ExistenceError(s, movie) == Some(ObjectDoesNotExistError(MissingGenres))
        <==> References(s.actors, ActorIds(movie.actors)) && !References(s.genres, GenreIds(movie.genres))
  {
    CountCheckIff(s.actors, ActorIds(movie.actors));
    CountCheckIff(s.genres, GenreIds(movie.genres));
  }

  // ----- writing -----

  /** The id `create_movie` gives the new movie. */
  function NewMovieId(s: Store): (id: int)
    ensures id !in MovieKeys(s.movies)
  {
    NextId(MovieKeys(s.movies))
  }

  /**
   * `_create_actor_relations` / `_create_genre_relations`: one new join row
   * per id, in order, each for `movieId` and with a fresh surrogate id.
   */
  function AddLinks(links: seq<LinkRow>, movieId: int, refIds: seq<int>): (r: seq<LinkRow>)
    ensures |r| == |links| + |refIds|
    ensures r[..|links|] == links
    ensures forall k :: |links| <= k < |r| ==> r[k].refId == refIds[k - |links|] && r[k].movieId == movieId
    ensures Distinct(LinkKeys(links)) ==> Distinct(LinkKeys(r))
  {
    if refIds == [] then links
    else
      var n := |refIds| - 1;
      var prev := AddLinks(links, movieId, refIds[..n]);
      var row := LinkRow(NextId(LinkKeys(prev)), refIds[n], movieId);
      var r := prev + [row];
      assert forall k :: |links| <= k < |prev| ==> r[k] == prev[k] && refIds[..n][k - |links|] == refIds[k - |links|];
      assert r[|links| + n] == row;
      assert LinkKeys(r) == LinkKeys(prev) + [row.id];
      assert r[..|links|] == prev[..|links|];
      assert Distinct(LinkKeys(links)) ==> Distinct(LinkKeys(r)) by {
        if Distinct(LinkKeys(links)) {
          DistinctAppend(LinkKeys(prev), row.id);
        }
      }
      r
  }

  /** Adding the rows for one more id appends one row for it, with the next surrogate id. */
  lemma AddLinksStep(links: seq<LinkRow>, movieId: int, refIds: seq<int>, i: nat)
    requires i < |refIds|
    ensures var prev := AddLinks(links, movieId, refIds[..i]);
      AddLinks(links, movieId, refIds[..i + 1]) == prev + [LinkRow(NextId(LinkKeys(prev)), refIds[i], movieId)]
  {
    assert refIds[..i + 1][..i] == refIds[..i];
  }

  /** The rows `AddLinks` appends all belong to `movieId` and link exactly `refIds`, in order. */
  lemma AddedLinks(links: seq<LinkRow>, movieId: int, refIds: seq<int>)
    ensures var r := AddLinks(links, movieId, refIds);
      && r == links + r[|links|..]
      && (forall l :: l in r[|links|..] ==> l.movieId == movieId)
      && RefIds(r[|links|..]) == refIds
  {
    var r := AddLinks(links, movieId, refIds);
    var added := r[|links|..];
    assert r == links + added;
    assert forall k :: 0 <= k < |added| ==> added[k] == r[|links| + k];
    assert RefIds(added) == refIds by {
      forall k | 0 <= k < |added| ensures RefIds(added)[k] == refIds[k] {
        assert added[k] == r[|links| + k];
      }
    }
  }

  /** The join rows added for a movie link exactly the given ids, and no other movie's join rows change. */
  lemma AddLinksFilter(links: seq<LinkRow>, movieId: int, refIds: seq<int>, m: int)
    ensures m == movieId ==>
      RefIds(Filter(AddLinks(links, movieId, refIds), OfMovie(m))) == RefIds(Filter(links, OfMovie(m))) + refIds
    ensures m != movieId ==>
      Filter(AddLinks(links, movieId, refIds), OfMovie(m)) == Filter(links, OfMovie(m))
    ensures Filter(AddLinks(links, movieId, refIds), NotOfMovie(movieId)) == Filter(links, NotOfMovie(movieId))
  {
    var added := AddLinks(links, movieId, refIds)[|links|..];
    AddedLinks(links, movieId, refIds);
    FilterConcat(links, added, OfMovie(m));
    FilterConcat(links, added, NotOfMovie(movieId));
    FilterKeepsNone(added, NotOfMovie(movieId));
    if m == movieId {
      FilterKeepsAll(added, OfMovie(m));
      RefIdsConcat(Filter(links, OfMovie(m)), added);
    } else {
      FilterKeepsNone(added, OfMovie(m));
    }
  }

  /** Every join row after `AddLinks` was there before or is one of the new rows of `movieId`. */
  lemma AddLinksMembers(links: seq<LinkRow>, movieId: int, refIds: seq<int>)
    ensures forall l :: l in AddLinks(links, movieId, refIds) ==> l in links || l.movieId == movieId
  {
    var r := AddLinks(links, movieId, refIds);
    forall l | l in r ensures l in links || l.movieId == movieId {
      var k :| 0 <= k < |r| && r[k] == l;
      if k < |links| {
        assert r[..|links|][k] == l;
      } else {
        assert r[k].movieId == movieId;
      }
    }
  }

  /** `create_movie` once both checks have passed. */
  function CreateSpec(s: Store, movie: Movie): Store {
    var id := NewMovieId(s);
    s.(movies := s.movies + [MovieRow(id, movie.title, movie.year)],
       actorMovies := AddLinks(s.actorMovies, id, KnownIds(ActorIds(movie.actors))),
       genreMovies := AddLinks(s.genreMovies, id, KnownIds(GenreIds(movie.genres))))
  }

  /** A store whose tables are those `CreateSpec` gives, field by field, is the store `CreateSpec` gives. */
  lemma CreateSpecFields(s: Store, movie: Movie, s': Store)
    requires s'.movies == s.movies + [MovieRow(NewMovieId(s), movie.title, movie.year)]
    requires s'.actors == s.actors && s'.genres == s.genres
    requires s'.actorMovies == AddLinks(s.actorMovies, NewMovieId(s), KnownIds(ActorIds(movie.actors)))
    requires s'.genreMovies == AddLinks(s.genreMovies, NewMovieId(s), KnownIds(GenreIds(movie.genres)))
    ensures s' == CreateSpec(s, movie)
  {
  }

  /** The rows of `movie` with the title and year of movie `id` replaced. */
  function Retitle(rows: seq<MovieRow>, id: int, title: string, year: int): (r: seq<MovieRow>)
    ensures |r| == |rows| && MovieKeys(r) == MovieKeys(rows)
    ensures forall k :: 0 <= k < |rows| ==>
      r[k] == if rows[k].id == id then MovieRow(id, title, year) else rows[k]
  {
    seq(|rows|, k requires 0 <= k < |rows| =>
      if rows[k].id == id then MovieRow(id, title, year) else rows[k])
  }

  /** `edit_movie` on a stored movie once both checks have passed. */
  function EditSpec(s: Store, id: int, movie: Movie): Store {
    s.(movies := Retitle(s.movies, id, movie.title, movie.year),
       actorMovies := AddLinks(Filter(s.actorMovies, NotOfMovie(id)), id, KnownIds(ActorIds(movie.actors))),
       genreMovies := AddLinks(Filter(s.genreMovies, NotOfMovie(id)), id, KnownIds(GenreIds(movie.genres))))
  }

  /** A store whose tables are those `EditSpec` gives, field by field, is the store `EditSpec` gives. */
  lemma EditSpecFields(s: Store, id: int, movie: Movie, s': Store)
    requires s'.movies == Retitle(s.movies, id, movie.title, movie.year)
    requires s'.actors == s.actors && s'.genres == s.genres
    requires s'.actorMovies == AddLinks(Filter(s.actorMovies, NotOfMovie(id)), id, KnownIds(ActorIds(movie.actors)))
    requires s'.genreMovies == AddLinks(Filter(s.genreMovies, NotOfMovie(id)), id, KnownIds(GenreIds(movie.genres)))
    ensures s' == EditSpec(s, id, movie)
  {
  }

  /** `delete_movie`: the movie's join rows, then the movie row. */
  function DeleteSpec(s: Store, id: int): Store {
    s.(actorMovies := Filter(s.actorMovies, NotOfMovie(id)),
       genreMovies := Filter(s.genreMovies, NotOfMovie(id)),
       movies := Filter(s.movies, OtherMovie(id)))
  }

  // ----- properties of the writes -----

  /** No join row of a valid store belongs to a movie id that is not stored. */
  lemma NoLinksOfAbsent(links: seq<LinkRow>, movies: seq<MovieRow>, id: int)
    requires forall l :: l in links ==> l.movieId in MovieKeys(movies)
    requires id !in MovieKeys(movies)
    ensures Filter(links, OfMovie(id)) == []
    ensures Filter(links, NotOfMovie(id)) == links
  {
    FilterKeepsNone(links, OfMovie(id));
    FilterKeepsAll(links, NotOfMovie(id));
  }

  /** Resolving checked references gives back one entity per reference, with the same ids in the same order. */
  lemma ResolvedIds(named: seq<NamedRow>, ids: seq<Option<int>>)
    requires References(named, ids)
    ensures ActorIds(ToActors(Resolve(named, KnownIds(ids)))) == ids
    ensures GenreIds(ToGenres(Resolve(named, KnownIds(ids)))) == ids
  {
    var known := KnownIds(ids);
    ResolveAllStored(named, known);
    var rows := Resolve(named, known);
    assert |rows| == |ids|;
    forall k | 0 <= k < |ids| ensures ActorIds(ToActors(rows))[k] == ids[k] && GenreIds(ToGenres(rows))[k] == ids[k] {
      assert NamedKeys(rows)[k] == known[k];
    }
  }

  /** Create keeps the store valid. */
  lemma CreateValid(s: Store, movie: Movie)
    requires s.Valid()
    ensures CreateSpec(s, movie).Valid()
  {
    var id := NewMovieId(s);
    var s' := CreateSpec(s, movie);
    assert MovieKeys(s'.movies) == MovieKeys(s.movies) + [id];
    DistinctAppend(MovieKeys(s.movies), id);
    AddLinksMembers(s.actorMovies, id, KnownIds(ActorIds(movie.actors)));
    AddLinksMembers(s.genreMovies, id, KnownIds(GenreIds(movie.genres)));
  }

  /**
   * Create adds exactly one movie row, with a fresh id and the given title and
   * year, and one join row per given actor and per given genre, each for the
   * new movie; no other row changes.
   */
  lemma CreateAddsExactly(s: Store, movie: Movie)
    requires s.Valid()
    ensures var id, s' := NewMovieId(s), CreateSpec(s, movie);
      && id !in MovieKeys(s.movies)
      && s'.movies == s.movies + [MovieRow(id, movie.title, movie.year)]
      && s'.actors == s.actors && s'.genres == s.genres
      && Filter(s'.actorMovies, NotOfMovie(id)) == s.actorMovies
      && Filter(s'.genreMovies, NotOfMovie(id)) == s.genreMovies
      && RefIds(Filter(s'.actorMovies, OfMovie(id))) == KnownIds(ActorIds(movie.actors))
      && RefIds(Filter(s'.genreMovies, OfMovie(id))) == KnownIds(GenreIds(movie.genres))
  {
    var id := NewMovieId(s);
    NoLinksOfAbsent(s.actorMovies, s.movies, id);
    NoLinksOfAbsent(s.genreMovies, s.movies, id);
    AddLinksFilter(s.actorMovies, id, KnownIds(ActorIds(movie.actors)), id);
    AddLinksFilter(s.genreMovies, id, KnownIds(GenreIds(movie.genres)), id);
    assert RefIds([]) == [];
  }

  /**
   * Round trip: reading the movie that create made gives back its title and
   * year and the same actor ids and genre ids (in any order).
   */
  lemma CreateThenFetch(s: Store, movie: Movie)
    requires s.Valid() && ExistenceError(s, movie).None?
    ensures var m := Fetch(CreateSpec(s, movie), NewMovieId(s));
      && m.Some?
      && m.value.id == Some(NewMovieId(s))
      && m.value.title == movie.title && m.value.year == movie.year
      && multiset(ActorIds(m.value.actors)) == multiset(ActorIds(movie.actors))
      && multiset(GenreIds(m.value.genres)) == multiset(GenreIds(movie.genres))
  {
    var id := NewMovieId(s);
    var s' := CreateSpec(s, movie);
    var row := MovieRow(id, movie.title, movie.year);
    CreateValid(s, movie);
    CreateAddsExactly(s, movie);
    ExistenceCheckIff(s, movie);
    assert row in s'.movies;
    FindMovieUnique(s'.movies, row);
    ResolvedIds(s.actors, ActorIds(movie.actors));
    ResolvedIds(s.genres, GenreIds(movie.genres));
  }

  /** Reading back the row create added gives the movie built from it. */
  lemma CreateFetchRow(s: Store, movie: Movie, s': Store)
    requires s.Valid() && s' == CreateSpec(s, movie)
    ensures Fetch(s', NewMovieId(s)) == Some(ToEntity(s', MovieRow(NewMovieId(s), movie.title, movie.year)))
  {
    CreateValid(s, movie);
    assert s'.movies[|s.movies|] == MovieRow(NewMovieId(s), movie.title, movie.year);
    FindMovieUnique(s'.movies, MovieRow(NewMovieId(s), movie.title, movie.year));
  }

  /** Removing a movie's join rows, then adding rows for it, leaves other movies' join rows as they were. */
  lemma ReplaceLinksFilter(links: seq<LinkRow>, id: int, refIds: seq<int>, m: int)
    ensures m == id ==> RefIds(Filter(AddLinks(Filter(links, NotOfMovie(id)), id, refIds), OfMovie(m))) == refIds
    ensures m != id ==> Filter(AddLinks(Filter(links, NotOfMovie(id)), id, refIds), OfMovie(m)) == Filter(links, OfMovie(m))
  {
    var kept := Filter(links, NotOfMovie(id));
    AddLinksFilter(kept, id, refIds, m);
    if m == id {
      FilterKeepsNone(kept, OfMovie(m));
      assert RefIds([]) == [];
    } else {
      FilterFilter(links, NotOfMovie(id), OfMovie(m), OfMovie(m));
    }
  }

  /** Edit keeps the store valid. */
  lemma EditValid(s: Store, id: int, movie: Movie)
    requires s.Valid() && id in MovieKeys(s.movies)
    ensures EditSpec(s, id, movie).Valid()
  {
    var kept := Filter(s.actorMovies, NotOfMovie(id));
    var keptG := Filter(s.genreMovies, NotOfMovie(id));
    FilterKeys(s.actorMovies, NotOfMovie(id));
    FilterKeys(s.genreMovies, NotOfMovie(id));
    AddLinksMembers(kept, id, KnownIds(ActorIds(movie.actors)));
    AddLinksMembers(keptG, id, KnownIds(GenreIds(movie.genres)));
  }

  /** Filtering a table with distinct keys keeps its keys distinct. */
  lemma {:induction false} FilterKeys(links: seq<LinkRow>, keep: LinkRow -> bool)
    requires Distinct(LinkKeys(links))
    ensures Distinct(LinkKeys(Filter(links, keep)))
  {
    if links != [] {
      var x, tail := links[0], links[1..];
      assert LinkKeys(links) == [x.id] + LinkKeys(tail);
      DistinctTail(LinkKeys(links));
      FilterKeys(tail, keep);
      var rest := Filter(tail, keep);
      if keep(x) {
        assert LinkKeys([x] + rest) == [x.id] + LinkKeys(rest);
        LinkKeysOfPart(rest, tail);
        DistinctPrepend(LinkKeys(rest), x.id);
      } else {
        assert [] + rest == rest;
      }
    }
  }

  /**
   * After an edit the movie's join rows link exactly the given actors and
   * genres (the old links are gone, not merged), and the join rows of every
   * other movie are untouched; the title and year are set by `Retitle`.
   */
  lemma EditReplaces(s: Store, id: int, movie: Movie)
    ensures var s' := EditSpec(s, id, movie);
      && RefIds(Filter(s'.actorMovies, OfMovie(id))) == KnownIds(ActorIds(movie.actors))
      && RefIds(Filter(s'.genreMovies, OfMovie(id))) == KnownIds(GenreIds(movie.genres))
      && (forall m :: m != id ==> Filter(s'.actorMovies, OfMovie(m)) == Filter(s.actorMovies, OfMovie(m)))
      && (forall m :: m != id ==> Filter(s'.genreMovies, OfMovie(m)) == Filter(s.genreMovies, OfMovie(m)))
  {
    var s' := EditSpec(s, id, movie);
    ReplaceLinksFilter(s.actorMovies, id, KnownIds(ActorIds(movie.actors)), id);
    ReplaceLinksFilter(s.genreMovies, id, KnownIds(GenreIds(movie.genres)), id);
    forall m | m != id
      ensures Filter(s'.actorMovies, OfMovie(m)) == Filter(s.actorMovies, OfMovie(m))
      ensures Filter(s'.genreMovies, OfMovie(m)) == Filter(s.genreMovies, OfMovie(m))
    {
      ReplaceLinksFilter(s.actorMovies, id, KnownIds(ActorIds(movie.actors)), m);
      ReplaceLinksFilter(s.genreMovies, id, KnownIds(GenreIds(movie.genres)), m);
    }
  }

  /** Reading back the edited movie gives the movie built from its new row. */
  lemma EditFetchRow(s: Store, id: int, movie: Movie, s': Store)
    requires s.Valid() && id in MovieKeys(s.movies) && s' == EditSpec(s, id, movie)
    ensures Fetch(s', id) == Some(ToEntity(s', MovieRow(id, movie.title, movie.year)))
  {
    EditValid(s, id, movie);
    var k :| 0 <= k < |s.movies| && MovieKeys(s.movies)[k] == id;
    assert s'.movies[k] == MovieRow(id, movie.title, movie.year);
    FindMovieUnique(s'.movies, s'.movies[k]);
  }

  /** Reading a movie after a successful edit gives the new title, year, actor ids and genre ids. */
  lemma EditThenFetch(s: Store, id: int, movie: Movie)
    requires s.Valid() && id in MovieKeys(s.movies) && ExistenceError(s, movie).None?
    ensures var m := Fetch(EditSpec(s, id, movie), id);
      && m.Some?
      && m.value.id == Some(id)
      && m.value.title == movie.title && m.value.year == movie.year
      && multiset(ActorIds(m.value.actors)) == multiset(ActorIds(movie.actors))
      && multiset(GenreIds(m.value.genres)) == multiset(GenreIds(movie.genres))
  {
    var s' := EditSpec(s, id, movie);
    EditValid(s, id, movie);
    EditReplaces(s, id, movie);
    ExistenceCheckIff(s, movie);
    var k :| 0 <= k < |s.movies| && MovieKeys(s.movies)[k] == id;
    assert s'.movies[k] == MovieRow(id, movie.title, movie.year);
    FindMovieUnique(s'.movies, s'.movies[k]);
    ResolvedIds(s.actors, ActorIds(movie.actors));
    ResolvedIds(s.genres, GenreIds(movie.genres));
  }

  /** Delete keeps the store valid. */
  lemma DeleteValid(s: Store, id: int)
    requires s.Valid()
    ensures DeleteSpec(s, id).Valid()
  {
    var s' := DeleteSpec(s, id);
    FilterKeys(s.actorMovies, NotOfMovie(id));
    FilterKeys(s.genreMovies, NotOfMovie(id));
    MovieFilterKeys(s.movies, OtherMovie(id));
    forall l | l in s'.actorMovies ensures l.movieId in MovieKeys(s'.movies) {
      KeyOfKeptMovie(s.movies, id, l.movieId);
    }
    forall l | l in s'.genreMovies ensures l.movieId in MovieKeys(s'.movies) {
      KeyOfKeptMovie(s.movies, id, l.movieId);
    }
  }

  /** A stored movie id other than the deleted one is still stored after the movie row is deleted. */
  lemma KeyOfKeptMovie(movies: seq<MovieRow>, id: int, other: int)
    requires other in MovieKeys(movies) && other != id
    ensures other in MovieKeys(Filter(movies, OtherMovie(id)))
  {
    var k :| 0 <= k < |movies| && MovieKeys(movies)[k] == other;
    var kept := Filter(movies, OtherMovie(id));
    assert movies[k] in kept;
    var j :| 0 <= j < |kept| && kept[j] == movies[k];
    assert MovieKeys(kept)[j] == other;
  }

  /** Filtering the movie table keeps its keys distinct. */
  lemma {:induction false} MovieFilterKeys(rows: seq<MovieRow>, keep: MovieRow -> bool)
    requires Distinct(MovieKeys(rows))
    ensures Distinct(MovieKeys(Filter(rows, keep)))
  {
    if rows != [] {
      var x, tail := rows[0], rows[1..];
      assert MovieKeys(rows) == [x.id] + MovieKeys(tail);
      DistinctTail(MovieKeys(rows));
      MovieFilterKeys(tail, keep);
      var rest := Filter(tail, keep);
      if keep(x) {
        assert MovieKeys([x] + rest) == [x.id] + MovieKeys(rest);
        MovieKeysOfPart(rest, tail);
        DistinctPrepend(MovieKeys(rest), x.id);
      } else {
        assert [] + rest == rest;
      }
    }
  }

  /**
   * Delete removes the movie row and every join row of the movie, and
   * nothing else: the movie can no longer be read, and the rows of every
   * other movie are untouched.
   */
  lemma DeleteRemoves(s: Store, id: int)
    ensures var s' := DeleteSpec(s, id);
      && Fetch(s', id).None?
      && s'.actors == s.actors && s'.genres == s.genres
      && (forall row :: row in s'.movies <==> row in s.movies && row.id != id)
      && Filter(s'.actorMovies, OfMovie(id)) == []
      && Filter(s'.genreMovies, OfMovie(id)) == []
      && (forall m :: m != id ==> Filter(s'.actorMovies, OfMovie(m)) == Filter(s.actorMovies, OfMovie(m)))
      && (forall m :: m != id ==> Filter(s'.genreMovies, OfMovie(m)) == Filter(s.genreMovies, OfMovie(m)))
  {
    var s' := DeleteSpec(s, id);
    FilterKeepsNone(s'.actorMovies, OfMovie(id));
    FilterKeepsNone(s'.genreMovies, OfMovie(id));
    forall k | 0 <= k < |s'.movies| ensures MovieKeys(s'.movies)[k] != id {
      assert s'.movies[k] in s'.movies;
    }
    forall m | m != id
      ensures Filter(s'.actorMovies, OfMovie(m)) == Filter(s.actorMovies, OfMovie(m))
      ensures Filter(s'.genreMovies, OfMovie(m)) == Filter(s.genreMovies, OfMovie(m))
    {
      FilterFilter(s.actorMovies, NotOfMovie(id), OfMovie(m), OfMovie(m));
      FilterFilter(s.genreMovies, NotOfMovie(id), OfMovie(m), OfMovie(m));
    }
  }

  /** Deleting twice is deleting once. */
  lemma DeleteIdempotent(s: Store, id: int)
    ensures DeleteSpec(DeleteSpec(s, id), id) == DeleteSpec(s, id)
  {
    FilterFilter(s.actorMovies, NotOfMovie(id), NotOfMovie(id), NotOfMovie(id));
    FilterFilter(s.genreMovies, NotOfMovie(id), NotOfMovie(id), NotOfMovie(id));
    FilterFilter(s.movies, OtherMovie(id), OtherMovie(id), OtherMovie(id));
  }

  /** Deleting a movie that is not stored changes nothing and is no error. */
  lemma DeleteAbsent(s: Store, id: int)
    requires s.Valid() && id !in MovieKeys(s.movies)
    ensures DeleteSpec(s, id) == s
  {
    NoLinksOfAbsent(s.actorMovies, s.movies, id);
    NoLinksOfAbsent(s.genreMovies, s.movies, id);
    forall row | row in s.movies ensures OtherMovie(id)(row) {
      var k :| 0 <= k < |s.movies| && s.movies[k] == row;
      assert MovieKeys(s.movies)[k] == row.id;
    }
    FilterKeepsAll(s.movies, OtherMovie(id));
  }
}
