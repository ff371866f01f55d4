/**
 * The movies repository (`MoviesRepo`): reads and writes movies together with
 * their join rows, on a database whose tables it updates in place.
 *
 * Every method is proved against the store transitions of `MovieStore`
 * (`Fetch`, `CreateSpec`, `EditSpec`, `DeleteSpec`), whose properties are
 * proved there.
 */
module MoviesRepository {
  import opened Wrappers
  import opened Tables
  import opened Entities
  import opened ActorsRepo
  import opened GenresRepo
  import opened MovieStore

  /** The five tables of the database. */
  class Database {
    var movies: seq<MovieRow>
    var actors: seq<NamedRow>
    var genres: seq<NamedRow>
    var actorMovies: seq<LinkRow>
    var genreMovies: seq<LinkRow>

    /** The current contents of all tables. */
    function State(): Store
      reads this
    {
      Store(movies, actors, genres, actorMovies, genreMovies)
    }

    ghost predicate Valid()
      reads this
    {
      State().Valid()
    }

    constructor (initial: Store)
      ensures State() == initial
    {
      movies := initial.movies;
      actors := initial.actors;
      genres := initial.genres;
      actorMovies := initial.actorMovies;
      genreMovies := initial.genreMovies;
    }
  }

  class MoviesRepo {
    const db: Database

    constructor (db: Database)
      ensures this.db == db
    {
      this.db := db;
    }

    /** The query `movie.id == movieId`, first match: the position of that row, if any. */
    method FindMovieIndex(movieId: int) returns (index: Option<nat>)
      ensures index.None? <==> movieId !in MovieKeys(db.movies)
      ensures index.Some? ==>
        index.value < |db.movies| && FindMovie(db.movies, movieId) == Some(db.movies[index.value])
    {
      var i := 0;
      while i < |db.movies|
        invariant 0 <= i <= |db.movies|
        invariant FindMovie(db.movies[i..], movieId) == FindMovie(db.movies, movieId)
      {
        if db.movies[i].id == movieId {
          assert db.movies[i..][0] == db.movies[i];
          return Some(i);
        }
        assert db.movies[i..][1..] == db.movies[i + 1..];
        i := i + 1;
      }
      assert db.movies[i..] == [];
      return None;
    }

    /** `get_movie`: nothing when no movie row has the id, else the movie with its actors and genres. */
    method GetMovie(movieId: int) returns (r: Option<Movie>)
      ensures r == Fetch(db.State(), movieId)
    {
      var index := FindMovieIndex(movieId);
      if index.None? {
        return None;
      }
      r := Some(ToEntity(db.State(), db.movies[index.value]));
    }

    /**
     * `_check_for_actor_existence`: an error unless the lookup of the given
     * ids finds as many actors as were given, which on a valid database is
     * exactly when every id names a stored actor and no id is repeated.
     */
    method CheckForActorExistence(actors: seq<Actor>) returns (e: Option<ObjectDoesNotExistError>)
      ensures e.None? <==> ActorsFound(db.State(), actors)
      ensures e.Some? ==> e.value == ObjectDoesNotExistError(MissingActors)
      ensures db.Valid() ==> (e.None? <==> References(db.actors, ActorIds(actors)))
    {
      var found := GetActors(db.actors, KnownIds(ActorIds(actors)));
      if |found| < |actors| {
        e := Some(ObjectDoesNotExistError(MissingActors));
      } else {
        e := None;
      }
      if db.Valid() {
        CountCheckIff(db.actors, ActorIds(actors));
      }
    }

    /** `_check_for_genre_existence`, the same check on genres. */
    method CheckForGenreExistence(genres: seq<Genre>) returns (e: Option<ObjectDoesNotExistError>)
      ensures e.None? <==> GenresFound(db.State(), genres)
      ensures e.Some? ==> e.value == ObjectDoesNotExistError(MissingGenres)
      ensures db.Valid() ==> (e.None? <==> References(db.genres, GenreIds(genres)))
    {
      var found := GetGenres(db.genres, KnownIds(GenreIds(genres)));
      if |found| < |genres| {
        e := Some(ObjectDoesNotExistError(MissingGenres));
      } else {
        e := None;
      }
      if db.Valid() {
        CountCheckIff(db.genres, GenreIds(genres));
      }
    }

    /** `_create_actor_relations`: one `actor_movie` row per actor, added one by one. */
    method CreateActorRelations(movieId: int, actors: seq<Actor>)
      requires forall k :: 0 <= k < |actors| ==> actors[k].id.Some?
      modifies db`actorMovies
      ensures db.actorMovies == AddLinks(old(db.actorMovies), movieId, KnownIds(ActorIds(actors)))
    {
      ghost var start := db.actorMovies;
      ghost var ids := KnownIds(ActorIds(actors));
      assert |ids| == |actors| && forall k :: 0 <= k < |actors| ==> ids[k] == actors[k].id.value;
      var i := 0;
      while i < |actors|
        invariant 0 <= i <= |actors|
        invariant db.actorMovies == AddLinks(start, movieId, ids[..i])
      {
        var row := LinkRow(NextId(LinkKeys(db.actorMovies)), actors[i].id.value, movieId);
        AddLinksStep(start, movieId, ids, i);
        db.actorMovies := db.actorMovies + [row];
        i := i + 1;
      }
      assert ids[..i] == ids;
    }

    /** `_create_genre_relations`: one `genre_movie` row per genre, added one by one. */
    method CreateGenreRelations(movieId: int, genres: seq<Genre>)
      requires forall k :: 0 <= k < |genres| ==> genres[k].id.Some?
      modifies db`genreMovies
      ensures db.genreMovies == AddLinks(old(db.genreMovies), movieId, KnownIds(GenreIds(genres)))
    {
      ghost var start := db.genreMovies;
      ghost var ids := KnownIds(GenreIds(genres));
      assert |ids| == |genres| && forall k :: 0 <= k < |genres| ==> ids[k] == genres[k].id.value;
      var i := 0;
      while i < |genres|
        invariant 0 <= i <= |genres|
        invariant db.genreMovies == AddLinks(start, movieId, ids[..i])
      {
        var row := LinkRow(NextId(LinkKeys(db.genreMovies)), genres[i].id.value, movieId);
        AddLinksStep(start, movieId, ids, i);
        db.genreMovies := db.genreMovies + [row];
        i := i + 1;
      }
      assert ids[..i] == ids;
    }

    /** The two relation loops for one movie, actors first. */
    method CreateRelations(movieId: int, movie: Movie)
      requires forall k :: 0 <= k < |movie.actors| ==> movie.actors[k].id.Some?
      requires forall k :: 0 <= k < |movie.genres| ==> movie.genres[k].id.Some?
      modifies db`actorMovies, db`genreMovies
      ensures db.actorMovies == AddLinks(old(db.actorMovies), movieId, KnownIds(ActorIds(movie.actors)))
      ensures db.genreMovies == AddLinks(old(db.genreMovies), movieId, KnownIds(GenreIds(movie.genres)))
    {
      CreateActorRelations(movieId, movie.actors);
      CreateGenreRelations(movieId, movie.genres);
    }

    /** `_delete_actor_relations`: every `actor_movie` row of the movie goes. */
    method DeleteActorRelations(movieId: int)
      modifies db`actorMovies
      ensures db.actorMovies == Filter(old(db.actorMovies), NotOfMovie(movieId))
    {
      db.actorMovies := Filter(db.actorMovies, NotOfMovie(movieId));
    }

    /** `_delete_genre_relations`: every `genre_movie` row of the movie goes. */
    method DeleteGenreRelations(movieId: int)
      modifies db`genreMovies
      ensures db.genreMovies == Filter(old(db.genreMovies), NotOfMovie(movieId))
    {
      db.genreMovies := Filter(db.genreMovies, NotOfMovie(movieId));
    }

    /**
     * `create_movie`: both existence checks before any write (a failure
     * changes nothing); then the movie row with a fresh id, then its join
     * rows; the result is the stored movie read back.
     */
    method CreateMovie(movie: Movie) returns (r: Result<Movie, ObjectDoesNotExistError>)
      requires db.Valid()
      modifies db
      ensures db.Valid()
      ensures r.Failure? <==> ExistenceError(old(db.State()), movie).Some?
      ensures r.Failure? ==> Some(r.error) == ExistenceError(old(db.State()), movie) && db.State() == old(db.State())
      ensures r.Success? ==>
        && db.State() == CreateSpec(old(db.State()), movie)
        && Some(r.value) == Fetch(db.State(), NewMovieId(old(db.State())))
    {
      var e := CheckForActorExistence(movie.actors);
      if e.Some? {
        return Failure(e.value);
      }
      e := CheckForGenreExistence(movie.genres);
      if e.Some? {
        return Failure(e.value);
      }
      assert forall k :: 0 <= k < |movie.actors| ==> ActorIds(movie.actors)[k] == movie.actors[k].id;
      assert forall k :: 0 <= k < |movie.genres| ==> GenreIds(movie.genres)[k] == movie.genres[k].id;
      var created := AddMovie(movie);
      r := Success(created);
    }

    /** The writes of `create_movie` once both checks have passed, and the movie read back. */
    method AddMovie(movie: Movie) returns (created: Movie)
      requires db.Valid()
      requires forall k :: 0 <= k < |movie.actors| ==> movie.actors[k].id.Some?
      requires forall k :: 0 <= k < |movie.genres| ==> movie.genres[k].id.Some?
      modifies db
      ensures db.Valid()
      ensures db.State() == CreateSpec(old(db.State()), movie)
      ensures Some(created) == Fetch(db.State(), NewMovieId(old(db.State())))
    {
      ghost var s := db.State();
      var row := InsertMovie(movie);
      CreateSpecFields(s, movie, db.State());
      CreateValid(s, movie);
      CreateFetchRow(s, movie, db.State());
      created := ToEntity(db.State(), row);
    }

    /** The rows `create_movie` writes: the movie row with the next id, then its join rows. */
    method InsertMovie(movie: Movie) returns (row: MovieRow)
      requires forall k :: 0 <= k < |movie.actors| ==> movie.actors[k].id.Some?
      requires forall k :: 0 <= k < |movie.genres| ==> movie.genres[k].id.Some?
      modifies db`movies, db`actorMovies, db`genreMovies
      ensures row == MovieRow(NextId(MovieKeys(old(db.movies))), movie.title, movie.year)
      ensures db.movies == old(db.movies) + [row]
      ensures db.actorMovies == AddLinks(old(db.actorMovies), row.id, KnownIds(ActorIds(movie.actors)))
      ensures db.genreMovies == AddLinks(old(db.genreMovies), row.id, KnownIds(GenreIds(movie.genres)))
    {
      var id := NextId(MovieKeys(db.movies));
      row := MovieRow(id, movie.title, movie.year);
      db.movies := db.movies + [row];
      CreateRelations(id, movie);
    }

    /**
     * `edit_movie`: both existence checks first, even for an absent movie;
     * nothing when no movie row has the entity's id (an entity without an id
     * matches no row); otherwise the new title and year, the old join rows
     * replaced by new ones, and the stored movie read back.
     */
    method EditMovie(movie: Movie) returns (r: Result<Option<Movie>, ObjectDoesNotExistError>)
      requires db.Valid()
      modifies db
      ensures db.Valid()
      ensures r.Failure? <==> ExistenceError(old(db.State()), movie).Some?
      ensures r.Failure? ==> Some(r.error) == ExistenceError(old(db.State()), movie)
      ensures r == Success(None) <==>
        r.Success? && (movie.id.None? || movie.id.value !in MovieKeys(old(db.movies)))
      ensures r.Failure? || r == Success(None) ==> db.State() == old(db.State())
      ensures r.Success? && r.value.Some? ==>
        && movie.id.Some?
        && db.State() == EditSpec(old(db.State()), movie.id.value, movie)
        && r.value == Fetch(db.State(), movie.id.value)
    {
      var e := CheckForActorExistence(movie.actors);
      if e.Some? {
        return Failure(e.value);
      }
      e := CheckForGenreExistence(movie.genres);
      if e.Some? {
        return Failure(e.value);
      }
      if movie.id.None? {
        return Success(None);
      }
      var id := movie.id.value;
      var index := FindMovieIndex(id);
      if index.None? {
        return Success(None);
      }
      assert forall k :: 0 <= k < |movie.actors| ==> ActorIds(movie.actors)[k] == movie.actors[k].id;
      assert forall k :: 0 <= k < |movie.genres| ==> GenreIds(movie.genres)[k] == movie.genres[k].id;
      var edited := ReplaceMovie(movie, index.value);
      r := Success(Some(edited));
    }

    /** The writes of `edit_movie` on the stored row at position `k`, and the movie read back. */
    method ReplaceMovie(movie: Movie, k: nat) returns (edited: Movie)
      requires db.Valid()
      requires forall k :: 0 <= k < |movie.actors| ==> movie.actors[k].id.Some?
      requires forall k :: 0 <= k < |movie.genres| ==> movie.genres[k].id.Some?
      requires movie.id.Some? && k < |db.movies| && db.movies[k].id == movie.id.value
      modifies db
      ensures db.Valid()
      ensures db.State() == EditSpec(old(db.State()), movie.id.value, movie)
      ensures Some(edited) == Fetch(db.State(), movie.id.value)
    {
      ghost var s := db.State();
      var id := movie.id.value;
      UpdateMovie(movie, k);
      EditSpecFields(s, id, movie, db.State());
      assert id in MovieKeys(s.movies) by { assert MovieKeys(s.movies)[k] == id; }
      EditValid(s, id, movie);
      EditFetchRow(s, id, movie, db.State());
      edited := ToEntity(db.State(), MovieRow(id, movie.title, movie.year));
    }

    /**
     * The writes of `edit_movie` on the movie row at position `k`: its title
     * and year, then its join rows deleted and created anew.
     */
    method UpdateMovie(movie: Movie, k: nat)
      requires Distinct(MovieKeys(db.movies))
      requires forall k :: 0 <= k < |movie.actors| ==> movie.actors[k].id.Some?
      requires forall k :: 0 <= k < |movie.genres| ==> movie.genres[k].id.Some?
      requires movie.id.Some? && k < |db.movies| && db.movies[k].id == movie.id.value
      modifies db`movies, db`actorMovies, db`genreMovies
      ensures db.movies == Retitle(old(db.movies), movie.id.value, movie.title, movie.year)
      ensures db.actorMovies ==
        AddLinks(Filter(old(db.actorMovies), NotOfMovie(movie.id.value)), movie.id.value, KnownIds(ActorIds(movie.actors)))
      ensures db.genreMovies ==
        AddLinks(Filter(old(db.genreMovies), NotOfMovie(movie.id.value)), movie.id.value, KnownIds(GenreIds(movie.genres)))
    {
      var id := movie.id.value;
      SetTitleAndYear(k, movie.title, movie.year);
      DeleteActorRelations(id);
      DeleteGenreRelations(id);
      CreateRelations(id, movie);
    }

    /** `movie_model.title = …; movie_model.year = …` on the row at position `k`. */
    method SetTitleAndYear(k: nat, title: string, year: int)
      requires Distinct(MovieKeys(db.movies)) && k < |db.movies|
      modifies db`movies
      ensures db.movies == Retitle(old(db.movies), old(db.movies[k].id), title, year)
    {
      ghost var rows := db.movies;
      var id := db.movies[k].id;
      db.movies := db.movies[k := MovieRow(id, title, year)];
      forall j | 0 <= j < |rows| && j != k ensures rows[j].id != id {
        assert MovieKeys(rows)[j] != MovieKeys(rows)[k];
      }
    }

    /** `delete_movie`: the movie's join rows, then its row; no error when it is absent. */
    method DeleteMovie(movieId: int)
      requires db.Valid()
      modifies db
      ensures db.Valid()
      ensures db.State() == DeleteSpec(old(db.State()), movieId)
    {
      ghost var s := db.State();
      DeleteActorRelations(movieId);
      DeleteGenreRelations(movieId);
      db.movies := Filter(db.movies, OtherMovie(movieId));
      DeleteValid(s, movieId);
    }
  }
}
