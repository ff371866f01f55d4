/**
 * The movie endpoints (`api/resources/movies.py`): each `execute` calls the
 * movies repository (the service in between only passes calls through) and
 * turns an absent movie or a missing actor or genre into an API error.
 */
module MovieResources {
  import opened Wrappers
  import opened Tables
  import opened Entities
  import opened MovieStore
  import opened MoviesRepository
  import opened ApiErrors

  const MovieNotFound := "Movie not found"

  /** `ObjectDoesNotExistError` becomes a bad request with the same message and no field errors. */
  function ToBadRequest(e: ObjectDoesNotExistError): (a: ApiError)
    ensures e.message != "" ==> a == BadRequestError(e.message, None)
    ensures Status(a) == BadRequestStatus
  {
    BadRequest(Some(e.message), None)
  }

  /** GET /movies/<movie_id> */
  class GetMovieResource {
    const repo: MoviesRepo

    constructor (repo: MoviesRepo)
      ensures this.repo == repo
    {
      this.repo := repo;
    }

    /** The stored movie, unchanged; not found when no movie has the id. */
    method Execute(movieId: int) returns (r: Result<Movie, ApiError>)
      ensures r.Failure? <==> movieId !in MovieKeys(repo.db.movies)
      ensures r.Failure? ==> r.error == NotFoundError(MovieNotFound) && Status(r.error) == NotFoundStatus
      ensures r.Success? ==> Fetch(repo.db.State(), movieId) == Some(r.value) && r.value.id == Some(movieId)
    {
      var movie := repo.GetMovie(movieId);
      if movie.None? {
        return Failure(NotFound(Some(MovieNotFound)));
      }
      return Success(movie.value);
    }
  }

  /** POST /movies */
  class CreateMovieResource {
    const repo: MoviesRepo

    constructor (repo: MoviesRepo)
      ensures this.repo == repo
    {
      this.repo := repo;
    }

    /**
     * The created movie, which carries the new id and the request's title,
     * year, actor ids and genre ids; a missing actor or genre is a bad
     * request with the repository's message, and nothing is written.
     */
    method Execute(movie: Movie) returns (r: Result<Movie, ApiError>)
      requires repo.db.Valid()
      modifies repo.db
      ensures repo.db.Valid()
      ensures r.Failure? <==> ExistenceError(old(repo.db.State()), movie).Some?
      ensures r.Failure? ==>
        && r.error == BadRequestError(ExistenceError(old(repo.db.State()), movie).value.message, None)
        && repo.db.State() == old(repo.db.State())
      ensures r.Success? ==>
        && repo.db.State() == CreateSpec(old(repo.db.State()), movie)
        && r.value.id == Some(NewMovieId(old(repo.db.State())))
        && r.value.title == movie.title && r.value.year == movie.year
        && multiset(ActorIds(r.value.actors)) == multiset(ActorIds(movie.actors))
        && multiset(GenreIds(r.value.genres)) == multiset(GenreIds(movie.genres))
    {
      ghost var s := repo.db.State();
      var created := repo.CreateMovie(movie);
      if created.Failure? {
        return Failure(ToBadRequest(created.error));
      }
      CreateThenFetch(s, movie);
      return Success(created.value);
    }
  }

  /** PUT /movies/<movie_id> */
  class EditMovieResource {
    const repo: MoviesRepo

    constructor (repo: MoviesRepo)
      ensures this.repo == repo
    {
      this.repo := repo;
    }

    /**
     * The body's movie takes the id from the URL before the repository
     * edits it. A missing actor or genre is a bad request with the
     * repository's message; an absent movie is passed through as an empty
     * result, not as a not-found error.
     */
    method Execute(movieId: int, movie: Movie) returns (r: Result<Option<Movie>, ApiError>)
      requires repo.db.Valid()
      modifies repo.db
      ensures repo.db.Valid()
      ensures r.Failure? <==> ExistenceError(old(repo.db.State()), movie).Some?
      ensures r.Failure? ==>
        r.error == BadRequestError(ExistenceError(old(repo.db.State()), movie).value.message, None)
      ensures r == Success(None) <==> r.Success? && movieId !in MovieKeys(old(repo.db.movies))
      ensures r.Failure? || r == Success(None) ==> repo.db.State() == old(repo.db.State())
      ensures r.Success? && r.value.Some? ==>
        && repo.db.State() == EditSpec(old(repo.db.State()), movieId, movie)
        && r.value.value.id == Some(movieId)
        && r.value.value.title == movie.title && r.value.value.year == movie.year
        && multiset(ActorIds(r.value.value.actors)) == multiset(ActorIds(movie.actors))
        && multiset(GenreIds(r.value.value.genres)) == multiset(GenreIds(movie.genres))
    {
      ghost var s := repo.db.State();
      var withId := movie.(id := Some(movieId));
      assert ExistenceError(s, withId) == ExistenceError(s, movie);
      assert EditSpec(s, movieId, withId) == EditSpec(s, movieId, movie);
      var edited := repo.EditMovie(withId);
      if edited.Failure? {
        return Failure(ToBadRequest(edited.error));
      }
      if edited.value.Some? {
        EditThenFetch(s, movieId, movie);
      }
      return Success(edited.value);
    }
  }

  /** DELETE /movies/<movie_id> */
  class DeleteMovieResource {
    const repo: MoviesRepo

    constructor (repo: MoviesRepo)
      ensures this.repo == repo
    {
      this.repo := repo;
    }

    /** No payload and no error, whether or not the movie was stored; afterwards it cannot be read. */
    method Execute(movieId: int)
      requires repo.db.Valid()
      modifies repo.db
      ensures repo.db.Valid()
      ensures repo.db.State() == DeleteSpec(old(repo.db.State()), movieId)
      ensures Fetch(repo.db.State(), movieId).None?
    {
      repo.DeleteMovie(movieId);
      DeleteRemoves(old(repo.db.State()), movieId);
    }
  }
}
