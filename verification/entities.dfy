/**
 * The domain entities (entities/movie.py, entities/cast.py, entities/genre.py,
 * entities/errors.py): plain records with no behaviour.
 */
module Entities {
  import opened Wrappers

  /** An actor; the request layer builds actors that carry only an id. */
  datatype Actor = Actor(id: Option<int>, name: Option<string>)

  /** A genre; built with only an id by the request layer, like an actor. */
  datatype Genre = Genre(id: Option<int>, name: Option<string>)

  /** A movie; its id is absent until the movie is stored. */
  datatype Movie = Movie(title: string, year: int, id: Option<int>, actors: seq<Actor>, genres: seq<Genre>)

  /** One line of the aggregation report: how many movies of `year` the actor `name` played in. */
  datatype ActorAggregated = ActorAggregated(name: string, year: int, number: nat)

  /** One page of the aggregation report, with the number of lines before paging. */
  datatype ActorsAggregatedPaginated = ActorsAggregatedPaginated(
    actors: seq<ActorAggregated>, total: nat, limit: int, offset: int)

  /** Raised by the movies repository when a referenced actor or genre is missing. */
  datatype ObjectDoesNotExistError = ObjectDoesNotExistError(message: string)

  /** The ids of a list of actors, in order. */
  function ActorIds(actors: seq<Actor>): (ids: seq<Option<int>>)
    ensures |ids| == |actors|
    ensures forall k :: 0 <= k < |actors| ==> ids[k] == actors[k].id
  {
    seq(|actors|, k requires 0 <= k < |actors| => actors[k].id)
  }

  /** The ids of a list of genres, in order. */
  function GenreIds(genres: seq<Genre>): (ids: seq<Option<int>>)
    ensures |ids| == |genres|
    ensures forall k :: 0 <= k < |genres| ==> ids[k] == genres[k].id
  {
    seq(|genres|, k requires 0 <= k < |genres| => genres[k].id)
  }
}
