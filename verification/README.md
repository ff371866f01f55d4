# Filmography catalogue: a verified model of the data-access layer

This project models the core of a small movie catalogue web service in Dafny and proves properties about it. The service stores movies with their actors and genres in five relational tables:

- `movie`, `actor` and `genre`;
- the join tables `actor_movie` and `genre_movie`.

It serves them through a JSON API. The model covers these parts:

- **The repositories.**
  - The movies repository reads, creates, edits and deletes a movie together with its join rows. Before a write, it checks that the referenced actors and genres exist.
  - The actors repository looks actors up by id and builds the paginated "actors aggregated by movie year" report.
  - The genres repository looks genres up by id.
- **The store.** The tables are sequences of rows (`Tables.Store`) under an invariant, `Store.Valid`:
  - primary keys are unique;
  - every join row names a stored movie.

  A new row gets SQLite's `INTEGER PRIMARY KEY` id: one more than the largest id, or 1 in an empty table. The movies repository is imperative:
  - `MoviesRepository.Database` holds the five tables as fields;
  - `MoviesRepository.MoviesRepo` changes them in place, adding join rows one by one in loops.

  Each of its methods is proved against a function of the old state in `MovieStore`. The properties the repository promises are lemmas about those functions.
- **The schemas.**
  - The pagination query parameters.
  - The movie create and edit bodies, which are loaded into a `Movie` entity with placeholder actors and genres.
  - The JSON written for a movie.
  - The bodies of error responses.
- **The movie endpoints.** Each `execute` maps repository results and `ObjectDoesNotExistError` to API errors.
- **The API error kinds.** Each has a status, a default message and a message fallback.

Modules:

| file | module | models |
|---|---|---|
| wrappers.dfy | `Wrappers` | `Option` and `Result` |
| entities.dfy | `Entities` | the entity dataclasses |
| tables.dfy | `Tables` | table rows, the store and its invariant, the `IN` filter, the rowid rule |
| ordering.dfy | `Ordering` | the string order used by `ORDER BY name` |
| actors_repo.dfy | `ActorsRepo` | `ActorsRepo.get_actors`, `get_actors_aggregated` |
| genres_repo.dfy | `GenresRepo` | `GenresRepo.get_genres` |
| movie_store.dfy | `MovieStore` | the effect of each movies-repository operation on the store, and its properties |
| movies_repo.dfy | `MoviesRepository` | the `MoviesRepo` class, imperative |
| api_errors.dfy | `ApiErrors` | `api/errors.py` |
| json_values.dfy | `JsonValues` | decoded JSON values |
| common_schemas.dfy | `CommonSchemas` | `PaginationSchema`, the error schemas |
| movie_schemas.dfy | `MovieSchemas` | `MovieSchema`, `CreateMovieSchema`, `EditMovieSchema` |
| movie_resources.dfy | `MovieResources` | the four movie endpoints |

## Model

| member | source | states |
|---|---|---|
| Tables.NextId | database/repositories/movies.py:41-46 | the id given to a new row is larger than every stored id, and is 1 for an empty table |
| Tables.SelectByIds | database/repositories/actors.py:14 | the `IN` filter keeps exactly the rows whose id is one of the requested ids |
| Tables.SelectCount | database/repositories/actors.py:14 | with unique keys, the `IN` filter returns one row per distinct requested id that is stored, however often an id is repeated |
| Tables.KnownIds | database/repositories/movies.py:118 | an absent id matches no row, so only the present ids are looked up, in order; they are all kept exactly when every id is present |
| Tables.CountCheckIff | database/repositories/movies.py:116-126 | the count check "found no fewer than given" passes iff every given id is present, names a stored row, and no id is repeated |
| ActorsRepo.ToActors | database/repositories/actors.py:15-20 | one actor per row, in order, with that row's id and name |
| ActorsRepo.GetActors | database/repositories/actors.py:11-20 | an actor is in the result iff its row is stored and its id was requested, carrying the row's id and name; unknown ids are omitted; an empty request gives an empty result |
| ActorsRepo.GetActorsCount | database/repositories/actors.py:14 | the result has one actor per distinct requested id that is stored, so never more than the distinct ids |
| ActorsRepo.Joined | database/repositories/actors.py:38-40 | every joined (actor, year) pair comes from a stored actor row |
| ActorsRepo.JoinedCount | database/repositories/actors.py:38-41 | the join yields a stored actor and year exactly as often as join rows link that actor to a stored movie of that year |
| ActorsRepo.GroupKeys | database/repositories/actors.py:41 | `GROUP BY`: the distinct pairs of the join, each once |
| ActorsRepo.Tally | database/repositories/actors.py:38-41 | one group per distinct pair, and its number is how often the pair occurs in the join |
| ActorsRepo.Insert | database/repositories/actors.py:42-43 | inserting a group into an ordered sequence keeps it ordered by actor name, then year, and adds exactly that group |
| ActorsRepo.SortGroups | database/repositories/actors.py:42-43 | the groups sorted by actor name, then year, as a permutation of the input |
| ActorsRepo.AggregatedGroups | database/repositories/actors.py:38-44 | all groups in report order, each distinct, one per distinct joined pair, with its count |
| ActorsRepo.PageLines | database/repositories/actors.py:46-55 | `.offset(offset).limit(limit)`: at most `limit` lines, none when `offset` is past the end, otherwise the lines of the groups from position `offset` on, in order |
| ActorsRepo.GetActorsAggregated | database/repositories/actors.py:36-59 | `total` is the number of groups before paging; the lines are groups `offset`, `offset`+1, …, at most `limit` of them and none when `offset >= total`; `limit` and `offset` are echoed |
| ActorsRepo.GroupNumbers | database/repositories/actors.py:38-41 | every group's actor is a stored row, and its number is the count of join rows linking that actor to a movie of that year, at least 1 |
| ActorsRepo.GroupExistsIff | database/repositories/actors.py:38-41 | groups are keyed by the actor row: a group exists for an actor and year iff some join row links them, so actors without movies have none |
| ActorsRepo.GroupKeysDistinct | database/repositories/actors.py:41 | no actor and year appears in two groups |
| ActorsRepo.PageOrdered | database/repositories/actors.py:42-46 | the lines of every page come in ascending actor name, then ascending year |
| GenresRepo.ToGenres | database/repositories/genres.py:13-18 | one genre per row, in order, with that row's id and name |
| GenresRepo.GetGenres | database/repositories/genres.py:9-18 | a genre is in the result iff its row is stored and its id was requested, carrying the row's id and name; unknown ids are omitted; an empty request gives an empty result |
| GenresRepo.GetGenresCount | database/repositories/genres.py:12 | one genre per distinct requested id that is stored, so never more than the distinct ids |
| MovieStore.Resolve | database/repositories/movies.py:102-113 | the related rows of a movie are stored rows named by its join rows, never more than the join rows |
| MovieStore.LinkedMembers | database/repositories/movies.py:97-114 | a row is related to a movie iff it is stored and one of the movie's join rows names it |
| MovieStore.ResolveAllStored | database/repositories/movies.py:102-113 | when every requested id names a stored row, the loaded rows carry exactly those ids, in order |
| MovieStore.ResolvedIds | database/repositories/movies.py:102-113 | resolving checked references yields one actor (genre) per reference, with the same ids in the same order |
| MovieStore.ToEntity | database/repositories/movies.py:97-114 | the entity carries the row's id, title and year |
| MovieStore.Fetch | database/repositories/movies.py:12-25 | nothing iff no movie row has the id; otherwise the entity built from that row |
| MovieStore.FetchMeaning | database/repositories/movies.py:17-25 | a fetched movie has the row's id, title and year, and its actors (genres) are exactly the stored rows its join rows link, each with id and name |
| MovieStore.ExistenceError | database/repositories/movies.py:33-36 | no error iff both checks pass; the actor check is reported before the genre check |
| MovieStore.ExistenceCheckIff | database/repositories/movies.py:116-126 | each check passes iff every id names a stored row and none is repeated; "Some actors don't exist" iff the actors fail, "Some genres don't exist" iff only the genres fail |
| MovieStore.NewMovieId | database/repositories/movies.py:41-46 | the new movie's id is not yet stored |
| MovieStore.AddLinks | database/repositories/movies.py:128-140 | one new join row per id, in order, each naming the movie, after the old rows, with fresh unique ids |
| MovieStore.AddLinksStep | database/repositories/movies.py:129-133 | one more loop iteration appends one join row for the next id, with the next surrogate id |
| MovieStore.AddLinksFilter | database/repositories/movies.py:128-140 | the rows added for a movie link exactly the given ids; other movies' join rows do not change |
| MovieStore.ReplaceLinksFilter | database/repositories/movies.py:72-79 | deleting a movie's join rows and adding new ones leaves the movie linked to exactly the new ids, and other movies' join rows as they were |
| MovieStore.Retitle | database/repositories/movies.py:73-74 | only the rows with the id get the new title and year; the keys do not change |
| MovieStore.CreateValid | database/repositories/movies.py:27-53 | create keeps keys unique and every join row naming a stored movie |
| MovieStore.CreateAddsExactly | database/repositories/movies.py:38-51 | create adds one movie row with a fresh id and the given title and year, plus one join row per given actor and genre for that id; no other row changes |
| MovieStore.CreateThenFetch | database/repositories/movies.py:53 | reading the created movie gives its id, title, year, and the same actor ids and genre ids as a multiset |
| MovieStore.CreateFetchRow | database/repositories/movies.py:53 | reading back the new id gives the entity built from the new row |
| MovieStore.EditValid | database/repositories/movies.py:55-81 | edit of a stored movie keeps the store valid |
| MovieStore.EditReplaces | database/repositories/movies.py:72-79 | after an edit, the movie's join rows link exactly the given ids (old links are replaced, not merged); every other movie's join rows are untouched |
| MovieStore.EditFetchRow | database/repositories/movies.py:81 | reading back the edited id gives the entity built from its new row |
| MovieStore.EditThenFetch | database/repositories/movies.py:55-81 | after a successful edit, reading the movie gives the new title and year and the given actor ids and genre ids as a multiset |
| MovieStore.DeleteValid | database/repositories/movies.py:83-95 | delete keeps the store valid |
| MovieStore.DeleteRemoves | database/repositories/movies.py:89-95 | afterwards the movie cannot be read; exactly its row and its join rows are gone; actors, genres and other movies' join rows are untouched |
| MovieStore.DeleteIdempotent | database/repositories/movies.py:83-95 | deleting twice is deleting once |
| MovieStore.DeleteAbsent | database/repositories/movies.py:89-95 | deleting a movie that is not stored changes nothing and raises nothing |
| MovieStore.NoLinksOfAbsent | database/repositories/movies.py:89-95 | in a valid store no join row belongs to a movie that is not stored, so deleting its relations removes nothing |
| MoviesRepository.MoviesRepo.FindMovieIndex | database/repositories/movies.py:19 | the first-row query: no position iff no row has the id, else the position of the row the query returns |
| MoviesRepository.MoviesRepo.GetMovie | database/repositories/movies.py:12-25 | the result is the stored movie with its relations, or nothing when absent (`Fetch`) |
| MoviesRepository.MoviesRepo.CheckForActorExistence | database/repositories/movies.py:116-120 | error "Some actors don't exist" iff the lookup finds fewer actors than given; on a valid store, iff some id is absent, unknown or repeated |
| MoviesRepository.MoviesRepo.CheckForGenreExistence | database/repositories/movies.py:122-126 | the same for genres, "Some genres don't exist" |
| MoviesRepository.MoviesRepo.CreateActorRelations | database/repositories/movies.py:128-133 | the loop leaves `actor_movie` as before plus one row per actor, in order, for the movie |
| MoviesRepository.MoviesRepo.CreateGenreRelations | database/repositories/movies.py:135-140 | the same for `genre_movie` |
| MoviesRepository.MoviesRepo.CreateRelations | database/repositories/movies.py:49-50 | both join tables gain the movie's rows, actors first |
| MoviesRepository.MoviesRepo.DeleteActorRelations | database/repositories/movies.py:142-143 | `actor_movie` loses exactly the movie's rows |
| MoviesRepository.MoviesRepo.DeleteGenreRelations | database/repositories/movies.py:145-146 | `genre_movie` loses exactly the movie's rows |
| MoviesRepository.MoviesRepo.InsertMovie | database/repositories/movies.py:38-51 | `movie` gains one row with the next id and the given title and year; each join table gains one row per known id, in order, for that id |
| MoviesRepository.MoviesRepo.AddMovie | database/repositories/movies.py:38-53 | the insert as a whole: the new state is `CreateSpec` of the old, the store stays valid, and the result is the movie read back under the new id |
| MoviesRepository.MoviesRepo.CreateMovie | database/repositories/movies.py:27-53 | fails iff a check fails, with that check's error and nothing written; otherwise the new state is `CreateSpec` of the old, the store stays valid, and the result is the new movie read back |
| MoviesRepository.MoviesRepo.SetTitleAndYear | database/repositories/movies.py:73-74 | the stored row gets the new title and year; no other row and no key changes |
| MoviesRepository.MoviesRepo.UpdateMovie | database/repositories/movies.py:72-79 | title and year set; each join table keeps every row of other movies and gets one new row per known id, in order, for the movie |
| MoviesRepository.MoviesRepo.ReplaceMovie | database/repositories/movies.py:72-81 | the edit as a whole: the new state is `EditSpec` of the old, the store stays valid, and the result is the movie read back |
| MoviesRepository.MoviesRepo.EditMovie | database/repositories/movies.py:55-81 | the checks come first, even for an absent movie; an absent or id-less movie gives an empty result and no change; otherwise the new state is `EditSpec` of the old and the result is the movie read back |
| MoviesRepository.MoviesRepo.DeleteMovie | database/repositories/movies.py:83-95 | the new state is `DeleteSpec` of the old, and the store stays valid |
| ApiErrors.Status | api/errors.py:13-29 | 400 for bad request, 404 for not found, 405 for method not allowed: each a client error, and distinct per kind |
| ApiErrors.Fallback | api/errors.py:8-10 | a given non-empty message wins; a missing or empty one gives the default |
| ApiErrors.BadRequest | api/errors.py:13-19 | a bad-request error with the message or "The request is incorrect", and the `errors` map as given (none when not supplied) |
| ApiErrors.NotFound | api/errors.py:22-24 | a not-found error with the message or "The requested resource not found" |
| ApiErrors.MethodNotAllowed | api/errors.py:27-29 | a method-not-allowed error with the message or its default |
| ApiErrors.ConstructedMessageNeverEmpty | api/errors.py:8-10 | every constructed error has a non-empty message |
| ApiErrors.ConstructedMessage | api/errors.py:8-29 | a missing or empty message gives each kind its default; a non-empty one is kept |
| CommonSchemas.LoadInteger | api/schemas/common.py:5-6 | absent gives the default; present is accepted iff it is an integer in range; null is refused as null |
| CommonSchemas.UnknownFields | api/schemas/common.py:4-6 | every parameter the schema does not declare is reported, and only those |
| CommonSchemas.LoadPagination | api/schemas/common.py:4-6 | accepted iff only `offset` and `limit` occur, `offset` is absent or an integer ≥ 0, and `limit` is absent or in [1, 1000]; defaults 0 and 100; a refusal reports exactly the offending fields |
| CommonSchemas.NullRefused | api/schemas/common.py:5-6 | a null `offset` or `limit` is refused as null |
| CommonSchemas.ReadFieldError | api/schemas/common.py:14 | the reader of a written complaint: it gives back a field error only for the complaint that field error is written as |
| CommonSchemas.DumpErrors | api/schemas/common.py:14 | the `errors` object has exactly the refused fields, each reading back as its complaint |
| CommonSchemas.DumpError | api/schemas/common.py:9-10 | the body of an error raised while executing a request is an object with exactly `message`, holding the error's message |
| CommonSchemas.DumpValidationError | api/schemas/common.py:13-14 | the body of a refused request is an object with exactly `message` and `errors`; `errors` is null iff the error carries no field errors, else an object with exactly the refused fields |
| CommonSchemas.ReadDumpErrors | api/schemas/common.py:14 | the written `errors` object reads back as the same field errors |
| CommonSchemas.ReadDumpError | api/base_resource.py:156-164 | an error body reads back as the error's message |
| CommonSchemas.ReadDumpValidationError | api/base_resource.py:167-175 | a validation body reads back as the same bad-request error, message and field errors (or none) included |
| MovieSchemas.IntItems | api/schemas/movies.py:19-20 | a list is loaded iff every item is an integer, keeping the items in order |
| MovieSchemas.LoadTitle | api/schemas/movies.py:17 | the title is required, may not be null, and must be a string |
| MovieSchemas.LoadYear | api/schemas/movies.py:18 | the year is required, may not be null, and must be an integer |
| MovieSchemas.LoadIdList | api/schemas/movies.py:19-20 | an id list is optional, may not be null, and must be a list of integers |
| MovieSchemas.LoadMovieData | api/schemas/movies.py:16-20 | accepted iff title and year are present and well typed, the id lists are absent or integer lists, and no other field occurs; the loaded title, year and id lists are the body's values, an absent list staying absent; a refusal reports exactly the unknown and failed fields, a missing title or year as missing |
| MovieSchemas.Complaints | api/schemas/movies.py:16-20 | the reported fields are the unknown ones plus the failed declared ones |
| MovieSchemas.PlaceholderActors | api/schemas/movies.py:27-29 | one actor per id, in order, with the id only |
| MovieSchemas.PlaceholderGenres | api/schemas/movies.py:30-32 | one genre per id, in order, with the id only |
| MovieSchemas.CreateEntity | api/schemas/movies.py:22-33 | the built movie has no id, the loaded title and year, and one placeholder actor (genre) per loaded id in order; an omitted list gives none |
| MovieSchemas.CreateEntityAsWritten | api/schemas/movies.py:22-33 | as written: building fails, naming the key, iff a body omitted `actor_ids` or `genre_ids`; otherwise it builds what `CreateEntity` builds |
| MovieSchemas.EntityIds | api/schemas/movies.py:27-32 | every placeholder carries an id, and the ids the repository looks up are exactly the loaded ones |
| MovieSchemas.LoadMovie | api/schemas/movies.py:16-37 | create and edit bodies load alike: accepted iff the fields load, giving the built movie, else the field errors |
| MovieSchemas.OmittedIdsAsWritten | api/schemas/movies.py:19-28 | a body with only a title and a year loads, but as written building the movie fails on `actor_ids`; as intended it gives a movie without actors or genres |
| MovieSchemas.DumpMovie | api/schemas/movies.py:8-13 | a movie is written as an object with exactly `id`, `title`, `year`, `actors` and `genres` |
| MovieSchemas.ReadDumpActors | api/schemas/movies.py:12 | the written actor list, `{id, name}` per actor, reads back as the same actors |
| MovieSchemas.ReadDumpGenres | api/schemas/movies.py:13 | the written genre list reads back as the same genres |
| MovieSchemas.ReadDumpMovie | api/schemas/movies.py:8-13 | the JSON written for a movie reads back as the same movie, unset fields included |
| MovieResources.ToBadRequest | api/resources/movies.py:44-45 | `ObjectDoesNotExistError` becomes a 400 bad request with the same message and no field errors |
| MovieResources.GetMovieResource.Execute | api/resources/movies.py:21-26 | not found ("Movie not found", 404) iff no movie has the id; otherwise the stored movie, unchanged, with that id |
| MovieResources.CreateMovieResource.Execute | api/resources/movies.py:40-45 | a bad request with the repository's message iff an actor or genre check fails, with nothing written; otherwise the created movie with the new id and the request's title, year and ids |
| MovieResources.EditMovieResource.Execute | api/resources/movies.py:58-64 | the URL id replaces the body's; a failed check is a bad request with the same message; an absent movie gives an empty result and no not-found error; otherwise the stored movie is replaced and returned with the URL id and the request's fields |
| MovieResources.DeleteMovieResource.Execute | api/resources/movies.py:76-77 | no payload and no error; the state is `DeleteSpec` of the old, and the movie can no longer be read |

## Left out

- Database sessions, the engine singleton and the connection string are left out. The store is the explicit `Database` object.
- The service layer passes calls through, so it is the identity here. `api/resources/actors.py` is not part of this model.
- The Flask dispatch of `api/base_resource.py` is left out. This covers:
  - URL routing and variable conversion;
  - reading the body or the query string;
  - the two validation messages that wrap schema errors;
  - `Response` construction.

  The endpoint models take typed values and return the payload or the API error. The success statuses the endpoints declare (200, 201, 204) belong to `Response` construction and are left out with it.
- Query parameters and bodies are modelled as decoded JSON values. This leaves out:
  - marshmallow's coercion of numeric strings and integral floats to integers;
  - floating-point numbers in general;
  - marshmallow's refusal of booleans as integers, which the model gets only because `JBool` is a different case.
- The nesting of marshmallow's validation messages for nested fields is left out. A field error is one of five kinds.
- Transactions are left out:
  - `create_movie` commits the movie row before it adds the join rows. Each repository call is modelled as one atomic step, so a crash between the two commits (an orphan movie) is not modelled.
  - Concurrent requests are not modelled.
- The order in which SQLAlchemy loads a movie's actors and genres is not fixed. The model loads them in join-row order. Its round-trip lemmas state the ids as multisets.
- The order of two distinct actors with the same name and year is not fixed by the query. The model fixes one such order, and `ActorsRepo.PageOrdered` states only the order the query promises.
- Column nullability is left out. `actor.name`, `genre.name`, `movie.title` and `movie.year` are declared without `nullable=False` (database/models/cast.py:12, database/models/genre.py:12, database/models/movie.py:13-14), so the database would accept NULL there. The model's columns are `string` and `int`, so it does not capture a NULL name sorting first in the aggregated report, a NULL year forming its own group, or `get_actors` returning a null name. Every write path in the core stores a loaded title and year, which the schema requires to be non-null.
- SQLite's 64-bit INTEGER range is left out. Ids and years are unbounded integers, so the model stores a `year` beyond 2^63-1 where the driver would raise an overflow error and the request would fail with a server error.
- The wording of a field complaint is reduced to one text per kind. marshmallow words a type error and a range error by field type and bound (for example "Not a valid integer.", "Must be greater than or equal to 0."); the model writes one fixed text for each of the five kinds, in a one-element list as `normalized_messages()` does.
- The `String(1)` column length is not enforced by SQLite, so no length limit is modelled.
- The initial store is assumed valid (unique keys; join rows naming stored movies). Every operation is proved to keep it valid.
- `ActorAggregatedSchema` and `ActorAggregatedPaginatedSchema` write each field as it is, and are not modelled separately.
- `api/schemas/genres.py` is not part of this model. The genre output is taken to be `{id, name}`, like `ActorSchema`.
- MoviesRepository.MoviesRepo.CreateActorRelations: requires every actor to carry an id. Its only callers run the existence check first, and that check fails on an actor without an id. The same holds for `CreateGenreRelations`, `CreateRelations`, `InsertMovie` and `UpdateMovie`.
- MovieStore.CreateThenFetch: states the actor ids and genre ids as multisets, not in order, because the relationship load order is not fixed.
- MovieSchemas.LoadMovie: an omitted `actor_ids` / `genre_ids` loads as empty, as `default=[]` at api/schemas/movies.py:19-20 evidently intends. The code as written fails instead (see Findings, `MovieSchemas.OmittedIdsAsWritten`).

## Findings

| source | as written | input that shows it | evidently intended | confidence | as-written member | corrected member |
|---|---|---|---|---|---|---|
| api/schemas/movies.py:19-20 | `default=[]` is a dump default in marshmallow 3, so a body that omits `actor_ids` or `genre_ids` loads without that key, and `create_entity` then fails reading `data["actor_ids"]` (a server error instead of a movie) | `{"title": "Matrix", "year": 1999}` on POST /movies | an omitted list loads as empty (`load_default=[]`), giving a movie without actors or genres | not executed | MovieSchemas.OmittedIdsAsWritten | MovieSchemas.LoadMovie |
