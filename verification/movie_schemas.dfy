/**
 * The movie schemas (`api/schemas/movies.py`): loading the body of a create
 * or edit request into a `Movie`, and writing a `Movie` out.
 */
module MovieSchemas {
  import opened Wrappers
  import opened JsonValues
  import opened ApiErrors
  import opened Entities
  import opened Tables
  import opened CommonSchemas

  const TitleKey := "title"
  const YearKey := "year"
  const ActorIdsKey := "actor_ids"
  const GenreIdsKey := "genre_ids"
  const IdKey := "id"
  const NameKey := "name"
  const ActorsKey := "actors"
  const GenresKey := "genres"

  /** The fields loaded from a body; an id list the body did not send is absent (`None`). */
  datatype MovieData = MovieData(title: string, year: int, actorIds: Option<seq<int>>, genreIds: Option<seq<int>>)

  // ----- loading -----

  /** The integers of a list whose every item is an integer. */
  function IntItems(items: seq<Json>): (r: Option<seq<int>>)
    ensures r.Some? <==> forall k :: 0 <= k < |items| ==> items[k].JInt?
    ensures r.Some? ==> |r.value| == |items| && forall k :: 0 <= k < |items| ==> items[k] == JInt(r.value[k])
  {
    if items == [] then Some([])
    else if !items[0].JInt? then None
    else
      match IntItems(items[1..])
      case None => None
      case Some(rest) => Some([items[0].i] + rest)
  }

  /** A `String` field that is required and may not be null. */
  function LoadTitle(input: map<string, Json>): (r: Result<string, FieldError>)
    ensures r.Success? <==> TitleKey in input && input[TitleKey].JStr?
    ensures r.Success? ==> input[TitleKey] == JStr(r.value)
    ensures TitleKey !in input ==> r == Failure(MissingData)
    ensures TitleKey in input && input[TitleKey] == JNull ==> r == Failure(NullValue)
  {
    if TitleKey !in input then Failure(MissingData)
    else match input[TitleKey]
      case JNull => Failure(NullValue)
      case JStr(s) => Success(s)
      case _ => Failure(InvalidType)
  }

  /** An `Integer` field that is required and may not be null. */
  function LoadYear(input: map<string, Json>): (r: Result<int, FieldError>)
    ensures r.Success? <==> YearKey in input && input[YearKey].JInt?
    ensures r.Success? ==> input[YearKey] == JInt(r.value)
    ensures YearKey !in input ==> r == Failure(MissingData)
    ensures YearKey in input && input[YearKey] == JNull ==> r == Failure(NullValue)
  {
    if YearKey !in input then Failure(MissingData)
    else match input[YearKey]
      case JNull => Failure(NullValue)
      case JInt(i) => Success(i)
      case _ => Failure(InvalidType)
  }

  /** A `List(Integer)` field that is optional and may not be null; absent stays absent. */
  function LoadIdList(input: map<string, Json>, key: string): (r: Result<Option<seq<int>>, FieldError>)
    ensures key !in input ==> r == Success(None)
    ensures key in input ==> (r.Success? <==> input[key].JList? && IntItems(input[key].items).Some?)
    ensures key in input && r.Success? ==> r.value == IntItems(input[key].items)
    ensures key in input && input[key] == JNull ==> r == Failure(NullValue)
  {
    if key !in input then Success(None)
    else match input[key]
      case JNull => Failure(NullValue)
      case JList(items) => if IntItems(items).Some? then Success(IntItems(items)) else Failure(InvalidType)
      case _ => Failure(InvalidType)
  }

  /** An id list is acceptable: absent, or a list of integers. */
  ghost predicate ListAcceptable(input: map<string, Json>, key: string) {
    key !in input || (input[key].JList? && forall k :: 0 <= k < |input[key].items| ==> input[key].items[k].JInt?)
  }

  /** The fields `CreateMovieSchema` declares. */
  function KnownFields(): set<string> {
    {TitleKey, YearKey, ActorIdsKey, GenreIdsKey}
  }

  /**
   * `CreateMovieSchema().load` before `create_entity`: `title` (a string) and
   * `year` (an integer) are required and may not be null; `actor_ids` and
   * `genre_ids` are optional lists of integers that may not be null; no other
   * field is accepted. On failure every offending field is reported.
   */
  function LoadMovieData(input: map<string, Json>): (r: Result<MovieData, ErrorMap>)
    ensures r.Success? <==>
      && input.Keys <= KnownFields()
      && TitleKey in input && input[TitleKey].JStr?
      && YearKey in input && input[YearKey].JInt?
      && ListAcceptable(input, ActorIdsKey) && ListAcceptable(input, GenreIdsKey)
    ensures r.Success? ==>
      && input[TitleKey] == JStr(r.value.title)
      && input[YearKey] == JInt(r.value.year)
      && (r.value.actorIds.None? <==> ActorIdsKey !in input)
      && (r.value.genreIds.None? <==> GenreIdsKey !in input)
      && (ActorIdsKey in input ==> r.value.actorIds == IntItems(input[ActorIdsKey].items))
      && (GenreIdsKey in input ==> r.value.genreIds == IntItems(input[GenreIdsKey].items))
    ensures r.Failure? ==>
      && r.error != map[]
      && (TitleKey !in input ==> TitleKey in r.error && r.error[TitleKey] == MissingData)
      && (YearKey !in input ==> YearKey in r.error && r.error[YearKey] == MissingData)
      && (forall k :: k in r.error <==> k in input.Keys - KnownFields() || k in FailedFields(input))
  {
    var title := LoadTitle(input);
    var year := LoadYear(input);
    var actorIds := LoadIdList(input, ActorIdsKey);
    var genreIds := LoadIdList(input, GenreIdsKey);
    var errors := Complaints(input, title, year, actorIds, genreIds);
    if errors == map[] then
      assert TitleKey !in errors && YearKey !in errors && ActorIdsKey !in errors && GenreIdsKey !in errors;
      assert input.Keys - KnownFields() <= errors.Keys;
      Success(MovieData(title.value, year.value, actorIds.value, genreIds.value))
    else
      Failure(errors)
  }

  /** The declared fields whose value the schema refuses. */
  ghost function FailedFields(input: map<string, Json>): set<string> {
    (if TitleKey in input && input[TitleKey].JStr? then {} else {TitleKey})
    + (if YearKey in input && input[YearKey].JInt? then {} else {YearKey})
    + (if ListAcceptable(input, ActorIdsKey) then {} else {ActorIdsKey})
    + (if ListAcceptable(input, GenreIdsKey) then {} else {GenreIdsKey})
  }

  /** All field complaints of one body: unknown fields, then each failed declared field. */
  function Complaints(input: map<string, Json>, title: Result<string, FieldError>, year: Result<int, FieldError>,
                      actorIds: Result<Option<seq<int>>, FieldError>, genreIds: Result<Option<seq<int>>, FieldError>)
    : (errors: ErrorMap)
    requires title == LoadTitle(input) && year == LoadYear(input)
    requires actorIds == LoadIdList(input, ActorIdsKey) && genreIds == LoadIdList(input, GenreIdsKey)
    ensures forall k :: k in errors <==> (k in input && k !in KnownFields()) || k in FailedFields(input)
    ensures title.Failure? ==> TitleKey in errors && errors[TitleKey] == title.error
    ensures year.Failure? ==> YearKey in errors && errors[YearKey] == year.error
  {
    var unknown := UnknownFields(input, KnownFields());
    var e1 := FieldComplaint(TitleKey, title);
    var e2 := FieldComplaint(YearKey, year);
    var e3 := FieldComplaint(ActorIdsKey, actorIds);
    var e4 := FieldComplaint(GenreIdsKey, genreIds);
    assert actorIds.Failure? <==> !ListAcceptable(input, ActorIdsKey);
    assert genreIds.Failure? <==> !ListAcceptable(input, GenreIdsKey);
    var errors := unknown + e1 + e2 + e3 + e4;
    assert title.Failure? ==> TitleKey !in e2 && TitleKey !in e3 && TitleKey !in e4;
    assert year.Failure? ==> YearKey !in e3 && YearKey !in e4;
    errors
  }

  // ----- building the entity -----

  /** A list the body did not send counts as empty. */
  function OrEmpty(ids: Option<seq<int>>): seq<int> {
    if ids.Some? then ids.value else []
  }

  /** One placeholder actor per id, in order: the id only, no name. */
  function PlaceholderActors(ids: seq<int>): (actors: seq<Actor>)
    ensures |actors| == |ids|
    ensures forall k :: 0 <= k < |ids| ==> actors[k] == Actor(Some(ids[k]), None)
  {
    seq(|ids|, k requires 0 <= k < |ids| => Actor(Some(ids[k]), None))
  }

  /** One placeholder genre per id, in order: the id only, no name. */
  function PlaceholderGenres(ids: seq<int>): (genres: seq<Genre>)
    ensures |genres| == |ids|
    ensures forall k :: 0 <= k < |ids| ==> genres[k] == Genre(Some(ids[k]), None)
  {
    seq(|ids|, k requires 0 <= k < |ids| => Genre(Some(ids[k]), None))
  }

  /**
   * `create_entity` as the schema evidently intends it: a movie without an
   * id, with the loaded title and year and one placeholder actor (genre) per
   * loaded id; a list the body omitted gives no actors (genres).
   */
  function CreateEntity(d: MovieData): (m: Movie)
    ensures m.id.None? && m.title == d.title && m.year == d.year
    ensures |m.actors| == |OrEmpty(d.actorIds)| && |m.genres| == |OrEmpty(d.genreIds)|
    ensures forall k :: 0 <= k < |m.actors| ==> m.actors[k] == Actor(Some(OrEmpty(d.actorIds)[k]), None)
    ensures forall k :: 0 <= k < |m.genres| ==> m.genres[k] == Genre(Some(OrEmpty(d.genreIds)[k]), None)
  {
    Movie(d.title, d.year, None, PlaceholderActors(OrEmpty(d.actorIds)), PlaceholderGenres(OrEmpty(d.genreIds)))
  }

  /**
   * `create_entity` as written: it reads `data["actor_ids"]` and
   * `data["genre_ids"]`, and a body that omitted either list makes that read
   * fail (the failure names the missing key); otherwise it builds the same
   * movie as `CreateEntity`.
   */
  function CreateEntityAsWritten(d: MovieData): (r: Result<Movie, string>)
    ensures r.Failure? <==> d.actorIds.None? || d.genreIds.None?
    ensures r.Failure? ==> r.error in {ActorIdsKey, GenreIdsKey}
    ensures r.Success? ==> r.value == CreateEntity(d)
  {
    if d.actorIds.None? then Failure(ActorIdsKey)
    else if d.genreIds.None? then Failure(GenreIdsKey)
    else Success(Movie(d.title, d.year, None, PlaceholderActors(d.actorIds.value), PlaceholderGenres(d.genreIds.value)))
  }

  /** The ids of the built entity, as the repository reads them, are exactly the loaded ids. */
  lemma EntityIds(d: MovieData)
    ensures forall a :: a in CreateEntity(d).actors ==> a.id.Some?
    ensures forall g :: g in CreateEntity(d).genres ==> g.id.Some?
    ensures KnownIds(ActorIds(CreateEntity(d).actors)) == OrEmpty(d.actorIds)
    ensures KnownIds(GenreIds(CreateEntity(d).genres)) == OrEmpty(d.genreIds)
  {
    var m := CreateEntity(d);
    assert forall k :: 0 <= k < |m.actors| ==> ActorIds(m.actors)[k].Some?;
    assert forall k :: 0 <= k < |m.genres| ==> GenreIds(m.genres)[k].Some?;
  }

  /**
   * `CreateMovieSchema().load` with `create_entity`, as evidently intended;
   * `EditMovieSchema` declares nothing of its own, so edit bodies load the
   * same way.
   */
  function LoadMovie(input: map<string, Json>): (r: Result<Movie, ErrorMap>)
    ensures r.Success? <==> LoadMovieData(input).Success?
    ensures r.Success? ==> r.value == CreateEntity(LoadMovieData(input).value)
    ensures r.Failure? ==> r.error == LoadMovieData(input).error
  {
    match LoadMovieData(input)
    case Success(d) => Success(CreateEntity(d))
    case Failure(errors) => Failure(errors)
  }

  /** As written, the body loads but building the movie fails on an omitted `actor_ids`. */
  lemma OmittedIdsAsWritten()
    ensures var input := map[TitleKey := JStr("Matrix"), YearKey := JInt(1999)];
      && LoadMovieData(input).Success?
      && CreateEntityAsWritten(LoadMovieData(input).value) == Failure(ActorIdsKey)
      && LoadMovie(input) == Success(Movie("Matrix", 1999, None, [], []))
  {
    var input := map[TitleKey := JStr("Matrix"), YearKey := JInt(1999)];
    assert input.Keys == {TitleKey, YearKey};
    assert input.Keys <= KnownFields();
  }

  // ----- writing -----

  function DumpOptInt(v: Option<int>): Json {
    if v.Some? then JInt(v.value) else JNull
  }

  function DumpOptStr(v: Option<string>): Json {
    if v.Some? then JStr(v.value) else JNull
  }

  /** `ActorSchema`: `{id, name}`, null for an unset field. */
  function DumpActor(a: Actor): Json {
    JObject(map[IdKey := DumpOptInt(a.id), NameKey := DumpOptStr(a.name)])
  }

  /** `GenreSchema`: `{id, name}`, like `ActorSchema`. */
  function DumpGenre(g: Genre): Json {
    JObject(map[IdKey := DumpOptInt(g.id), NameKey := DumpOptStr(g.name)])
  }

  function DumpActors(actors: seq<Actor>): (items: seq<Json>)
    ensures |items| == |actors| && forall k :: 0 <= k < |actors| ==> items[k] == DumpActor(actors[k])
  {
    seq(|actors|, k requires 0 <= k < |actors| => DumpActor(actors[k]))
  }

  function DumpGenres(genres: seq<Genre>): (items: seq<Json>)
    ensures |items| == |genres| && forall k :: 0 <= k < |genres| ==> items[k] == DumpGenre(genres[k])
  {
    seq(|genres|, k requires 0 <= k < |genres| => DumpGenre(genres[k]))
  }

  /** `MovieSchema`: `{id, title, year, actors: [{id, name}], genres: [{id, name}]}`. */
  function DumpMovie(m: Movie): (j: Json)
    ensures j.JObject? && j.fields.Keys == {IdKey, TitleKey, YearKey, ActorsKey, GenresKey}
  {
    JObject(map[
      IdKey := DumpOptInt(m.id),
      TitleKey := JStr(m.title),
      YearKey := JInt(m.year),
      ActorsKey := JList(DumpActors(m.actors)),
      GenresKey := JList(DumpGenres(m.genres))])
  }

  // ----- reading back what was written -----

  function ReadOptInt(j: Json): Option<Option<int>> {
    match j
    case JNull => Some(None)
    case JInt(i) => Some(Some(i))
    case _ => None
  }

  function ReadOptStr(j: Json): Option<Option<string>> {
    match j
    case JNull => Some(None)
    case JStr(s) => Some(Some(s))
    case _ => None
  }

  /** The id and name of an `{id, name}` object. */
  function ReadIdName(j: Json): Option<(Option<int>, Option<string>)> {
    if j.JObject? && IdKey in j.fields && NameKey in j.fields
       && ReadOptInt(j.fields[IdKey]).Some? && ReadOptStr(j.fields[NameKey]).Some?
    then Some((ReadOptInt(j.fields[IdKey]).value, ReadOptStr(j.fields[NameKey]).value))
    else None
  }

  function ReadActors(items: seq<Json>): Option<seq<Actor>> {
    if items == [] then Some([])
    else
      match (ReadIdName(items[0]), ReadActors(items[1..]))
      case (Some(p), Some(rest)) => Some([Actor(p.0, p.1)] + rest)
      case _ => None
  }

  function ReadGenres(items: seq<Json>): Option<seq<Genre>> {
    if items == [] then Some([])
    else
      match (ReadIdName(items[0]), ReadGenres(items[1..]))
      case (Some(p), Some(rest)) => Some([Genre(p.0, p.1)] + rest)
      case _ => None
  }

  /** A movie from the object `MovieSchema` writes. */
  function ReadMovie(j: Json): Option<Movie> {
    if j.JObject? && j.fields.Keys == {IdKey, TitleKey, YearKey, ActorsKey, GenresKey}
       && ReadOptInt(j.fields[IdKey]).Some? && j.fields[TitleKey].JStr? && j.fields[YearKey].JInt?
       && j.fields[ActorsKey].JList? && j.fields[GenresKey].JList?
       && ReadActors(j.fields[ActorsKey].items).Some? && ReadGenres(j.fields[GenresKey].items).Some?
    then Some(Movie(j.fields[TitleKey].s, j.fields[YearKey].i, ReadOptInt(j.fields[IdKey]).value,
                    ReadActors(j.fields[ActorsKey].items).value, ReadGenres(j.fields[GenresKey].items).value))
    else None
  }

  lemma {:induction false} ReadDumpActors(actors: seq<Actor>)
    ensures ReadActors(DumpActors(actors)) == Some(actors)
  {
    var items := DumpActors(actors);
    if actors != [] {
      assert items[1..] == DumpActors(actors[1..]);
      ReadDumpActors(actors[1..]);
      assert ReadIdName(items[0]) == Some((actors[0].id, actors[0].name));
      assert [actors[0]] + actors[1..] == actors;
    }
  }

  lemma {:induction false} ReadDumpGenres(genres: seq<Genre>)
    ensures ReadGenres(DumpGenres(genres)) == Some(genres)
  {
    var items := DumpGenres(genres);
    if genres != [] {
      assert items[1..] == DumpGenres(genres[1..]);
      ReadDumpGenres(genres[1..]);
      assert ReadIdName(items[0]) == Some((genres[0].id, genres[0].name));
      assert [genres[0]] + genres[1..] == genres;
    }
  }

  /** Writing a movie loses nothing: the written object reads back as the same movie. */
  lemma ReadDumpMovie(m: Movie)
    ensures ReadMovie(DumpMovie(m)) == Some(m)
  {
    var f := DumpMovie(m).fields;
    assert f[IdKey] == DumpOptInt(m.id) && f[TitleKey] == JStr(m.title) && f[YearKey] == JInt(m.year);
    assert ReadOptInt(f[IdKey]) == Some(m.id);
    assert f[ActorsKey] == JList(DumpActors(m.actors));
    assert f[GenresKey] == JList(DumpGenres(m.genres));
    ReadDumpActors(m.actors);
    ReadDumpGenres(m.genres);
  }
}
