/**
 * The actors repository (database/repositories/actors.py): the lookup of
 * actors by a set of ids, and the aggregation report that counts, for each
 * actor and year, the movies of that year the actor plays in.
 */
module ActorsRepo {
  import opened Wrappers
  import opened Tables
  import opened Entities
  import opened Ordering

  // ----- get_actors -----

  /** Actor rows as entities, in order. */
  function ToActors(rows: seq<NamedRow>): (actors: seq<Actor>)
    ensures |actors| == |rows|
    ensures forall k :: 0 <= k < |rows| ==> actors[k] == Actor(Some(rows[k].id), Some(rows[k].name))
  {
    seq(|rows|, k requires 0 <= k < |rows| => Actor(Some(rows[k].id), Some(rows[k].name)))
  }

  /**
   * The actors whose id is one of `actorIds`, each with the id and name of
   * its row; ids without a row are left out silently.
   */
  function GetActors(table: seq<NamedRow>, actorIds: seq<int>): (r: seq<Actor>)
    ensures forall a :: a in r <==>
      exists row :: row in table && row.id in actorIds && a == Actor(Some(row.id), Some(row.name))
    ensures actorIds == [] ==> r == []
  {
    var rows := SelectByIds(table, actorIds);
    assert actorIds == [] ==> rows == [] by {
      if actorIds == [] {
        FilterKeepsNone(table, IdIn(actorIds));
      }
    }
    assert forall a :: a in ToActors(rows) ==> exists k :: 0 <= k < |rows| && a == ToActors(rows)[k];
    ToActors(rows)
  }

  /**
   * Since actor ids are unique, the lookup returns one actor per distinct
   * requested id that has a row, so never more than the distinct ids.
   */
  lemma GetActorsCount(table: seq<NamedRow>, actorIds: seq<int>)
    requires Distinct(NamedKeys(table))
    ensures |GetActors(table, actorIds)| == |ToSet(NamedKeys(table)) * ToSet(actorIds)|
    ensures |GetActors(table, actorIds)| <= |ToSet(actorIds)| <= |actorIds|
  {
    SelectCount(table, actorIds);
    IntersectionCard(ToSet(actorIds), ToSet(NamedKeys(table)));
    assert ToSet(NamedKeys(table)) * ToSet(actorIds) == ToSet(actorIds) * ToSet(NamedKeys(table));
    DistinctCard(actorIds);
  }

  // ----- get_actors_aggregated -----

  /** A group of the report: an actor row and a year of that actor's movies. */
  datatype GroupKey = GroupKey(actor: NamedRow, year: int)

  /** A group with its `count(*)`. */
  datatype Group = Group(key: GroupKey, number: nat)

  /**
   * `actor JOIN actor_movie JOIN movie`, one (actor, movie year) pair per
   * joined row; a join row whose actor or movie is not stored joins nothing.
   */
  function Joined(actors: seq<NamedRow>, movies: seq<MovieRow>, links: seq<LinkRow>): (r: seq<GroupKey>)
    ensures forall k :: k in r ==> k.actor in actors
  {
    if links == [] then []
    else
      var head := match (FindNamed(actors, links[0].refId), FindMovie(movies, links[0].movieId))
        case (Some(a), Some(m)) => [GroupKey(a, m.year)]
        case _ => [];
      head + Joined(actors, movies, links[1..])
  }

  /** Join rows that link actor `actorId` to a stored movie of `year`. */
  function LinksTo(movies: seq<MovieRow>, actorId: int, year: int): LinkRow -> bool {
    (l: LinkRow) => l.refId == actorId && exists m :: m in movies && m.id == l.movieId && m.year == year
  }

  /** The number of join rows that link an actor to a movie of a year. */
  function LinkCount(s: Store, actorId: int, year: int): nat {
    |Filter(s.actorMovies, LinksTo(s.movies, actorId, year))|
  }

  /** Every join row that links a stored actor to a stored movie of a year adds one to that pair. */
  lemma {:induction false} JoinedCount(actors: seq<NamedRow>, movies: seq<MovieRow>, links: seq<LinkRow>,
                                       a: NamedRow, year: int)
    requires Distinct(NamedKeys(actors)) && Distinct(MovieKeys(movies)) && a in actors
    ensures multiset(Joined(actors, movies, links))[GroupKey(a, year)]
         == |Filter(links, LinksTo(movies, a.id, year))|
  {
    if links != [] {
      var l := links[0];
      var p := LinksTo(movies, a.id, year);
      JoinedCount(actors, movies, links[1..], a, year);
      var head := match (FindNamed(actors, l.refId), FindMovie(movies, l.movieId))
        case (Some(a'), Some(m)) => [GroupKey(a', m.year)]
        case _ => [];
      assert Joined(actors, movies, links) == head + Joined(actors, movies, links[1..]);
      assert Filter(links, p) == (if p(l) then [l] else []) + Filter(links[1..], p);
      if p(l) {
        var m :| m in movies && m.id == l.movieId && m.year == year;
        FindNamedUnique(actors, a);
        FindMovieUnique(movies, m);
        assert head == [GroupKey(a, year)];
      } else {
        assert multiset(head)[GroupKey(a, year)] == 0;
      }
    }
  }

  /** The distinct pairs of the join: `GROUP BY actor, movie.year`. */
  function GroupKeys(joined: seq<GroupKey>): (keys: seq<GroupKey>)
    ensures Distinct(keys)
    ensures forall k :: k in keys <==> k in joined
  {
    if joined == [] then []
    else
      var rest := GroupKeys(joined[1..]);
      if joined[0] in rest then rest
      else
        assert forall i :: 0 <= i < |rest| ==> rest[i] != joined[0];
        [joined[0]] + rest
  }

  /** Each distinct pair with the number of joined rows that have it. */
  function Tally(joined: seq<GroupKey>): (groups: seq<Group>)
    ensures Distinct(groups)
    ensures |groups| == |ToSet(joined)|
    ensures forall g :: g in groups <==> g.key in joined && g.number == multiset(joined)[g.key]
  {
    var keys := GroupKeys(joined);
    var groups := seq(|keys|, i requires 0 <= i < |keys| => Group(keys[i], multiset(joined)[keys[i]]));
    assert ToSet(keys) == ToSet(joined);
    DistinctCard(keys);
    assert forall i, j :: 0 <= i < j < |groups| ==> groups[i].key != groups[j].key;
    assert forall g :: g in groups <==> g.key in joined && g.number == multiset(joined)[g.key] by {
      forall g: Group | g.key in joined && g.number == multiset(joined)[g.key] ensures g in groups {
        var i :| 0 <= i < |keys| && keys[i] == g.key;
        assert groups[i] == g;
      }
    }
    groups
  }

  /** `ORDER BY actor.name, movie.year`. */
  predicate GroupLe(g: Group, h: Group) {
    || StrLess(g.key.actor.name, h.key.actor.name)
    || (g.key.actor.name == h.key.actor.name && g.key.year <= h.key.year)
  }

  lemma GroupLeTotal(g: Group, h: Group)
    ensures GroupLe(g, h) || GroupLe(h, g)
  {
    StrLessTotal(g.key.actor.name, h.key.actor.name);
  }

  lemma GroupLeTransitive(g: Group, h: Group, i: Group)
    requires GroupLe(g, h) && GroupLe(h, i)
    ensures GroupLe(g, i)
  {
    if StrLess(g.key.actor.name, h.key.actor.name) && StrLess(h.key.actor.name, i.key.actor.name) {
      StrLessTransitive(g.key.actor.name, h.key.actor.name, i.key.actor.name);
    }
  }

  predicate Ordered(groups: seq<Group>) {
    forall i, j :: 0 <= i < j < |groups| ==> GroupLe(groups[i], groups[j])
  }

  /** Places a group before the first group it does not sort after. */
  function Insert(g: Group, groups: seq<Group>): (r: seq<Group>)
    requires Ordered(groups)
    ensures Ordered(r)
    ensures multiset(r) == multiset(groups) + multiset{g}
  {
    if groups == [] then [g]
    else if GroupLe(g, groups[0]) then
      assert forall j :: 0 <= j < |groups| ==> GroupLe(g, groups[j]) by {
        forall j | 0 <= j < |groups| ensures GroupLe(g, groups[j]) {
          if j > 0 {
            GroupLeTransitive(g, groups[0], groups[j]);
          }
        }
      }
      [g] + groups
    else
      var rest := Insert(g, groups[1..]);
      GroupLeTotal(g, groups[0]);
      LowerBoundKept(groups[0], g, groups[1..], rest);
      OrderedCons(groups[0], rest);
      assert groups == [groups[0]] + groups[1..];
      [groups[0]] + rest
  }

  /** A lower bound of a sequence and of one more group bounds every rearrangement of them. */
  lemma LowerBoundKept(h: Group, g: Group, tail: seq<Group>, rest: seq<Group>)
    requires multiset(rest) == multiset(tail) + multiset{g}
    requires GroupLe(h, g)
    requires forall j :: 0 <= j < |tail| ==> GroupLe(h, tail[j])
    ensures forall x :: x in rest ==> GroupLe(h, x)
  {
    forall x | x in rest ensures GroupLe(h, x) {
      assert x in multiset(rest);
      if x != g {
        assert x in multiset(tail);
        var j :| 0 <= j < |tail| && tail[j] == x;
      }
    }
  }

  /** A group below every member of an ordered sequence can go in front of it. */
  lemma OrderedCons(h: Group, rest: seq<Group>)
    requires Ordered(rest)
    requires forall x :: x in rest ==> GroupLe(h, x)
    ensures Ordered([h] + rest)
  {
    forall i, j | 0 <= i < j < |[h] + rest| ensures GroupLe(([h] + rest)[i], ([h] + rest)[j]) {
      assert ([h] + rest)[j] == rest[j - 1];
      if i > 0 {
        assert ([h] + rest)[i] == rest[i - 1];
      }
    }
  }

  /** Insertion sort by name, then year; groups that tie keep their order. */
  function SortGroups(groups: seq<Group>): (r: seq<Group>)
    ensures Ordered(r)
    ensures multiset(r) == multiset(groups)
  {
    if groups == [] then []
    else
      assert groups == [groups[0]] + groups[1..];
      Insert(groups[0], SortGroups(groups[1..]))
  }

  /** A permutation of a distinct sequence is distinct. */
  lemma PermutationDistinct(a: seq<Group>, b: seq<Group>)
    requires multiset(a) == multiset(b) && Distinct(a)
    ensures Distinct(b)
  {
    assert |a| == |multiset(a)| == |multiset(b)| == |b|;
    assert forall x :: x in a <==> x in multiset(a);
    assert forall x :: x in b <==> x in multiset(b);
    assert ToSet(a) == ToSet(b);
    DistinctCard(a);
    DistinctCard(b);
  }

  /** All groups of the report, in report order, before paging. */
  function AggregatedGroups(s: Store): (groups: seq<Group>)
    ensures Ordered(groups)
    ensures Distinct(groups)
    ensures |groups| == |ToSet(Joined(s.actors, s.movies, s.actorMovies))|
    ensures forall g :: g in groups <==>
      g.key in Joined(s.actors, s.movies, s.actorMovies)
      && g.number == multiset(Joined(s.actors, s.movies, s.actorMovies))[g.key]
  {
    var tally := Tally(Joined(s.actors, s.movies, s.actorMovies));
    var sorted := SortGroups(tally);
    PermutationDistinct(tally, sorted);
    assert forall g :: g in sorted <==> g in multiset(tally);
    sorted
  }

  /** A group as a line of the report. */
  function ToLine(g: Group): ActorAggregated {
    ActorAggregated(g.key.actor.name, g.key.year, g.number)
  }

  /**
   * `.offset(offset).limit(limit)` over the report: the lines of the groups
   * from position `offset` on, at most `limit` of them, in order.
   */
  function PageLines(groups: seq<Group>, offset: nat, limit: nat): (lines: seq<ActorAggregated>)
    ensures |lines| <= limit
    ensures offset >= |groups| ==> lines == []
    ensures offset < |groups| ==> |lines| == if offset + limit <= |groups| then limit else |groups| - offset
    ensures forall i :: 0 <= i < |lines| ==> offset + i < |groups| && lines[i] == ToLine(groups[offset + i])
  {
    var lo := if offset <= |groups| then offset else |groups|;
    var hi := if offset + limit <= |groups| then offset + limit else |groups|;
    seq(hi - lo, i requires 0 <= i < hi - lo => ToLine(groups[lo + i]))
  }

  /**
   * The report page: `total` counts every group (the distinct actor and year
   * pairs of the join), and the lines are the groups
   * from position `offset` on, at most `limit` of them; `limit` and `offset`
   * are echoed.
   */
  function GetActorsAggregated(s: Store, offset: nat, limit: nat): (r: ActorsAggregatedPaginated)
    ensures r.total == |AggregatedGroups(s)| == |ToSet(Joined(s.actors, s.movies, s.actorMovies))|
    ensures r.limit == limit && r.offset == offset
    ensures |r.actors| <= limit
    ensures offset >= r.total ==> r.actors == []
    ensures offset < r.total ==> |r.actors| == if offset + limit <= r.total then limit else r.total - offset
    ensures forall i :: 0 <= i < |r.actors| ==>
      offset + i < r.total && r.actors[i] == ToLine(AggregatedGroups(s)[offset + i])
  {
    var groups := AggregatedGroups(s);
    ActorsAggregatedPaginated(PageLines(groups, offset, limit), |groups|, limit, offset)
  }

  // ----- properties of the report -----

  /**
   * Every group is an actor row with a year, and its number is the count of
   * join rows linking that actor to a movie of that year; no group has a
   * zero count.
   */
  lemma GroupNumbers(s: Store)
    requires s.Valid()
    ensures forall g :: g in AggregatedGroups(s) ==>
      && g.key.actor in s.actors
      && g.number == LinkCount(s, g.key.actor.id, g.key.year)
      && g.number >= 1
  {
    var joined := Joined(s.actors, s.movies, s.actorMovies);
    forall g | g in AggregatedGroups(s)
      ensures g.key.actor in s.actors && g.number == LinkCount(s, g.key.actor.id, g.key.year) && g.number >= 1
    {
      JoinedCount(s.actors, s.movies, s.actorMovies, g.key.actor, g.key.year);
    }
  }

  /**
   * Groups are keyed by the actor row, not by its name: there is a group for
   * an actor and a year exactly when some join row links that actor to a
   * movie of that year, so actors without movies have none.
   */
  lemma GroupExistsIff(s: Store, a: NamedRow, year: int)
    requires s.Valid() && a in s.actors
    ensures (exists g :: g in AggregatedGroups(s) && g.key == GroupKey(a, year)) <==> LinkCount(s, a.id, year) > 0
  {
    var joined := Joined(s.actors, s.movies, s.actorMovies);
    JoinedCount(s.actors, s.movies, s.actorMovies, a, year);
    if LinkCount(s, a.id, year) > 0 {
      var k := GroupKey(a, year);
      assert k in multiset(joined);
      assert Group(k, multiset(joined)[k]) in AggregatedGroups(s);
    }
  }

  /** No actor and year appears in two groups. */
  lemma GroupKeysDistinct(s: Store)
    ensures forall i, j :: 0 <= i < j < |AggregatedGroups(s)| ==>
      AggregatedGroups(s)[i].key != AggregatedGroups(s)[j].key
  {
    var groups := AggregatedGroups(s);
    forall i, j | 0 <= i < j < |groups| ensures groups[i].key != groups[j].key {
      assert groups[i] in groups && groups[j] in groups;
      assert groups[i] != groups[j];
    }
  }

  /** The lines of a page come by actor name, then by year. */
  lemma PageOrdered(s: Store, offset: nat, limit: nat)
    ensures forall i, j :: 0 <= i < j < |GetActorsAggregated(s, offset, limit).actors| ==>
      var a, b := GetActorsAggregated(s, offset, limit).actors[i], GetActorsAggregated(s, offset, limit).actors[j];
      StrLess(a.name, b.name) || (a.name == b.name && a.year <= b.year)
  {
    var r := GetActorsAggregated(s, offset, limit);
    var groups := AggregatedGroups(s);
    forall i, j | 0 <= i < j < |r.actors|
      ensures StrLess(r.actors[i].name, r.actors[j].name)
           || (r.actors[i].name == r.actors[j].name && r.actors[i].year <= r.actors[j].year)
    {
      assert GroupLe(groups[offset + i], groups[offset + j]);
    }
  }
}
