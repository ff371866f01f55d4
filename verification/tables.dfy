/**
 * The relational store under the repositories (database/models/movie.py, cast.py and genre.py): the
 * `movie`, `actor` and `genre` tables and the `actor_movie` / `genre_movie`
 * join tables, each a sequence of rows, with the few query primitives the
 * repositories use (filters, first-row lookups, the `IN` filter and the
 * rowid rule that gives a new row its id).
 */
module Tables {
  import opened Wrappers

  /** A row of `actor` or `genre`: both tables are (id, name). */
  datatype NamedRow = NamedRow(id: int, name: string)

  /** A row of `movie`. */
  datatype MovieRow = MovieRow(id: int, title: string, year: int)

  /**
   * A row of `actor_movie` or `genre_movie`: its own surrogate id, the id of the
   * actor (or genre) it links, and the id of the movie.
   */
  datatype LinkRow = LinkRow(id: int, refId: int, movieId: int)

  /** The five tables of the store. */
  datatype Store = Store(
    movies: seq<MovieRow>,
    actors: seq<NamedRow>,
    genres: seq<NamedRow>,
    actorMovies: seq<LinkRow>,
    genreMovies: seq<LinkRow>)
  {
    /**
     * Primary keys are unique in every table, and every join row names a
     * stored movie (the store does not enforce foreign keys; the movies
     * repository keeps this one by deleting a movie's join rows with it).
     */
    ghost predicate Valid() {
      && Distinct(MovieKeys(movies))
      && Distinct(NamedKeys(actors))
      && Distinct(NamedKeys(genres))
      && Distinct(LinkKeys(actorMovies))
      && Distinct(LinkKeys(genreMovies))
      && (forall l :: l in actorMovies ==> l.movieId in MovieKeys(movies))
      && (forall l :: l in genreMovies ==> l.movieId in MovieKeys(movies))
    }
  }

  // ----- keys -----

  /** No value occurs twice. */
  predicate Distinct<T(==)>(s: seq<T>) {
    forall i, j :: 0 <= i < j < |s| ==> s[i] != s[j]
  }

  /** The values of a sequence, as a set. */
  function ToSet<T>(s: seq<T>): set<T> {
    set x | x in s
  }

  function MovieKeys(rows: seq<MovieRow>): (ks: seq<int>)
    ensures |ks| == |rows|
    ensures forall k :: 0 <= k < |rows| ==> ks[k] == rows[k].id
  {
    seq(|rows|, k requires 0 <= k < |rows| => rows[k].id)
  }

  function NamedKeys(rows: seq<NamedRow>): (ks: seq<int>)
    ensures |ks| == |rows|
    ensures forall k :: 0 <= k < |rows| ==> ks[k] == rows[k].id
  {
    seq(|rows|, k requires 0 <= k < |rows| => rows[k].id)
  }

  lemma NamedKeysPrepend(x: NamedRow, rows: seq<NamedRow>)
    ensures NamedKeys([x] + rows) == [x.id] + NamedKeys(rows)
  {
    var l, r := NamedKeys([x] + rows), [x.id] + NamedKeys(rows);
    assert |l| == |r|;
    forall k | 0 <= k < |l| ensures l[k] == r[k] {
      if k > 0 {
        assert ([x] + rows)[k] == rows[k - 1];
      }
    }
  }

  function LinkKeys(rows: seq<LinkRow>): (ks: seq<int>)
    ensures |ks| == |rows|
    ensures forall k :: 0 <= k < |rows| ==> ks[k] == rows[k].id
  {
    seq(|rows|, k requires 0 <= k < |rows| => rows[k].id)
  }

  /** The largest key of a non-empty table. */
  function MaxKey(ks: seq<int>): (m: int)
    requires ks != []
    ensures m in ks
    ensures forall k :: k in ks ==> k <= m
  {
    if |ks| == 1 then ks[0]
    else
      var rest := MaxKey(ks[1..]);
      assert forall k :: k in ks ==> k == ks[0] || k in ks[1..];
      if ks[0] >= rest then ks[0] else rest
  }

  /**
   * The id the store gives a new row: one more than the largest id in the
   * table, or 1 for an empty table (SQLite's rule for an INTEGER PRIMARY KEY).
   */
  function NextId(ks: seq<int>): (n: int)
    ensures forall k :: k in ks ==> k < n
    ensures ks == [] ==> n == 1
  {
    if ks == [] then 1 else MaxKey(ks) + 1
  }

  /** The part of a distinct sequence after its first element is distinct and lacks that element. */
  lemma DistinctTail<T>(s: seq<T>)
    requires s != [] && Distinct(s)
    ensures Distinct(s[1..]) && s[0] !in s[1..]
  {
    var t := s[1..];
    forall i, j | 0 <= i < j < |t| ensures t[i] != t[j] {
      assert t[i] == s[i + 1] && t[j] == s[j + 1];
    }
    forall j | 0 <= j < |t| ensures t[j] != s[0] {
      assert t[j] == s[j + 1];
    }
  }

  /** Appending a new value keeps a sequence distinct. */
  lemma DistinctAppend<T>(s: seq<T>, x: T)
    requires Distinct(s) && x !in s
    ensures Distinct(s + [x])
  {
    var t := s + [x];
    forall i, j | 0 <= i < j < |t| ensures t[i] != t[j] {
      if j < |s| {
        assert t[i] == s[i] && t[j] == s[j];
      } else {
        assert t[i] == s[i] && s[i] in s;
      }
    }
  }

  /** Prepending a new value keeps a sequence distinct. */
  lemma DistinctPrepend<T>(s: seq<T>, x: T)
    requires Distinct(s) && x !in s
    ensures Distinct([x] + s)
  {
    var t := [x] + s;
    forall i, j | 0 <= i < j < |t| ensures t[i] != t[j] {
      if i == 0 {
        assert t[j] == s[j - 1] && s[j - 1] in s;
      } else {
        assert t[i] == s[i - 1] && t[j] == s[j - 1];
      }
    }
  }

  /** A sequence has at least as many elements as values, and exactly as many iff it is distinct. */
  lemma {:induction false} DistinctCard<T>(s: seq<T>)
    ensures |ToSet(s)| <= |s|
    ensures |ToSet(s)| == |s| <==> Distinct(s)
  {
    if s == [] {
      assert ToSet(s) == {};
    } else {
      var t := s[1..];
      DistinctCard(t);
      assert ToSet(s) == {s[0]} + ToSet(t);
      if s[0] in t {
        assert ToSet(s) == ToSet(t);
        var j :| 0 <= j < |t| && t[j] == s[0];
        assert s[0] == s[j + 1];
      } else {
        assert |ToSet(s)| == |ToSet(t)| + 1;
        if Distinct(t) {
          forall i, j | 0 <= i < j < |s| ensures s[i] != s[j] {
            if i == 0 {
              assert s[j] == t[j - 1];
            } else {
              assert s[i] == t[i - 1] && s[j] == t[j - 1];
            }
          }
        }
        if Distinct(s) {
          DistinctTail(s);
        }
      }
    }
  }

  /** Every key of a part of a table is a key of the table. */
  lemma LinkKeysOfPart(part: seq<LinkRow>, whole: seq<LinkRow>)
    requires forall x :: x in part ==> x in whole
    ensures forall k :: k in LinkKeys(part) ==> k in LinkKeys(whole)
  {
    forall k | k in LinkKeys(part) ensures k in LinkKeys(whole) {
      var i :| 0 <= i < |part| && LinkKeys(part)[i] == k;
      assert part[i] in part;
      var j :| 0 <= j < |whole| && whole[j] == part[i];
      assert LinkKeys(whole)[j] == k;
    }
  }

  /** Every key of a part of a table is a key of the table. */
  lemma MovieKeysOfPart(part: seq<MovieRow>, whole: seq<MovieRow>)
    requires forall x :: x in part ==> x in whole
    ensures forall k :: k in MovieKeys(part) ==> k in MovieKeys(whole)
  {
    forall k | k in MovieKeys(part) ensures k in MovieKeys(whole) {
      var i :| 0 <= i < |part| && MovieKeys(part)[i] == k;
      assert part[i] in part;
      var j :| 0 <= j < |whole| && whole[j] == part[i];
      assert MovieKeys(whole)[j] == k;
    }
  }

  // ----- filters -----

  /** The rows a `WHERE` clause keeps, in table order. */
  function Filter<T(!new)>(s: seq<T>, keep: T -> bool): (r: seq<T>)
    ensures |r| <= |s|
    ensures forall x :: x in r <==> x in s && keep(x)
  {
    if s == [] then []
    else (if keep(s[0]) then [s[0]] else []) + Filter(s[1..], keep)
  }

  /** Filtering distributes over concatenation. */
  lemma {:induction false} FilterConcat<T(!new)>(a: seq<T>, b: seq<T>, keep: T -> bool)
    ensures Filter(a + b, keep) == Filter(a, keep) + Filter(b, keep)
  {
    if a == [] {
      assert a + b == b;
    } else {
      assert (a + b)[1..] == a[1..] + b;
      FilterConcat(a[1..], b, keep);
    }
  }

  /** A filter that keeps every row changes nothing. */
  lemma {:induction false} FilterKeepsAll<T(!new)>(s: seq<T>, keep: T -> bool)
    requires forall x :: x in s ==> keep(x)
    ensures Filter(s, keep) == s
  {
    if s != [] {
      FilterKeepsAll(s[1..], keep);
    }
  }

  /** A filter that keeps no row gives nothing. */
  lemma {:induction false} FilterKeepsNone<T(!new)>(s: seq<T>, keep: T -> bool)
    requires forall x :: x in s ==> !keep(x)
    ensures Filter(s, keep) == []
  {
    if s != [] {
      FilterKeepsNone(s[1..], keep);
    }
  }

  /** Filtering twice with conditions `p` then `q` is filtering once with both. */
  lemma {:induction false} FilterFilter<T(!new)>(s: seq<T>, p: T -> bool, q: T -> bool, both: T -> bool)
    requires forall x :: both(x) == (p(x) && q(x))
    ensures Filter(Filter(s, p), q) == Filter(s, both)
  {
    if s != [] {
      FilterFilter(s[1..], p, q, both);
      assert Filter(s, p) == (if p(s[0]) then [s[0]] else []) + Filter(s[1..], p);
      FilterConcat(if p(s[0]) then [s[0]] else [], Filter(s[1..], p), q);
    }
  }

  /** Join rows of movie `m`. */
  function OfMovie(m: int): LinkRow -> bool {
    (l: LinkRow) => l.movieId == m
  }

  /** Join rows of any movie but `m`. */
  function NotOfMovie(m: int): LinkRow -> bool {
    (l: LinkRow) => l.movieId != m
  }

  /** Movie rows whose id is not `m`. */
  function OtherMovie(m: int): MovieRow -> bool {
    (r: MovieRow) => r.id != m
  }

  /** The actor (or genre) ids that a list of join rows links, in order. */
  function RefIds(links: seq<LinkRow>): (ids: seq<int>)
    ensures |ids| == |links|
    ensures forall k :: 0 <= k < |links| ==> ids[k] == links[k].refId
  {
    seq(|links|, k requires 0 <= k < |links| => links[k].refId)
  }

  lemma RefIdsConcat(a: seq<LinkRow>, b: seq<LinkRow>)
    ensures RefIds(a + b) == RefIds(a) + RefIds(b)
  {
  }

  // ----- first-row lookups (`.first()` on an equality filter) -----

  function FindMovie(rows: seq<MovieRow>, id: int): (r: Option<MovieRow>)
    ensures r.Some? ==> r.value in rows && r.value.id == id
    ensures r.None? <==> id !in MovieKeys(rows)
  {
    if rows == [] then None
    else if rows[0].id == id then Some(rows[0])
    else
      assert MovieKeys(rows) == [rows[0].id] + MovieKeys(rows[1..]);
      FindMovie(rows[1..], id)
  }

  function FindNamed(rows: seq<NamedRow>, id: int): (r: Option<NamedRow>)
    ensures r.Some? ==> r.value in rows && r.value.id == id
    ensures r.None? <==> id !in NamedKeys(rows)
  {
    if rows == [] then None
    else if rows[0].id == id then Some(rows[0])
    else
      assert NamedKeys(rows) == [rows[0].id] + NamedKeys(rows[1..]);
      FindNamed(rows[1..], id)
  }

  /** With unique keys, the lookup by a row's id finds that very row. */
  lemma FindMovieUnique(rows: seq<MovieRow>, row: MovieRow)
    requires Distinct(MovieKeys(rows)) && row in rows
    ensures FindMovie(rows, row.id) == Some(row)
  {
    var i :| 0 <= i < |rows| && rows[i] == row;
    assert row.id in MovieKeys(rows) by { assert MovieKeys(rows)[i] == row.id; }
    var found := FindMovie(rows, row.id).value;
    var j :| 0 <= j < |rows| && rows[j] == found;
    assert MovieKeys(rows)[i] == MovieKeys(rows)[j];
  }

  lemma FindNamedUnique(rows: seq<NamedRow>, row: NamedRow)
    requires Distinct(NamedKeys(rows)) && row in rows
    ensures FindNamed(rows, row.id) == Some(row)
  {
    var i :| 0 <= i < |rows| && rows[i] == row;
    assert row.id in NamedKeys(rows) by { assert NamedKeys(rows)[i] == row.id; }
    var found := FindNamed(rows, row.id).value;
    var j :| 0 <= j < |rows| && rows[j] == found;
    assert NamedKeys(rows)[i] == NamedKeys(rows)[j];
  }

  // ----- the `IN` filter -----

  /** The ids that are present, in order; an absent id matches no row in SQL. */
  function KnownIds(ids: seq<Option<int>>): (r: seq<int>)
    ensures |r| <= |ids|
    ensures |r| == |ids| <==> forall k :: 0 <= k < |ids| ==> ids[k].Some?
    ensures (forall k :: 0 <= k < |ids| ==> ids[k].Some?) ==>
              forall k :: 0 <= k < |ids| ==> r[k] == ids[k].value
    ensures forall x :: x in r <==> Some(x) in ids
  {
    if ids == [] then []
    else (if ids[0].Some? then [ids[0].value] else []) + KnownIds(ids[1..])
  }

  /** Rows whose id is one of `ids`. */
  function IdIn(ids: seq<int>): NamedRow -> bool {
    (r: NamedRow) => r.id in ids
  }

  /** `SELECT * FROM t WHERE t.id IN (ids)`: the matching rows, each once, in table order. */
  function SelectByIds(rows: seq<NamedRow>, ids: seq<int>): (r: seq<NamedRow>)
    ensures forall x :: x in r <==> x in rows && x.id in ids
  {
    Filter(rows, IdIn(ids))
  }

  /**
   * The `IN` filter returns one row per distinct requested id that has a row,
   * however often the id is repeated.
   */
  lemma {:induction false} SelectCount(rows: seq<NamedRow>, ids: seq<int>)
    requires Distinct(NamedKeys(rows))
    ensures |SelectByIds(rows, ids)| == |ToSet(NamedKeys(rows)) * ToSet(ids)|
  {
    if rows == [] {
      assert ToSet(NamedKeys(rows)) == {};
    } else {
      var x, rest := rows[0], rows[1..];
      assert NamedKeys(rows) == [x.id] + NamedKeys(rest);
      DistinctTail(NamedKeys(rows));
      SelectCount(rest, ids);
      assert ToSet(NamedKeys(rows)) == {x.id} + ToSet(NamedKeys(rest));
      AddedIntersection(x.id, ToSet(NamedKeys(rest)), ToSet(ids));
      assert Filter(rows, IdIn(ids)) == (if x.id in ids then [x] else []) + Filter(rest, IdIn(ids));
    }
  }

  /** Adding a new element to one side of an intersection adds it to the intersection iff the other side has it. */
  lemma AddedIntersection<T>(x: T, a: set<T>, s: set<T>)
    requires x !in a
    ensures |({x} + a) * s| == (if x in s then 1 else 0) + |a * s|
  {
    if x in s {
      assert ({x} + a) * s == {x} + (a * s);
    } else {
      assert ({x} + a) * s == a * s;
    }
  }

  /** An intersection has at most the elements of its left side, and all of them iff that side is included. */
  lemma IntersectionCard<T>(s: set<T>, a: set<T>)
    ensures |s * a| <= |s|
    ensures |s * a| == |s| <==> s <= a
  {
    assert |s - a| == |s| - |s * a|;
    if |s * a| == |s| {
      assert |s - a| == 0;
      assert s - a == {};
      forall x | x in s ensures x in a {
        assert x !in s - a;
      }
    }
    if s <= a {
      assert s * a == s;
    }
  }

  /** When every id is present, dropping the absent ones keeps distinctness both ways. */
  lemma KnownIdsDistinct(ids: seq<Option<int>>)
    requires forall k :: 0 <= k < |ids| ==> ids[k].Some?
    ensures Distinct(KnownIds(ids)) <==> Distinct(ids)
  {
    var known := KnownIds(ids);
    if Distinct(known) {
      forall i, j | 0 <= i < j < |ids| ensures ids[i] != ids[j] {
        assert known[i] != known[j];
      }
    }
    if Distinct(ids) {
      forall i, j | 0 <= i < j < |known| ensures known[i] != known[j] {
        assert ids[i] != ids[j];
      }
    }
  }

  /**
   * The count check of the movies repository: looking the ids up with the
   * `IN` filter finds at least as many rows as ids were given exactly when
   * every id is present, names a stored row, and no id is repeated.
   */
  lemma CountCheckIff(rows: seq<NamedRow>, ids: seq<Option<int>>)
    requires Distinct(NamedKeys(rows))
    ensures !(|SelectByIds(rows, KnownIds(ids))| < |ids|) <==>
              && (forall k :: 0 <= k < |ids| ==> ids[k].Some? && ids[k].value in NamedKeys(rows))
              && Distinct(ids)
  {
    var known := KnownIds(ids);
    var s := ToSet(known);
    var a := ToSet(NamedKeys(rows));
    SelectCount(rows, known);
    DistinctCard(known);
    assert a * s == s * a;
    IntersectionCard(s, a);
    if !(|SelectByIds(rows, known)| < |ids|) {
      assert |known| == |ids|;
      KnownIdsDistinct(ids);
      forall k | 0 <= k < |ids| ensures ids[k].Some? && ids[k].value in NamedKeys(rows) {
        assert known[k] in s;
      }
    }
    if (forall k :: 0 <= k < |ids| ==> ids[k].Some? && ids[k].value in NamedKeys(rows)) && Distinct(ids) {
      KnownIdsDistinct(ids);
      forall x | x in s ensures x in a {
        var k :| 0 <= k < |known| && known[k] == x;
        assert ids[k].value in NamedKeys(rows);
      }
    }
  }
}
