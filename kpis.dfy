/**
 * The five KPI tables of the report, each a pipeline over the curated IMDB
 * tables: normalize_genres and explode, filter, inner join on tconst (and on
 * nconst), group_by/agg, sort, limit.
 *
 * Each KPI is stated against the rows it aggregates (its "facts": one
 * (group key, value) row per row of the joined table), so that a contract
 * reads "the row for key k is the aggregate of exactly the joined rows
 * carrying k"; the membership lemmas say which input rows those are.
 */
module Kpis {
  import opened ImdbTables
  import opened Genres
  import opened DataFrame

  // =====================================================================
  // KPI 1: weighted popularity per genre (sheet popularidad_por_genero)
  // =====================================================================

  /** The averageRating and numVotes a joined row carries. */
  datatype Vote = Vote(averageRating: real, numVotes: nat)

  /**
   * A row of KPI 1: genres, popularidad_ponderada (sum of averageRating *
   * numVotes), total_votos (sum of numVotes) and rating_promedio_ponderado
   * (their ratio).
   */
  datatype GenrePopularity = GenrePopularity(genre: string, weightedPopularity: real, totalVotes: nat, weightedRating: real)

  /** The (genre, tconst) rows one title explodes into. */
  function TitleGenreRows(t: Title): seq<(string, string)>
  {
    Tagged(GenreList(t.genres), t.tconst)
  }

  function GenreRowTconst(e: (string, string)): string { e.1 }

  function RatingTconst(r: Rating): string { r.tconst }

  function GenreVoteOf(p: ((string, string), Rating)): (string, Vote)
  {
    (p.0.0, Vote(p.1.averageRating, p.1.numVotes))
  }

  /** The joined rows of KPI 1: exploded genres of title_basics joined with title_ratings on tconst. */
  function GenreVotes(titles: seq<Title>, ratings: seq<Rating>): seq<(string, Vote)>
  {
    Project(InnerJoin(FlatMap(titles, TitleGenreRows), ratings, GenreRowTconst, RatingTconst), GenreVoteOf)
  }

  /**
   * A joined row of KPI 1 is a genre of some title together with the vote of
   * a rating row of that same title, and every such pair is one.
   */
  lemma GenreVotesMembership(titles: seq<Title>, ratings: seq<Rating>, g: string, v: Vote)
    ensures (g, v) in GenreVotes(titles, ratings) <==>
              exists t, r :: t in titles && r in ratings && t.tconst == r.tconst
                             && g in GenreList(t.genres) && v == Vote(r.averageRating, r.numVotes)
  {
    var exploded := FlatMap(titles, TitleGenreRows);
    var joined := InnerJoin(exploded, ratings, GenreRowTconst, RatingTconst);
    ProjectMembership(joined, GenreVoteOf, (g, v));
    if (g, v) in GenreVotes(titles, ratings) {
      var p :| p in joined && (g, v) == GenreVoteOf(p);
      InnerJoinMembership(exploded, ratings, GenreRowTconst, RatingTconst, p.0, p.1);
      FlatMapMembership(titles, TitleGenreRows, p.0);
      var t :| t in titles && p.0 in TitleGenreRows(t);
      TaggedMembership(GenreList(t.genres), t.tconst, p.0.0, p.0.1);
      assert t.tconst == p.1.tconst;
    }
    if exists t, r :: t in titles && r in ratings && t.tconst == r.tconst
                      && g in GenreList(t.genres) && v == Vote(r.averageRating, r.numVotes) {
      var t, r :| t in titles && r in ratings && t.tconst == r.tconst
                  && g in GenreList(t.genres) && v == Vote(r.averageRating, r.numVotes);
      TaggedMembership(GenreList(t.genres), t.tconst, g, t.tconst);
      FlatMapMembership(titles, TitleGenreRows, (g, t.tconst));
      InnerJoinMembership(exploded, ratings, GenreRowTconst, RatingTconst, (g, t.tconst), r);
      assert GenreVoteOf(((g, t.tconst), r)) == (g, v);
    }
  }

  /** Every genre KPI 1 groups on is a non-empty name without a comma. */
  lemma GenreVotesKeys(titles: seq<Title>, ratings: seq<Rating>)
    ensures forall g | g in KeySet(GenreVotes(titles, ratings)) :: IsGenreName(g)
  {
    forall g | g in KeySet(GenreVotes(titles, ratings)) ensures IsGenreName(g) {
      KeySetMembership(GenreVotes(titles, ratings), g);
      var v :| (g, v) in GenreVotes(titles, ratings);
      GenreVotesMembership(titles, ratings, g, v);
    }
  }

  function TotalVotes(vs: seq<Vote>): nat
  {
    if vs == [] then 0 else vs[0].numVotes + TotalVotes(vs[1..])
  }

  function WeightedSum(vs: seq<Vote>): real
  {
    if vs == [] then 0.0 else vs[0].averageRating * (vs[0].numVotes as real) + WeightedSum(vs[1..])
  }

  /** agg of KPI 1 for one genre; the ratio needs votes (0/0 is NaN in the engine). */
  function PopularityOf(g: Group<string, Vote>): GenrePopularity
    requires TotalVotes(g.values) > 0
  {
    var total := TotalVotes(g.values);
    GenrePopularity(g.key, WeightedSum(g.values), total, WeightedSum(g.values) / (total as real))
  }

  function PopularityGenre(r: GenrePopularity): string { r.genre }

  /** sort("rating_promedio_ponderado", descending=True) */
  function WeightedRatingDesc(a: GenrePopularity, b: GenrePopularity): bool
  {
    a.weightedRating >= b.weightedRating
  }

  /**
   * Every genre of the join has a positive total_votos, so its ratio is a
   * number (a genre whose joined votes sum to 0 gets 0/0, NaN, in the engine).
   */
  predicate GenresHaveVotes(titles: seq<Title>, ratings: seq<Rating>)
  {
    forall g | g in KeySet(GenreVotes(titles, ratings)) :: TotalVotes(Select(GenreVotes(titles, ratings), g)) > 0
  }

  /** Every rating row has votes. */
  predicate PositiveVotes(ratings: seq<Rating>)
  {
    forall r | r in ratings :: r.numVotes > 0
  }

  /** When every rating row has votes, every genre of the join has votes. */
  lemma PopularityDefined(titles: seq<Title>, ratings: seq<Rating>)
    requires PositiveVotes(ratings)
    ensures GenresHaveVotes(titles, ratings)
  {
    var facts := GenreVotes(titles, ratings);
    forall k | k in KeySet(facts) ensures TotalVotes(Select(facts, k)) > 0 {
      var vs := Select(facts, k);
      SelectNonEmpty(facts, k);
      SelectMembership(facts, k, vs[0]);
      GenreVotesMembership(titles, ratings, k, vs[0]);
    }
  }

  /**
   * kpi_popularidad_generos: one row per genre that occurs in the join,
   * carrying the sums over exactly the joined rows of that genre, ordered by
   * weighted rating, highest first.
   */
  function PopularityByGenre(titles: seq<Title>, ratings: seq<Rating>): (out: seq<GenrePopularity>)
    requires GenresHaveVotes(titles, ratings)
    ensures forall i, j | 0 <= i < j < |out| :: out[i].genre != out[j].genre
    ensures forall i, j | 0 <= i < j < |out| :: out[i].weightedRating >= out[j].weightedRating
    ensures forall r | r in out ::
              && IsGenreName(r.genre)
              && r.genre in KeySet(GenreVotes(titles, ratings))
              && r.totalVotes == TotalVotes(Select(GenreVotes(titles, ratings), r.genre))
              && r.weightedPopularity == WeightedSum(Select(GenreVotes(titles, ratings), r.genre))
              && r.totalVotes > 0
              && r.weightedRating == r.weightedPopularity / (r.totalVotes as real)
    ensures forall g | g in KeySet(GenreVotes(titles, ratings)) :: exists r :: r in out && r.genre == g
  {
    var facts := GenreVotes(titles, ratings);
    assert AggDefined(facts, PopularityOf);
    GenreVotesKeys(titles, ratings);
    SortedSummary(facts, PopularityOf, PopularityGenre, WeightedRatingDesc);
    SortBy(Summarize(facts, PopularityOf), WeightedRatingDesc)
  }

  lemma {:induction false} WeightedSumBounds(vs: seq<Vote>, lo: real, hi: real)
    requires forall v | v in vs :: lo <= v.averageRating <= hi
    ensures lo * (TotalVotes(vs) as real) <= WeightedSum(vs) <= hi * (TotalVotes(vs) as real)
  {
    if vs != [] {
      assert vs[0] in vs;
      assert forall v | v in vs[1..] :: v in vs;
      WeightedSumBounds(vs[1..], lo, hi);
      var n, rest := vs[0].numVotes as real, TotalVotes(vs[1..]) as real;
      assert TotalVotes(vs) as real == n + rest;
      assert WeightedSum(vs) == vs[0].averageRating * n + WeightedSum(vs[1..]);
      StepBounds(lo, hi, vs[0].averageRating, n, rest, WeightedSum(vs[1..]));
    }
  }

  /** One step of the weighted-average bound: adding a term x * n with lo <= x <= hi keeps it. */
  lemma StepBounds(lo: real, hi: real, x: real, n: real, rest: real, w: real)
    requires lo <= x <= hi && 0.0 <= n
    requires lo * rest <= w <= hi * rest
    ensures lo * (n + rest) <= x * n + w <= hi * (n + rest)
  {
    assert lo * (n + rest) == lo * n + lo * rest;
    assert hi * (n + rest) == hi * n + hi * rest;
    assert lo * n <= x * n <= hi * n;
  }

  lemma RatioBounds(w: real, n: real, lo: real, hi: real)
    requires n > 0.0 && lo * n <= w <= hi * n
    ensures lo <= w / n <= hi
  {
  }

  /**
   * rating_promedio_ponderado is a weighted average: when every averageRating
   * lies in [lo, hi], so does every genre's weighted rating.
   */
  lemma WeightedRatingWithinRatings(titles: seq<Title>, ratings: seq<Rating>, lo: real, hi: real)
    requires GenresHaveVotes(titles, ratings)
    requires forall r | r in ratings :: lo <= r.averageRating <= hi
    ensures forall r | r in PopularityByGenre(titles, ratings) :: lo <= r.weightedRating <= hi
  {
    forall r | r in PopularityByGenre(titles, ratings) ensures lo <= r.weightedRating <= hi {
      GenreWithinRatings(titles, ratings, r, lo, hi);
    }
  }

  lemma GenreWithinRatings(titles: seq<Title>, ratings: seq<Rating>, r: GenrePopularity, lo: real, hi: real)
    requires GenresHaveVotes(titles, ratings)
    requires forall r | r in ratings :: lo <= r.averageRating <= hi
    requires r in PopularityByGenre(titles, ratings)
    ensures lo <= r.weightedRating <= hi
  {
    var vs := Select(GenreVotes(titles, ratings), r.genre);
    VotesWithinRatings(titles, ratings, r.genre, lo, hi);
    WeightedMeanBounds(vs, lo, hi);
  }

  /** The weighted mean of votes whose ratings lie in [lo, hi] lies in [lo, hi]. */
  lemma WeightedMeanBounds(vs: seq<Vote>, lo: real, hi: real)
    requires TotalVotes(vs) > 0
    requires forall v | v in vs :: lo <= v.averageRating <= hi
    ensures lo <= WeightedSum(vs) / (TotalVotes(vs) as real) <= hi
  {
    var n, w := TotalVotes(vs) as real, WeightedSum(vs);
    assert lo * n <= w <= hi * n by { WeightedSumBounds(vs, lo, hi); }
    RatioBounds(w, n, lo, hi);
  }

  lemma VotesWithinRatings(titles: seq<Title>, ratings: seq<Rating>, g: string, lo: real, hi: real)
    requires forall r | r in ratings :: lo <= r.averageRating <= hi
    ensures forall v | v in Select(GenreVotes(titles, ratings), g) :: lo <= v.averageRating <= hi
  {
    var facts := GenreVotes(titles, ratings);
    forall v: Vote | v in Select(facts, g) ensures lo <= v.averageRating <= hi {
      SelectMembership(facts, g, v);
      GenreVotesMembership(titles, ratings, g, v);
    }
  }

  /**
   * A title that yields no genre rows (null, "", "\N" or blank genres) or
   * that has no rating row leaves the join of KPI 1, and so KPI 1, exactly
   * as it was.
   */
  lemma IgnoredTitleLeavesPopularity(titles: seq<Title>, t: Title, ratings: seq<Rating>)
    requires GenresHaveVotes(titles, ratings)
    requires GenreList(t.genres) == [] || forall r | r in ratings :: r.tconst != t.tconst
    ensures GenresHaveVotes(titles + [t], ratings)
    ensures PopularityByGenre(titles + [t], ratings) == PopularityByGenre(titles, ratings)
  {
    var extra := TitleGenreRows(t);
    assert (titles + [t])[..|titles|] == titles;
    assert FlatMap(titles + [t], TitleGenreRows) == FlatMap(titles, TitleGenreRows) + extra;
    forall e, r | e in extra && r in ratings ensures GenreRowTconst(e) != RatingTconst(r) {
      TaggedMembership(GenreList(t.genres), t.tconst, e.0, e.1);
    }
    InnerJoinUnmatched(FlatMap(titles, TitleGenreRows), extra, ratings, GenreRowTconst, RatingTconst);
    assert GenreVotes(titles + [t], ratings) == GenreVotes(titles, ratings);
  }

  // =====================================================================
  // KPI 2: mean rating per (startYear, genre) (sheet evolucion_rating_genero)
  // =====================================================================

  const Int32Min: int := -0x8000_0000
  const Int32Max: int := 0x7FFF_FFFF

  /** A row of KPI 2: startYear, genres and rating_promedio. */
  datatype GenreYearRating = GenreYearRating(startYear: int, genre: string, meanRating: real)

  /**
   * cast(pl.Int32) is strict: it aborts the query unless every non-null
   * startYear of title_basics fits in 32 bits (nulls stay null).
   */
  predicate StartYearsCastable(titles: seq<Title>)
  {
    forall t | t in titles && t.startYear.Some? :: Int32Min <= t.startYear.value <= Int32Max
  }

  /**
   * The (genre, (tconst, startYear)) rows one title keeps after explode and
   * the filter: none unless it has a startYear >= since.
   */
  function TitleYearRows(t: Title, since: int): seq<(string, (string, int))>
  {
    if t.startYear.Some? && t.startYear.value >= since then
      Tagged(GenreList(t.genres), (t.tconst, t.startYear.value))
    else
      []
  }

  function YearRowsSince(since: int): Title -> seq<(string, (string, int))>
  {
    (t: Title) => TitleYearRows(t, since)
  }

  function YearRowTconst(e: (string, (string, int))): string { e.1.0 }

  function YearGenreRatingOf(p: ((string, (string, int)), Rating)): ((int, string), real)
  {
    ((p.0.1.1, p.0.0), p.1.averageRating)
  }

  /** The joined rows of KPI 2, keyed by (startYear, genre), carrying averageRating. */
  function YearGenreRatings(titles: seq<Title>, ratings: seq<Rating>, since: int): seq<((int, string), real)>
  {
    Project(InnerJoin(FlatMap(titles, YearRowsSince(since)), ratings, YearRowTconst, RatingTconst), YearGenreRatingOf)
  }

  /**
   * A joined row of KPI 2 is the startYear (at least since) and a genre of
   * some title together with the averageRating of a rating row of that title,
   * and every such triple is one.
   */
  lemma YearGenreRatingsMembership(titles: seq<Title>, ratings: seq<Rating>, since: int, y: int, g: string, x: real)
    ensures ((y, g), x) in YearGenreRatings(titles, ratings, since) <==>
              exists t, r :: t in titles && r in ratings && t.tconst == r.tconst && t.startYear == Some(y)
                             && y >= since && g in GenreList(t.genres) && x == r.averageRating
  {
    if ((y, g), x) in YearGenreRatings(titles, ratings, since) {
      YearGenreRatingSource(titles, ratings, since, y, g, x);
    }
    if exists t, r :: t in titles && r in ratings && t.tconst == r.tconst && t.startYear == Some(y)
                      && y >= since && g in GenreList(t.genres) && x == r.averageRating {
      var t, r :| t in titles && r in ratings && t.tconst == r.tconst && t.startYear == Some(y)
                  && y >= since && g in GenreList(t.genres) && x == r.averageRating;
      YearGenreRatingFrom(titles, ratings, since, t, r, g);
    }
  }

  lemma YearGenreRatingSource(titles: seq<Title>, ratings: seq<Rating>, since: int, y: int, g: string, x: real)
    requires ((y, g), x) in YearGenreRatings(titles, ratings, since)
    ensures exists t, r :: t in titles && r in ratings && t.tconst == r.tconst && t.startYear == Some(y)
                           && y >= since && g in GenreList(t.genres) && x == r.averageRating
  {
    var f := YearRowsSince(since);
    var exploded := FlatMap(titles, f);
    var joined := InnerJoin(exploded, ratings, YearRowTconst, RatingTconst);
    ProjectMembership(joined, YearGenreRatingOf, ((y, g), x));
    var p :| p in joined && ((y, g), x) == YearGenreRatingOf(p);
    InnerJoinMembership(exploded, ratings, YearRowTconst, RatingTconst, p.0, p.1);
    FlatMapMembership(titles, f, p.0);
    var t :| t in titles && p.0 in f(t);
    assert f(t) == TitleYearRows(t, since);
    assert t.startYear.Some? && t.startYear.value >= since;
    TaggedMembership(GenreList(t.genres), (t.tconst, t.startYear.value), p.0.0, p.0.1);
    assert t.tconst == p.1.tconst && t.startYear == Some(y);
  }

  lemma YearGenreRatingFrom(titles: seq<Title>, ratings: seq<Rating>, since: int, t: Title, r: Rating, g: string)
    requires t in titles && r in ratings && t.tconst == r.tconst
    requires t.startYear.Some? && t.startYear.value >= since && g in GenreList(t.genres)
    ensures ((t.startYear.value, g), r.averageRating) in YearGenreRatings(titles, ratings, since)
  {
    var f := YearRowsSince(since);
    var exploded := FlatMap(titles, f);
    var y := t.startYear.value;
    var e := (g, (t.tconst, y));
    TaggedMembership(GenreList(t.genres), (t.tconst, y), g, (t.tconst, y));
    assert f(t) == TitleYearRows(t, since);
    FlatMapMembership(titles, f, e);
    InnerJoinMembership(exploded, ratings, YearRowTconst, RatingTconst, e, r);
    var joined := InnerJoin(exploded, ratings, YearRowTconst, RatingTconst);
    ProjectMembership(joined, YearGenreRatingOf, ((y, g), r.averageRating));
    assert YearGenreRatingOf((e, r)) == ((y, g), r.averageRating);
  }

  /** Every (startYear, genre) KPI 2 groups on has startYear >= since and a genre name. */
  lemma YearGenreKeys(titles: seq<Title>, ratings: seq<Rating>, since: int)
    ensures forall k | k in KeySet(YearGenreRatings(titles, ratings, since)) :: k.0 >= since && IsGenreName(k.1)
  {
    var facts := YearGenreRatings(titles, ratings, since);
    forall k: (int, string) | k in KeySet(facts) ensures k.0 >= since && IsGenreName(k.1) {
      KeySetMembership(facts, k);
      var x :| (k, x) in facts;
      YearGenreRatingsMembership(titles, ratings, since, k.0, k.1, x);
    }
  }

  /** agg of KPI 2 for one (startYear, genre): the mean averageRating. */
  function MeanRatingOf(g: Group<(int, string), real>): GenreYearRating
    requires g.values != []
  {
    GenreYearRating(g.key.0, g.key.1, Mean(g.values))
  }

  function YearGenreKey(r: GenreYearRating): (int, string) { (r.startYear, r.genre) }

  /** sort(["genres", "startYear"]): by genre, then by startYear, both ascending. */
  function GenreYearLe(a: GenreYearRating, b: GenreYearRating): bool
  {
    if a.genre == b.genre then a.startYear <= b.startYear else LexLe(a.genre, b.genre)
  }

  /** a comes strictly before b in (genre, startYear) order. */
  predicate GenreYearBefore(a: GenreYearRating, b: GenreYearRating)
  {
    if a.genre == b.genre then a.startYear < b.startYear else LexLe(a.genre, b.genre)
  }

  lemma GenreYearLeTotal()
    ensures Total(GenreYearLe)
  {
    forall a: GenreYearRating, b: GenreYearRating ensures GenreYearLe(a, b) || GenreYearLe(b, a) {
      LexLeTotal(a.genre, b.genre);
    }
  }

  lemma GenreYearLeTransitive()
    ensures Transitive(GenreYearLe)
  {
    forall a: GenreYearRating, b: GenreYearRating, c: GenreYearRating | GenreYearLe(a, b) && GenreYearLe(b, c)
      ensures GenreYearLe(a, c)
    {
      if a.genre != b.genre && b.genre != c.genre {
        LexLeTransitive(a.genre, b.genre, c.genre);
        if a.genre == c.genre {
          LexLeAntisymmetric(a.genre, b.genre);
        }
      }
    }
  }

  /** Rows ordered by GenreYearLe with distinct (startYear, genre) are strictly ascending. */
  lemma GenreYearStrict(out: seq<GenreYearRating>)
    requires SortedBy(out, GenreYearLe)
    requires DistinctBy(out, YearGenreKey)
    ensures forall i, j | 0 <= i < j < |out| :: GenreYearBefore(out[i], out[j])
  {
    forall i, j | 0 <= i < j < |out| ensures GenreYearBefore(out[i], out[j]) {
      assert GenreYearLe(out[i], out[j]);
      assert YearGenreKey(out[i]) != YearGenreKey(out[j]);
    }
  }

  /**
   * kpi_evolucion_generos: aborts when startYear does not cast to Int32;
   * otherwise one row per (startYear, genre) with startYear >= since that
   * occurs in the join, carrying the mean averageRating of exactly those
   * joined rows, strictly ascending by genre and then startYear.
   */
  function RatingTrendByGenre(titles: seq<Title>, ratings: seq<Rating>, since: int): (res: Result<seq<GenreYearRating>>)
    ensures res.Ok? <==> StartYearsCastable(titles)
    ensures !res.Ok? ==> res == InvalidCast("startYear")
    ensures res.Ok? ==> forall i, j | 0 <= i < j < |res.value| :: GenreYearBefore(res.value[i], res.value[j])
    ensures res.Ok? ==> forall r | r in res.value ::
              && r.startYear >= since
              && IsGenreName(r.genre)
              && (r.startYear, r.genre) in KeySet(YearGenreRatings(titles, ratings, since))
              && Select(YearGenreRatings(titles, ratings, since), (r.startYear, r.genre)) != []
              && r.meanRating == Mean(Select(YearGenreRatings(titles, ratings, since), (r.startYear, r.genre)))
    ensures res.Ok? ==> forall k | k in KeySet(YearGenreRatings(titles, ratings, since)) ::
              exists r :: r in res.value && r.startYear == k.0 && r.genre == k.1
  {
    if !StartYearsCastable(titles) then
      InvalidCast("startYear")
    else
      YearGenreKeys(titles, ratings, since);
      Ok(YearGenreTable(YearGenreRatings(titles, ratings, since)))
  }

  /**
   * group_by(["startYear", "genres"]).agg(mean).sort(["genres", "startYear"]):
   * one row per key, carrying the mean of exactly the values with that key,
   * strictly ascending by genre and then startYear.
   */
  function YearGenreTable(facts: seq<((int, string), real)>): (out: seq<GenreYearRating>)
    ensures forall i, j | 0 <= i < j < |out| :: GenreYearBefore(out[i], out[j])
    ensures forall r | r in out ::
              && (r.startYear, r.genre) in KeySet(facts)
              && Select(facts, (r.startYear, r.genre)) != []
              && r.meanRating == Mean(Select(facts, (r.startYear, r.genre)))
    ensures forall k | k in KeySet(facts) :: exists r :: r in out && r.startYear == k.0 && r.genre == k.1
  {
    assert AggDefined(facts, MeanRatingOf) by {
      forall k | k in KeySet(facts) ensures GroupOf(facts, k).values != [] {
        SelectNonEmpty(facts, k);
      }
    }
    GenreYearLeTotal();
    GenreYearLeTransitive();
    SortedSummary(facts, MeanRatingOf, YearGenreKey, GenreYearLe);
    var out := SortBy(Summarize(facts, MeanRatingOf), GenreYearLe);
    GenreYearStrict(out);
    out
  }

  /**
   * A title without a startYear, or with one that casts but comes before
   * since, leaves KPI 2 exactly as it was. (One that does not cast aborts
   * the query whatever since is.)
   */
  lemma EarlyTitleLeavesTrend(titles: seq<Title>, t: Title, ratings: seq<Rating>, since: int)
    requires t.startYear.None? || (Int32Min <= t.startYear.value <= Int32Max && t.startYear.value < since)
    ensures RatingTrendByGenre(titles + [t], ratings, since) == RatingTrendByGenre(titles, ratings, since)
  {
    assert (titles + [t])[..|titles|] == titles;
    assert TitleYearRows(t, since) == [];
    assert YearRowsSince(since)(t) == [];
    assert FlatMap(titles + [t], YearRowsSince(since)) == FlatMap(titles, YearRowsSince(since));
    assert YearGenreRatings(titles + [t], ratings, since) == YearGenreRatings(titles, ratings, since);
    assert StartYearsCastable(titles + [t]) == StartYearsCastable(titles) by {
      assert forall u | u in titles + [t] :: u in titles || u == t;
    }
  }

  // =====================================================================
  // KPIs 3 and 4: best-rated actors and directors (sheets actores_exitosos, directores_exitosos)
  // =====================================================================

  /** actores_roles: the categories KPI 3 keeps. */
  const ActorCategories: set<string> := {"actor", "actress"}

  /** The category KPI 4 keeps. */
  const DirectorCategories: set<string> := {"director"}

  /** A row of KPIs 3 and 4: primaryName, cantidad_peliculas and rating_promedio. */
  datatype PersonPerformance = PersonPerformance(primaryName: string, titleCount: nat, meanRating: real)

  function InCategories(roles: set<string>): Principal -> bool
  {
    (p: Principal) => p.category in roles
  }

  function PrincipalTconst(p: Principal): string { p.tconst }

  function CreditNconst(c: (Principal, Rating)): string { c.0.nconst }

  function NameNconst(n: Name): string { n.nconst }

  function NameRatingOf(c: ((Principal, Rating), Name)): (string, real)
  {
    (c.1.primaryName, c.0.1.averageRating)
  }

  /**
   * The joined rows of KPIs 3 and 4: principals whose category is in roles,
   * joined with title_ratings on tconst and with name_basics on nconst,
   * keyed by primaryName and carrying averageRating.
   */
  function RoleRatings(names: seq<Name>, principals: seq<Principal>, ratings: seq<Rating>, roles: set<string>): seq<(string, real)>
  {
    var credits := InnerJoin(Where(principals, InCategories(roles)), ratings, PrincipalTconst, RatingTconst);
    Project(InnerJoin(credits, names, CreditNconst, NameNconst), NameRatingOf)
  }

  /**
   * A joined row of KPIs 3 and 4 is the primaryName of a name row and the
   * averageRating of a rating row, linked by a principal in one of the roles
   * (same nconst as the name, same tconst as the rating), and every such
   * pair is one. People who share a primaryName share the key.
   */
  lemma RoleRatingsMembership(names: seq<Name>, principals: seq<Principal>, ratings: seq<Rating>, roles: set<string>, n: string, x: real)
    ensures (n, x) in RoleRatings(names, principals, ratings, roles) <==>
              exists p, r, m :: p in principals && r in ratings && m in names && p.category in roles
                                && p.tconst == r.tconst && p.nconst == m.nconst
                                && n == m.primaryName && x == r.averageRating
  {
    var kept := Where(principals, InCategories(roles));
    var credits := InnerJoin(kept, ratings, PrincipalTconst, RatingTconst);
    var joined := InnerJoin(credits, names, CreditNconst, NameNconst);
    ProjectMembership(joined, NameRatingOf, (n, x));
    if (n, x) in RoleRatings(names, principals, ratings, roles) {
      var c :| c in joined && (n, x) == NameRatingOf(c);
      InnerJoinMembership(credits, names, CreditNconst, NameNconst, c.0, c.1);
      InnerJoinMembership(kept, ratings, PrincipalTconst, RatingTconst, c.0.0, c.0.1);
      assert InCategories(roles)(c.0.0);
    }
    if exists p, r, m :: p in principals && r in ratings && m in names && p.category in roles
                         && p.tconst == r.tconst && p.nconst == m.nconst
                         && n == m.primaryName && x == r.averageRating {
      var p, r, m :| p in principals && r in ratings && m in names && p.category in roles
                     && p.tconst == r.tconst && p.nconst == m.nconst
                     && n == m.primaryName && x == r.averageRating;
      assert InCategories(roles)(p);
      InnerJoinMembership(kept, ratings, PrincipalTconst, RatingTconst, p, r);
      InnerJoinMembership(credits, names, CreditNconst, NameNconst, (p, r), m);
      assert NameRatingOf(((p, r), m)) == (n, x);
    }
  }

  /** agg of KPIs 3 and 4 for one primaryName: count() and mean("averageRating"). */
  function PerformanceOf(g: Group<string, real>): PersonPerformance
    requires g.values != []
  {
    PersonPerformance(g.key, |g.values|, Mean(g.values))
  }

  function PerformanceName(r: PersonPerformance): string { r.primaryName }

  /** filter(cantidad_peliculas >= min_titles) */
  function AtLeastTitles(minTitles: int): PersonPerformance -> bool
  {
    (r: PersonPerformance) => r.titleCount >= minTitles
  }

  /** sort("rating_promedio", descending=True) */
  function MeanRatingDesc(a: PersonPerformance, b: PersonPerformance): bool
  {
    a.meanRating >= b.meanRating
  }

  /**
   * Every name in the joined rows with at least minTitles rows, once, with
   * its count and mean, ordered by mean rating, highest first: the table
   * before limit(top_n).
   */
  function RankedPerformers(facts: seq<(string, real)>, minTitles: int): (ranked: seq<PersonPerformance>)
    ensures forall i, j | 0 <= i < j < |ranked| :: ranked[i].primaryName != ranked[j].primaryName
    ensures forall i, j | 0 <= i < j < |ranked| :: ranked[i].meanRating >= ranked[j].meanRating
    ensures forall r | r in ranked ::
              && r.primaryName in KeySet(facts)
              && Select(facts, r.primaryName) != []
              && r.titleCount == |Select(facts, r.primaryName)|
              && r.meanRating == Mean(Select(facts, r.primaryName))
              && r.titleCount >= minTitles
    ensures forall k | k in KeySet(facts) && Select(facts, k) != [] && |Select(facts, k)| >= minTitles ::
              PerformanceOf(GroupOf(facts, k)) in ranked
  {
    assert AggDefined(facts, PerformanceOf) by {
      forall k | k in KeySet(facts) ensures GroupOf(facts, k).values != [] {
        SelectNonEmpty(facts, k);
      }
    }
    var rows := Summarize(facts, PerformanceOf);
    SummarizeSpec(facts, PerformanceOf, PerformanceName);
    var kept := Where(rows, AtLeastTitles(minTitles));
    WhereDistinct(rows, AtLeastTitles(minTitles), PerformanceName);
    var ranked := SortBy(kept, MeanRatingDesc);
    SortBySorted(kept, MeanRatingDesc);
    SortByDistinct(kept, MeanRatingDesc, PerformanceName);
    assert forall r :: r in ranked <==> r in kept by {
      forall r ensures r in ranked <==> r in kept {
        SortByMembership(kept, MeanRatingDesc, r);
      }
    }
    ranked
  }

  /**
   * out is a top-topN table of facts: at most topN people, each with at
   * least minTitles rows, names distinct, each with its row count and mean,
   * ordered by mean rating, highest first; a qualifying name is left out
   * only when topN rows were kept, each rated at least as high as it.
   */
  predicate IsTopTable(out: seq<PersonPerformance>, facts: seq<(string, real)>, minTitles: int, topN: nat)
  {
    && |out| <= topN
    && (forall i, j | 0 <= i < j < |out| :: out[i].primaryName != out[j].primaryName)
    && (forall i, j | 0 <= i < j < |out| :: out[i].meanRating >= out[j].meanRating)
    && (forall r | r in out ::
          && r.titleCount >= minTitles
          && r.primaryName in KeySet(facts)
          && Select(facts, r.primaryName) != []
          && r.titleCount == |Select(facts, r.primaryName)|
          && r.meanRating == Mean(Select(facts, r.primaryName)))
    && (forall k | k in KeySet(facts) && Select(facts, k) != [] && |Select(facts, k)| >= minTitles ::
          || (exists r :: r in out && r.primaryName == k)
          || (|out| == topN && forall r | r in out :: r.meanRating >= Mean(Select(facts, k))))
  }

  /**
   * kpi_actores_exitosos / kpi_directores_exitosos: the top-topN table of
   * the joined (primaryName, averageRating) rows of the credits in the roles.
   */
  function TopPerformers(names: seq<Name>, principals: seq<Principal>, ratings: seq<Rating>, roles: set<string>,
                         minTitles: int, topN: nat): (out: seq<PersonPerformance>)
    ensures IsTopTable(out, RoleRatings(names, principals, ratings, roles), minTitles, topN)
  {
    var facts := RoleRatings(names, principals, ratings, roles);
    TopRanked(facts, minTitles, topN);
    Limit(RankedPerformers(facts, minTitles), topN)
  }

  /** limit(top_n) applied to the ranked table. */
  lemma TopRanked(facts: seq<(string, real)>, minTitles: int, topN: nat)
    ensures IsTopTable(Limit(RankedPerformers(facts, minTitles), topN), facts, minTitles, topN)
  {
    var ranked := RankedPerformers(facts, minTitles);
    var out := Limit(ranked, topN);
    assert forall i | 0 <= i < |out| :: out[i] == ranked[i];
    assert forall r | r in out :: r in ranked;
    forall k | k in KeySet(facts) && Select(facts, k) != [] && |Select(facts, k)| >= minTitles
      ensures || (exists r :: r in out && r.primaryName == k)
              || (|out| == topN && forall r | r in out :: r.meanRating >= Mean(Select(facts, k)))
    {
      var best := PerformanceOf(GroupOf(facts, k));
      if best !in out {
        assert SortedBy(ranked, MeanRatingDesc);
        LimitSortedDropsOnlyLater(ranked, topN, MeanRatingDesc, best);
      }
    }
  }

  /** kpi_actores_exitosos: TopPerformers over the actor and actress credits. */
  function SuccessfulActors(names: seq<Name>, principals: seq<Principal>, ratings: seq<Rating>,
                            minTitles: int, topN: nat): (out: seq<PersonPerformance>)
    ensures IsTopTable(out, RoleRatings(names, principals, ratings, ActorCategories), minTitles, topN)
    ensures forall r | r in out :: exists p, t, m :: p in principals && t in ratings && m in names
                                       && p.category in ActorCategories
                                       && p.tconst == t.tconst && p.nconst == m.nconst
                                       && m.primaryName == r.primaryName
  {
    PerformersCredited(names, principals, ratings, ActorCategories, minTitles, topN);
    TopPerformers(names, principals, ratings, ActorCategories, minTitles, topN)
  }

  /** kpi_directores_exitosos: TopPerformers over the director credits. */
  function SuccessfulDirectors(names: seq<Name>, principals: seq<Principal>, ratings: seq<Rating>,
                               minTitles: int, topN: nat): (out: seq<PersonPerformance>)
    ensures IsTopTable(out, RoleRatings(names, principals, ratings, DirectorCategories), minTitles, topN)
    ensures forall r | r in out :: exists p, t, m :: p in principals && t in ratings && m in names
                                       && p.category in DirectorCategories
                                       && p.tconst == t.tconst && p.nconst == m.nconst
                                       && m.primaryName == r.primaryName
  {
    PerformersCredited(names, principals, ratings, DirectorCategories, minTitles, topN);
    TopPerformers(names, principals, ratings, DirectorCategories, minTitles, topN)
  }

  /**
   * A credit that is outside the roles, or whose title has no rating row, or
   * whose person has no name row, leaves KPIs 3 and 4 exactly as they were.
   */
  lemma UnjoinedCreditLeavesTop(names: seq<Name>, principals: seq<Principal>, p: Principal, ratings: seq<Rating>,
                                roles: set<string>, minTitles: int, topN: nat)
    requires || p.category !in roles
             || (forall r | r in ratings :: r.tconst != p.tconst)
             || (forall m | m in names :: m.nconst != p.nconst)
    ensures TopPerformers(names, principals + [p], ratings, roles, minTitles, topN)
            == TopPerformers(names, principals, ratings, roles, minTitles, topN)
  {
    assert RoleRatings(names, principals + [p], ratings, roles) == RoleRatings(names, principals, ratings, roles) by {
      UnjoinedCreditLeavesRows(names, principals, p, ratings, roles);
    }
  }

  lemma UnjoinedCreditLeavesRows(names: seq<Name>, principals: seq<Principal>, p: Principal, ratings: seq<Rating>,
                                 roles: set<string>)
    requires || p.category !in roles
             || (forall r | r in ratings :: r.tconst != p.tconst)
             || (forall m | m in names :: m.nconst != p.nconst)
    ensures RoleRatings(names, principals + [p], ratings, roles) == RoleRatings(names, principals, ratings, roles)
  {
    var keep := InCategories(roles);
    var extra := if keep(p) then [p] else [];
    assert (principals + [p])[..|principals|] == principals;
    assert Where(principals + [p], keep) == Where(principals, keep) + extra;
    var kept := Where(principals, keep);
    var credits := InnerJoin(kept, ratings, PrincipalTconst, RatingTconst);
    var extraCredits := InnerJoin(extra, ratings, PrincipalTconst, RatingTconst);
    FlatMapAppend(kept, extra, l => JoinRows(l, ratings, PrincipalTconst, RatingTconst));
    assert InnerJoin(kept + extra, ratings, PrincipalTconst, RatingTconst) == credits + extraCredits;
    if extraCredits != [] {
      assert p.category in roles;
      var c := extraCredits[0];
      InnerJoinMembership(extra, ratings, PrincipalTconst, RatingTconst, c.0, c.1);
      assert forall m | m in names :: m.nconst != p.nconst;
    }
    InnerJoinUnmatched(credits, extraCredits, names, CreditNconst, NameNconst);
  }

  /** Every person KPIs 3 and 4 list has a rated credit in one of the roles under that name. */
  lemma PerformersCredited(names: seq<Name>, principals: seq<Principal>, ratings: seq<Rating>, roles: set<string>,
                           minTitles: int, topN: nat)
    ensures forall r | r in TopPerformers(names, principals, ratings, roles, minTitles, topN) ::
              exists p, t, m :: p in principals && t in ratings && m in names && p.category in roles
                                && p.tconst == t.tconst && p.nconst == m.nconst && m.primaryName == r.primaryName
  {
    var facts := RoleRatings(names, principals, ratings, roles);
    forall r | r in TopPerformers(names, principals, ratings, roles, minTitles, topN)
      ensures exists p, t, m :: p in principals && t in ratings && m in names && p.category in roles
                                && p.tconst == t.tconst && p.nconst == m.nconst && m.primaryName == r.primaryName
    {
      KeySetMembership(facts, r.primaryName);
      var x :| (r.primaryName, x) in facts;
      RoleRatingsMembership(names, principals, ratings, roles, r.primaryName, x);
    }
  }

  // =====================================================================
  // KPI 5: mean runtime per genre (sheet duracion_promedio_genero)
  // =====================================================================

  /** A row of KPI 5: genres and duracion_promedio. */
  datatype GenreRuntime = GenreRuntime(genre: string, meanRuntime: real)

  /** The (genre, runtimeMinutes) rows one title keeps: none unless runtimeMinutes > 0. */
  function TitleRuntimeRows(t: Title): seq<(string, real)>
  {
    if t.runtimeMinutes.Some? && t.runtimeMinutes.value > 0 then
      Tagged(GenreList(t.genres), t.runtimeMinutes.value as real)
    else
      []
  }

  /** The rows KPI 5 groups: exploded genres of the titles with a positive runtime. */
  function GenreRuntimes(titles: seq<Title>): seq<(string, real)>
  {
    FlatMap(titles, TitleRuntimeRows)
  }

  /**
   * A row of KPI 5 is a genre of some title with a positive runtimeMinutes,
   * carrying that runtime, and every such pair is one.
   */
  lemma GenreRuntimesMembership(titles: seq<Title>, g: string, x: real)
    ensures (g, x) in GenreRuntimes(titles) <==>
              exists t :: t in titles && t.runtimeMinutes.Some? && t.runtimeMinutes.value > 0
                          && g in GenreList(t.genres) && x == t.runtimeMinutes.value as real
  {
    FlatMapMembership(titles, TitleRuntimeRows, (g, x));
    if (g, x) in GenreRuntimes(titles) {
      var t :| t in titles && (g, x) in TitleRuntimeRows(t);
      TaggedMembership(GenreList(t.genres), t.runtimeMinutes.value as real, g, x);
    }
    if exists t :: t in titles && t.runtimeMinutes.Some? && t.runtimeMinutes.value > 0
                   && g in GenreList(t.genres) && x == t.runtimeMinutes.value as real {
      var t :| t in titles && t.runtimeMinutes.Some? && t.runtimeMinutes.value > 0
               && g in GenreList(t.genres) && x == t.runtimeMinutes.value as real;
      TaggedMembership(GenreList(t.genres), x, g, x);
    }
  }

  /** agg of KPI 5 for one genre: the mean runtime. */
  function MeanRuntimeOf(g: Group<string, real>): GenreRuntime
    requires g.values != []
  {
    GenreRuntime(g.key, Mean(g.values))
  }

  function RuntimeGenre(r: GenreRuntime): string { r.genre }

  /** sort("duracion_promedio", descending=True) */
  function MeanRuntimeDesc(a: GenreRuntime, b: GenreRuntime): bool
  {
    a.meanRuntime >= b.meanRuntime
  }

  /** Every genre KPI 5 groups on is a genre name, and its runtimes are at least one minute. */
  lemma GenreRuntimeKeys(titles: seq<Title>)
    ensures forall g | g in KeySet(GenreRuntimes(titles)) :: IsGenreName(g)
    ensures forall g, x | x in Select(GenreRuntimes(titles), g) :: x >= 1.0
  {
    var facts := GenreRuntimes(titles);
    forall g | g in KeySet(facts) ensures IsGenreName(g) {
      SelectNonEmpty(facts, g);
      var x := Select(facts, g)[0];
      SelectMembership(facts, g, x);
      GenreRuntimesMembership(titles, g, x);
    }
    forall g, x | x in Select(facts, g) ensures x >= 1.0 {
      SelectMembership(facts, g, x);
      GenreRuntimesMembership(titles, g, x);
    }
  }

  /**
   * kpi_duracion_por_genero: one row per genre of a title with a positive
   * runtime, carrying the mean runtime of exactly those titles' rows (at
   * least one minute), ordered by it, longest first.
   */
  function RuntimeByGenre(titles: seq<Title>): (out: seq<GenreRuntime>)
    ensures forall i, j | 0 <= i < j < |out| :: out[i].genre != out[j].genre
    ensures forall i, j | 0 <= i < j < |out| :: out[i].meanRuntime >= out[j].meanRuntime
    ensures forall r | r in out ::
              && IsGenreName(r.genre)
              && r.genre in KeySet(GenreRuntimes(titles))
              && Select(GenreRuntimes(titles), r.genre) != []
              && r.meanRuntime == Mean(Select(GenreRuntimes(titles), r.genre))
              && r.meanRuntime >= 1.0
    ensures forall g | g in KeySet(GenreRuntimes(titles)) :: exists r :: r in out && r.genre == g
  {
    var facts := GenreRuntimes(titles);
    assert AggDefined(facts, MeanRuntimeOf) by {
      forall k | k in KeySet(facts) ensures GroupOf(facts, k).values != [] {
        SelectNonEmpty(facts, k);
      }
    }
    GenreRuntimeKeys(titles);
    assert forall g | g in KeySet(facts) :: MeanRuntimeOf(GroupOf(facts, g)).meanRuntime >= 1.0 by {
      forall g | g in KeySet(facts) ensures MeanRuntimeOf(GroupOf(facts, g)).meanRuntime >= 1.0 {
        SelectNonEmpty(facts, g);
        MeanAtLeast(Select(facts, g), 1.0);
      }
    }
    SortedSummary(facts, MeanRuntimeOf, RuntimeGenre, MeanRuntimeDesc);
    SortBy(Summarize(facts, MeanRuntimeOf), MeanRuntimeDesc)
  }

  /**
   * A title without a positive runtimeMinutes (null, 0 or negative) leaves
   * KPI 5 exactly as it was.
   */
  lemma TitleWithoutRuntimeIgnored(titles: seq<Title>, t: Title)
    requires t.runtimeMinutes.None? || t.runtimeMinutes.value <= 0
    ensures RuntimeByGenre(titles + [t]) == RuntimeByGenre(titles)
  {
    FlatMapAppend(titles, [t], TitleRuntimeRows);
    assert [t][..0] == [];
    assert GenreRuntimes(titles + [t]) == GenreRuntimes(titles);
  }
}
