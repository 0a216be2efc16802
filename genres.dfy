/**
 * normalize_genres: a title's raw genres value becomes a list of genre names.
 * A null value becomes "", the first literal backslash-N (IMDB's null marker)
 * is removed, the first match of the regex ^\s+|\s+$ is removed, and the
 * result is split on ",". The KPIs then explode the list into one row per
 * entry and drop the "" entries.
 */
module Genres {
  import opened ImdbTables
  import DataFrame

  // ---------------------------------------------------------------------
  // characters
  // ---------------------------------------------------------------------

  /** `\s` of the regex engine: the characters with the Unicode White_Space property. */
  predicate IsWhitespace(c: char)
  {
    || ('\t' <= c <= '\r')
    || c == ' '
    || c == '\U{85}'
    || c == '\U{A0}'
    || c == '\U{1680}'
    || ('\U{2000}' <= c <= '\U{200A}')
    || c == '\U{2028}'
    || c == '\U{2029}'
    || c == '\U{202F}'
    || c == '\U{205F}'
    || c == '\U{3000}'
  }

  predicate AllWhitespace(s: string)
  {
    forall i | 0 <= i < |s| :: IsWhitespace(s[i])
  }

  // ---------------------------------------------------------------------
  // fill_null("")
  // ---------------------------------------------------------------------

  function FillNull(genres: Option<string>): (s: string)
    ensures genres.Some? ==> s == genres.value
    ensures genres.None? ==> s == ""
  {
    match genres
    case None => ""
    case Some(s) => s
  }

  // ---------------------------------------------------------------------
  // str.replace(r"\\N", ""): the pattern is a backslash followed by N
  // ---------------------------------------------------------------------

  /** The two characters at i and i + 1 are the null marker backslash-N. */
  predicate NullMarkerAt(s: string, i: int)
  {
    0 <= i && i + 1 < |s| && s[i] == '\\' && s[i + 1] == 'N'
  }

  /** Removes the leftmost null marker only; str.replace replaces one match. */
  function RemoveNullMarker(s: string): (r: string)
    ensures |r| == |s| || |r| == |s| - 2
  {
    if |s| < 2 then s
    else if s[0] == '\\' && s[1] == 'N' then s[2..]
    else [s[0]] + RemoveNullMarker(s[1..])
  }

  /** A string without a null marker passes through unchanged. */
  lemma {:induction false} RemoveNullMarkerUnchanged(s: string)
    requires forall i :: !NullMarkerAt(s, i)
    ensures RemoveNullMarker(s) == s
  {
    if |s| >= 2 {
      assert !NullMarkerAt(s, 0);
      forall i ensures !NullMarkerAt(s[1..], i) {
        assert !NullMarkerAt(s, i + 1);
      }
      RemoveNullMarkerUnchanged(s[1..]);
      assert s == [s[0]] + s[1..];
    }
  }

  /** Exactly the leftmost null marker is cut out; later ones stay. */
  lemma {:induction false} RemoveNullMarkerFirst(s: string, i: int)
    requires NullMarkerAt(s, i)
    requires forall j | 0 <= j < i :: !NullMarkerAt(s, j)
    ensures RemoveNullMarker(s) == s[..i] + s[i + 2..]
  {
    if i == 0 {
      assert s[..i] + s[i + 2..] == s[2..];
    } else {
      assert !NullMarkerAt(s, 0);
      var t := s[1..];
      assert RemoveNullMarker(s) == [s[0]] + RemoveNullMarker(t);
      assert NullMarkerAt(t, i - 1);
      forall j | 0 <= j < i - 1 ensures !NullMarkerAt(t, j) {
        assert !NullMarkerAt(s, j + 1);
      }
      RemoveNullMarkerFirst(t, i - 1);
      calc {
        RemoveNullMarker(s);
        [s[0]] + (t[..i - 1] + t[i + 1..]);
        { assert [s[0]] + t[..i - 1] == s[..i]; assert t[i + 1..] == s[i + 2..]; }
        s[..i] + s[i + 2..];
      }
    }
  }

  // ---------------------------------------------------------------------
  // str.replace(r"^\s+|\s+$", "")
  // ---------------------------------------------------------------------

  /** Length of the whitespace run that starts s. */
  function LeadingRun(s: string): (n: nat)
    ensures n <= |s|
    ensures AllWhitespace(s[..n])
    ensures n < |s| ==> !IsWhitespace(s[n])
  {
    if s != [] && IsWhitespace(s[0]) then 1 + LeadingRun(s[1..]) else 0
  }

  /** Length of the whitespace run that ends s. */
  function TrailingRun(s: string): (n: nat)
    ensures n <= |s|
    ensures AllWhitespace(s[|s| - n..])
    ensures n < |s| ==> !IsWhitespace(s[|s| - n - 1])
  {
    if s != [] && IsWhitespace(s[|s| - 1]) then 1 + TrailingRun(s[..|s| - 1]) else 0
  }

  /**
   * The single replacement str.replace makes: the leftmost match of
   * ^\s+|\s+$ is the leading whitespace run when s starts with whitespace,
   * and otherwise the trailing run. Only that one run is removed.
   */
  function TrimOnce(s: string): string
  {
    if s != [] && IsWhitespace(s[0]) then s[LeadingRun(s)..] else s[..|s| - TrailingRun(s)]
  }

  /** A match of ^\s+|\s+$ starts at p: the first alternative at 0, or the second (whitespace up to the end). */
  predicate MatchStartsAt(s: string, p: int)
  {
    0 <= p < |s| && ((p == 0 && IsWhitespace(s[0])) || AllWhitespace(s[p..]))
  }

  /** The length the engine takes at p: the first, greedy alternative when it applies, else the rest of s. */
  function MatchLength(s: string, p: int): nat
    requires MatchStartsAt(s, p)
  {
    if p == 0 && IsWhitespace(s[0]) then LeadingRun(s) else |s| - p
  }

  /** TrimOnce is the regex replacement: it removes the leftmost match and nothing when there is none. */
  lemma TrimOnceRemovesFirstMatch(s: string)
    ensures (forall p :: !MatchStartsAt(s, p)) ==> TrimOnce(s) == s
    ensures forall p | MatchStartsAt(s, p) && (forall q | 0 <= q < p :: !MatchStartsAt(s, q)) ::
              p + MatchLength(s, p) <= |s| && TrimOnce(s) == s[..p] + s[p + MatchLength(s, p)..]
  {
    if s != [] && !IsWhitespace(s[0]) {
      var t := TrailingRun(s);
      var p0 := |s| - t;
      if t == 0 {
        forall p | 0 <= p < |s| ensures !MatchStartsAt(s, p) {
          assert s[p..][|s| - 1 - p] == s[|s| - 1];
        }
        assert s[..|s|] == s;
      } else {
        assert MatchStartsAt(s, p0);
        forall q | 0 <= q < p0 ensures !MatchStartsAt(s, q) {
          assert s[q..][p0 - 1 - q] == s[p0 - 1];
        }
        assert s[p0 + MatchLength(s, p0)..] == [];
      }
    } else if s != [] {
      assert MatchStartsAt(s, 0);
    }
  }

  /** Both runs removed: the trim the comment in normalize_genres describes. */
  function Trim(s: string): string
  {
    var u := s[LeadingRun(s)..];
    u[..|u| - TrailingRun(u)]
  }

  /**
   * The single replacement trims both ends except when s starts and ends
   * with whitespace around some other character: then the trailing run
   * survives (" Drama " becomes "Drama ").
   */
  lemma TrimOnceIsTrimUnlessBothEnds(s: string)
    ensures TrimOnce(s) == Trim(s) <==>
              !(s != [] && IsWhitespace(s[0]) && IsWhitespace(s[|s| - 1]) && !AllWhitespace(s))
  {
    var n := LeadingRun(s);
    var u := s[n..];
    if s != [] && IsWhitespace(s[0]) {
      if AllWhitespace(s) {
        assert n == |s|;
      } else if IsWhitespace(s[|s| - 1]) {
        assert n < |s|;
        assert u[|u| - 1] == s[|s| - 1];
        assert TrailingRun(u) >= 1;
        assert |Trim(s)| < |TrimOnce(s)|;
      } else {
        assert n < |s|;
        assert u[|u| - 1] == s[|s| - 1];
        assert u[..|u|] == u;
      }
    } else {
      assert u == s;
    }
  }

  // ---------------------------------------------------------------------
  // str.split(",")
  // ---------------------------------------------------------------------

  /** The pieces between separators; "" splits into [""], "a,,b" into ["a", "", "b"]. */
  function Split(s: string, sep: char): (parts: seq<string>)
    ensures parts != []
    ensures forall p | p in parts :: sep !in p
  {
    if s == [] then [""]
    else
      var rest := Split(s[1..], sep);
      if s[0] == sep then [""] + rest
      else
        assert rest[0] in rest;
        [[s[0]] + rest[0]] + rest[1..]
  }

  /** The pieces put back together with the separator between them. */
  function Join(parts: seq<string>, sep: char): string
    requires parts != []
  {
    if |parts| == 1 then parts[0] else parts[0] + [sep] + Join(parts[1..], sep)
  }

  /** Joining the pieces of a split gives back the string. */
  lemma {:induction false} JoinSplit(s: string, sep: char)
    ensures Join(Split(s, sep), sep) == s
  {
    if s != [] {
      var rest := Split(s[1..], sep);
      JoinSplit(s[1..], sep);
      if s[0] == sep {
        assert ([""] + rest)[1..] == rest;
      } else if |rest| > 1 {
        var parts := [[s[0]] + rest[0]] + rest[1..];
        assert parts[1..] == rest[1..];
        assert Join(rest, sep) == rest[0] + [sep] + Join(rest[1..], sep);
      }
    }
  }

  lemma {:induction false} SplitWithoutSeparator(a: string, sep: char)
    requires sep !in a
    ensures Split(a, sep) == [a]
  {
    if a != [] {
      assert a[0] != sep;
      SplitWithoutSeparator(a[1..], sep);
      assert [a[0]] + a[1..] == a;
    }
  }

  lemma {:induction false} SplitAtSeparator(a: string, b: string, sep: char)
    requires sep !in a
    ensures Split(a + [sep] + b, sep) == [a] + Split(b, sep)
  {
    var s := a + [sep] + b;
    if a == [] {
      assert s[0] == sep && s[1..] == b;
    } else {
      assert s[0] == a[0] && a[0] != sep;
      assert s[1..] == a[1..] + [sep] + b;
      SplitAtSeparator(a[1..], b, sep);
      assert [a[0]] + a[1..] == a;
    }
  }

  /** Splitting a join of separator-free pieces gives back the pieces. */
  lemma {:induction false} SplitJoin(parts: seq<string>, sep: char)
    requires parts != []
    requires forall p | p in parts :: sep !in p
    ensures Split(Join(parts, sep), sep) == parts
  {
    assert parts[0] in parts;
    if |parts| == 1 {
      SplitWithoutSeparator(parts[0], sep);
    } else {
      assert forall p | p in parts[1..] :: p in parts;
      SplitJoin(parts[1..], sep);
      SplitAtSeparator(parts[0], Join(parts[1..], sep), sep);
      assert [parts[0]] + parts[1..] == parts;
    }
  }

  // ---------------------------------------------------------------------
  // normalize_genres, explode, filter(genres != "")
  // ---------------------------------------------------------------------

  /** normalize_genres: the list a title's genres value becomes. */
  function NormalizeGenres(genres: Option<string>): (parts: seq<string>)
    ensures parts != []
    ensures forall p | p in parts :: ',' !in p
    ensures Join(parts, ',') == TrimOnce(RemoveNullMarker(FillNull(genres)))
  {
    var s := TrimOnce(RemoveNullMarker(FillNull(genres)));
    JoinSplit(s, ',');
    Split(s, ',')
  }

  /** A genre key the KPIs can group on: non-empty and free of the separator. */
  predicate IsGenreName(g: string)
  {
    g != "" && ',' !in g
  }

  /** The genre rows one title yields after explode("genres") and the filter dropping "". */
  function GenreList(genres: Option<string>): (gs: seq<string>)
    ensures forall g | g in gs :: IsGenreName(g) && g in NormalizeGenres(genres)
    ensures forall g | g in NormalizeGenres(genres) && g != "" :: g in gs
  {
    DataFrame.Where(NormalizeGenres(genres), g => g != "")
  }

  /**
   * A genre listed twice yields two rows: GenreList keeps every non-empty
   * part as often as it occurs, and no empty part.
   */
  lemma GenreListCount(genres: Option<string>, g: string)
    ensures multiset(GenreList(genres))[g] == if g != "" then multiset(NormalizeGenres(genres))[g] else 0
  {
    DataFrame.WhereCount(NormalizeGenres(genres), g' => g' != "", g);
  }

  /**
   * A null genres value, or one that is only whitespace once its null marker
   * is gone ("", "\N", "  "), yields no genre rows at all.
   */
  lemma BlankGenresYieldNothing(genres: Option<string>)
    requires genres.Some? ==> AllWhitespace(RemoveNullMarker(genres.value))
    ensures GenreList(genres) == []
  {
    var s := RemoveNullMarker(FillNull(genres));
    assert AllWhitespace(s);
    if s != [] {
      assert LeadingRun(s) == |s|;
    }
    assert TrimOnce(s) == "";
    assert NormalizeGenres(genres) == [""];
  }
}
