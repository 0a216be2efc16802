/**
 * The four curated IMDB tables the KPI report reads, one record per row,
 * restricted to the columns the report uses. A nullable column is an Option.
 */
module ImdbTables {

  datatype Option<T> = None | Some(value: T)

  /** The outcome of a query that the engine can abort. */
  datatype Result<T> = Ok(value: T) | InvalidCast(column: string)

  /** title_basics: genres is the raw comma-separated list ("\N" or null when unknown). */
  datatype Title = Title(tconst: string, genres: Option<string>, startYear: Option<int>, runtimeMinutes: Option<int>)

  /** title_ratings */
  datatype Rating = Rating(tconst: string, averageRating: real, numVotes: nat)

  /** title_principals: category is the role ("actor", "actress", "director", ...). */
  datatype Principal = Principal(tconst: string, nconst: string, category: string)

  /** name_basics */
  datatype Name = Name(nconst: string, primaryName: string)
}
