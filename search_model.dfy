/**
 * The records the remote movie-search API decodes into
 * (movieSearch/MovieSearchModel.swift). JSON decoding itself is not
 * modelled: a decoded response is one of these values.
 */
module SearchModel {
  import opened Wrappers

  /** One search hit; every field is a string, `title` may carry HTML tags. */
  datatype Movie = Movie(
    title: string,
    link: string,
    image: string,
    subtitle: string,
    pubDate: string,
    director: string,
    actor: string,
    userRating: string)

  /** The decoded response body; every field is optional, `movies` is the JSON key `items`. */
  datatype SearchResponse = SearchResponse(
    lastBuildDate: Option<string>,
    total: Option<int>,
    start: Option<int>,
    display: Option<int>,
    movies: Option<seq<Movie>>)
}
