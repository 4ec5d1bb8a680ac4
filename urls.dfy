/**
 * The parts of Python's urllib.parse that the scripts call. They are foreign code, so the model
 * does not re-implement them: a UrlLib value supplies them, and every property of the model
 * holds whatever functions it holds.
 */
module Urls {
  datatype UrlLib = UrlLib(
    join: (string, string) -> string,  // urljoin(base, url)
    netloc: string -> string,          // urlparse(url).netloc
    path: string -> string             // urlparse(url).path
  )
}
