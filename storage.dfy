/**
 The two JSON files the main process keeps under the user-data directory
 (`config.json` and `history.json`), seen through `fs.existsSync`,
 `readFileSync` and `JSON.parse`: a file is missing, cannot be read or
 parsed, or holds a parsed value.
 */
module Storage {

  datatype File<T> = Missing | Corrupt | Stored(content: T)

  /** The loaders' shared shape: the parsed value, or `default` when the file
      is missing or any step of reading it throws. */
  function LoadOr<T>(f: File<T>, default: T): (r: T)
    ensures f.Stored? ==> r == f.content
    ensures !f.Stored? ==> r == default
  {
    match f
    case Stored(c) => c
    case _ => default
  }
}
