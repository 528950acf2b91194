/** Failure-carrying values shared by every part of the updater. */
module Errors {

  datatype Option<+T> = None | Some(value: T)

  /** Every way the updater can end early. Each one stops the program:
      `checkError` exits with status 1, and the two panics of the source
      (NilDereference, UnexpectedFormat) end it through the Go runtime. */
  datatype Error =
    | NoConnection                  // the release page could not be fetched
    | NotInstalled                  // `atom --version` could not be run
    | UnexpectedFormat              // first line of `atom --version` has no ':' (a panic in the source)
    | ParseFailed(detail: string)   // html.Parse reported an error
    | HtmlChanged                   // the page yielded no version or no link
    | NilDereference                // a release-title heading lacks the nested text node (a panic in the source)
    | CannotCreateFile              // the artifact file could not be created
    | CannotGetFile                 // the artifact request failed
    | DownloadInterrupted           // copying the artifact body failed
    | CannotUnpack                  // `sudo dpkg --install` failed

  datatype Result<+T> = Ok(value: T) | Err(error: Error)

  /** The failures that are Go runtime panics rather than calls to checkError. */
  predicate IsPanic(e: Error) {
    e == UnexpectedFormat || e == NilDereference
  }
}
