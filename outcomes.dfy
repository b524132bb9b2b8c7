/** Option and Result values, and the errors the pipeline raises. */
module Outcomes {

  datatype Option<+T> = None | Some(value: T)

  /** The exceptions the Python scripts raise, as values. */
  datatype Error =
    /** `raise Exception(f"Failed to fetch {url}, status code: ...")` */
    | FetchFailed(url: string, status: int)
    /** `raise ValueError("Specified phrases not found in the content.")` */
    | PhrasesNotFound
    /** `raise ValueError("Language not recognized. ...")` */
    | LanguageNotRecognized
    /** `text[0]` on an empty string */
    | IndexError
    /** a reference to a name that the script never defines */
    | NameError(name: string)
    /** `range()` with a zero step */
    | ZeroStep

  datatype Result<+T> = Success(value: T) | Failure(error: Error)
}
