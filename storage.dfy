/** The files that pass between the classifier, the converter and the output
    assembler, and what the file system does when the program touches them.

    The program stages every accepted archive entry (and every uploaded file)
    on disk and later reads it back several times, at different places, each
    of which can fail. Those reads are not computed here: each staged file
    carries the outcome of every access as an injected value. */
module Storage {

  /** Whether opening and reading a staged file succeeds; `error` is `str(e)`. */
  datatype ReadResult = Readable | Unreadable(error: string)

  /** The outcome of each access to one staged file:
      - `convertRead`: the read at the start of the converter's per-file step,
      - `recoveryRead`: the second read inside the converter's error handler,
      - `fallbackRead`: the read by the request handler's whole-batch fallback,
      - `archiveCopy`: copying the file into the output archive. */
  datatype Disk = Disk(convertRead: ReadResult, recoveryRead: ReadResult,
                       fallbackRead: ReadResult, archiveCopy: ReadResult)

  /** The program's `(staging_path, relative_path)` pair, with the text the
      staged file holds. */
  datatype StagedFile = StagedFile(relativePath: string, content: string, disk: Disk)

  /** A `(filename, content)` pair produced by conversion, written as one
      output file or as one archive entry. */
  datatype OutputFile = OutputFile(name: string, content: string)
}
