/** The record shapes of src/types.ts. */
module Types {
  import opened Wrappers

  /** The result of one upload request to Immich. */
  datatype UploadResult = UploadResult(success: bool, statusCode: Option<int>, errorMessage: Option<string>)

  /** The columns of a catalog row the synchronizer reads. */
  datatype ImageRow = ImageRow(id: nat, path: string, hash: string, size: nat)

  /** What the progress bar shows; `name` is the label (a reserved word in Dafny). */
  datatype ProgressState = ProgressState(name: string, current: int, total: int, elapsedText: string, etaText: string)

  /** The parsed options of the `post` command. */
  datatype PostArgs = PostArgs(dbPath: string, excludeVideos: bool, quietSuccess: bool, retryCount: nat)

  /** One path the log parser found completed, with the status code it was uploaded with. */
  datatype CompletedLogEntry = CompletedLogEntry(path: string, statusCode: Option<int>)
}
