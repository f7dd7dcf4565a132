/** Values shared by every part of the storage manager: optional values, the
    error kinds the operations raise, and the two shapes of an operation's
    result (with or without a value). */
module Outcomes {

  datatype Option<+T> = None | Some(value: T)

  /** One error kind per message the storage manager throws. The store's own
      message is not modelled; an error names the entry it concerns when the
      thrown message does. */
  datatype Error =
    | CreateDirectoryError          // "Failed to create directory"
    | UploadError                   // "Failed to upload file"
    | ListDirectoryError            // "Failed to list directory" (tree walk)
    | UrlError                      // "Failed to get URL for file" (tree walk)
    | ListFilesError                // "Failed to list files"
    | RenameListError               // "Failed to retrieve files for renaming"
    | MoveEntryError(name: string)  // "Failed to move file <name>"
    | RenameFileError               // "Failed to rename file"
    | DeleteListError               // "Failed to retrieve files for deletion"
    | DeleteEntryError(name: string)// "Failed to delete file <name>"
    | DeleteCheckError              // "Failed to check directory after deletion"
    | DeleteFileError               // "Failed to delete file"
    | MoveFileError                 // "Failed to move file"
    | DownloadError                 // "Failed to download file from source"
    | CopyUploadError               // "Failed to upload file to target"

  /** The result of an operation that returns a value or throws. */
  datatype Result<+T> = Ok(value: T) | Err(error: Error)

  /** The result of an operation that returns nothing or throws. */
  datatype Status = Pass | Fail(error: Error)
}
