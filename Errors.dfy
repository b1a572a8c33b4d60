/** The errors the tool throws or rejects with, and the external programs
    whose failures it reports. */
module Errors {
  import opened Wrappers

  /** The external programs the tool spawns and reports on. */
  datatype Tool = Chromium | Mutool | Mat2 | Exiftool

  datatype Failure =
    | TemplateNotFound(path: string)           // "Template file not found: <path>"
    | PortOutOfRange(port: int)                // RangeError from server.listen
    | MarkservNotReady(attempts: int)          // "Markserv not ready after <n> attempts"
    | SpawnError(tool: Tool)                   // an 'error' event other than ENOENT
    | ExitedWith(tool: Tool, code: Option<int>) // a rejected 'close' event; None is a null code
}
