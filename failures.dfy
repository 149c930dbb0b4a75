/**
 * The exceptions and null results of the nested-jar resolver, as values.
 *
 * The source raises two process-wide exception objects (the shared
 * "file not found" exception and the shared illegal-state exception that wraps
 * it); each is a nullary constructor here, so that "the same object is thrown"
 * is plain equality. Every other constructor stands for an exception object
 * allocated at the throw site, carrying what its message names.
 */
module Failures {

  datatype Option<+T> = None | Some(value: T)

  datatype Failure =
      /** FILE_NOT_FOUND_EXCEPTION: "Jar file or entry not found", shared by every thrower */
    | SharedFileNotFound
      /** NOT_FOUND_CONNECTION_EXCEPTION: the shared IllegalStateException wrapping it */
    | SharedNotFoundState
      /** a fresh FileNotFoundException naming the missing entry and the jar searched */
    | EntryNotFound(entry: string, jarName: string)
      /** IOException "no entry name specified" */
    | NoEntryNameSpecified
      /** IllegalArgumentException for a malformed escape; `rest` is the input from the '%' on */
    | InvalidEncodedSequence(rest: string)
      /** StringIndexOutOfBoundsException from String.substring(begin) with begin > length */
    | IndexOutOfBounds(begin: int, length: int)
      /** IOException from JarFile.getNestedJarFile: the entry does not hold a readable jar */
    | NestedJarUnavailable(entry: string)
  {
    /** The exception's message text, where the source spells it out. */
    function Message(): Option<string>
    {
      match this
      case SharedFileNotFound => Some("Jar file or entry not found")
      case EntryNotFound(entry, jarName) => Some("JAR entry " + entry + " not found in " + jarName)
      case NoEntryNameSpecified => Some("no entry name specified")
      case InvalidEncodedSequence(rest) => Some("Invalid encoded sequence \"" + rest + "\"")
      case _ => None
    }
  }

  /** A value, or the exception that was raised instead of returning one. */
  datatype Result<+T> = Ok(value: T) | Err(failure: Failure)

  /** A void operation's outcome: it returned, or it raised. */
  datatype Outcome = Pass | Fail(failure: Failure)
}
