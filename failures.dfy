/** Error values and the failure-carrying wrappers shared by every module.
    A `panic` of the Go program is an error value here too; IsPanic()
    tells it apart from an ordinary `error` return, because a panic ends the
    whole program instead of being handled by the caller. */
module Failures {

  datatype Option<+T> = None | Some(value: T)

  datatype Error =
    // os.Open of a .git/config file failed
    | OpenFailed(path: string)
    // main.go: "Directory does not exist: ..."
    | DirectoryMissing(dir: string)
    // main.go: "Directory is not a git repository: ..."
    | NotARepository(dir: string)
    // the header line "[": `line[1:len(line)-1]` is `line[1:0]`
    | SliceBoundsPanic
    // a failed single-value type assertion on a section of the config map
    | ShapePanic(section: string)
    // GetConfigValue: fewer than two dot-separated parts
    | TooFewParts
    // GetConfigValue: more than three dot-separated parts
    | TooManyParts
    | SectionNotFound(section: string)
    | KeyNotFound(key: string, section: string)
    | SubsectionNotFound(subsection: string, section: string)
    | SubsectionKeyNotFound(key: string, subsection: string, section: string)
    // "Could not get remote URL: ..."
    | RemoteUnavailable(cause: Error)
    // main.go: "Error creating repo from <local>: ..."
    | CreateFailed(local: string, cause: Error)
    // dereferencing a nil *Repo
    | NilDereferencePanic
  {
    predicate IsPanic() {
      SliceBoundsPanic? || ShapePanic? || NilDereferencePanic?
    }
  }

  datatype Result<+T> = Ok(value: T) | Err(error: Error)
}
