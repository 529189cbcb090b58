/** Option, Result and the errors that JshBoot raises as exceptions. */
module Failures {

  /** Also stands for a Java String reference: None is null. */
  datatype Option<+T> = None | Some(value: T)

  datatype Result<+T> = Ok(value: T) | Err(error: Error)

  /** The coordinate field named in an "is empty" message. */
  datatype Field = GroupId | ArtifactId | Version

  /** One variant per exception the bootstrap can raise; each aborts the current call. */
  datatype Error =
    | MalformedDependency(dependency: string)       // not exactly three ':'-separated parts
    | EmptyField(dependency: string, field: Field)  // a coordinate field is the empty string
    | NullReference                                 // a builder field was never set (a Java null dereference)
    | MalformedUrl(spec: string)                    // java.net.MalformedURLException
    | NotInRepo(url: string, repoUrl: string)       // the artifact URL is not nested under the repository URL
    | SlashesOnly(url: string)                      // the remainder after the base is only '/' characters
    | RepoMissing(path: string)                     // the local repository root does not exist
    | RepoNotDirectory(path: string)                // the local repository root is not a directory
    | DownloadFailed(url: string, status: int)      // the server answered with a status other than 200
    | DownloadIoError(url: string)                  // connecting, reading or writing failed
}
