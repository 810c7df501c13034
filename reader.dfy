/**
 * The model post-processing hook: after the build tool has parsed a pom, look
 * up the Git repository around the pom file and, when HEAD can be read,
 * overwrite the model's version with the version selected from HEAD's tags.
 * Every failure leaves the model as it was.
 */
module Reader {
  import opened Wrappers
  import opened Refs
  import opened Selection

  /** The parsed project model; only the version is ever written here. */
  class PomModel {
    var groupId: Option<string>
    var artifactId: Option<string>
    var version: Option<string>

    constructor (groupId: Option<string>, artifactId: Option<string>, version: Option<string>)
      ensures this.groupId == groupId && this.artifactId == artifactId && this.version == version
    {
      this.groupId := groupId;
      this.artifactId := artifactId;
      this.version := version;
    }
  }

  /** An opened repository: reading HEAD (null when it cannot be parsed) and listing its references may each fail with an I/O error. */
  datatype Repository = Repository(head: IoResult<Option<ObjectId>>, refs: IoResult<seq<Ref>>)

  /** What the Git library finds around the pom file: whether a Git directory exists and what opening it gives. */
  datatype GitEnvironment = GitEnvironment(gitDirFound: bool, repository: IoResult<Repository>)

  /** How processing ended: with a version, or on one of the paths that leave the model unchanged (each logs its own message). */
  datatype Outcome =
    | Resolved(version: string)
    | NoPomFile
    | GitRepositoryNotFound
    | CannotParseHead
    | GitMetadataFailure

  /** Overwrite the version of `source` from the Git state around `pomFile`, and return `source`. */
  method ProcessModel(source: PomModel, pomFile: Option<string>, git: GitEnvironment)
    returns (result: PomModel, outcome: Outcome)
    modifies source`version
    ensures result == source
    ensures source.groupId == old(source.groupId) && source.artifactId == old(source.artifactId)
    ensures !outcome.Resolved? ==> source.version == old(source.version)
    ensures pomFile.None? ==> outcome == NoPomFile
    ensures pomFile.Some? && !git.gitDirFound ==> outcome == GitRepositoryNotFound
    ensures pomFile.Some? && git.gitDirFound && git.repository.Ok? && git.repository.value.head == Ok(None)
      ==> outcome == CannotParseHead
    ensures outcome == GitMetadataFailure <==>
      pomFile.Some? && git.gitDirFound &&
      (|| git.repository.IoFailure?
       || git.repository.value.head.IoFailure?
       || (git.repository.value.head.value.Some? && git.repository.value.refs.IoFailure?))
    ensures outcome.Resolved? <==>
      pomFile.Some? && git.gitDirFound && git.repository.Ok? &&
      git.repository.value.head.Ok? && git.repository.value.head.value.Some? &&
      git.repository.value.refs.Ok?
    ensures outcome.Resolved? ==>
      var head := git.repository.value.head.value.value;
      var tagSet := TagSet(git.repository.value.refs.value, head);
      && source.version == Some(outcome.version)
      && IsAllowedVersion(tagSet, head, outcome.version)
      && exists tags, prefixes ::
           IsEnumeration(tags, tagSet) && IsEnumeration(prefixes, ReleasePrefixes) &&
           outcome.version == Version(tags, prefixes, head)
  {
    if pomFile.None? {
      return source, NoPomFile;
    }
    if !git.gitDirFound {
      return source, GitRepositoryNotFound;
    }
    if git.repository.IoFailure? {
      return source, GitMetadataFailure;
    }
    var repo := git.repository.value;
    if repo.head.IoFailure? {
      return source, GitMetadataFailure;
    }
    if repo.head.value.None? {
      return source, CannotParseHead;
    }
    var head := repo.head.value.value;
    if repo.refs.IoFailure? {
      return source, GitMetadataFailure;
    }
    var tagSet := TagSet(repo.refs.value, head);
    var tags := IterationOrder(tagSet);
    var prefixes := IterationOrder(ReleasePrefixes);
    var version := Version(tags, prefixes, head);
    VersionIsAllowed(tags, prefixes, tagSet, head);
    source.version := Some(version);
    return source, Resolved(version);
  }
}
