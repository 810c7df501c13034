# Git tag based version selection for Maven models

This project models the core of `GitPomReader`, a Maven model processor. After Maven
has parsed a `pom.xml`, the reader finds the Git repository around the pom file. If
HEAD resolves, it overwrites the model's version with a version taken from the tags on
HEAD:

1. Keep the tag references (`refs/tags/...`) whose target equals HEAD. Strip
   `refs/tags/` from their names and collect the bare names into a set.
2. If some tag starts with `release/`, `releases/` or `release-`, the version is the
   rest of that tag after the prefix.
3. Otherwise, if HEAD has any tag, the version is a tag, verbatim.
4. Otherwise, the version is the full hexadecimal name of HEAD's commit.

Every failure leaves the model as it was. The failures are: no pom file, no Git
directory, HEAD that cannot be parsed, and an I/O error from the Git library.

Modules:

- `Wrappers` (`wrappers.dfy`): `Option`, and `IoResult` for a call that may throw
  `IOException`.
- `Refs` (`refs.dfy`): object ids, references, and the pipeline from the ref database
  to HEAD's tag set.
- `Selection` (`selection.dfy`): the selection policy `Version`.
  - The Java code iterates two hash sets whose order Java leaves unspecified: the tag set
    and the set of release prefixes. `Version` therefore takes both iteration orders as
    sequences.
  - `IsAllowedVersion` states the policy as a relation, with no order in it.
  - The lemmas prove that every pair of orders gives an allowed version
    (`VersionIsAllowed`). They also prove that every allowed version is produced by some
    order (`AllowedIsReachable`).
  - The three release prefixes differ at index 7, so a tag matches at most one of them.
    As a result, the prefix order never matters (`PrefixOrderIrrelevant`).
- `Reader` (`reader.dfy`): the mutable project model (`PomModel`) and `ProcessModel`,
  the early-return wrapper.
  - `ProcessModel` may modify only `source.version`.
  - It picks both iteration orders nondeterministically, with `IterationOrder`.
  - It returns an `Outcome` that says which path was taken. Each short-circuit path of
    `GitPomReader.processModel` logs its own debug message, and the `Outcome` stands in for that message.

The Git library is an input, not code in this model:

- Whether a Git directory was found is a flag.
- Opening the repository, reading HEAD and listing references each give a value or an
  I/O failure.
- The ref database is a sequence of `(name, target)` references.

The ref query for `refs/tags/` is modelled by its result: the references whose names
start with that prefix (`RefsByPrefix`). The substring at line 94 is therefore always
well defined. A reference's target is the object it points at directly. For an
annotated tag, that object is the tag object, not the commit. So, as in the Java code,
only tags whose own object id equals HEAD's id contribute.

## Model

| member | source | states |
|---|---|---|
| Refs.RefsByPrefix | src/main/java/org/kleczek/git/maven/extension/GitPomReader.java:89-90 | the tag references listed are exactly the references whose names start with `refs/tags/` |
| Refs.TagNames | src/main/java/org/kleczek/git/maven/extension/GitPomReader.java:89-94 | a name is in the stream iff some tag reference points at HEAD and its full name is `refs/tags/` followed by that name; the stream is no longer than the reference list |
| Refs.TagSet | src/main/java/org/kleczek/git/maven/extension/GitPomReader.java:116 | the collected tag set holds exactly the names `n` such that some reference with target HEAD is named `refs/tags/` + `n` |
| Refs.TagSetIgnoresOrderAndDuplicates | src/main/java/org/kleczek/git/maven/extension/GitPomReader.java:116 | two reference lists with the same members give the same tag set: duplicates and order do not matter |
| Refs.UnrelatedRefContributesNothing | src/main/java/org/kleczek/git/maven/extension/GitPomReader.java:90-92 | adding a reference that does not point at HEAD, or is not under `refs/tags/`, leaves the tag set unchanged |
| Selection.IterationOrder | src/main/java/org/kleczek/git/maven/extension/GitPomReader.java:115-116 | the iteration order of a hash set lists each element of the set exactly once |
| Selection.EmptyEnumeration | src/main/java/org/kleczek/git/maven/extension/GitPomReader.java:116 | the empty tag set is iterated as the empty sequence |
| Selection.EnumerationStartingWith | src/main/java/org/kleczek/git/maven/extension/GitPomReader.java:116 | for every element of a set there is an iteration order of the set that starts with it |
| Selection.PrefixesExclusive | src/main/java/org/kleczek/git/maven/extension/GitPomReader.java:115 | no tag starts with two different release prefixes |
| Selection.ReleaseSuffix | src/main/java/org/kleczek/git/maven/extension/GitPomReader.java:118-120 | a tag has a release version iff it starts with a release prefix, and then that version is the tag without that prefix, for whichever release prefix it starts with |
| Selection.Suffixes | src/main/java/org/kleczek/git/maven/extension/GitPomReader.java:118-120 | each suffix produced for a tag is the tag minus a prefix of the given list that the tag starts with; at most one suffix per prefix |
| Selection.ReleaseCandidates | src/main/java/org/kleczek/git/maven/extension/GitPomReader.java:117-120 | the flat-mapped stream of `version`: every element is `t[\|p\|..]` for some tag `t` of the tag order and some prefix `p` of the prefix order that `t` starts with |
| Selection.FirstOr | src/main/java/org/kleczek/git/maven/extension/GitPomReader.java:121 | `findFirst().orElse(d)` is the first element when there is one, and otherwise the default |
| Selection.Version | src/main/java/org/kleczek/git/maven/extension/GitPomReader.java:111-122 | `version` under the given iteration orders: the result is a release candidate of some tag, or one of the tags, or HEAD's name; with no tags it is HEAD's name |
| Selection.ReleaseVersions | src/main/java/org/kleczek/git/maven/extension/GitPomReader.java:117-120 | a prefix-order-free reference for the candidate stream: no longer than the tag order, and every element is the release suffix of some tag |
| Selection.SuffixesOfDistinctReleasePrefixes | src/main/java/org/kleczek/git/maven/extension/GitPomReader.java:117-120 | over distinct release prefixes in any order, a tag yields its release suffix once if one of them matches, and nothing otherwise |
| Selection.SuffixesAreReleaseSuffix | src/main/java/org/kleczek/git/maven/extension/GitPomReader.java:117-120 | over any iteration order of the release prefix set, a tag yields exactly its release suffix (one element or none) |
| Selection.CandidatesAreReleaseVersions | src/main/java/org/kleczek/git/maven/extension/GitPomReader.java:117-120 | the flat-mapped candidate stream equals the release versions of the tags in tag order, for every prefix order |
| Selection.PrefixOrderIrrelevant | src/main/java/org/kleczek/git/maven/extension/GitPomReader.java:115-121 | the selected version is the same for every iteration order of the release prefix set |
| Selection.ReleaseVersionsEmpty | src/main/java/org/kleczek/git/maven/extension/GitPomReader.java:117-121 | there is no release candidate iff no tag starts with a release prefix |
| Selection.FirstReleaseVersion | src/main/java/org/kleczek/git/maven/extension/GitPomReader.java:121 | the first candidate is the release suffix of the first release tag in iteration order |
| Selection.VersionWithoutTags | src/main/java/org/kleczek/git/maven/extension/GitPomReader.java:121 | with no tag on HEAD the version is exactly HEAD's textual name |
| Selection.VersionOfReleaseTag | src/main/java/org/kleczek/git/maven/extension/GitPomReader.java:117-121 | with a release tag on HEAD the version is `t[\|p\|..]` for a tag `t` of the set and a release prefix `p` it starts with, namely for the first release tag iterated |
| Selection.VersionOfPlainTags | src/main/java/org/kleczek/git/maven/extension/GitPomReader.java:121 | with tags on HEAD but no release tag, the version is the first tag iterated, verbatim, and is a member of the tag set |
| Selection.VersionIsAllowed | src/main/java/org/kleczek/git/maven/extension/GitPomReader.java:111-122 | for every iteration order of both sets, the version is one the policy allows |
| Selection.AllowedIsReachable | src/main/java/org/kleczek/git/maven/extension/GitPomReader.java:111-122 | every version the policy allows is the one selected under some iteration order of the tag set |
| Selection.AllowedForSingleTag | src/main/java/org/kleczek/git/maven/extension/GitPomReader.java:115-121 | with a single tag the only allowed version is its release suffix, or the tag itself when it is not a release tag |
| Selection.SingleTagIsDeterministic | src/main/java/org/kleczek/git/maven/extension/GitPomReader.java:115-121 | with a single tag any two allowed versions are equal |
| Selection.SingleTagVersion | src/main/java/org/kleczek/git/maven/extension/GitPomReader.java:115-121 | with a single tag the selected version is its release suffix, or the tag itself |
| Selection.ReleaseSlashExample | src/main/java/org/kleczek/git/maven/extension/GitPomReader.java:115-121 | the tag `release/1.2.0` alone gives `1.2.0` |
| Selection.ReleasesSlashExample | src/main/java/org/kleczek/git/maven/extension/GitPomReader.java:115-121 | the tag `releases/2.0.0` alone gives `2.0.0` |
| Selection.ReleaseDashExample | src/main/java/org/kleczek/git/maven/extension/GitPomReader.java:115-121 | the tag `release-3.0.0` alone gives `3.0.0` |
| Selection.PlainTagExample | src/main/java/org/kleczek/git/maven/extension/GitPomReader.java:115-121 | the tag `v1.2.0` alone gives `v1.2.0` |
| Reader.ProcessModel | src/main/java/org/kleczek/git/maven/extension/GitPomReader.java:60-109 | returns the same model. Only the version may change. The version is unchanged on every short-circuit path: no pom file, no Git directory, HEAD unparsable, an I/O failure when opening, reading HEAD or listing refs. Otherwise the version is set to an allowed version from HEAD's tag set, and that version is `Version` under some iteration orders |

## Left out

- The three `read` overloads (lines 36-58) and `getFileFromOptions` (lines 124-132) are left out. They are Maven plumbing that parses the pom and extracts the file from the options map. The pom file is an input of `ProcessModel`.
- The Plexus component wiring and the logger field (lines 29-34) are left out. The debug messages (lines 67, 75, 85, 106) are not modelled as output; the returned `Outcome` names the path that logs each one.
- JGit repository discovery, opening and HEAD resolution (lines 71-80) are left out; their results are the inputs `GitEnvironment` and `Repository`. The ref query at lines 89-90 is not JGit code here: `Repository.refs` is the whole ref list (or the I/O failure of reading it) and `RefsByPrefix` performs the `refs/tags/` query on it. The closing of the repository by try-with-resources is not modelled.
- The unused `Git` object (line 81) and the TODO about Git properties (line 98) are left out.
- Java's concrete hash set iteration order is left out. Any order is allowed instead, so when HEAD has several release tags with different suffixes, or several plain tags, the model allows each of them. Two calls on the same repository therefore need not pick the same version; they agree when a single tag is on HEAD (`SingleTagIsDeterministic`).
- Maven's `Model` has many more fields than `PomModel`; the group and artifact ids stand for them, and the frame of `ProcessModel` (only `source.version`) covers the rest.
- Java strings are UTF-16 code unit sequences; here they are `seq<char>`, and `startsWith`/`substring` are sequence prefix and slice.
