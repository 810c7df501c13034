/**
 * The version selection policy: from the tag names on HEAD and HEAD's id,
 * pick the artifact version. Release tags (`release/`, `releases/`,
 * `release-`) give the text after their prefix; otherwise any tag is taken
 * verbatim; without tags the version is HEAD's full id.
 *
 * The policy walks two hash sets whose iteration order is unspecified, so
 * `Version` takes both orders as sequences. `IsAllowedVersion` states the
 * policy as a relation, and the lemmas show that every order gives an
 * allowed version and every allowed version is given by some order.
 */
module Selection {
  import opened Wrappers
  import opened Refs

  /** The tag prefixes that mark a release. */
  const ReleasePrefixes: set<string> := {"release/", "releases/", "release-"}

  /** `order` lists every element of `s` exactly once: an iteration order of the set. */
  ghost predicate IsEnumeration(order: seq<string>, s: set<string>)
  {
    && (forall x :: x in order <==> x in s)
    && (forall i, j :: 0 <= i < j < |order| ==> order[i] != order[j])
  }

  /** Some iteration order of `s`; which one is left open, as a hash set leaves it. */
  method IterationOrder(s: set<string>) returns (order: seq<string>)
    ensures IsEnumeration(order, s)
  {
    order := [];
    var rest := s;
    while rest != {}
      invariant rest <= s
      invariant forall x :: x in order <==> x in s && x !in rest
      invariant forall i, j :: 0 <= i < j < |order| ==> order[i] != order[j]
      decreases rest
    {
      var x :| x in rest;
      order := order + [x];
      rest := rest - {x};
    }
  }

  /** No tag starts with two different release prefixes: they differ at index 7. */
  lemma PrefixesExclusive(tag: string, p: string, q: string)
    requires p in ReleasePrefixes && q in ReleasePrefixes
    requires p <= tag && q <= tag
    ensures p == q
  {
    assert "release/"[7] == '/' && "releases/"[7] == 's' && "release-"[7] == '-';
    assert p[7] == tag[7] && q[7] == tag[7];
  }

  /** The version a single tag names as a release: the tag without its release prefix. */
  function ReleaseSuffix(tag: string): (r: Option<string>)
    ensures r.Some? <==> exists p :: p in ReleasePrefixes && p <= tag
    ensures forall p :: p in ReleasePrefixes && p <= tag ==> r == Some(tag[|p|..])
  {
    if "release/" <= tag then
      forall p | p in ReleasePrefixes && p <= tag ensures p == "release/" {
        PrefixesExclusive(tag, p, "release/");
      }
      Some(tag[8..])
    else if "releases/" <= tag then
      forall p | p in ReleasePrefixes && p <= tag ensures p == "releases/" {
        PrefixesExclusive(tag, p, "releases/");
      }
      Some(tag[9..])
    else if "release-" <= tag then
      Some(tag[8..])
    else
      None
  }

  /** For one tag, the suffixes after each prefix of `prefixes` that it starts with, in that order. */
  function Suffixes(tag: string, prefixes: seq<string>): (r: seq<string>)
    ensures |r| <= |prefixes|
    ensures forall s :: s in r ==> exists p :: p in prefixes && p <= tag && s == tag[|p|..]
  {
    if prefixes == [] then []
    else
      (if prefixes[0] <= tag then [tag[|prefixes[0]|..]] else []) + Suffixes(tag, prefixes[1..])
  }

  /** The release versions of all tags, tag by tag in the order of `tags`. */
  function ReleaseCandidates(tags: seq<string>, prefixes: seq<string>): (r: seq<string>)
    ensures forall s :: s in r ==> IsCandidate(tags, prefixes, s)
  {
    if tags == [] then []
    else
      var later := ReleaseCandidates(tags[1..], prefixes);
      forall s | s in later ensures IsCandidate(tags, prefixes, s) {
        var t, p :| t in tags[1..] && p in prefixes && p <= t && s == t[|p|..];
        assert t in tags;
      }
      forall s | s in Suffixes(tags[0], prefixes) ensures IsCandidate(tags, prefixes, s) {
        var p :| p in prefixes && p <= tags[0] && s == tags[0][|p|..];
        assert tags[0] in tags;
      }
      Suffixes(tags[0], prefixes) + later
  }

  /** `s` is what remains of some tag of `tags` after a prefix of `prefixes` that the tag starts with. */
  ghost predicate IsCandidate(tags: seq<string>, prefixes: seq<string>, s: string)
  {
    exists t, p :: t in tags && p in prefixes && p <= t && s == t[|p|..]
  }

  /** The first element of `s`, or `default` when `s` is empty. */
  function FirstOr(s: seq<string>, default: string): (r: string)
    ensures r == default || r in s
    ensures s != [] ==> r == s[0]
  {
    if s == [] then default else s[0]
  }

  /**
   * The selected version, when the tag set is iterated in the order `tags`
   * and the release prefix set in the order `prefixes`.
   */
  function Version(tags: seq<string>, prefixes: seq<string>, head: ObjectId): (v: string)
    ensures IsCandidate(tags, prefixes, v) || v in tags || v == head.name
    ensures tags == [] ==> v == head.name
  {
    FirstOr(ReleaseCandidates(tags, prefixes), FirstOr(tags, head.name))
  }

  /** The release versions of `tags`, in order, independent of any prefix order. */
  function ReleaseVersions(tags: seq<string>): (r: seq<string>)
    ensures |r| <= |tags|
    ensures forall s :: s in r ==> exists t :: t in tags && ReleaseSuffix(t) == Some(s)
  {
    if tags == [] then []
    else
      (match ReleaseSuffix(tags[0]) case Some(v) => [v] case None => []) + ReleaseVersions(tags[1..])
  }

  /** A tag yields at most one suffix for any set of distinct release prefixes, whatever their order. */
  lemma {:induction false} SuffixesOfDistinctReleasePrefixes(tag: string, prefixes: seq<string>)
    requires forall p :: p in prefixes ==> p in ReleasePrefixes
    requires forall i, j :: 0 <= i < j < |prefixes| ==> prefixes[i] != prefixes[j]
    ensures (exists p :: p in prefixes && p <= tag) ==> Suffixes(tag, prefixes) == [ReleaseSuffix(tag).value]
    ensures !(exists p :: p in prefixes && p <= tag) ==> Suffixes(tag, prefixes) == []
  {
    if prefixes != [] {
      var rest := prefixes[1..];
      assert forall i, j :: 0 <= i < j < |rest| ==> rest[i] != rest[j] by {
        forall i, j | 0 <= i < j < |rest| ensures rest[i] != rest[j] {
          assert rest[i] == prefixes[i + 1] && rest[j] == prefixes[j + 1];
        }
      }
      SuffixesOfDistinctReleasePrefixes(tag, rest);
      if prefixes[0] <= tag {
        assert prefixes[0] !in rest by {
          forall k | 0 <= k < |rest| ensures rest[k] != prefixes[0] {
            assert rest[k] == prefixes[k + 1];
          }
        }
        forall p | p in rest && p <= tag ensures p == prefixes[0] {
          PrefixesExclusive(tag, p, prefixes[0]);
        }
        assert !(exists p :: p in rest && p <= tag);
        assert prefixes[0] in prefixes;
        assert Suffixes(tag, prefixes) == [tag[|prefixes[0]|..]];
      } else {
        assert forall p :: p in prefixes && p <= tag ==> p in rest;
        assert forall p :: p in rest ==> p in prefixes;
      }
    }
  }

  /** With the release prefixes in any iteration order, a tag yields exactly its release suffix. */
  lemma SuffixesAreReleaseSuffix(tag: string, prefixes: seq<string>)
    requires IsEnumeration(prefixes, ReleasePrefixes)
    ensures Suffixes(tag, prefixes) == match ReleaseSuffix(tag) case Some(v) => [v] case None => []
  {
    SuffixesOfDistinctReleasePrefixes(tag, prefixes);
  }

  /** The flat-mapped candidates are the release versions of the tags, whatever the prefix order. */
  lemma {:induction false} CandidatesAreReleaseVersions(tags: seq<string>, prefixes: seq<string>)
    requires IsEnumeration(prefixes, ReleasePrefixes)
    ensures ReleaseCandidates(tags, prefixes) == ReleaseVersions(tags)
  {
    if tags != [] {
      SuffixesAreReleaseSuffix(tags[0], prefixes);
      CandidatesAreReleaseVersions(tags[1..], prefixes);
    }
  }

  /** The iteration order of the release prefix set never affects the version. */
  lemma PrefixOrderIrrelevant(tags: seq<string>, prefixes1: seq<string>, prefixes2: seq<string>, head: ObjectId)
    requires IsEnumeration(prefixes1, ReleasePrefixes) && IsEnumeration(prefixes2, ReleasePrefixes)
    ensures Version(tags, prefixes1, head) == Version(tags, prefixes2, head)
  {
    CandidatesAreReleaseVersions(tags, prefixes1);
    CandidatesAreReleaseVersions(tags, prefixes2);
  }

  /** The release versions are empty exactly when no tag is a release tag. */
  lemma {:induction false} ReleaseVersionsEmpty(tags: seq<string>)
    ensures ReleaseVersions(tags) == [] <==> forall t :: t in tags ==> ReleaseSuffix(t).None?
  {
    if tags != [] {
      ReleaseVersionsEmpty(tags[1..]);
      assert forall t :: t in tags <==> t == tags[0] || t in tags[1..];
    }
  }

  /** `tags[i]` is the first tag in `tags` with a release version, and that version is `v`. */
  ghost predicate IsFirstReleaseAt(tags: seq<string>, i: int, v: string)
  {
    && 0 <= i < |tags|
    && ReleaseSuffix(tags[i]) == Some(v)
    && forall j :: 0 <= j < i ==> ReleaseSuffix(tags[j]).None?
  }

  /** The first release version belongs to the first release tag in the order of `tags`. */
  lemma {:induction false} FirstReleaseVersion(tags: seq<string>)
    requires ReleaseVersions(tags) != []
    ensures exists i :: IsFirstReleaseAt(tags, i, ReleaseVersions(tags)[0])
  {
    if ReleaseSuffix(tags[0]).None? {
      assert ReleaseVersions(tags) == ReleaseVersions(tags[1..]);
      FirstReleaseVersion(tags[1..]);
      var i :| IsFirstReleaseAt(tags[1..], i, ReleaseVersions(tags)[0]);
      forall j | 0 <= j < i + 1 ensures ReleaseSuffix(tags[j]).None? {
        if j > 0 { assert tags[j] == tags[1..][j - 1]; }
      }
      assert tags[i + 1] == tags[1..][i];
      assert IsFirstReleaseAt(tags, i + 1, ReleaseVersions(tags)[0]);
    } else {
      assert IsFirstReleaseAt(tags, 0, ReleaseVersions(tags)[0]);
    }
  }

  /** Some tag of the set starts with a release prefix. */
  ghost predicate HasReleaseTag(tagSet: set<string>)
  {
    exists t, p :: t in tagSet && p in ReleasePrefixes && p <= t
  }

  /**
   * The versions the policy allows, stated without any iteration order: the
   * suffix of some release tag if there is one, else some tag verbatim if
   * there is one, else HEAD's full id.
   */
  ghost predicate IsAllowedVersion(tagSet: set<string>, head: ObjectId, v: string)
  {
    if HasReleaseTag(tagSet) then
      exists t, p :: t in tagSet && p in ReleasePrefixes && p <= t && v == t[|p|..]
    else if tagSet != {} then
      v in tagSet
    else
      v == head.name
  }

  /** Without tags on HEAD the version is HEAD's full id. */
  lemma VersionWithoutTags(tags: seq<string>, prefixes: seq<string>, tagSet: set<string>, head: ObjectId)
    requires IsEnumeration(tags, tagSet) && tagSet == {}
    ensures Version(tags, prefixes, head) == head.name
  {
    EmptyEnumeration(tags);
  }

  /** The only iteration order of the empty set is the empty sequence. */
  lemma EmptyEnumeration(tags: seq<string>)
    ensures IsEnumeration(tags, {}) ==> tags == []
  {
    if tags != [] {
      assert tags[0] in tags;
    }
  }

  /**
   * With a release tag on HEAD the version is the suffix of a release tag,
   * namely of the first release tag in the iteration order.
   */
  lemma VersionOfReleaseTag(tags: seq<string>, prefixes: seq<string>, tagSet: set<string>, head: ObjectId)
    requires IsEnumeration(tags, tagSet) && IsEnumeration(prefixes, ReleasePrefixes)
    requires HasReleaseTag(tagSet)
    ensures exists t, p :: t in tagSet && p in ReleasePrefixes && p <= t && Version(tags, prefixes, head) == t[|p|..]
    ensures exists i :: IsFirstReleaseAt(tags, i, Version(tags, prefixes, head))
  {
    var t0, p0 :| t0 in tagSet && p0 in ReleasePrefixes && p0 <= t0;
    ReleaseVersionsEmpty(tags);
    assert ReleaseSuffix(t0).Some?;
    CandidatesAreReleaseVersions(tags, prefixes);
    FirstReleaseVersion(tags);
    var v := Version(tags, prefixes, head);
    var i :| IsFirstReleaseAt(tags, i, v);
    var p :| p in ReleasePrefixes && p <= tags[i];
    assert tags[i] in tagSet && v == tags[i][|p|..];
  }

  /** With tags on HEAD but none a release tag, the version is a tag, verbatim: the first one iterated. */
  lemma VersionOfPlainTags(tags: seq<string>, prefixes: seq<string>, tagSet: set<string>, head: ObjectId)
    requires IsEnumeration(tags, tagSet) && IsEnumeration(prefixes, ReleasePrefixes)
    requires tagSet != {} && !HasReleaseTag(tagSet)
    ensures tags != [] && Version(tags, prefixes, head) == tags[0]
    ensures Version(tags, prefixes, head) in tagSet
  {
    var t :| t in tagSet;
    assert t in tags;
    ReleaseVersionsEmpty(tags);
    CandidatesAreReleaseVersions(tags, prefixes);
  }

  /** Every pair of iteration orders yields an allowed version. */
  lemma VersionIsAllowed(tags: seq<string>, prefixes: seq<string>, tagSet: set<string>, head: ObjectId)
    requires IsEnumeration(tags, tagSet) && IsEnumeration(prefixes, ReleasePrefixes)
    ensures IsAllowedVersion(tagSet, head, Version(tags, prefixes, head))
  {
    if HasReleaseTag(tagSet) {
      VersionOfReleaseTag(tags, prefixes, tagSet, head);
    } else if tagSet != {} {
      VersionOfPlainTags(tags, prefixes, tagSet, head);
    } else {
      VersionWithoutTags(tags, prefixes, tagSet, head);
    }
  }

  /** Every set has an iteration order that starts with any chosen element of it. */
  lemma {:induction false} EnumerationStartingWith(s: set<string>, x: string)
    requires x in s
    ensures exists order :: IsEnumeration(order, s) && order != [] && order[0] == x
    decreases s
  {
    var rest := s - {x};
    if rest == {} {
      assert s == {x};
      assert IsEnumeration([x], s);
    } else {
      var y :| y in rest;
      EnumerationStartingWith(rest, y);
      var order :| IsEnumeration(order, rest) && order != [] && order[0] == y;
      assert IsEnumeration([x] + order, s);
    }
  }

  /** Every allowed version is the one chosen under some iteration order of the tag set. */
  lemma AllowedIsReachable(tagSet: set<string>, prefixes: seq<string>, head: ObjectId, v: string)
    requires IsEnumeration(prefixes, ReleasePrefixes)
    requires IsAllowedVersion(tagSet, head, v)
    ensures exists tags :: IsEnumeration(tags, tagSet) && Version(tags, prefixes, head) == v
  {
    if HasReleaseTag(tagSet) {
      var t, p :| t in tagSet && p in ReleasePrefixes && p <= t && v == t[|p|..];
      EnumerationStartingWith(tagSet, t);
      var tags :| IsEnumeration(tags, tagSet) && tags != [] && tags[0] == t;
      CandidatesAreReleaseVersions(tags, prefixes);
      assert ReleaseSuffix(t) == Some(v);
      assert Version(tags, prefixes, head) == v;
    } else if tagSet != {} {
      EnumerationStartingWith(tagSet, v);
      var tags :| IsEnumeration(tags, tagSet) && tags != [] && tags[0] == v;
      VersionOfPlainTags(tags, prefixes, tagSet, head);
    } else {
      VersionWithoutTags([], prefixes, tagSet, head);
    }
  }

  /** With a single tag on HEAD the only allowed version is its release suffix, or the tag itself. */
  lemma AllowedForSingleTag(t: string, head: ObjectId, v: string)
    requires IsAllowedVersion({t}, head, v)
    ensures v == match ReleaseSuffix(t) case Some(s) => s case None => t
  {
    if ReleaseSuffix(t).Some? {
      var p :| p in ReleasePrefixes && p <= t;
      assert HasReleaseTag({t}) by { assert t in {t}; }
      var t1, p1 :| t1 in {t} && p1 in ReleasePrefixes && p1 <= t1 && v == t1[|p1|..];
      assert t1 == t;
    } else {
      assert !HasReleaseTag({t});
      assert v in {t};
    }
  }

  /** A single tag on HEAD determines the version: any two allowed versions agree. */
  lemma SingleTagIsDeterministic(t: string, head: ObjectId, v1: string, v2: string)
    requires IsAllowedVersion({t}, head, v1) && IsAllowedVersion({t}, head, v2)
    ensures v1 == v2
  {
    AllowedForSingleTag(t, head, v1);
    AllowedForSingleTag(t, head, v2);
  }

  /** With a single tag on HEAD the version is that tag's release suffix, or the tag itself. */
  lemma SingleTagVersion(t: string, tags: seq<string>, prefixes: seq<string>, head: ObjectId)
    requires IsEnumeration(tags, {t}) && IsEnumeration(prefixes, ReleasePrefixes)
    ensures Version(tags, prefixes, head) == match ReleaseSuffix(t) case Some(s) => s case None => t
  {
    VersionIsAllowed(tags, prefixes, {t}, head);
    AllowedForSingleTag(t, head, Version(tags, prefixes, head));
  }

  /** A one-element set has exactly one iteration order. */
  lemma SingletonEnumeration(t: string)
    ensures IsEnumeration([t], {t})
  {
  }

  /** Example: the tag `release/1.2.0` alone gives version `1.2.0`. */
  lemma ReleaseSlashExample(prefixes: seq<string>, head: ObjectId)
    requires IsEnumeration(prefixes, ReleasePrefixes)
    ensures Version(["release/1.2.0"], prefixes, head) == "1.2.0"
  {
    assert ReleaseSuffix("release/1.2.0") == Some("1.2.0");
    SingletonEnumeration("release/1.2.0");
    SingleTagVersion("release/1.2.0", ["release/1.2.0"], prefixes, head);
  }

  /** Example: the tag `releases/2.0.0` alone gives version `2.0.0`. */
  lemma ReleasesSlashExample(prefixes: seq<string>, head: ObjectId)
    requires IsEnumeration(prefixes, ReleasePrefixes)
    ensures Version(["releases/2.0.0"], prefixes, head) == "2.0.0"
  {
    assert ReleaseSuffix("releases/2.0.0") == Some("2.0.0");
    SingletonEnumeration("releases/2.0.0");
    SingleTagVersion("releases/2.0.0", ["releases/2.0.0"], prefixes, head);
  }

  /** Example: the tag `release-3.0.0` alone gives version `3.0.0`. */
  lemma ReleaseDashExample(prefixes: seq<string>, head: ObjectId)
    requires IsEnumeration(prefixes, ReleasePrefixes)
    ensures Version(["release-3.0.0"], prefixes, head) == "3.0.0"
  {
    assert ReleaseSuffix("release-3.0.0") == Some("3.0.0");
    SingletonEnumeration("release-3.0.0");
    SingleTagVersion("release-3.0.0", ["release-3.0.0"], prefixes, head);
  }

  /** Example: the tag `v1.2.0` alone is not a release tag and is the version verbatim. */
  lemma PlainTagExample(prefixes: seq<string>, head: ObjectId)
    requires IsEnumeration(prefixes, ReleasePrefixes)
    ensures Version(["v1.2.0"], prefixes, head) == "v1.2.0"
  {
    assert ReleaseSuffix("v1.2.0") == None;
    SingletonEnumeration("v1.2.0");
    SingleTagVersion("v1.2.0", ["v1.2.0"], prefixes, head);
  }
}
