/**
 * Git objects and references as the version selection sees them, and the
 * pipeline that turns the tag references of a repository into the set of
 * bare tag names that point at HEAD.
 */
module Refs {
  import opened Wrappers

  /** A Git object id; `name` is its textual (full hexadecimal) form. Two ids are equal iff their names are. */
  datatype ObjectId = ObjectId(name: string)

  /** A reference: its full name (`refs/tags/v1.0`) and the object it points at, if any. */
  datatype Ref = Ref(name: string, objectId: Option<ObjectId>)

  /** The namespace of tag references. */
  const TagNamespace: string := "refs/tags/"

  /** The references whose names start with `prefix`, in the order of `refs`: what the ref database answers. */
  function RefsByPrefix(refs: seq<Ref>, prefix: string): (r: seq<Ref>)
    ensures forall x :: x in r <==> x in refs && prefix <= x.name
  {
    if refs == [] then []
    else (if prefix <= refs[0].name then [refs[0]] else []) + RefsByPrefix(refs[1..], prefix)
  }

  /**
   * The stream of bare tag names: keep the tag references that point at `head`
   * and drop the tag namespace from their names.
   */
  function TagNames(tagRefs: seq<Ref>, head: ObjectId): (names: seq<string>)
    requires forall x :: x in tagRefs ==> TagNamespace <= x.name
    ensures |names| <= |tagRefs|
    ensures forall n :: n in names <==>
      exists x :: x in tagRefs && x.objectId == Some(head) && x.name == TagNamespace + n
  {
    if tagRefs == [] then []
    else
      var x := tagRefs[0];
      var rest := TagNames(tagRefs[1..], head);
      if x.objectId == Some(head) then
        var n := x.name[|TagNamespace|..];
        assert x.name == TagNamespace + n;
        forall m | TagNamespace + m == x.name ensures m == n {
          assert m == (TagNamespace + m)[|TagNamespace|..];
        }
        [n] + rest
      else
        rest
  }

  /** The tag names of HEAD collected into a set: duplicates collapse and order is lost. */
  function TagSet(refs: seq<Ref>, head: ObjectId): (tags: set<string>)
    ensures forall n :: n in tags <==>
      exists x :: x in refs && x.objectId == Some(head) && x.name == TagNamespace + n
  {
    var names := TagNames(RefsByPrefix(refs, TagNamespace), head);
    set n | n in names
  }

  /** The tag set depends only on which references exist, not on their order or repetition. */
  lemma TagSetIgnoresOrderAndDuplicates(refs1: seq<Ref>, refs2: seq<Ref>, head: ObjectId)
    requires forall x :: x in refs1 <==> x in refs2
    ensures TagSet(refs1, head) == TagSet(refs2, head)
  {
  }

  /** A reference that does not point at HEAD, or is not a tag, contributes nothing. */
  lemma {:induction false} UnrelatedRefContributesNothing(refs: seq<Ref>, x: Ref, head: ObjectId)
    requires x.objectId != Some(head) || !(TagNamespace <= x.name)
    ensures TagSet(refs + [x], head) == TagSet(refs, head)
  {
    forall n ensures n in TagSet(refs + [x], head) <==> n in TagSet(refs, head) {
      if n in TagSet(refs + [x], head) {
        var y :| y in refs + [x] && y.objectId == Some(head) && y.name == TagNamespace + n;
        assert y != x;
      }
    }
  }
}
