/**
 * The commit record handed to the database by the history walker. The
 * version-control object it wraps is reduced to the seven fields read from it.
 */
module Commits {
  import opened Wrappers
  import opened Rows

  /** The fields of the wrapped version-control commit that the record copies. */
  datatype GitCommit = GitCommit(
    hexsha: string,
    summary: string,
    message: string,
    committedDate: int,
    authorName: string,
    authorEmail: string,
    authoredDate: int)

  class Commit {
    const commit: GitCommit
    var commitId: string
    var subject: string
    var details: string
    var committedAt: int
    var authorName: string
    var authorEmail: string
    var authoredAt: int
    var patchId: Value
    var provenance: Value
    var fixes: seq<string>
    var cves: seq<string>
    var mentions: seq<string>

    /** Wraps `commit`; `patchId` and `provenance` are `Null` when the caller gives none. */
    constructor (commit: GitCommit, patchId: Value := Null, provenance: Value := Null)
      ensures this.commit == commit
      ensures commitId == commit.hexsha && subject == commit.summary && details == commit.message
      ensures committedAt == commit.committedDate && authoredAt == commit.authoredDate
      ensures authorName == commit.authorName && authorEmail == commit.authorEmail
      ensures this.patchId == patchId && this.provenance == provenance
      ensures fixes == [] && cves == [] && mentions == []
    {
      this.commit := commit;
      commitId := commit.hexsha;
      subject := commit.summary;
      details := commit.message;
      committedAt := commit.committedDate;
      authorName := commit.authorName;
      authorEmail := commit.authorEmail;
      authoredAt := commit.authoredDate;
      this.patchId := patchId;
      this.provenance := provenance;
      fixes := [];
      cves := [];
      mentions := [];
    }

    /** The record's data attributes by name; `getattr(self, name)` raises AttributeError for any other name. */
    function Attributes(): map<string, Value>
      reads this
    {
      map[
        "commit_id" := Str(commitId),
        "subject" := Str(subject),
        "details" := Str(details),
        "committed_at" := Int(committedAt),
        "author_name" := Str(authorName),
        "author_email" := Str(authorEmail),
        "authored_at" := Int(authoredAt),
        "patch_id" := patchId,
        "provenance" := provenance,
        "fixes" := List(fixes),
        "cves" := List(cves),
        "mentions" := List(mentions)
      ]
    }

    /**
     * The dictionary of the named attributes, built one key at a time; fails
     * with the first name that is not an attribute.
     */
    method ToDict(attrs: seq<string>) returns (r: Result<Kwargs, string>)
      ensures r.Success? <==> forall j :: 0 <= j < |attrs| ==> attrs[j] in Attributes()
      ensures r.Failure? ==> exists j :: 0 <= j < |attrs| && attrs[j] == r.error && attrs[j] !in Attributes()
                                      && forall k :: 0 <= k < j ==> attrs[k] in Attributes()
      ensures r.Success? ==> Distinct(Keys(r.value)) && forall a :: a in Keys(r.value) <==> a in attrs
      ensures r.Success? ==> forall a :: a in attrs ==> a in Attributes() && Get(r.value, a) == Some(Attributes()[a])
      ensures r.Success? && Distinct(attrs) ==> Keys(r.value) == attrs
    {
      var attributes := Attributes();
      var d: Kwargs := [];
      var i := 0;
      while i < |attrs|
        invariant 0 <= i <= |attrs|
        invariant forall j :: 0 <= j < i ==> attrs[j] in attributes
        invariant Distinct(Keys(d)) && forall a :: a in Keys(d) <==> a in attrs[..i]
        invariant forall a :: a in attrs[..i] ==> Get(d, a) == Some(attributes[a])
        invariant Distinct(attrs[..i]) ==> Keys(d) == attrs[..i]
      {
        var a := attrs[i];
        if a !in attributes {
          return Failure(a);
        }
        assert attrs[..i + 1] == attrs[..i] + [a];
        SetExtends(d, attrs[..i], a, attributes);
        d := Set(d, a, attributes[a]);
        i := i + 1;
      }
      assert attrs[..i] == attrs;
      return Success(d);
    }
  }
}
