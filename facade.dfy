/** PullRequestFacade: the pull request as the rest of the plugin sees it. It
    holds the patch position index of the pull request's files and the store
    of the acting user's existing review comments. */
module Facade {
  import opened Wrappers
  import opened PatchIndex
  import opened ReviewComments

  /** The calls the facade receives that reach the service (or would, once
      the stubs are written), in the order received. */
  datatype Call =
    | ReviewComment(path: string, line: int, body: string)
    | DeleteOutdated(ids: set<int>)
    | GlobalComment(text: string)
    | Approve
    | Unapprove

  /** The comment a review comment at (path, key) would update, if any. */
  function ExistingAt(st: Store, path: string, key: Option<int>): Option<Comment> {
    if path in st.byLocation && key in st.byLocation[path] then Some(st.byLocation[path][key]) else None
  }

  /** The markup of an updated comment: `body` replaces a non-null markup
      that differs from it; a null markup stays null. */
  function UpdatedMarkup(markup: Option<string>, body: string): Option<string> {
    if markup.Some? && markup.value != body then Some(body) else markup
  }

  /** The lookup createOrUpdateReviewComment performs: the key is the patch
      position of the line (null when the line is not in the patch). */
  function LookupAsWritten(st: Store, positions: map<string, map<int, int>>, path: string, line: int): Option<Comment>
    requires path in positions
  {
    if line in positions[path] then ExistingAt(st, path, Some(positions[path][line]))
    else ExistingAt(st, path, None)
  }

  /** The lookup the comment index supports: comments are indexed by their
      anchor line in the new file, so the key is the line itself. */
  function LookupByLine(st: Store, path: string, line: int): Option<Comment> {
    ExistingAt(st, path, Some(line))
  }

  /** The lookup as written only finds comments anchored at a line number
      equal to the patch position of the issue's line. */
  lemma AsWrittenFindsByPosition(st: Store, positions: map<string, map<int, int>>, path: string, line: int)
    requires path in positions
    requires forall p, k | p in st.byLocation && k in st.byLocation[p] :: AnchorOf(st.byLocation[p][k]) == k
    ensures LookupAsWritten(st, positions, path, line).Some? ==>
      AnchorOf(LookupAsWritten(st, positions, path, line).value)
        == if line in positions[path] then Some(positions[path][line]) else None
  {
  }

  /** The discrepancy shown on one input: an own comment anchored at line 10
      of a.go, whose patch shows line 10 at position 1. The lookup as written
      searches anchor 1 and misses it; the lookup by line finds it. */
  lemma AsWrittenMissesOwnComment(c: Comment)
    requires c.author == Some("me") && c.inline == Some(Inline(Some("a.go"), Some(10)))
    ensures LookupAsWritten(Load(EmptyStore, [c], "me"), map["a.go" := map[10 := 1]], "a.go", 10) == None
    ensures LookupByLine(Load(EmptyStore, [c], "me"), "a.go", 10) == Some(c)
  {
    assert [c][..0] == [];
    assert Load(EmptyStore, [c], "me") == AddComment(EmptyStore, c, "me");
    assert AddComment(EmptyStore, c, "me").byLocation == map["a.go" := map[Some(10) := c]];
  }

  /** With the lookup by line, a new comment at the anchor of an existing own
      comment finds the last own comment placed there. */
  lemma LookupByLineFindsLastOwn(comments: seq<Comment>, myself: string, path: string, line: int, i: int)
    requires LastOwnAt(comments, myself, path, Some(line), i)
    ensures LookupByLine(Load(EmptyStore, comments, myself), path, line) == Some(comments[i])
  {
    LoadLastAt(EmptyStore, comments, myself);
  }

  /** With the lookup by line, a location without own comments finds nothing,
      whatever other users wrote there. */
  lemma LookupByLineMissesOthers(comments: seq<Comment>, myself: string, path: string, line: int)
    requires forall i | 0 <= i < |comments| :: !(IsOwn(comments[i], myself) && PathOf(comments[i]) == Some(path) && AnchorOf(comments[i]) == Some(line))
    ensures LookupByLine(Load(EmptyStore, comments, myself), path, line) == None
  {
    LoadAnchors(EmptyStore, comments, myself);
  }

  class PullRequestFacade {
    /** The username of the acting account. */
    const myself: string
    /** File path -> new-file line -> patch position. */
    var patchPositionMappingByFile: map<string, map<int, int>>
    /** File path -> anchor line -> the acting user's comment there. */
    var existingReviewComments: map<string, map<Option<int>, Comment>>
    /** Id -> the acting user's comment, for the comments to be deleted. */
    var reviewCommentsToBeDeleted: map<int, Comment>
    /** The calls received so far. */
    ghost var calls: seq<Call>

    function Existing(): Store
      reads this
    {
      Store(existingReviewComments, reviewCommentsToBeDeleted)
    }

    /** The acting user's comments that are indexed by location. */
    ghost function Comments(): set<Comment>
      reads this
    {
      set p, k | p in existingReviewComments && k in existingReviewComments[p] :: existingReviewComments[p][k]
    }

    /** A facade for `myself` over the position index of the pull request. */
    constructor(myself: string, patchPositionMappingByFile: map<string, map<int, int>>)
      ensures this.myself == myself && this.patchPositionMappingByFile == patchPositionMappingByFile
      ensures Existing() == EmptyStore && calls == []
    {
      this.myself := myself;
      this.patchPositionMappingByFile := patchPositionMappingByFile;
      existingReviewComments := map[];
      reviewCommentsToBeDeleted := map[];
      calls := [];
    }

    /** loadExistingReviewComments over the fetched comment list. */
    method LoadExistingReviewComments(comments: seq<Comment>)
      modifies this
      ensures Existing() == Load(old(Existing()), comments, myself)
      ensures patchPositionMappingByFile == old(patchPositionMappingByFile) && calls == old(calls)
    {
      var i := 0;
      while i < |comments|
        invariant 0 <= i <= |comments|
        invariant Existing() == Load(old(Existing()), comments[..i], myself)
        invariant patchPositionMappingByFile == old(patchPositionMappingByFile) && calls == old(calls)
      {
        var comment := comments[i];
        assert comments[..i + 1] == comments[..i] + [comment];
        LoadSnoc(old(Existing()), comments[..i], comment, myself);
        if comment.author != Some(myself) {
          // comments of other users are ignored
          i := i + 1;
          continue;
        }
        AddExistingReviewComment(comment);
        i := i + 1;
      }
      assert comments[..i] == comments;
    }

    /** The body of loadExistingReviewComments' loop for an own comment. */
    method AddExistingReviewComment(comment: Comment)
      requires comment.author == Some(myself)
      modifies this
      ensures Existing() == AddComment(old(Existing()), comment, myself)
      ensures patchPositionMappingByFile == old(patchPositionMappingByFile) && calls == old(calls)
    {
      var commentPath := None;
      if comment.inline.Some? {
        commentPath := comment.inline.value.path;
      }
      if commentPath.Some? && commentPath.value !in existingReviewComments {
        existingReviewComments := existingReviewComments[commentPath.value := map[]];
      }
      // every own comment is marked for deletion until an issue lands on it
      reviewCommentsToBeDeleted := reviewCommentsToBeDeleted[comment.id := comment];
      if commentPath.Some? {
        var path := commentPath.value;
        existingReviewComments := existingReviewComments[path := existingReviewComments[path][comment.inline.value.to := comment]];
      }
    }

    /** hasFile: the pull request touches the file at `path`. */
    function HasFile(path: string): bool
      reads this
    {
      path in patchPositionMappingByFile
    }

    /** hasFileLine: line `line` of the file at `path` is shown by its patch.
        The file must be in the pull request (Java throws a
        NullPointerException otherwise). */
    function HasFileLine(path: string, line: int): bool
      requires HasFile(path)
      reads this
    {
      line in patchPositionMappingByFile[path]
    }

    /** The shared part of createOrUpdateReviewComment, once the key is known:
        a comment found at (path, key) is taken off the deletion list and gets
        `body` as its markup if it has a markup that differs; without one,
        nothing changes (creating a comment is not written yet). */
    method UpdateExisting(path: string, key: Option<int>, line: int, body: string)
      modifies this, if ExistingAt(Existing(), path, key).Some? then {ExistingAt(Existing(), path, key).value} else {}
      ensures calls == old(calls) + [ReviewComment(path, line, body)]
      ensures patchPositionMappingByFile == old(patchPositionMappingByFile)
      ensures existingReviewComments == old(existingReviewComments)
      ensures old(ExistingAt(Existing(), path, key)).None? ==> reviewCommentsToBeDeleted == old(reviewCommentsToBeDeleted)
      ensures old(ExistingAt(Existing(), path, key)).Some? ==>
        var c := old(ExistingAt(Existing(), path, key)).value;
        && reviewCommentsToBeDeleted == old(reviewCommentsToBeDeleted) - {c.id}
        && c.markup == UpdatedMarkup(old(c.markup), body)
    {
      calls := calls + [ReviewComment(path, line, body)];
      if path in existingReviewComments && key in existingReviewComments[path] {
        var existingReview := existingReviewComments[path][key];
        if existingReview.markup.Some? {
          if existingReview.markup.value != body {
            existingReview.markup := Some(body);
          }
        }
        reviewCommentsToBeDeleted := reviewCommentsToBeDeleted - {existingReview.id};
      } else {
        // creating a new review comment is not implemented
      }
    }

    /** createOrUpdateReviewComment as written: the existing comment is looked
        up under the patch position of `line`. */
    method CreateOrUpdateReviewCommentAsWritten(path: string, line: int, body: string)
      requires HasFile(path)
      modifies this,
        if LookupAsWritten(Existing(), patchPositionMappingByFile, path, line).Some?
        then {LookupAsWritten(Existing(), patchPositionMappingByFile, path, line).value} else {}
      ensures calls == old(calls) + [ReviewComment(path, line, body)]
      ensures patchPositionMappingByFile == old(patchPositionMappingByFile)
      ensures existingReviewComments == old(existingReviewComments)
      ensures old(LookupAsWritten(Existing(), patchPositionMappingByFile, path, line)).None? ==>
        reviewCommentsToBeDeleted == old(reviewCommentsToBeDeleted)
      ensures old(LookupAsWritten(Existing(), patchPositionMappingByFile, path, line)).Some? ==>
        var c := old(LookupAsWritten(Existing(), patchPositionMappingByFile, path, line)).value;
        && reviewCommentsToBeDeleted == old(reviewCommentsToBeDeleted) - {c.id}
        && c.markup == UpdatedMarkup(old(c.markup), body)
    {
      var lineInPatch := None;
      if line in patchPositionMappingByFile[path] {
        lineInPatch := Some(patchPositionMappingByFile[path][line]);
      }
      UpdateExisting(path, lineInPatch, line, body);
    }

    /** createOrUpdateReviewComment keyed as the comment store is: the existing
        comment is looked up under `line` itself. */
    method CreateOrUpdateReviewComment(path: string, line: int, body: string)
      requires HasFile(path)
      modifies this, if LookupByLine(Existing(), path, line).Some? then {LookupByLine(Existing(), path, line).value} else {}
      ensures calls == old(calls) + [ReviewComment(path, line, body)]
      ensures patchPositionMappingByFile == old(patchPositionMappingByFile)
      ensures existingReviewComments == old(existingReviewComments)
      ensures old(LookupByLine(Existing(), path, line)).None? ==> reviewCommentsToBeDeleted == old(reviewCommentsToBeDeleted)
      ensures old(LookupByLine(Existing(), path, line)).Some? ==>
        var c := old(LookupByLine(Existing(), path, line)).value;
        && reviewCommentsToBeDeleted == old(reviewCommentsToBeDeleted) - {c.id}
        && c.markup == UpdatedMarkup(old(c.markup), body)
    {
      UpdateExisting(path, Some(line), line, body);
    }

    /** deleteOutdatedComments: the comments still marked are the ones to
        delete (the deletion itself is not written yet). */
    method DeleteOutdatedComments()
      modifies this
      ensures calls == old(calls) + [DeleteOutdated(reviewCommentsToBeDeleted.Keys)]
      ensures patchPositionMappingByFile == old(patchPositionMappingByFile) && Existing() == old(Existing())
    {
      calls := calls + [DeleteOutdated(reviewCommentsToBeDeleted.Keys)];
    }

    /** addGlobalComment (the posting itself is not written yet). */
    method AddGlobalComment(comment: string)
      modifies this
      ensures calls == old(calls) + [GlobalComment(comment)]
      ensures patchPositionMappingByFile == old(patchPositionMappingByFile) && Existing() == old(Existing())
    {
      calls := calls + [GlobalComment(comment)];
    }

    /** approvePullRequest, which the job calls but the facade does not define. */
    method ApprovePullRequest()
      modifies this
      ensures calls == old(calls) + [Approve]
      ensures patchPositionMappingByFile == old(patchPositionMappingByFile) && Existing() == old(Existing())
    {
      calls := calls + [Approve];
    }

    /** unapprovePullRequest, which the job calls but the facade does not define. */
    method UnapprovePullRequest()
      modifies this
      ensures calls == old(calls) + [Unapprove]
      ensures patchPositionMappingByFile == old(patchPositionMappingByFile) && Existing() == old(Existing())
    {
      calls := calls + [Unapprove];
    }
  }

  /** Over the index mapPatchPositionsToLines builds, hasFile holds exactly
      for the files of the pull request, and hasFileLine exactly for the lines
      the last patch of that name shows. */
  lemma IndexMembership(index: map<string, map<int, int>>, files: seq<PrFile>, i: nat, line: int)
    requires PositionIndex(files) == Success(index) && i < |files|
    requires forall j | i < j < |files| :: files[j].filename != files[i].filename
    ensures files[i].filename in index
    ensures files[i].patch.None? ==> line !in index[files[i].filename]
    ensures files[i].patch.Some? && Parses(files[i].patch.value) ==>
      Kinds(files[i].patch.value).Success? &&
      (line in index[files[i].filename] <==>
        exists k | 0 <= k < |files[i].patch.value| && IsVisibleLine(files[i].patch.value[k]) ::
          LineNumberAt(Kinds(files[i].patch.value).value, k) == line)
  {
    PositionIndexLastWins(files, i);
    if files[i].patch.Some? && Parses(files[i].patch.value) {
      PatchPositions(files[i].patch.value);
    }
  }
}
