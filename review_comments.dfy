/** The review comments already on the pull request, as PullRequestFacade
    keeps them: the acting user's inline comments indexed by file path and
    anchor line, and all of the acting user's comments by id, each marked for
    deletion until a new issue lands on it. */
module ReviewComments {
  import opened Wrappers

  /** Where an inline comment is anchored: a file path and a line of the new
      file, either of which the service may leave out. */
  datatype Inline = Inline(path: Option<string>, to: Option<int>)

  /** A review comment fetched from the pull request. Only its markup is ever
      changed, in place; the two maps of the facade share the same objects. */
  class Comment {
    const id: int
    /** The username of the comment's author, None when the service has none. */
    const author: Option<string>
    /** None for a comment on the pull request as a whole. */
    const inline: Option<Inline>
    /** The markup of the comment's content; None when the content or its
        markup is null. */
    var markup: Option<string>

    constructor(id: int, author: Option<string>, inline: Option<Inline>, markup: Option<string>)
      ensures this.id == id && this.author == author && this.inline == inline && this.markup == markup
    {
      this.id := id;
      this.author := author;
      this.inline := inline;
      this.markup := markup;
    }
  }

  /** The existing-comment store: path -> anchor line -> comment, and
      id -> comment for the comments to be deleted. Anchor lines are optional
      because a null `to` is a valid key of the Java map. */
  datatype Store = Store(byLocation: map<string, map<Option<int>, Comment>>, toDelete: map<int, Comment>)

  const EmptyStore := Store(map[], map[])

  predicate IsOwn(c: Comment, myself: string) {
    c.author == Some(myself)
  }

  /** The path an own comment is indexed under: that of its inline anchor. */
  function PathOf(c: Comment): Option<string> {
    if c.inline.Some? then c.inline.value.path else None
  }

  function AnchorOf(c: Comment): Option<int> {
    if c.inline.Some? then c.inline.value.to else None
  }

  /** One step of loadExistingReviewComments: a comment of another user is
      ignored; an own comment is marked for deletion under its id and, when it
      has a path, indexed under (path, anchor line), replacing what was there. */
  function AddComment(st: Store, c: Comment, myself: string): Store {
    if !IsOwn(c, myself) then st
    else
      var toDelete := st.toDelete[c.id := c];
      match PathOf(c)
      case None => Store(st.byLocation, toDelete)
      case Some(path) =>
        var lines: map<Option<int>, Comment> := if path in st.byLocation then st.byLocation[path] else map[];
        Store(st.byLocation[path := lines[AnchorOf(c) := c]], toDelete)
  }

  /** The store after loading `comments` in order into `st`. */
  function Load(st: Store, comments: seq<Comment>, myself: string): Store
    decreases |comments|
  {
    if |comments| == 0 then st
    else AddComment(Load(st, comments[..|comments| - 1], myself), comments[|comments| - 1], myself)
  }

  /** comments[i] is the last own comment in the sequence with id `id`. */
  predicate LastOwnWithId(comments: seq<Comment>, myself: string, id: int, i: int) {
    && 0 <= i < |comments| && IsOwn(comments[i], myself) && comments[i].id == id
    && forall j | i < j < |comments| :: !(IsOwn(comments[j], myself) && comments[j].id == id)
  }

  /** comments[i] is the last own comment in the sequence anchored at (path, to). */
  predicate LastOwnAt(comments: seq<Comment>, myself: string, path: string, to: Option<int>, i: int) {
    && 0 <= i < |comments| && IsOwn(comments[i], myself) && PathOf(comments[i]) == Some(path) && AnchorOf(comments[i]) == to
    && forall j | i < j < |comments| :: !(IsOwn(comments[j], myself) && PathOf(comments[j]) == Some(path) && AnchorOf(comments[j]) == to)
  }

  lemma LoadSnoc(st: Store, comments: seq<Comment>, c: Comment, myself: string)
    ensures Load(st, comments + [c], myself) == AddComment(Load(st, comments, myself), c, myself)
  {
    assert (comments + [c])[..|comments|] == comments;
  }

  /** Loading marks for deletion exactly the ids of the own comments (on top
      of what was marked before), each mapped to the last own comment with
      that id. */
  lemma {:induction false} LoadToDelete(st: Store, comments: seq<Comment>, myself: string)
    ensures forall id :: id in Load(st, comments, myself).toDelete <==>
      id in st.toDelete || exists i | 0 <= i < |comments| :: IsOwn(comments[i], myself) && comments[i].id == id
    ensures forall id, i | LastOwnWithId(comments, myself, id, i) :: Load(st, comments, myself).toDelete[id] == comments[i]
    ensures forall id | id in st.toDelete && (forall i | 0 <= i < |comments| :: !(IsOwn(comments[i], myself) && comments[i].id == id)) ::
      Load(st, comments, myself).toDelete[id] == st.toDelete[id]
    decreases |comments|
  {
    if |comments| > 0 {
      var n := |comments| - 1;
      var prefix := comments[..n];
      var c := comments[n];
      LoadToDelete(st, prefix, myself);
      assert comments == prefix + [c];
      LoadSnoc(st, prefix, c, myself);
      var before := Load(st, prefix, myself);
      var after := Load(st, comments, myself);
      assert after.toDelete == if IsOwn(c, myself) then before.toDelete[c.id := c] else before.toDelete;
      forall id
        ensures id in after.toDelete <==>
          id in st.toDelete || exists i | 0 <= i < |comments| :: IsOwn(comments[i], myself) && comments[i].id == id
      {
        if id in before.toDelete && id !in st.toDelete {
          var i :| 0 <= i < n && IsOwn(prefix[i], myself) && prefix[i].id == id;
          assert comments[i] == prefix[i];
        }
        if exists i | 0 <= i < |comments| :: IsOwn(comments[i], myself) && comments[i].id == id {
          var i :| 0 <= i < |comments| && IsOwn(comments[i], myself) && comments[i].id == id;
          if i < n { assert prefix[i] == comments[i]; }
        }
      }
      forall id, i | LastOwnWithId(comments, myself, id, i)
        ensures after.toDelete[id] == comments[i]
      {
        if i < n {
          assert LastOwnWithId(prefix, myself, id, i);
        }
      }
      forall id | id in st.toDelete && (forall i | 0 <= i < |comments| :: !(IsOwn(comments[i], myself) && comments[i].id == id))
        ensures after.toDelete[id] == st.toDelete[id]
      {
        forall i | 0 <= i < n ensures !(IsOwn(prefix[i], myself) && prefix[i].id == id) {
          assert prefix[i] == comments[i];
        }
      }
    }
  }

  /** Loading adds an entry for exactly the paths of the own comments. */
  lemma {:induction false} LoadPaths(st: Store, comments: seq<Comment>, myself: string)
    ensures forall path :: path in Load(st, comments, myself).byLocation <==>
      path in st.byLocation || exists i | 0 <= i < |comments| :: IsOwn(comments[i], myself) && PathOf(comments[i]) == Some(path)
    decreases |comments|
  {
    if |comments| > 0 {
      var n := |comments| - 1;
      var prefix := comments[..n];
      var c := comments[n];
      LoadPaths(st, prefix, myself);
      var before := Load(st, prefix, myself);
      var after := Load(st, comments, myself);
      assert after == AddComment(before, c, myself);
      forall path
        ensures path in after.byLocation <==>
          path in st.byLocation || exists i | 0 <= i < |comments| :: IsOwn(comments[i], myself) && PathOf(comments[i]) == Some(path)
      {
        if path in before.byLocation && path !in st.byLocation {
          var i :| 0 <= i < n && IsOwn(prefix[i], myself) && PathOf(prefix[i]) == Some(path);
          assert comments[i] == prefix[i];
        }
        if exists i | 0 <= i < |comments| :: IsOwn(comments[i], myself) && PathOf(comments[i]) == Some(path) {
          var i :| 0 <= i < |comments| && IsOwn(comments[i], myself) && PathOf(comments[i]) == Some(path);
          if i < n { assert prefix[i] == comments[i]; }
        }
      }
    }
  }

  /** Under a path, loading adds exactly the anchor lines of the own comments
      on that path; comments of other users and comments without a path are
      never indexed. */
  lemma {:induction false} LoadAnchors(st: Store, comments: seq<Comment>, myself: string)
    ensures forall path, to | path in Load(st, comments, myself).byLocation ::
      to in Load(st, comments, myself).byLocation[path] <==>
        (path in st.byLocation && to in st.byLocation[path])
        || exists i | 0 <= i < |comments| :: IsOwn(comments[i], myself) && PathOf(comments[i]) == Some(path) && AnchorOf(comments[i]) == to
    decreases |comments|
  {
    if |comments| > 0 {
      var n := |comments| - 1;
      var prefix := comments[..n];
      var c := comments[n];
      LoadAnchors(st, prefix, myself);
      LoadPaths(st, prefix, myself);
      var before := Load(st, prefix, myself);
      var after := Load(st, comments, myself);
      assert after == AddComment(before, c, myself);
      forall path, to | path in after.byLocation
        ensures to in after.byLocation[path] <==>
          (path in st.byLocation && to in st.byLocation[path])
          || exists i | 0 <= i < |comments| :: IsOwn(comments[i], myself) && PathOf(comments[i]) == Some(path) && AnchorOf(comments[i]) == to
      {
        AnchoredSnoc(comments, myself, path, to);
      }
    }
  }

  /** An own comment is anchored at (path, to) in comments exactly when one is
      in all but the last, or the last one is. */
  lemma AnchoredSnoc(comments: seq<Comment>, myself: string, path: string, to: Option<int>)
    requires |comments| > 0
    ensures var n := |comments| - 1;
      (exists i | 0 <= i < |comments| :: IsOwn(comments[i], myself) && PathOf(comments[i]) == Some(path) && AnchorOf(comments[i]) == to)
      <==> ((exists i | 0 <= i < n :: IsOwn(comments[..n][i], myself) && PathOf(comments[..n][i]) == Some(path) && AnchorOf(comments[..n][i]) == to)
            || (IsOwn(comments[n], myself) && PathOf(comments[n]) == Some(path) && AnchorOf(comments[n]) == to))
  {
    var n := |comments| - 1;
    if exists i | 0 <= i < n :: IsOwn(comments[..n][i], myself) && PathOf(comments[..n][i]) == Some(path) && AnchorOf(comments[..n][i]) == to {
      var i :| 0 <= i < n && IsOwn(comments[..n][i], myself) && PathOf(comments[..n][i]) == Some(path) && AnchorOf(comments[..n][i]) == to;
      assert comments[i] == comments[..n][i];
    }
    if exists i | 0 <= i < |comments| :: IsOwn(comments[i], myself) && PathOf(comments[i]) == Some(path) && AnchorOf(comments[i]) == to {
      var i :| 0 <= i < |comments| && IsOwn(comments[i], myself) && PathOf(comments[i]) == Some(path) && AnchorOf(comments[i]) == to;
      if i < n { assert comments[..n][i] == comments[i]; }
    }
  }

  /** Each location holds the last own comment anchored there. */
  lemma {:induction false} LoadLastAt(st: Store, comments: seq<Comment>, myself: string)
    ensures forall path, to, i | LastOwnAt(comments, myself, path, to, i) ::
      path in Load(st, comments, myself).byLocation && to in Load(st, comments, myself).byLocation[path]
      && Load(st, comments, myself).byLocation[path][to] == comments[i]
    decreases |comments|
  {
    if |comments| > 0 {
      var n := |comments| - 1;
      var prefix := comments[..n];
      var c := comments[n];
      LoadLastAt(st, prefix, myself);
      var before := Load(st, prefix, myself);
      var after := Load(st, comments, myself);
      assert after == AddComment(before, c, myself);
      forall path, to, i | LastOwnAt(comments, myself, path, to, i)
        ensures path in after.byLocation && to in after.byLocation[path] && after.byLocation[path][to] == comments[i]
      {
        if i < n {
          assert LastOwnAt(prefix, myself, path, to, i);
        }
      }
    }
  }

  /** The comments of `comments` written by `myself`, in order. */
  function OwnComments(comments: seq<Comment>, myself: string): (r: seq<Comment>)
    ensures forall c | c in r :: c in comments && IsOwn(c, myself)
    decreases |comments|
  {
    if |comments| == 0 then []
    else
      var rest := OwnComments(comments[..|comments| - 1], myself);
      var c := comments[|comments| - 1];
      if IsOwn(c, myself) then rest + [c] else rest
  }

  /** Comments of other users have no effect: loading all comments is loading
      only one's own. */
  lemma {:induction false} LoadOnlyOwn(st: Store, comments: seq<Comment>, myself: string)
    ensures Load(st, comments, myself) == Load(st, OwnComments(comments, myself), myself)
    decreases |comments|
  {
    if |comments| > 0 {
      var n := |comments| - 1;
      var c := comments[n];
      LoadOnlyOwn(st, comments[..n], myself);
      if IsOwn(c, myself) {
        LoadSnoc(st, OwnComments(comments[..n], myself), c, myself);
      }
    }
  }

  /** Every comment the store holds after loading into an empty store is an
      own comment from the list. */
  lemma LoadHoldsOwnComments(comments: seq<Comment>, myself: string)
    ensures forall id | id in Load(EmptyStore, comments, myself).toDelete ::
      Load(EmptyStore, comments, myself).toDelete[id] in comments && IsOwn(Load(EmptyStore, comments, myself).toDelete[id], myself)
    ensures forall path, to | path in Load(EmptyStore, comments, myself).byLocation && to in Load(EmptyStore, comments, myself).byLocation[path] ::
      var c := Load(EmptyStore, comments, myself).byLocation[path][to];
      c in comments && IsOwn(c, myself) && PathOf(c) == Some(path) && AnchorOf(c) == to
  {
    LoadToDelete(EmptyStore, comments, myself);
    LoadAnchors(EmptyStore, comments, myself);
    LoadLastAt(EmptyStore, comments, myself);
    var st := Load(EmptyStore, comments, myself);
    forall id | id in st.toDelete
      ensures st.toDelete[id] in comments && IsOwn(st.toDelete[id], myself)
    {
      var i := LastIndexWithId(comments, myself, id);
    }
    forall path, to | path in st.byLocation && to in st.byLocation[path]
      ensures st.byLocation[path][to] in comments && IsOwn(st.byLocation[path][to], myself)
        && PathOf(st.byLocation[path][to]) == Some(path) && AnchorOf(st.byLocation[path][to]) == to
    {
      var i := LastIndexAt(comments, myself, path, to);
    }
  }

  /** The index of the last own comment with a given id, when there is one. */
  lemma LastIndexWithId(comments: seq<Comment>, myself: string, id: int) returns (i: int)
    requires exists k | 0 <= k < |comments| :: IsOwn(comments[k], myself) && comments[k].id == id
    ensures LastOwnWithId(comments, myself, id, i)
    decreases |comments|
  {
    var n := |comments| - 1;
    if IsOwn(comments[n], myself) && comments[n].id == id {
      i := n;
    } else {
      var k :| 0 <= k < |comments| && IsOwn(comments[k], myself) && comments[k].id == id;
      assert comments[..n][k] == comments[k];
      i := LastIndexWithId(comments[..n], myself, id);
      assert comments[..n][i] == comments[i];
    }
  }

  /** The index of the last own comment anchored at (path, to), when there is one. */
  lemma LastIndexAt(comments: seq<Comment>, myself: string, path: string, to: Option<int>) returns (i: int)
    requires exists k | 0 <= k < |comments| :: IsOwn(comments[k], myself) && PathOf(comments[k]) == Some(path) && AnchorOf(comments[k]) == to
    ensures LastOwnAt(comments, myself, path, to, i)
    decreases |comments|
  {
    var n := |comments| - 1;
    if IsOwn(comments[n], myself) && PathOf(comments[n]) == Some(path) && AnchorOf(comments[n]) == to {
      i := n;
    } else {
      var k :| 0 <= k < |comments| && IsOwn(comments[k], myself) && PathOf(comments[k]) == Some(path) && AnchorOf(comments[k]) == to;
      assert comments[..n][k] == comments[k];
      i := LastIndexAt(comments[..n], myself, path, to);
      assert comments[..n][i] == comments[i];
    }
  }
}
