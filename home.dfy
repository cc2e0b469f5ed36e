/**
 * The handlers of the Home screen, src/components/Home.tsx, that differ from
 * the Tea screen's: a posted comment is rebuilt with its own author label and
 * put at the front of its thread, the comment box stays open, and the delete
 * handler reads the thread without a fallback for a missing one.
 */
module Home {
  import opened Wrappers
  import opened Text
  import opened Rows
  import opened Feed
  import Confessions

  /** `profile?.college_name ? 'You' : 'Someone from DU'`. */
  function PostedCommentLabel(profile: Option<Profile>): (a: string)
    ensures profile.Some? && profile.value.collegeName.Some? && profile.value.collegeName.value != "" ==> a == "You"
    ensures !(profile.Some? && profile.value.collegeName.Some? && profile.value.collegeName.value != "") ==>
      a == AuthorLabel(None)
  {
    if profile.Some? && profile.value.collegeName.Some? && profile.value.collegeName.value != "" then "You"
    else AuthorLabel(None)
  }

  /** The comment the post handler builds from the returned row: the row's fields and the label above. */
  function PostedComment(row: Comment, profile: Option<Profile>): (c: Comment)
    ensures c == row.(profileName := Some(PostedCommentLabel(profile)))
  {
    Comment(row.id, row.confessionId, row.userId, row.content, row.createdAt, Some(PostedCommentLabel(profile)))
  }

  /**
   * `handlePostComment` on the Home screen once the insert has completed. The
   * guard and the request are the Tea screen's. After a successful insert the
   * relabelled row goes in FRONT of the thread and the text is cleared, while
   * the comment box is left as it was; after a failure only the "posting" flag
   * changes. The flag is off at the end either way.
   */
  function PostComment(ui: CommentUi, cid: ConfessionId, user: Option<UserId>, profile: Option<Profile>,
                       outcome: Confessions.InsertOutcome): (r: CommentUi)
    ensures Confessions.CommentRequest(ui, cid, user).None? ==> r == ui
    ensures Confessions.CommentRequest(ui, cid, user).Some? && outcome.InsertFailed? ==>
      r == ui.(postingComment := ui.postingComment[cid := false])
    ensures Confessions.CommentRequest(ui, cid, user).Some? && outcome.Inserted? ==>
      && r.comments.Keys == ui.comments.Keys + {cid}
      && CommentsFor(r.comments, cid) == [PostedComment(outcome.row, profile)] + CommentsFor(ui.comments, cid)
      && (forall k :: k in ui.comments && k != cid ==> r.comments[k] == ui.comments[k])
      && r.commentText == ui.commentText[cid := ""]
      && r.showCommentInput == ui.showCommentInput
      && r.postingComment == ui.postingComment[cid := false]
  {
    if Confessions.CommentRequest(ui, cid, user).None? then ui
    else
      match outcome
      case InsertFailed => ui.(postingComment := ui.postingComment[cid := false])
      case Inserted(row) =>
        CommentUi(
          ui.comments[cid := [PostedComment(row, profile)] + CommentsFor(ui.comments, cid)],
          ui.commentText[cid := ""],
          ui.showCommentInput,
          ui.postingComment[cid := false])
  }

  /**
   * The same successful post on the two screens: Home puts the comment first,
   * the Tea screen puts the returned row last, and the rest of the thread is the
   * same. The two differ whenever the thread was not empty.
   */
  lemma PostPlacementDiffers(ui: CommentUi, cid: ConfessionId, user: Option<UserId>, profile: Option<Profile>, row: Comment)
    requires Confessions.CommentRequest(ui, cid, user).Some?
    ensures var home := CommentsFor(PostComment(ui, cid, user, profile, Confessions.Inserted(row)).comments, cid);
            var tea := CommentsFor(Confessions.PostComment(ui, cid, user, Confessions.Inserted(row)).comments, cid);
            && home[0] == PostedComment(row, profile) && home[1..] == CommentsFor(ui.comments, cid)
            && tea[|tea| - 1] == row && tea[..|tea| - 1] == CommentsFor(ui.comments, cid)
  {
    var home := CommentsFor(PostComment(ui, cid, user, profile, Confessions.Inserted(row)).comments, cid);
    assert home[1..] == CommentsFor(ui.comments, cid);
    var tea := CommentsFor(Confessions.PostComment(ui, cid, user, Confessions.Inserted(row)).comments, cid);
    assert tea[..|tea| - 1] == CommentsFor(ui.comments, cid);
  }

  /**
   * The live INSERT stream appends without checking ids, so a comment posted
   * here and then echoed by the stream is listed twice: relabelled at the front
   * and as the server's row at the end.
   */
  lemma PostedCommentEchoedTwice(ui: CommentUi, cid: ConfessionId, user: Option<UserId>, profile: Option<Profile>,
                                 row: Comment)
    requires Confessions.CommentRequest(ui, cid, user).Some? && row.confessionId == cid
    ensures var after := CommentInserted(PostComment(ui, cid, user, profile, Confessions.Inserted(row)).comments, row);
            CommentsFor(after, cid) == [PostedComment(row, profile)] + CommentsFor(ui.comments, cid) + [row]
  {
  }

  /**
   * `handleDeleteComment` on the Home screen: `prev[confessionId].filter(...)`
   * has no fallback, so the thread must be loaded. When the call does not
   * throw, only that comment leaves the thread; otherwise nothing changes.
   * The keys stay the same.
   */
  function DeleteComment(m: CommentMap, commentId: CommentId, cid: ConfessionId, threw: bool): (r: CommentMap)
    requires cid in m
    ensures r.Keys == m.Keys
    ensures threw ==> r == m
    ensures !threw ==> r[cid] == RemoveComment(m[cid], commentId)
    ensures forall k :: k in m && k != cid ==> r[k] == m[k]
  {
    if threw then m else m[cid := RemoveComment(m[cid], commentId)]
  }

  /** On a loaded thread, Home's delete handler and the Tea screen's agree. */
  lemma DeleteAgreesWithTeaScreen(m: CommentMap, commentId: CommentId, cid: ConfessionId, threw: bool)
    requires cid in m
    ensures DeleteComment(m, commentId, cid, threw) == Confessions.DeleteComment(m, commentId, cid, threw)
  {
  }
}
