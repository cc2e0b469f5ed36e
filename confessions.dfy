/**
 * The handlers of the Tea screen, src/components/Confessions.tsx, that are its
 * own: posting a confession, posting a comment (the returned row is appended to
 * the thread and the comment box closes) and deleting a comment (a missing
 * thread counts as empty). Each handler is the state it leaves once its
 * request has completed, with the server's answer as an input.
 */
module Confessions {
  import opened Wrappers
  import opened Text
  import opened Rows
  import opened Feed

  /** The row a comment post asks the server to insert. */
  datatype CommentInsert = CommentInsert(confessionId: ConfessionId, userId: UserId, content: string)

  /** The row a confession post asks the server to insert. */
  datatype ConfessionInsert = ConfessionInsert(userId: UserId, content: string)

  /** How a comment insert ended: the first returned row, or an error (returned or thrown). */
  datatype InsertOutcome = Inserted(row: Comment) | InsertFailed

  /** `commentText[confessionId]?.trim()`: missing text is None. */
  function TrimmedText(ui: CommentUi, cid: ConfessionId): (t: Option<string>)
    ensures cid !in ui.commentText <==> t.None?
    ensures cid in ui.commentText ==> t == Some(Trim(ui.commentText[cid]))
  {
    if cid in ui.commentText then Some(Trim(ui.commentText[cid])) else None
  }

  /**
   * `if (!text || !user) return`: a comment is sent only when the confession
   * has non-blank text and a user is signed in. The request carries the
   * trimmed text, which is never empty.
   */
  function CommentRequest(ui: CommentUi, cid: ConfessionId, user: Option<UserId>): (req: Option<CommentInsert>)
    ensures req.Some? <==> user.Some? && cid in ui.commentText && !AllWhitespace(ui.commentText[cid])
    ensures req.Some? ==> req.value == CommentInsert(cid, user.value, Trim(ui.commentText[cid])) && req.value.content != ""
  {
    var text := TrimmedText(ui, cid);
    if text.None? || text.value == "" || user.None? then None
    else Some(CommentInsert(cid, user.value, text.value))
  }

  /**
   * `handlePostComment` once the insert has completed. Without a request
   * nothing changes. After a successful insert the returned row is appended to
   * the confession's thread, its text is cleared and its comment box closed;
   * after a failure only the thread's "posting" flag changes. The flag is off
   * at the end either way, and no other confession's widgets change.
   */
  function PostComment(ui: CommentUi, cid: ConfessionId, user: Option<UserId>, outcome: InsertOutcome): (r: CommentUi)
    ensures CommentRequest(ui, cid, user).None? ==> r == ui
    ensures CommentRequest(ui, cid, user).Some? && outcome.InsertFailed? ==>
      r == ui.(postingComment := ui.postingComment[cid := false])
    ensures CommentRequest(ui, cid, user).Some? && outcome.Inserted? ==>
      && r.comments.Keys == ui.comments.Keys + {cid}
      && CommentsFor(r.comments, cid) == CommentsFor(ui.comments, cid) + [outcome.row]
      && (forall k :: k in ui.comments && k != cid ==> r.comments[k] == ui.comments[k])
      && r.commentText == ui.commentText[cid := ""]
      && r.showCommentInput == ui.showCommentInput[cid := false]
      && r.postingComment == ui.postingComment[cid := false]
  {
    if CommentRequest(ui, cid, user).None? then ui
    else
      match outcome
      case InsertFailed => ui.(postingComment := ui.postingComment[cid := false])
      case Inserted(row) =>
        CommentUi(
          ui.comments[cid := CommentsFor(ui.comments, cid) + [row]],
          ui.commentText[cid := ""],
          ui.showCommentInput[cid := false],
          ui.postingComment[cid := false])
  }

  /**
   * A post confirmed by the server and then echoed by the live INSERT stream
   * lists the comment twice, both times at the end: neither updater checks ids.
   */
  lemma PostedCommentEchoedTwice(ui: CommentUi, cid: ConfessionId, user: Option<UserId>, row: Comment)
    requires CommentRequest(ui, cid, user).Some? && row.confessionId == cid
    ensures var after := CommentInserted(PostComment(ui, cid, user, Inserted(row)).comments, row);
            CommentsFor(after, cid) == CommentsFor(ui.comments, cid) + [row, row]
  {
    var posted := PostComment(ui, cid, user, Inserted(row)).comments;
    assert CommentsFor(posted, cid) + [row] == CommentsFor(ui.comments, cid) + [row, row];
  }

  /**
   * `handleDeleteComment` once the delete request has completed: when the call
   * does not throw the comment leaves its thread as on a live DELETE event (a
   * missing thread counts as empty), otherwise nothing changes.
   */
  function DeleteComment(m: CommentMap, commentId: CommentId, cid: ConfessionId, threw: bool): (r: CommentMap)
    ensures threw ==> r == m
    ensures !threw ==>
      && r.Keys == m.Keys + {cid}
      && CommentsFor(r, cid) == RemoveComment(CommentsFor(m, cid), commentId)
      && (forall k :: k in m && k != cid ==> r[k] == m[k])
  {
    if threw then m else CommentDeleted(m, cid, commentId)
  }

  /**
   * The delete handler followed by the DELETE event it causes leaves the
   * thread as one deletion does.
   */
  lemma DeleteThenEventIdempotent(m: CommentMap, commentId: CommentId, cid: ConfessionId)
    ensures CommentDeleted(DeleteComment(m, commentId, cid, false), cid, commentId)
         == DeleteComment(m, commentId, cid, false)
  {
    RemoveCommentTwice(CommentsFor(m, cid), commentId);
  }

  lemma {:induction false} RemoveCommentTwice(cs: seq<Comment>, commentId: CommentId)
    ensures RemoveComment(RemoveComment(cs, commentId), commentId) == RemoveComment(cs, commentId)
  {
    if cs != [] {
      RemoveCommentTwice(cs[1..], commentId);
    }
  }

  /**
   * `handlePostConfession`, given whether the insert succeeded: blank text or
   * no user sends nothing; otherwise the trimmed text is sent as the user's
   * confession, and the input is cleared only on success.
   */
  function PostConfession(newConfession: string, user: Option<UserId>, succeeded: bool): (r: (string, Option<ConfessionInsert>))
    ensures r.1.Some? <==> !AllWhitespace(newConfession) && user.Some?
    ensures r.1.Some? ==> r.1.value == ConfessionInsert(user.value, Trim(newConfession)) && r.1.value.content != ""
    ensures r.0 == if r.1.Some? && succeeded then "" else newConfession
  {
    if Trim(newConfession) == "" || user.None? then (newConfession, None)
    else (if succeeded then "" else newConfession, Some(ConfessionInsert(user.value, Trim(newConfession))))
  }
}
