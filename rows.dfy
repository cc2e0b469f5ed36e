/**
 * The database records the client receives, as plain values. Identifiers are
 * the server's UUID strings and timestamps the server's ISO-8601 strings. The
 * type declarations of src/lib/supabase.ts are not part of this model; the
 * fields here are the ones the core reads.
 */
module Rows {
  import opened Wrappers

  type UserId = string
  type RoomId = string
  type MessageId = string
  type ConfessionId = string
  type CommentId = string

  /** A row of `chat_messages`, as a backfill query or an INSERT payload carries it. */
  datatype ChatMessage = ChatMessage(
    id: MessageId,
    roomId: RoomId,
    userId: UserId,
    message: string,
    createdAt: string)

  /** The signed-in user's profile: the fields the core reads. */
  datatype Profile = Profile(name: string, collegeName: Option<string>)

  /** A row of `confessions` without its joined profile. */
  datatype ConfessionRow = ConfessionRow(
    id: ConfessionId,
    userId: UserId,
    content: string,
    createdAt: string)

  /** A row of `comments`; `profileName` is only ever set by the client. */
  datatype Comment = Comment(
    id: CommentId,
    confessionId: ConfessionId,
    userId: UserId,
    content: string,
    createdAt: string,
    profileName: Option<string>)
}
