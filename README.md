# DUCENTRAL client core in Dafny

DUCENTRAL is a React/Supabase social client for students. This project models
how the client's state changes when events arrive, each written as "next
state = f(previous state, event)". The server, the realtime channels, the
browser's localStorage and the clock are inputs.

- **Unread tracker** (`UnreadMessages`, from `src/contexts/UnreadMessagesContext.tsx`).
  - A "last viewed" watermark is stored per user and room under the key
    `lastViewed_<userId>_<roomId>`.
  - The class `UnreadTracker` holds the signed-in user, the storage and the
    `unreadCounts` map.
  - `MarkRoomAsRead` stamps the watermark and zeroes the room.
  - `RefreshUnreadCounts` is the `for` loop over the fetched rooms. It fills a
    fresh map with the server's count for each room. A count is a filter over
    the server's message table: the room, not the viewer's own messages, and,
    when a watermark exists, a `created_at` greater than it.
  - `OnMessageInsert` is the live INSERT handler: an own message is ignored, a
    message after the watermark adds one. The room on screen is not exempt:
    another user's message in the open room, stamped after the room was
    marked read, raises its count, which shows once the viewer leaves
    (`OpenRoomStillCounts`).
  - The model proves that the live increments keep agreeing with a recount
    (`LiveInsertKeepsInSync`). The proof rests on one assumption: the
    server's `.gt` orders timestamps as the client's string `>` does. The
    two orders can differ; see "Left out". It also proves how the total,
    the sum of the map's values, moves when a room is marked read or a
    message arrives.
- **Chat room** (`Chat`, from `src/components/Chat.tsx`).
  - The class `ChatView` holds the open room, the message list, the typing map,
    the pending typing timers, the clock and the input box.
  - Opening a room empties the message list and the typing map, then marks the
    room read in the tracker.
  - The backfill replaces the list. A live insert is appended unless its id is
    already there, so the list never gains a duplicate id.
  - Typing signals from other users set an entry in the typing map and queue
    one removal 3000 ms later. Earlier timers are never cancelled, so a
    refreshed user still disappears 3000 ms after their first signal
    (`DeleteAfterSet`, `RefreshedTypistScenario`). Timers from a room left
    behind also keep running.
  - Two display rules: the typing label and the unread badge.
- **Feed** (`Feed`: code shared by `src/components/Confessions.tsx` and
  `src/components/Home.tsx`).
  - Anonymous author labels, "Someone from <college>" or "Someone from DU".
  - The confession list: prepend on insert, filter on delete, no duplicate
    check.
  - The comment map keyed by confession id: a missing key reads as an empty
    thread.
  - `formatDate` takes the elapsed milliseconds as an integer. `getInitial` is
    also modelled.
- **Confessions** and **Home**: the post and delete handlers in which the two
  screens differ.
  - The Tea screen appends a posted comment and closes the comment box.
  - Home prepends a relabelled copy ("You" or "Someone from DU") and leaves the
    box open.
  - Home's delete handler reads the thread without a fallback. Its model
    therefore requires the thread to be loaded; the Tea screen's version
    treats a missing thread as empty.
  - On both screens a posted comment is listed twice once the live stream
    echoes it.

Three behaviours of the code that the model keeps:
- Live chat messages are appended, never inserted in timestamp order.
- `broadcastTyping` sends on every keystroke with non-blank text; it has no
  suppression window.
- A typing refresh does not reset the earlier removal timer.

`Wrappers` provides `Option`. `Rows` holds the database records. `Text` holds
the JavaScript string operations the core relies on: `trim`, one-character
`toUpperCase`, `<` on strings, decimal rendering and `join`.

## Model

| member | source | states |
|---|---|---|
| Text.Trim | src/components/Chat.tsx:220 | the result is a slice of the input with only white space cut off before and after it; it is empty exactly when the input is all white space; it neither starts nor ends with white space; an already trimmed string is returned as it is |
| Text.LexLessIrreflexive | src/contexts/UnreadMessagesContext.tsx:114 | no timestamp is greater than itself under string `>` |
| Text.LexLess | src/contexts/UnreadMessagesContext.tsx:114 | string `<`: at the first differing character the smaller character decides; a string is never less than itself; a proper prefix is less than the longer string |
| Text.LexLessTransitive | src/contexts/UnreadMessagesContext.tsx:114 | string comparison is transitive |
| Text.LexLessTotal | src/contexts/UnreadMessagesContext.tsx:114 | two different strings are ordered one way or the other |
| Text.LexLessAsymmetric | src/contexts/UnreadMessagesContext.tsx:114 | `a < b` excludes `b < a` |
| Text.LexLessSharedPrefix | src/contexts/UnreadMessagesContext.tsx:114 | a common prefix (the date part of two timestamps) does not change the order |
| Text.NatToString | src/components/Chat.tsx:429 | a count renders as a non-empty string of digits with no leading zero |
| Text.DecimalValueOfNatToString | src/components/Chat.tsx:429 | reading the rendered digits back gives the count |
| Text.NatToStringInjective | src/components/Chat.tsx:429 | different counts render differently |
| Text.Join | src/components/Chat.tsx:357-359 | `join` of no parts is empty, of one part is that part, and of several starts with the first part and the separator |
| Text.JoinAppend | src/components/Chat.tsx:357-359 | joining two non-empty lists put together is their two joins with one separator between them |
| Text.JoinSnoc | src/components/Chat.tsx:357-359 | appending a part adds the separator and that part at the end of the join |
| Text.JoinCons | src/components/Chat.tsx:357-359 | a part in front of a non-empty list is followed by the separator and the join of the list |
| Text.ToUpper | src/components/Confessions.tsx:275 | lower-case ASCII letters map to upper case, every other character is unchanged |
| UnreadMessages.LastViewedKeyInjective | src/contexts/UnreadMessagesContext.tsx:22-29 | for ids without `_`, different (user, room) pairs never share a watermark key |
| UnreadMessages.LastViewedKey | src/contexts/UnreadMessagesContext.tsx:22 | the key is "lastViewed_", then the user id, "_" and the room id; line 29 builds the same key |
| UnreadMessages.Lookup | src/contexts/UnreadMessagesContext.tsx:22-23 | the lookup finds a value exactly when one is stored under the watermark key, and returns that value |
| UnreadMessages.Stamp | src/contexts/UnreadMessagesContext.tsx:29-30 | after stamping, the lookup with the same user and room returns the stamped time; only that key changes |
| UnreadMessages.StampKeepsOtherWatermarks | src/contexts/UnreadMessagesContext.tsx:29-30 | stamping one room leaves every other (user, room) watermark as it was |
| UnreadMessages.CountOf | src/contexts/UnreadMessagesContext.tsx:117 | a room with no entry counts as 0 |
| UnreadMessages.NoWatermark | src/contexts/UnreadMessagesContext.tsx:114 | `!lastViewed`: there is no watermark exactly when nothing is stored or the stored string is empty |
| UnreadMessages.CreatedAfter | src/contexts/UnreadMessagesContext.tsx:114 | `created_at > lastViewed`: the watermark is less than the message's timestamp in string order, so a message stamped exactly at the watermark is not after it |
| UnreadMessages.CountsAsUnread | src/contexts/UnreadMessagesContext.tsx:108-114 | the live test passes exactly when the message passes the recount query for its room, with the watermark as its lower bound when there is one; own messages never pass |
| UnreadMessages.MarkedRead | src/contexts/UnreadMessagesContext.tsx:32 | the room reads 0 and every other room keeps its count |
| UnreadMessages.AfterLiveInsert | src/contexts/UnreadMessagesContext.tsx:104-120 | own messages and messages at or before the watermark change nothing; otherwise the room goes up by exactly one from `prev[room] \|\| 0`; other rooms are unchanged |
| UnreadMessages.CountMatching | src/contexts/UnreadMessagesContext.tsx:58-72 | a count query never exceeds the number of messages on the server |
| UnreadMessages.MatchesQuery | src/contexts/UnreadMessagesContext.tsx:58-71 | a message passes exactly when it is in the room, is not the viewer's and, when a bound is given, has a `created_at` greater than the bound |
| UnreadMessages.CountMatchingIsCardinality | src/contexts/UnreadMessagesContext.tsx:58-72 | a count query's result is the number of messages passing all its filters |
| UnreadMessages.CountMatchingAppend | src/contexts/UnreadMessagesContext.tsx:58-72 | one more message on the server raises a count exactly when it passes the filters |
| UnreadMessages.CountAllOthers | src/contexts/UnreadMessagesContext.tsx:56-63 | without a watermark the query counts the room's messages by anyone but the viewer |
| UnreadMessages.CountOthersAfter | src/contexts/UnreadMessagesContext.tsx:64-72 | with a watermark it counts those whose `created_at` is greater than the watermark |
| UnreadMessages.ServerUnreadCount | src/contexts/UnreadMessagesContext.tsx:54-73 | the stored count for one room, for both the missing-or-empty watermark and the present-watermark cases |
| UnreadMessages.LiveInsertAgreesWithRecount | src/contexts/UnreadMessagesContext.tsx:109-119 | a new message raises its room's recount exactly when the live handler increments, and no other room's recount |
| UnreadMessages.LiveInsertKeepsInSync | src/contexts/UnreadMessagesContext.tsx:104-120 | counts that match the server keep matching after a live insert is both stored and handled |
| UnreadMessages.RefreshedCounts | src/contexts/UnreadMessagesContext.tsx:50-76 | a refresh yields exactly the fetched rooms as keys, each holding its server count |
| UnreadMessages.RefreshedCountsSnoc | src/contexts/UnreadMessagesContext.tsx:50-76 | recounting one more fetched room stores that room's server count and leaves the other rooms' counts as they were |
| UnreadMessages.MarkReadThenEarlierInsert | src/contexts/UnreadMessagesContext.tsx:109-114 | after marking a room read, an insert not later than the stamp leaves that room at 0 |
| UnreadMessages.OpenRoomStillCounts | src/contexts/UnreadMessagesContext.tsx:27-33 | after marking a room read, another user's message in that room stamped later makes the room read 1: the open room is not exempt; lines 104-120 are the live handler |
| UnreadMessages.RecountAfterMarkRead | src/contexts/UnreadMessagesContext.tsx:27-33 | after marking a room read, a recount of messages all at or before the stamp gives 0 |
| UnreadMessages.WatermarkScenario | src/contexts/UnreadMessagesContext.tsx:109-119 | watermark 10:00, then 10:01 from another user and 10:02 from the viewer: the count is 1 |
| UnreadMessages.FirstVisitScenario | src/contexts/UnreadMessagesContext.tsx:56-63 | five messages by others in a never-viewed room count 5; after marking read later, the recount is 0 |
| UnreadMessages.TotalUnreadCount | src/contexts/UnreadMessagesContext.tsx:134 | the total of an empty map is 0 |
| UnreadMessages.TotalUnreadCountRemove | src/contexts/UnreadMessagesContext.tsx:134 | any room's count can be taken out of the sum first, so the order of `Object.values` does not matter |
| UnreadMessages.TotalUnreadCountUpdate | src/contexts/UnreadMessagesContext.tsx:134 | setting one room to `v` changes the total by `v` minus its old count |
| UnreadMessages.TotalAfterMarkRead | src/contexts/UnreadMessagesContext.tsx:32 | marking a room read lowers the total by exactly that room's count |
| UnreadMessages.TotalAfterLiveInsert | src/contexts/UnreadMessagesContext.tsx:115-118 | a live insert raises the total by one when it counts and by nothing otherwise |
| UnreadMessages.TotalZeroIff | src/contexts/UnreadMessagesContext.tsx:134 | the total is 0 exactly when every room reads 0 |
| UnreadMessages.UnreadTracker.constructor | src/contexts/UnreadMessagesContext.tsx:15-17 | the tracker starts with an empty count map |
| UnreadMessages.UnreadTracker.GetLastViewed | src/contexts/UnreadMessagesContext.tsx:20-24 | null while signed out; otherwise found exactly when a value is stored under the user's key, and then it is that stored value |
| UnreadMessages.UnreadTracker.MarkRoomAsRead | src/contexts/UnreadMessagesContext.tsx:27-33 | signed out: nothing changes; otherwise the room's watermark becomes `now`, which `GetLastViewed` then returns, and the room reads 0 |
| UnreadMessages.UnreadTracker.RefreshUnreadCounts | src/contexts/UnreadMessagesContext.tsx:36-80 | signed out: the map becomes empty; no room list: unchanged; otherwise the whole map is replaced by the fetched rooms' server counts, keys exactly the fetched rooms |
| UnreadMessages.UnreadTracker.OnMessageInsert | src/contexts/UnreadMessagesContext.tsx:104-120 | the counts follow `AfterLiveInsert` under the room's current watermark |
| UnreadMessages.UnreadTracker.OnUserChanged | src/contexts/UnreadMessagesContext.tsx:83-87 | signing out empties the counts; the watermarks stay in storage |
| Chat.SenderName | src/components/Chat.tsx:113 | never empty; the profile name when there is a non-empty one, otherwise "Unknown" |
| Chat.WithSender | src/components/Chat.tsx:145-151 | the message's fields are kept, with the sender name added |
| Chat.FormatBackfill | src/components/Chat.tsx:106-115 | the fetched rows in order, one message each, each with its sender name |
| Chat.AppendIfNew | src/components/Chat.tsx:154-157 | a listed id leaves the list unchanged, a new one is appended at the end; the old list is a prefix; no duplicate id appears |
| Chat.HasId | src/components/Chat.tsx:155 | `prev.some(m => m.id === id)`: true exactly when the id is among the listed messages' ids |
| Chat.AppendIfNewIdempotent | src/components/Chat.tsx:154-157 | delivering the same message twice gives the list one delivery gives |
| Chat.ApplyInsertsDeduplicates | src/components/Chat.tsx:154-157 | any run of live inserts keeps ids unique, keeps the old list as a prefix, lists every delivered id and adds nothing else |
| Chat.ListedIdOccursOnce | src/components/Chat.tsx:154-157 | in a list without duplicate ids a listed id is at exactly one position |
| Chat.DuplicateDeliveryLeavesOneEntry | src/components/Chat.tsx:154-157 | the same message delivered twice is listed exactly once |
| Chat.TypingSet | src/components/Chat.tsx:175-181 | the entry is set, overwriting one with the same id rather than adding a second; the size grows only for a new id, which goes last; other users stay |
| Chat.TypingSetInPlace | src/components/Chat.tsx:177-180 | an entry already under the id is replaced where it stands (the first such, if there were several), so the order of the map is kept |
| Chat.TypingSetOverwrites | src/components/Chat.tsx:177-180 | in a map without repeated ids, setting an existing id replaces that entry in its place |
| Chat.TypingSetCons | src/components/Chat.tsx:177-180 | setting an id leaves a first entry under another id in front, untouched |
| Chat.TypingSetKeepsUnique | src/components/Chat.tsx:175-181 | on a map without repeated ids, setting an entry adds only that entry, removes only the entry it overwrites, and repeats no id |
| Chat.TypingDelete | src/components/Chat.tsx:159-163 | no entry for the user is left, other users stay, nothing new appears |
| Chat.TypingDeleteCons | src/components/Chat.tsx:161 | an entry survives a deletion exactly when it is under another id |
| Chat.TypingDeleteDistributes | src/components/Chat.tsx:161 | deleting from two maps put together deletes from each, so the survivors keep their order |
| Chat.TypingDeleteKeepsUnique | src/components/Chat.tsx:159-163 | deleting a user from a map without repeated ids leaves a map without repeated ids |
| Chat.DeleteAfterSet | src/components/Chat.tsx:175-190 | deleting after a refresh gives what deleting alone gives: a refresh does not protect against an earlier timer |
| Chat.RefreshedTypistScenario | src/components/Chat.tsx:175-190 | signals at 0 ms and 2000 ms, then the first timer fires: the typing list is empty although the refresh was recent, and the second removal (due at 5000 ms) is still pending |
| Chat.Names | src/components/Chat.tsx:357-358 | the typing users' names in the map's order |
| Chat.TypingLabel | src/components/Chat.tsx:355-361 | hidden exactly when nobody types; "<name> is typing..." for one user; for more, all the names in map order joined with ", ", then " are typing..." |
| Chat.NewTypistJoinsLabelLast | src/components/Chat.tsx:175-181 | someone new typing beside others adds ", " and their name at the end of the typing line's names; Chat.tsx:355-361 renders the line |
| Chat.UnreadBadge | src/components/Chat.tsx:417-430 | hidden exactly at count 0 (including a room without an entry); "99+" exactly above 99; otherwise the count in decimal digits without a leading zero, reading back as the count |
| Chat.ChatView.constructor | src/components/Chat.tsx:22-28 | no room open, empty lists, no timers, empty input |
| Chat.ChatView.IsSelf | src/components/Chat.tsx:174 | the signal is the viewer's own exactly when a user is signed in with that id |
| Chat.ChatView.SelectRoom | src/components/Chat.tsx:36-45 | a newly selected room empties the message list and the typing map and marks the room read in the tracker; re-selecting the open room changes nothing; pending timers stay |
| Chat.ChatView.LeaveRoom | src/components/Chat.tsx:264 | no room is open afterwards |
| Chat.ChatView.ApplyBackfill | src/components/Chat.tsx:106-116 | on data the list is replaced by the formatted rows; on error or no data it is unchanged |
| Chat.ChatView.OnMessageInsert | src/components/Chat.tsx:138-164 | the message is appended unless its id is listed, and its author leaves the typing map |
| Chat.ChatView.OnTypingSignal | src/components/Chat.tsx:173-190 | an own signal changes nothing; another user's signal sets their entry and queues one removal at now + 3000 ms |
| Chat.ChatView.FireNextTypingTimer | src/components/Chat.tsx:184-190 | the earliest pending timer fires and removes its user unconditionally |
| Chat.ChatView.HandleInputChange | src/components/Chat.tsx:196-223 | the input takes the value; a typing signal is sent exactly when the text is not blank and a room, user and profile exist, on every such call |
| Chat.ChatView.TypingCooldownElapsed | src/components/Chat.tsx:213-215 | the typing timeout ref is cleared |
| Chat.ChatView.SendMessage | src/components/Chat.tsx:225-244 | blank input or a missing room, user or profile sends nothing; otherwise the trimmed, non-empty text is sent, and the input is cleared and restored if the insert throws |
| Feed.AuthorLabel | src/components/Confessions.tsx:65-67 | "Someone from " plus the college when non-empty, otherwise plus "DU"; Home.tsx:66-68 does the same |
| Feed.Labelled | src/components/Confessions.tsx:60-68 | the row's fields are kept and the author label is added |
| Feed.FormatConfessions | src/components/Confessions.tsx:60-68 | the fetched rows in order, each labelled; Home.tsx:61-69 does the same |
| Feed.InsertConfession | src/components/Confessions.tsx:94-105 | the new confession is at index 0 and the rest follow unchanged; Home.tsx:111-122 does the same |
| Feed.InsertConfessionCountsEveryDelivery | src/components/Confessions.tsx:94-105 | no duplicate check: each delivery lists the id once more |
| Feed.DeleteConfession | src/components/Confessions.tsx:114 | no confession with the id is left, every other one stays, nothing new appears, an absent id leaves the list unchanged; Home.tsx:131 does the same |
| Feed.DeleteConfessionDistributes | src/components/Confessions.tsx:114 | the survivors keep their order: deleting from a concatenation deletes from each part |
| Feed.DeleteConfessionIdempotent | src/components/Confessions.tsx:114 | a second delete of the same id changes nothing |
| Feed.DeleteAfterInsert | src/components/Confessions.tsx:94-114 | deleting a just inserted id leaves what deleting it beforehand leaves |
| Feed.CommentsFor | src/components/Confessions.tsx:232 | a missing thread reads as empty |
| Feed.LoadComments | src/components/Confessions.tsx:159-173 | fetched data replaces that confession's thread; no data changes nothing; other threads are unchanged; Home.tsx:82-96 does the same |
| Feed.CommentInserted | src/components/Confessions.tsx:227-236 | the comment is appended to its thread, which is created when absent; other threads are unchanged; Home.tsx:208-216 does the same |
| Feed.RemoveComment | src/components/Confessions.tsx:245-247 | the comment with the id leaves the thread, all others stay |
| Feed.RemoveCommentDistributes | src/components/Confessions.tsx:245-247 | the remaining comments keep their order |
| Feed.CommentDeleted | src/components/Confessions.tsx:241-248 | only that comment leaves its thread, a missing thread counts as empty, other threads are unchanged; Home.tsx:222-229 does the same |
| Feed.InsertThenDeleteComment | src/components/Confessions.tsx:227-248 | a new comment inserted and then deleted leaves its thread as it was |
| Feed.ToggleCommentInput | src/components/Confessions.tsx:400 | the reply button flips the flag, a missing flag reading false; other flags are unchanged |
| Feed.ToggleCommentInputTwice | src/components/Confessions.tsx:400 | two clicks restore the flag |
| Feed.AgoShows | src/components/Confessions.tsx:267-269 | "<n><unit> ago" for a positive `n` has no leading zero and reads back as `n` |
| Feed.FormatDate | src/components/Confessions.tsx:258-272 | "now" under a minute (the future included); whole minutes 1-59, hours 1-23 and days 1-6 as floors of the elapsed time, written without a leading zero; the calendar date from seven days on; Home.tsx:239-253 does the same |
| Feed.GetInitial | src/components/Confessions.tsx:274-276 | one character: "U" for a missing or empty name, otherwise the first character upper-cased, never a lower-case letter; Home.tsx:255-257 does the same |
| Feed.InitialOfAuthorLabel | src/components/Confessions.tsx:65-67 | every anonymous author label has the initial "S" |
| Confessions.TrimmedText | src/components/Confessions.tsx:176 | missing text is none, otherwise the trimmed text |
| Confessions.CommentRequest | src/components/Confessions.tsx:176-188 | a comment is sent exactly when the text is not blank and a user is signed in; the request carries the trimmed, non-empty text |
| Confessions.PostComment | src/components/Confessions.tsx:175-206 | no request: unchanged; success: the returned row appended, the text cleared, the box closed; failure: only the posting flag; the flag is off at the end |
| Confessions.PostedCommentEchoedTwice | src/components/Confessions.tsx:194-197 | a post and its echo on the live stream list the comment twice at the end |
| Confessions.DeleteComment | src/components/Confessions.tsx:208-218 | unless the call throws, only that comment leaves its thread, a missing thread counting as empty |
| Confessions.DeleteThenEventIdempotent | src/components/Confessions.tsx:208-248 | the handler's delete followed by the live DELETE event equals one delete |
| Confessions.RemoveCommentTwice | src/components/Confessions.tsx:213 | removing the same id twice equals removing it once |
| Confessions.PostConfession | src/components/Confessions.tsx:122-140 | blank text or no user sends nothing; otherwise the trimmed text is sent and the input cleared only on success |
| Home.PostedCommentLabel | src/components/Home.tsx:175 | "You" when the profile has a non-empty college, otherwise "Someone from DU" |
| Home.PostedComment | src/components/Home.tsx:169-176 | the returned row's fields with that label |
| Home.PostComment | src/components/Home.tsx:156-187 | success: the relabelled row goes first, the text is cleared, the box is left as it was; failure: only the posting flag; no request: unchanged |
| Home.PostPlacementDiffers | src/components/Home.tsx:177-180 | Home puts a posted comment first, the Tea screen puts it last, with the rest of the thread identical |
| Home.PostedCommentEchoedTwice | src/components/Home.tsx:179 | a post and its echo on the live stream list the comment at the front and again at the end |
| Home.DeleteComment | src/components/Home.tsx:189-199 | needs a loaded thread; unless the call throws, only that comment leaves it; the keys do not change |
| Home.DeleteAgreesWithTeaScreen | src/components/Home.tsx:192-195 | on a loaded thread Home's and the Tea screen's delete handlers agree |

## Left out

- Supabase queries, inserts, deletes and channels are network I/O. Their
  results and realtime payloads are parameters. The awaited profile lookups
  become parameters too.
- Concurrency is not modelled. Only sequential interleavings of whole events
  are: no race between the backfill and the live stream, or between a refresh
  and live inserts.
- `new Date()`, `toISOString`, `toLocaleDateString` and `setTimeout`:
  - the time is a parameter;
  - the calendar date is the constant `CalendarDate`;
  - the timers are the queue `pendingRemovals`, fired by `FireNextTypingTimer`.
- UnreadMessages.UnreadTracker.RefreshUnreadCounts: these cases are not
  modelled:
  - a failed count query (`count || 0`);
  - an exception abandoning the loop;
  - the server comparing `created_at` as a timestamp rather than as a string.
  The model uses the string order for both the server's `.gt` and the
  client's `>`. `LiveInsertKeepsInSync` and `LiveInsertAgreesWithRecount`
  therefore hold only while the two orders agree. They need not agree.
  The watermark is `toISOString` output: millisecond precision, ending in `Z`.
  `created_at` is rendered by the server and may carry microseconds and
  `+00:00`. Take `…10:00:00.123456+00:00` against the watermark
  `…10:00:00.123Z`. It is later as a timestamp but smaller as a string,
  because `'4' < 'Z'`. So the two orders can disagree within one millisecond.
- UnreadMessages.LastViewedKeyInjective holds only for ids without `_`. The
  ids are UUIDs.
- Text.LexLess compares Unicode scalar values, while JavaScript compares UTF-16
  code units. The two differ only beyond U+FFFF, and timestamps are ASCII.
- Feed.GetInitial and Text.ToUpper upper-case ASCII letters only. JavaScript
  also maps other letters, and `charAt` returns a UTF-16 code unit.
- Feed.FormatDate takes an integer. An unparsable date, for which JavaScript
  computes `NaN` and shows "Invalid Date", is not modelled.
- Chat.ChatView.SelectRoom: these re-runs are not modelled:
  - the effect re-running when `markRoomAsRead` changes identity after a user
    change;
  - the effect skipping the empty room id.
- Chat.ChatView.HandleInputChange returns the payload whenever a room is open.
  The case where the typing channel ref is still null, so nothing is sent, is
  not modelled.
- Confessions.PostComment and Home.PostComment show only the state after the
  request completes. The "posting" flag being true while the request is in
  flight is not modelled. An empty returned array (where `data[0]` is
  `undefined`) is not modelled either. The outcome is either the first
  returned row or a failure.
- `handleDeleteConfession` only sends a request. Its effect on the list
  arrives as a DELETE event, which `Feed.DeleteConfession` models.
- `toggleLike` calls `setInteractions`, which both screens never declare, so
  it cannot run as written.
- These parts are not part of this model, being JSX, styling or UI plumbing:
  - `fetchRooms` and the room list;
  - the `loading` flags, scrolling and the body class toggle;
  - the `forEach` that only triggers `loadComments`;
  - the other components and contexts.
