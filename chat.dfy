/**
 * The chat screen of src/components/Chat.tsx: the open room's message list,
 * the "who is typing" map, the input box, and two display rules (the typing
 * label and the room list's unread badge).
 *
 * The message list is seeded by a backfill query and grown by the room's live
 * INSERT stream, skipping ids already present; new messages are appended, never
 * sorted. The typing map is a JavaScript `Map` keyed by user id, which keeps
 * insertion order; it is modelled as a sequence of entries with distinct ids.
 * Every typing signal from someone else schedules one removal of that user
 * 3000 ms later; earlier timers are never cancelled, so those removals are kept
 * as a queue of pending timer callbacks fired by `FireNextTypingTimer`.
 */
module Chat {
  import opened Wrappers
  import opened Text
  import opened Rows
  import UnreadMessages

  /** `ExtendedChatMessage`: a message with the display name of its author. */
  datatype ExtendedChatMessage = ExtendedChatMessage(
    id: MessageId,
    roomId: RoomId,
    userId: UserId,
    message: string,
    createdAt: string,
    senderName: string)

  /** One backfill row: the message and its joined `profiles (name)`, which may be null. */
  datatype BackfillRow = BackfillRow(msg: ChatMessage, profileName: Option<string>)

  /** An entry of the typing map. */
  datatype TypingUser = TypingUser(userId: UserId, name: string)

  /** A scheduled `setTimeout` callback that deletes `userId` from the typing map at `dueAt`. */
  datatype PendingRemoval = PendingRemoval(userId: UserId, dueAt: int)

  /** The broadcast payload `broadcastTyping` sends. */
  datatype TypingPayload = TypingPayload(userId: UserId, name: string, roomId: RoomId)

  /** The row `sendMessage` inserts into `chat_messages`. */
  datatype OutgoingMessage = OutgoingMessage(roomId: RoomId, userId: UserId, message: string)

  /** The delay of every typing expiry timer, in milliseconds. */
  const TypingExpiryMs: int := 3000

  /** The badge shows the count itself only up to this value. */
  const BadgeMax: nat := 99

  /** `profiles?.name || 'Unknown'`: a missing or empty name reads 'Unknown'. */
  function SenderName(profileName: Option<string>): (s: string)
    ensures s != ""
    ensures profileName.Some? && profileName.value != "" ==> s == profileName.value
    ensures profileName.None? || profileName.value == "" ==> s == "Unknown"
  {
    if profileName.Some? && profileName.value != "" then profileName.value else "Unknown"
  }

  /** The message object both the backfill and the live handler build. */
  function WithSender(m: ChatMessage, profileName: Option<string>): (e: ExtendedChatMessage)
    ensures e.id == m.id && e.roomId == m.roomId && e.userId == m.userId
    ensures e.message == m.message && e.createdAt == m.createdAt
    ensures e.senderName == SenderName(profileName)
  {
    ExtendedChatMessage(m.id, m.roomId, m.userId, m.message, m.createdAt, SenderName(profileName))
  }

  /** `data.map(...)` in `fetchMessages`: the rows in order, each labelled with its sender. */
  function FormatBackfill(rows: seq<BackfillRow>): (r: seq<ExtendedChatMessage>)
    ensures |r| == |rows|
    ensures forall i :: 0 <= i < |rows| ==> r[i] == WithSender(rows[i].msg, rows[i].profileName)
  {
    if rows == [] then [] else [WithSender(rows[0].msg, rows[0].profileName)] + FormatBackfill(rows[1..])
  }

  /** `prev.some((m) => m.id === id)`. */
  function HasId(msgs: seq<ExtendedChatMessage>, id: MessageId): (listed: bool)
    ensures listed <==> id in (set m | m in msgs :: m.id)
  {
    exists i :: 0 <= i < |msgs| && msgs[i].id == id
  }

  predicate NoDuplicateIds(msgs: seq<ExtendedChatMessage>) {
    forall i, j :: 0 <= i < j < |msgs| ==> msgs[i].id != msgs[j].id
  }

  /**
   * The live INSERT updater: a message whose id is already listed is dropped,
   * any other is appended at the end. Either way the id is then listed, the old
   * list is a prefix of the new one, and a list without duplicate ids keeps
   * that property.
   */
  function AppendIfNew(prev: seq<ExtendedChatMessage>, m: ExtendedChatMessage): (r: seq<ExtendedChatMessage>)
    ensures HasId(prev, m.id) ==> r == prev
    ensures !HasId(prev, m.id) ==> r == prev + [m]
    ensures HasId(r, m.id) && prev <= r
    ensures NoDuplicateIds(prev) ==> NoDuplicateIds(r)
  {
    if HasId(prev, m.id) then prev
    else
      assert (prev + [m])[|prev|].id == m.id;
      prev + [m]
  }

  /** Delivering the same message twice leaves the list as one delivery did. */
  lemma AppendIfNewIdempotent(prev: seq<ExtendedChatMessage>, m: ExtendedChatMessage)
    ensures AppendIfNew(AppendIfNew(prev, m), m) == AppendIfNew(prev, m)
  {
  }

  /** A sequence of live INSERT events applied in order. */
  function ApplyInserts(prev: seq<ExtendedChatMessage>, events: seq<ExtendedChatMessage>): seq<ExtendedChatMessage>
    decreases |events|
  {
    if events == [] then prev else ApplyInserts(AppendIfNew(prev, events[0]), events[1..])
  }

  /**
   * Whatever duplicates the stream delivers, starting from a list without
   * duplicate ids: the result still has none, keeps the old list as a prefix,
   * lists every delivered id, and holds nothing that was neither listed nor
   * delivered.
   */
  lemma {:induction false} ApplyInsertsDeduplicates(prev: seq<ExtendedChatMessage>, events: seq<ExtendedChatMessage>)
    requires NoDuplicateIds(prev)
    ensures NoDuplicateIds(ApplyInserts(prev, events))
    ensures prev <= ApplyInserts(prev, events)
    ensures forall j :: 0 <= j < |events| ==> HasId(ApplyInserts(prev, events), events[j].id)
    ensures forall x :: x in ApplyInserts(prev, events) ==> x in prev || x in events
    decreases |events|
  {
    if events != [] {
      var next := AppendIfNew(prev, events[0]);
      ApplyInsertsDeduplicates(next, events[1..]);
      var r := ApplyInserts(next, events[1..]);
      assert HasId(r, events[0].id) by {
        var i :| 0 <= i < |next| && next[i].id == events[0].id;
        assert r[i] == next[i];
      }
      forall j | 0 <= j < |events|
        ensures HasId(r, events[j].id)
      {
        if j > 0 {
          assert events[j] == events[1..][j - 1];
        }
      }
      forall x | x in r
        ensures x in prev || x in events
      {
        if x !in prev && x in next {
          assert x == events[0];
        } else if x !in next {
          assert x in events[1..];
        }
      }
    }
  }

  /** In a list without duplicate ids a listed id occupies exactly one position. */
  lemma ListedIdOccursOnce(msgs: seq<ExtendedChatMessage>, id: MessageId)
    requires NoDuplicateIds(msgs) && HasId(msgs, id)
    ensures |set k | 0 <= k < |msgs| && msgs[k].id == id| == 1
  {
    var i :| 0 <= i < |msgs| && msgs[i].id == id;
    assert (set k | 0 <= k < |msgs| && msgs[k].id == id) == {i};
  }

  /** Two INSERT events for one message (a backfill/live race replayed) leave exactly one entry for it. */
  lemma DuplicateDeliveryLeavesOneEntry(prev: seq<ExtendedChatMessage>, m: ExtendedChatMessage)
    requires NoDuplicateIds(prev)
    ensures var r := ApplyInserts(prev, [m, m]);
            |set k | 0 <= k < |r| && r[k].id == m.id| == 1
  {
    ApplyInsertsDeduplicates(prev, [m, m]);
    ListedIdOccursOnce(ApplyInserts(prev, [m, m]), m.id);
  }

  predicate HasUser(t: seq<TypingUser>, userId: UserId) {
    exists i :: 0 <= i < |t| && t[i].userId == userId
  }

  /** The keys of a `Map` are distinct. */
  predicate UniqueTypingIds(t: seq<TypingUser>) {
    forall i, j :: 0 <= i < j < |t| ==> t[i].userId != t[j].userId
  }

  /**
   * `updated.set(u.userId, u)`: an entry already under that id is overwritten
   * in its place, otherwise the entry goes last. The size grows only for a new
   * id, the map then holds `u`, and every entry under another id is kept.
   */
  function TypingSet(t: seq<TypingUser>, u: TypingUser): (r: seq<TypingUser>)
    ensures |r| == if HasUser(t, u.userId) then |t| else |t| + 1
    ensures u in r
    ensures forall v :: v in t && v.userId != u.userId ==> v in r
    ensures !HasUser(t, u.userId) ==> r == t + [u]
  {
    if t == [] then [u]
    else if t[0].userId == u.userId then [u] + t[1..]
    else [t[0]] + TypingSet(t[1..], u)
  }

  /** An entry already under the id is overwritten where it stands: the first one, if there are several. */
  lemma {:induction false} TypingSetInPlace(t: seq<TypingUser>, u: TypingUser, i: nat)
    requires i < |t| && t[i].userId == u.userId
    requires forall k :: 0 <= k < i ==> t[k].userId != u.userId
    ensures TypingSet(t, u) == t[i := u]
  {
    var x, rest := t[0], t[1..];
    assert t == [x] + rest;
    if i == 0 {
      assert t[i := u] == [u] + rest;
    } else {
      forall k | 0 <= k < i - 1 ensures rest[k].userId != u.userId {
        assert rest[k] == t[k + 1];
      }
      calc {
        TypingSet(t, u);
        { TypingSetCons(x, rest, u); }
        [x] + TypingSet(rest, u);
        { TypingSetInPlace(rest, u, i - 1); }
        [x] + rest[i - 1 := u];
        t[i := u];
      }
    }
  }

  /** Setting an id skips over a head entry under another id. */
  lemma TypingSetCons(x: TypingUser, rest: seq<TypingUser>, u: TypingUser)
    requires x.userId != u.userId
    ensures TypingSet([x] + rest, u) == [x] + TypingSet(rest, u)
  {
    assert ([x] + rest)[1..] == rest;
  }

  /** In a map without repeated ids, the entry under the id is overwritten in its place. */
  lemma TypingSetOverwrites(t: seq<TypingUser>, u: TypingUser, i: nat)
    requires UniqueTypingIds(t) && i < |t| && t[i].userId == u.userId
    ensures TypingSet(t, u) == t[i := u]
  {
    TypingSetInPlace(t, u, i);
  }

  /**
   * On a map without repeated ids, setting an entry adds nothing but that
   * entry, drops only the entry it overwrites, and repeats no id.
   */
  lemma {:induction false} TypingSetKeepsUnique(t: seq<TypingUser>, u: TypingUser)
    requires UniqueTypingIds(t)
    ensures forall v :: v in TypingSet(t, u) ==> v == u || (v in t && v.userId != u.userId)
    ensures UniqueTypingIds(TypingSet(t, u))
  {
    if t != [] {
      UniqueTail(t);
      assert forall v :: v in t[1..] ==> v in t;
      if t[0].userId == u.userId {
        UniqueCons(u, t[1..]);
      } else {
        TypingSetKeepsUnique(t[1..], u);
        UniqueCons(t[0], TypingSet(t[1..], u));
      }
    }
  }

  /**
   * `updated.delete(userId)`: no entry under that id is left, every entry
   * under another id stays, nothing new appears, and a map without the id is
   * unchanged.
   */
  function TypingDelete(t: seq<TypingUser>, userId: UserId): (r: seq<TypingUser>)
    ensures forall v :: v in r ==> v in t && v.userId != userId
    ensures forall v :: v in t && v.userId != userId ==> v in r
    ensures (forall v :: v in t ==> v.userId != userId) ==> r == t
  {
    if t == [] then []
    else if t[0].userId == userId then TypingDelete(t[1..], userId)
    else [t[0]] + TypingDelete(t[1..], userId)
  }

  /** What deletion keeps of one entry: the entry itself, or nothing when it is under the id. */
  function Kept(x: TypingUser, userId: UserId): seq<TypingUser> {
    if x.userId == userId then [] else [x]
  }

  /** One step of the deletion: the head stays exactly when it is under another id. */
  lemma TypingDeleteCons(x: TypingUser, rest: seq<TypingUser>, userId: UserId)
    ensures TypingDelete([x] + rest, userId) == Kept(x, userId) + TypingDelete(rest, userId)
  {
    assert ([x] + rest)[1..] == rest;
  }

  /** Deleting from two maps put together deletes from each, so the survivors keep their order. */
  lemma {:induction false} TypingDeleteDistributes(a: seq<TypingUser>, b: seq<TypingUser>, userId: UserId)
    ensures TypingDelete(a + b, userId) == TypingDelete(a, userId) + TypingDelete(b, userId)
  {
    if a == [] {
      assert a + b == b;
    } else {
      var x, rest := a[0], a[1..];
      calc {
        TypingDelete(a + b, userId);
        { assert a + b == [x] + (rest + b); }
        TypingDelete([x] + (rest + b), userId);
        { TypingDeleteCons(x, rest + b, userId); }
        Kept(x, userId) + TypingDelete(rest + b, userId);
        { TypingDeleteDistributes(rest, b, userId); }
        Kept(x, userId) + (TypingDelete(rest, userId) + TypingDelete(b, userId));
        (Kept(x, userId) + TypingDelete(rest, userId)) + TypingDelete(b, userId);
        { TypingDeleteCons(x, rest, userId); assert [x] + rest == a; }
        TypingDelete(a, userId) + TypingDelete(b, userId);
      }
    }
  }

  /** The tail of a map without repeated ids has none, and none of its ids is the head's. */
  lemma UniqueTail(t: seq<TypingUser>)
    requires t != [] && UniqueTypingIds(t)
    ensures UniqueTypingIds(t[1..])
    ensures forall v :: v in t[1..] ==> v.userId != t[0].userId
  {
    forall v | v in t[1..] ensures v.userId != t[0].userId {
      var k :| 0 <= k < |t[1..]| && t[1..][k] == v;
      assert t[k + 1] == v;
    }
  }

  /** An entry whose id is not in a map without repeated ids can be put in front of it. */
  lemma UniqueCons(x: TypingUser, rest: seq<TypingUser>)
    requires UniqueTypingIds(rest) && forall v :: v in rest ==> v.userId != x.userId
    ensures UniqueTypingIds([x] + rest)
  {
    var r := [x] + rest;
    forall i, j | 0 <= i < j < |r| ensures r[i].userId != r[j].userId {
      assert r[j] == rest[j - 1];
      if i == 0 {
        assert r[j] in rest;
      } else {
        assert r[i] == rest[i - 1];
      }
    }
  }

  /** Deleting a user keeps the typing map free of repeated ids. */
  lemma {:induction false} TypingDeleteKeepsUnique(t: seq<TypingUser>, userId: UserId)
    requires UniqueTypingIds(t)
    ensures UniqueTypingIds(TypingDelete(t, userId))
  {
    if t != [] {
      UniqueTail(t);
      TypingDeleteKeepsUnique(t[1..], userId);
      if t[0].userId != userId {
        UniqueCons(t[0], TypingDelete(t[1..], userId));
      }
    }
  }


  /**
   * A refresh of a typing user does not protect them from a removal: deleting
   * after `set` gives what deleting alone gives, so the other users and their
   * order are the same either way.
   */
  lemma {:induction false} DeleteAfterSet(t: seq<TypingUser>, u: TypingUser)
    ensures TypingDelete(TypingSet(t, u), u.userId) == TypingDelete(t, u.userId)
  {
    if t != [] && t[0].userId != u.userId {
      DeleteAfterSet(t[1..], u);
      assert TypingSet(t, u) == [t[0]] + TypingSet(t[1..], u);
    }
  }

  /** `Array.from(typingUsers.values()).map((u) => u.name)`. */
  function Names(t: seq<TypingUser>): (names: seq<string>)
    ensures |names| == |t|
    ensures forall i :: 0 <= i < |t| ==> names[i] == t[i].name
  {
    if t == [] then [] else [t[0].name] + Names(t[1..])
  }

  predicate EndsWith(s: string, suffix: string) {
    |suffix| <= |s| && s[|s| - |suffix|..] == suffix
  }

  /**
   * The typing line under the message list: shown only while the map is not
   * empty; the names joined with ", ", then "is" for one user and "are" for
   * more, then "typing...".
   */
  function TypingLabel(t: seq<TypingUser>): (line: Option<string>)
    ensures line.None? <==> t == []
    ensures |t| == 1 ==> line == Some(t[0].name + " is typing...")
    ensures |t| > 1 ==> line.Some? && t[0].name + ", " <= line.value
    ensures |t| > 1 ==> line == Some(Join(Names(t), ", ") + " are typing...")
    ensures |t| > 1 ==> EndsWith(line.value, " are typing...")
  {
    if t == [] then None
    else
      var joined := Join(Names(t), ", ");
      var tail := if |t| == 1 then " is typing..." else " are typing...";
      assert (joined + tail)[|joined + tail| - |tail|..] == tail;
      assert |t| == 1 ==> joined == t[0].name by {
        if |t| == 1 {
          assert Names(t) == [t[0].name];
        }
      }
      Some(joined + tail)
  }

  /**
   * Someone new starting to type while others are typing adds ", " and their
   * name at the end of the typing line's list of names.
   */
  lemma NewTypistJoinsLabelLast(t: seq<TypingUser>, u: TypingUser)
    requires t != [] && !HasUser(t, u.userId)
    ensures TypingLabel(TypingSet(t, u)) == Some(Join(Names(t), ", ") + ", " + u.name + " are typing...")
  {
    assert Names(t + [u]) == Names(t) + [u.name];
    JoinSnoc(Names(t), u.name, ", ");
  }

  /**
   * The red badge on a room card: hidden when the room has no count or a count
   * of 0, "99+" above 99, otherwise the count in decimal.
   */
  function UnreadBadge(counts: UnreadMessages.Counts, roomId: RoomId): (badge: Option<string>)
    ensures badge.None? <==> UnreadMessages.CountOf(counts, roomId) == 0
    ensures badge == Some("99+") <==> UnreadMessages.CountOf(counts, roomId) > BadgeMax
    ensures 0 < UnreadMessages.CountOf(counts, roomId) <= BadgeMax ==>
      && badge.Some? && badge.value != [] && AllDigits(badge.value) && badge.value[0] != '0'
      && DecimalValue(badge.value) == UnreadMessages.CountOf(counts, roomId)
  {
    var n := UnreadMessages.CountOf(counts, roomId);
    if n == 0 then None
    else if n > BadgeMax then Some("99+")
    else
      DecimalValueOfNatToString(n);
      assert "99+"[2] == '+';
      Some(NatToString(n))
  }

  /** The state of the chat screen. */
  class ChatView {
    /** The signed-in user and profile (from the auth context, which is not part of this model). */
    const user: Option<UserId>
    const profile: Option<Profile>

    var selectedRoom: Option<RoomId>
    var messages: seq<ExtendedChatMessage>
    var typingUsers: seq<TypingUser>
    /** The typing expiry timers not yet fired, oldest first. */
    var pendingRemovals: seq<PendingRemoval>
    /** The time of the latest event seen, in milliseconds. */
    var clock: int
    var newMessage: string
    /** Whether `typingTimeoutRef` holds a live timer. */
    var typingTimeoutArmed: bool

    /**
     * The typing map has distinct keys, and the pending timers, all scheduled
     * with the same delay from a clock that only moves forward, are in the
     * order in which they fall due.
     */
    ghost predicate Valid()
      reads this
    {
      && UniqueTypingIds(typingUsers)
      && (forall i, j :: 0 <= i < j < |pendingRemovals| ==> pendingRemovals[i].dueAt <= pendingRemovals[j].dueAt)
      && (forall i :: 0 <= i < |pendingRemovals| ==> pendingRemovals[i].dueAt <= clock + TypingExpiryMs)
    }

    constructor (user: Option<UserId>, profile: Option<Profile>, now: int)
      ensures Valid()
      ensures this.user == user && this.profile == profile && clock == now
      ensures selectedRoom == None && messages == [] && typingUsers == [] && pendingRemovals == []
      ensures newMessage == "" && !typingTimeoutArmed
    {
      this.user := user;
      this.profile := profile;
      selectedRoom := None;
      messages := [];
      typingUsers := [];
      pendingRemovals := [];
      clock := now;
      newMessage := "";
      typingTimeoutArmed := false;
    }

    /** `payload.user_id !== user?.id` is false: the signal is the viewer's own. */
    function IsSelf(userId: UserId): (own: bool)
      reads this
      ensures own <==> user == Some(userId)
    {
      user.Some? && user.value == userId
    }

    /**
     * Opening a room (the effect on `selectedRoom`): both the message list and
     * the typing map are emptied, and the unread tracker marks the room read at
     * `now`. Selecting the room that is already open changes nothing, as React
     * does not re-run the effect. Timers already scheduled keep running.
     */
    method SelectRoom(roomId: RoomId, tracker: UnreadMessages.UnreadTracker, now: string)
      requires Valid()
      modifies this`selectedRoom, this`messages, this`typingUsers, tracker`storage, tracker`unreadCounts
      ensures Valid() && selectedRoom == Some(roomId) && pendingRemovals == old(pendingRemovals)
      ensures old(selectedRoom) == Some(roomId) ==>
        messages == old(messages) && typingUsers == old(typingUsers)
        && tracker.storage == old(tracker.storage) && tracker.unreadCounts == old(tracker.unreadCounts)
      ensures old(selectedRoom) != Some(roomId) ==> messages == [] && typingUsers == []
      ensures old(selectedRoom) != Some(roomId) && tracker.user.None? ==>
        tracker.storage == old(tracker.storage) && tracker.unreadCounts == old(tracker.unreadCounts)
      ensures old(selectedRoom) != Some(roomId) && tracker.user.Some? ==>
        && tracker.storage == UnreadMessages.Stamp(old(tracker.storage), tracker.user.value, roomId, now)
        && tracker.unreadCounts == UnreadMessages.MarkedRead(old(tracker.unreadCounts), roomId)
    {
      if selectedRoom == Some(roomId) {
        return;
      }
      selectedRoom := Some(roomId);
      messages := [];
      typingUsers := [];
      tracker.MarkRoomAsRead(roomId, now);
    }

    /** The back buttons: `setSelectedRoom(null)`. The lists are left as they are. */
    method LeaveRoom()
      modifies this`selectedRoom
      ensures selectedRoom == None
    {
      selectedRoom := None;
    }

    /**
     * The backfill result of `fetchMessages` (None for an error or no data): on
     * success the list is replaced by the rows, in order, each with its sender
     * name; otherwise it is left as it is.
     */
    method ApplyBackfill(fetched: Option<seq<BackfillRow>>)
      modifies this`messages
      ensures fetched.None? ==> messages == old(messages)
      ensures fetched.Some? ==> messages == FormatBackfill(fetched.value)
    {
      if fetched.Some? {
        messages := FormatBackfill(fetched.value);
      }
    }

    /**
     * The room's live INSERT handler, given the message and its author's looked
     * up profile name: the message is appended unless its id is listed, and its
     * author stops "typing" while every other typing user stays.
     */
    method OnMessageInsert(msg: ChatMessage, profileName: Option<string>)
      requires Valid()
      modifies this`messages, this`typingUsers
      ensures Valid()
      ensures messages == AppendIfNew(old(messages), WithSender(msg, profileName))
      ensures typingUsers == TypingDelete(old(typingUsers), msg.userId)
    {
      messages := AppendIfNew(messages, WithSender(msg, profileName));
      TypingDeleteKeepsUnique(typingUsers, msg.userId);
      typingUsers := TypingDelete(typingUsers, msg.userId);
    }

    /**
     * A `user_typing` broadcast received at time `now`: the viewer's own signal
     * is ignored; anyone else is set in the typing map (overwriting an entry
     * under the same id) and one removal of that id is scheduled 3000 ms later.
     */
    method OnTypingSignal(userId: UserId, name: string, now: int)
      requires Valid() && now >= clock
      modifies this`typingUsers, this`pendingRemovals, this`clock
      ensures Valid() && clock == now
      ensures IsSelf(userId) ==> typingUsers == old(typingUsers) && pendingRemovals == old(pendingRemovals)
      ensures !IsSelf(userId) ==>
        && typingUsers == TypingSet(old(typingUsers), TypingUser(userId, name))
        && pendingRemovals == old(pendingRemovals) + [PendingRemoval(userId, now + TypingExpiryMs)]
    {
      clock := now;
      if IsSelf(userId) {
        return;
      }
      TypingSetKeepsUnique(typingUsers, TypingUser(userId, name));
      typingUsers := TypingSet(typingUsers, TypingUser(userId, name));
      pendingRemovals := pendingRemovals + [PendingRemoval(userId, now + TypingExpiryMs)];
    }

    /**
     * The earliest scheduled typing timer fires: its user is deleted from the
     * typing map whether or not a later signal refreshed them. With no timer
     * pending nothing happens.
     */
    method FireNextTypingTimer()
      requires Valid()
      modifies this`typingUsers, this`pendingRemovals, this`clock
      ensures Valid()
      ensures old(pendingRemovals) == [] ==>
        typingUsers == old(typingUsers) && pendingRemovals == [] && clock == old(clock)
      ensures old(pendingRemovals) != [] ==>
        && (forall p :: p in old(pendingRemovals) ==> old(pendingRemovals)[0].dueAt <= p.dueAt)
        && typingUsers == TypingDelete(old(typingUsers), old(pendingRemovals)[0].userId)
        && pendingRemovals == old(pendingRemovals)[1..]
        && clock == if old(clock) < old(pendingRemovals)[0].dueAt then old(pendingRemovals)[0].dueAt else old(clock)
    {
      if pendingRemovals == [] {
        return;
      }
      var due := pendingRemovals[0];
      TypingDeleteKeepsUnique(typingUsers, due.userId);
      typingUsers := TypingDelete(typingUsers, due.userId);
      pendingRemovals := pendingRemovals[1..];
      if clock < due.dueAt {
        clock := due.dueAt;
      }
    }

    /**
     * `handleInputChange`: the box takes the new text; when the text is not
     * blank, `broadcastTyping` sends a signal, provided a room is open and a
     * user and profile are present, and re-arms its timer. It sends on every
     * such call.
     */
    method HandleInputChange(value: string) returns (sent: Option<TypingPayload>)
      modifies this`newMessage, this`typingTimeoutArmed
      ensures newMessage == value
      ensures sent.Some? <==> Trim(value) != "" && selectedRoom.Some? && user.Some? && profile.Some?
      ensures sent.Some? ==> sent.value == TypingPayload(user.value, profile.value.name, selectedRoom.value)
      ensures typingTimeoutArmed == (sent.Some? || old(typingTimeoutArmed))
    {
      newMessage := value;
      sent := None;
      if Trim(value) != "" {
        if selectedRoom.None? || user.None? || profile.None? {
          return;
        }
        sent := Some(TypingPayload(user.value, profile.value.name, selectedRoom.value));
        typingTimeoutArmed := true;
      }
    }

    /** The `typingTimeoutRef` timer fires and clears the ref. */
    method TypingCooldownElapsed()
      modifies this`typingTimeoutArmed
      ensures !typingTimeoutArmed
    {
      typingTimeoutArmed := false;
    }

    /**
     * `sendMessage`: blank input, no open room, no user or no profile sends
     * nothing and keeps the input. Otherwise the trimmed text is inserted into
     * the open room as the user's message and the input is cleared, and put
     * back if the insert throws.
     */
    method SendMessage(insertThrows: bool) returns (sent: Option<OutgoingMessage>)
      modifies this`newMessage
      ensures sent.Some? <==> Trim(old(newMessage)) != "" && selectedRoom.Some? && user.Some? && profile.Some?
      ensures sent.None? ==> newMessage == old(newMessage)
      ensures sent.Some? ==> sent.value == OutgoingMessage(selectedRoom.value, user.value, Trim(old(newMessage)))
      ensures sent.Some? ==> sent.value.message != "" && newMessage == (if insertThrows then sent.value.message else "")
    {
      if Trim(newMessage) == "" || selectedRoom.None? || user.None? || profile.None? {
        return None;
      }
      var text := Trim(newMessage);
      newMessage := "";
      sent := Some(OutgoingMessage(selectedRoom.value, user.value, text));
      if insertThrows {
        newMessage := text;
      }
    }
  }

  /**
   * A user who signals at 0 ms and again at 2000 ms is gone once the first
   * timer fires (at 3000 ms), although the refresh was more recent; the second
   * timer is still pending.
   */
  method RefreshedTypistScenario() returns (typists: seq<TypingUser>, pending: seq<PendingRemoval>)
    ensures typists == []
    ensures pending == [PendingRemoval("u", 5000)]
  {
    var view := new ChatView(Some("me"), Some(Profile("Me", None)), 0);
    view.OnTypingSignal("u", "Uma", 0);
    view.OnTypingSignal("u", "Uma", 2000);
    assert view.typingUsers == [TypingUser("u", "Uma")];
    view.FireNextTypingTimer();
    typists, pending := view.typingUsers, view.pendingRemovals;
  }
}
