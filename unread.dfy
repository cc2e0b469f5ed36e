/**
 * The unread tracker of src/contexts/UnreadMessagesContext.tsx.
 *
 * A per-user, per-room "last viewed" watermark lives in the browser's
 * localStorage under the key `lastViewed_<userId>_<roomId>`. The tracker keeps
 * `unreadCounts`, a map from room id to count, which it rebuilds from the
 * message table (`RefreshUnreadCounts`), bumps on every INSERT event of the
 * global `chat_messages` stream (`OnMessageInsert`) and zeroes when a room is
 * opened (`MarkRoomAsRead`). The total is the sum of the map's values.
 *
 * The server is modelled by the sequence of `chat_messages` rows it holds; a
 * count query is the number of rows passing the query's filters.
 */
module UnreadMessages {
  import opened Wrappers
  import opened Text
  import opened Rows

  /** The browser's localStorage: string keys to string values. */
  type Storage = map<string, string>

  /** `unreadCounts`: room id to number of unread messages. */
  type Counts = map<RoomId, nat>

  const KeyPrefix: string := "lastViewed_"

  /**
   * The localStorage key of a watermark, `lastViewed_<user>_<room>`; one
   * definition serves both reads and writes.
   */
  function LastViewedKey(userId: UserId, roomId: RoomId): (key: string)
    ensures |key| == |KeyPrefix| + |userId| + 1 + |roomId|
    ensures key[..|KeyPrefix|] == KeyPrefix
    ensures key[|KeyPrefix|..|KeyPrefix| + |userId|] == userId
    ensures key[|KeyPrefix| + |userId|] == '_'
    ensures key[|KeyPrefix| + |userId| + 1..] == roomId
  {
    KeyPrefix + userId + "_" + roomId
  }

  /**
   * While user ids contain no underscore (they are UUIDs), two different
   * (user, room) pairs never share a watermark key.
   */
  lemma LastViewedKeyInjective(u1: UserId, r1: RoomId, u2: UserId, r2: RoomId)
    requires '_' !in u1 && '_' !in u2
    requires LastViewedKey(u1, r1) == LastViewedKey(u2, r2)
    ensures u1 == u2 && r1 == r2
  {
    var k1, k2 := LastViewedKey(u1, r1), LastViewedKey(u2, r2);
    var p := |KeyPrefix|;
    assert forall i :: 0 <= i < |u1| ==> k1[p + i] == u1[i];
    assert forall i :: 0 <= i < |u2| ==> k2[p + i] == u2[i];
    assert k1[p + |u1|] == '_' && k2[p + |u2|] == '_';
    assert |u1| == |u2|;
    assert u1 == k1[p..p + |u1|] == k2[p..p + |u2|] == u2;
    assert r1 == k1[p + |u1| + 1..] == k2[p + |u2| + 1..] == r2;
  }

  /** `localStorage.getItem(key)`: `null` (None) when nothing is stored under the key. */
  function Lookup(storage: Storage, userId: UserId, roomId: RoomId): (r: Option<string>)
    ensures r.Some? <==> LastViewedKey(userId, roomId) in storage
    ensures r.Some? ==> r.value == storage[LastViewedKey(userId, roomId)]
  {
    var key := LastViewedKey(userId, roomId);
    if key in storage then Some(storage[key]) else None
  }

  /**
   * `localStorage.setItem(key, now)`: a later stamp always overwrites an earlier
   * one, and the stamped value is what the lookup then returns; no other key
   * changes.
   */
  function Stamp(storage: Storage, userId: UserId, roomId: RoomId, now: string): (s: Storage)
    ensures Lookup(s, userId, roomId) == Some(now)
    ensures s.Keys == storage.Keys + {LastViewedKey(userId, roomId)}
    ensures forall k :: k in storage && k != LastViewedKey(userId, roomId) ==> s[k] == storage[k]
  {
    storage[LastViewedKey(userId, roomId) := now]
  }

  /** Stamping one room leaves the watermark of every other (user, room) pair as it was. */
  lemma StampKeepsOtherWatermarks(storage: Storage, u: UserId, r: RoomId, now: string, u2: UserId, r2: RoomId)
    requires '_' !in u && '_' !in u2
    requires u2 != u || r2 != r
    ensures Lookup(Stamp(storage, u, r, now), u2, r2) == Lookup(storage, u2, r2)
  {
    if LastViewedKey(u2, r2) == LastViewedKey(u, r) {
      LastViewedKeyInjective(u2, r2, u, r);
    }
  }

  /** `prev[roomId] || 0`: a room with no entry counts as 0. */
  function CountOf(counts: Counts, roomId: RoomId): (n: nat)
    ensures roomId !in counts ==> n == 0
    ensures roomId in counts ==> n == counts[roomId]
  {
    if roomId in counts then counts[roomId] else 0
  }

  /** `{ ...prev, [roomId]: 0 }`: the room reads 0; every other room is left as it was. */
  function MarkedRead(prev: Counts, roomId: RoomId): (r: Counts)
    ensures roomId in r && r[roomId] == 0
    ensures r.Keys == prev.Keys + {roomId}
    ensures forall k :: k in prev && k != roomId ==> r[k] == prev[k]
  {
    prev[roomId := 0]
  }

  /** `!lastViewed`: both a missing watermark and an empty string count as "never viewed". */
  function NoWatermark(lastViewed: Option<string>): (never: bool)
    ensures !never ==> lastViewed.Some? && |lastViewed.value| > 0
    ensures never ==> lastViewed.None? || |lastViewed.value| == 0
  {
    lastViewed.None? || lastViewed.value == ""
  }

  /** `created_at > watermark`, comparing the two timestamps as strings. */
  function CreatedAfter(m: ChatMessage, watermark: string): (after: bool)
    ensures after <==> LexLess(watermark, m.createdAt)
    ensures after ==> m.createdAt != watermark
  {
    LexLess(watermark, m.createdAt)
  }

  /**
   * The live handler's test: not the viewer's own message, and either the room
   * was never viewed or the message's `created_at` is greater, as a string,
   * than the watermark.
   */
  function CountsAsUnread(msg: ChatMessage, self: UserId, lastViewed: Option<string>): (unread: bool)
    ensures unread ==> msg.userId != self
    ensures unread <==> MatchesQuery(msg, msg.roomId, self, if NoWatermark(lastViewed) then None else lastViewed)
  {
    msg.userId != self && (NoWatermark(lastViewed) || CreatedAfter(msg, lastViewed.value))
  }

  /**
   * The counts after one INSERT event of the global stream, given the viewer and
   * the watermark of the message's room. Own messages and messages at or before
   * the watermark change nothing; otherwise the message's room goes up by
   * exactly one, starting from 0 when absent, and no other room changes.
   */
  function AfterLiveInsert(prev: Counts, msg: ChatMessage, self: UserId, lastViewed: Option<string>): (r: Counts)
    ensures msg.userId == self ==> r == prev
    ensures !NoWatermark(lastViewed) && !CreatedAfter(msg, lastViewed.value) ==> r == prev
    ensures CountOf(r, msg.roomId) == CountOf(prev, msg.roomId) + (if CountsAsUnread(msg, self, lastViewed) then 1 else 0)
    ensures r.Keys == prev.Keys + (if CountsAsUnread(msg, self, lastViewed) then {msg.roomId} else {})
    ensures forall k :: k in prev && k != msg.roomId ==> r[k] == prev[k]
  {
    if msg.userId == self then prev
    else if NoWatermark(lastViewed) || CreatedAfter(msg, lastViewed.value) then
      prev[msg.roomId := CountOf(prev, msg.roomId) + 1]
    else prev
  }

  /** The filters of one count query: `.eq('room_id')`, `.neq('user_id')` and, when given, `.gt('created_at')`. */
  function MatchesQuery(m: ChatMessage, roomId: RoomId, self: UserId, after: Option<string>): (passes: bool)
    ensures passes ==> m.roomId == roomId && m.userId != self
    ensures after.None? ==> (passes <==> m.roomId == roomId && m.userId != self)
    ensures after.Some? ==> (passes <==> m.roomId == roomId && m.userId != self && LexLess(after.value, m.createdAt))
  {
    m.roomId == roomId && m.userId != self && (after.None? || CreatedAfter(m, after.value))
  }

  /** The `count: 'exact'` result of a query over the server's messages. */
  function CountMatching(msgs: seq<ChatMessage>, roomId: RoomId, self: UserId, after: Option<string>): (n: nat)
    ensures n <= |msgs|
  {
    if msgs == [] then 0
    else
      CountMatching(msgs[..|msgs| - 1], roomId, self, after)
      + (if MatchesQuery(msgs[|msgs| - 1], roomId, self, after) then 1 else 0)
  }

  /** The positions of the messages that pass a query's filters. */
  ghost function MatchingPositions(msgs: seq<ChatMessage>, roomId: RoomId, self: UserId, after: Option<string>): set<int> {
    set i | 0 <= i < |msgs| && MatchesQuery(msgs[i], roomId, self, after)
  }

  /** Extending the table by one message adds its position exactly when it passes the filters. */
  lemma MatchingPositionsSnoc(msgs: seq<ChatMessage>, roomId: RoomId, self: UserId, after: Option<string>)
    requires msgs != []
    ensures var n := |msgs| - 1;
            MatchingPositions(msgs, roomId, self, after)
            == MatchingPositions(msgs[..n], roomId, self, after)
               + (if MatchesQuery(msgs[n], roomId, self, after) then {n} else {})
  {
    var n := |msgs| - 1;
    var init := msgs[..n];
    assert forall i :: 0 <= i < n ==> init[i] == msgs[i];
  }

  /** The count is the number of positions whose message passes the filters. */
  lemma {:induction false} CountMatchingIsCardinality(msgs: seq<ChatMessage>, roomId: RoomId, self: UserId, after: Option<string>)
    ensures CountMatching(msgs, roomId, self, after) == |MatchingPositions(msgs, roomId, self, after)|
  {
    if msgs != [] {
      var n := |msgs| - 1;
      CountMatchingIsCardinality(msgs[..n], roomId, self, after);
      MatchingPositionsSnoc(msgs, roomId, self, after);
      assert n !in MatchingPositions(msgs[..n], roomId, self, after);
    }
  }

  /** Appending a message to the server's table adds one to a count exactly when it passes the filters. */
  lemma CountMatchingAppend(msgs: seq<ChatMessage>, m: ChatMessage, roomId: RoomId, self: UserId, after: Option<string>)
    ensures CountMatching(msgs + [m], roomId, self, after)
         == CountMatching(msgs, roomId, self, after) + (if MatchesQuery(m, roomId, self, after) then 1 else 0)
  {
    assert (msgs + [m])[..|msgs|] == msgs;
  }

  /** When every message passes the filters, the count is the number of messages. */
  lemma {:induction false} CountEveryMatch(msgs: seq<ChatMessage>, roomId: RoomId, self: UserId, after: Option<string>)
    requires forall i :: 0 <= i < |msgs| ==> MatchesQuery(msgs[i], roomId, self, after)
    ensures CountMatching(msgs, roomId, self, after) == |msgs|
  {
    if msgs != [] {
      CountEveryMatch(msgs[..|msgs| - 1], roomId, self, after);
    }
  }

  /** The query without a watermark counts the room's messages by anyone but the viewer. */
  lemma CountAllOthers(msgs: seq<ChatMessage>, roomId: RoomId, self: UserId)
    ensures CountMatching(msgs, roomId, self, None)
         == |set i | 0 <= i < |msgs| && msgs[i].roomId == roomId && msgs[i].userId != self|
  {
    CountMatchingIsCardinality(msgs, roomId, self, None);
    assert (set i | 0 <= i < |msgs| && MatchesQuery(msgs[i], roomId, self, None))
        == (set i | 0 <= i < |msgs| && msgs[i].roomId == roomId && msgs[i].userId != self);
  }

  /** The query with watermark `w` also requires `created_at` to be greater than `w`. */
  lemma CountOthersAfter(msgs: seq<ChatMessage>, roomId: RoomId, self: UserId, w: string)
    ensures CountMatching(msgs, roomId, self, Some(w))
         == |set i | 0 <= i < |msgs| && msgs[i].roomId == roomId && msgs[i].userId != self
                                     && CreatedAfter(msgs[i], w)|
  {
    CountMatchingIsCardinality(msgs, roomId, self, Some(w));
    assert (set i | 0 <= i < |msgs| && MatchesQuery(msgs[i], roomId, self, Some(w)))
        == (set i | 0 <= i < |msgs| && msgs[i].roomId == roomId && msgs[i].userId != self
                                    && CreatedAfter(msgs[i], w));
  }

  /**
   * The count `refreshUnreadCounts` stores for one room: with no watermark, the
   * room's messages by anyone but the viewer; with one, those of them whose
   * `created_at` is greater than the watermark.
   */
  function ServerUnreadCount(msgs: seq<ChatMessage>, roomId: RoomId, self: UserId, lastViewed: Option<string>): (n: nat)
    ensures NoWatermark(lastViewed) ==>
      n == |set i | 0 <= i < |msgs| && msgs[i].roomId == roomId && msgs[i].userId != self|
    ensures !NoWatermark(lastViewed) ==>
      n == |set i | 0 <= i < |msgs| && msgs[i].roomId == roomId && msgs[i].userId != self
                                   && CreatedAfter(msgs[i], lastViewed.value)|
  {
    if NoWatermark(lastViewed) then
      CountAllOthers(msgs, roomId, self);
      CountMatching(msgs, roomId, self, None)
    else
      CountOthersAfter(msgs, roomId, self, lastViewed.value);
      CountMatching(msgs, roomId, self, Some(lastViewed.value))
  }

  /**
   * The live increment agrees with recounting: one more message on the server
   * adds one to its room's recount exactly when the live handler increments, and
   * leaves every other room's recount alone.
   */
  lemma LiveInsertAgreesWithRecount(msgs: seq<ChatMessage>, m: ChatMessage, roomId: RoomId, self: UserId, lastViewed: Option<string>)
    ensures ServerUnreadCount(msgs + [m], roomId, self, lastViewed)
         == ServerUnreadCount(msgs, roomId, self, lastViewed)
            + (if roomId == m.roomId && CountsAsUnread(m, self, lastViewed) then 1 else 0)
  {
    if NoWatermark(lastViewed) {
      CountMatchingAppend(msgs, m, roomId, self, None);
    } else {
      CountMatchingAppend(msgs, m, roomId, self, Some(lastViewed.value));
    }
  }

  /** Counts agree with the server for every room in them, under the viewer's watermarks. */
  ghost predicate InSync(counts: Counts, msgs: seq<ChatMessage>, self: UserId, storage: Storage) {
    forall k :: k in counts ==> counts[k] == ServerUnreadCount(msgs, k, self, Lookup(storage, self, k))
  }

  /**
   * Counts that agree with the server keep agreeing after a live INSERT is both
   * stored by the server and applied by the handler, provided the message's
   * room was already refreshed: the incremental rule converges to the recount.
   */
  lemma LiveInsertKeepsInSync(counts: Counts, msgs: seq<ChatMessage>, m: ChatMessage, self: UserId, storage: Storage)
    requires InSync(counts, msgs, self, storage)
    requires m.roomId in counts
    ensures InSync(AfterLiveInsert(counts, m, self, Lookup(storage, self, m.roomId)), msgs + [m], self, storage)
  {
    var after := AfterLiveInsert(counts, m, self, Lookup(storage, self, m.roomId));
    forall k | k in after
      ensures after[k] == ServerUnreadCount(msgs + [m], k, self, Lookup(storage, self, k))
    {
      LiveInsertAgreesWithRecount(msgs, m, k, self, Lookup(storage, self, k));
    }
  }

  /**
   * The counts a refresh produces: exactly the fetched rooms, each with its
   * server count under the current watermark.
   */
  function RefreshedCounts(rooms: seq<RoomId>, msgs: seq<ChatMessage>, self: UserId, storage: Storage): (r: Counts)
    ensures r.Keys == set k | k in rooms
    ensures InSync(r, msgs, self, storage)
  {
    map k | k in rooms :: ServerUnreadCount(msgs, k, self, Lookup(storage, self, k))
  }

  /** Recounting one more room adds that room's server count and keeps the others. */
  lemma RefreshedCountsSnoc(rooms: seq<RoomId>, k: RoomId, msgs: seq<ChatMessage>, self: UserId, storage: Storage)
    ensures RefreshedCounts(rooms + [k], msgs, self, storage)
         == RefreshedCounts(rooms, msgs, self, storage)[k := ServerUnreadCount(msgs, k, self, Lookup(storage, self, k))]
  {
  }

  /**
   * The live handler has no exception for the room on screen: marking a room
   * read and then receiving another user's message stamped after the mark
   * makes that room read 1, which shows once the viewer leaves it.
   */
  lemma OpenRoomStillCounts(counts: Counts, storage: Storage, self: UserId, r: RoomId, now: string, m: ChatMessage)
    requires m.roomId == r && m.userId != self && now != ""
    requires CreatedAfter(m, now)
    ensures CountOf(AfterLiveInsert(MarkedRead(counts, r), m, self, Lookup(Stamp(storage, self, r, now), self, r)), r) == 1
  {
  }

  /**
   * Marking a room read stamps a watermark; a later INSERT whose `created_at`
   * is not after that stamp then leaves the room at 0.
   */
  lemma MarkReadThenEarlierInsert(counts: Counts, storage: Storage, self: UserId, r: RoomId, now: string, m: ChatMessage)
    requires m.roomId == r && now != ""
    requires !CreatedAfter(m, now)
    ensures CountOf(AfterLiveInsert(MarkedRead(counts, r), m, self, Lookup(Stamp(storage, self, r, now), self, r)), r) == 0
  {
  }

  /**
   * After marking a room read at `now`, a recount of a room whose messages are
   * all stamped at or before `now` gives 0.
   */
  lemma {:induction false} RecountAfterMarkRead(msgs: seq<ChatMessage>, storage: Storage, self: UserId, r: RoomId, now: string)
    requires now != ""
    requires forall i :: 0 <= i < |msgs| && msgs[i].roomId == r ==> !CreatedAfter(msgs[i], now)
    ensures ServerUnreadCount(msgs, r, self, Lookup(Stamp(storage, self, r, now), self, r)) == 0
  {
    var lv := Lookup(Stamp(storage, self, r, now), self, r);
    assert lv == Some(now);
    var s := set i | 0 <= i < |msgs| && msgs[i].roomId == r && msgs[i].userId != self
                                    && CreatedAfter(msgs[i], now);
    assert s == {};
  }

  /**
   * A room watermarked at 10:00 that then receives a message from someone else
   * at 10:01 and one of the viewer's own at 10:02 shows one unread message.
   * The timestamps are written as their time of day only; a common date
   * prefix does not change their order (`LexLessSharedPrefix`).
   */
  lemma WatermarkScenario()
    ensures
      var me, other, room := "me", "other", "R";
      var storage := Stamp(map[], me, room, "10:00");
      var m1 := ChatMessage("m1", room, other, "hi", "10:01");
      var m2 := ChatMessage("m2", room, me, "hello", "10:02");
      var c0 := MarkedRead(map[], room);
      var c1 := AfterLiveInsert(c0, m1, me, Lookup(storage, me, room));
      var c2 := AfterLiveInsert(c1, m2, me, Lookup(storage, me, room));
      CountOf(c2, room) == 1
  {
    var w := "10:00";
    assert Lookup(Stamp(map[], "me", "R", w), "me", "R") == Some(w);
    assert LexLess(w[1..], "10:01"[1..]) by {
      assert LexLess(w[2..], "10:01"[2..]) by {
        assert w[2..][1..] == w[3..] && "10:01"[2..][1..] == "10:01"[3..];
      }
    }
  }

  /**
   * A room never opened before whose five messages come from A, B, A, C and B
   * has five unread messages for a viewer who is none of them; once the room is
   * marked read at a later time, a recount gives 0.
   */
  lemma FirstVisitScenario()
    ensures
      var me, room := "me", "R";
      var msgs := [ChatMessage("1", room, "A", "a", "10:01"),
                   ChatMessage("2", room, "B", "b", "10:02"),
                   ChatMessage("3", room, "A", "c", "10:03"),
                   ChatMessage("4", room, "C", "d", "10:04"),
                   ChatMessage("5", room, "B", "e", "10:05")];
      && ServerUnreadCount(msgs, room, me, Lookup(map[], me, room)) == 5
      && ServerUnreadCount(msgs, room, me, Lookup(Stamp(map[], me, room, "11:00"), me, room)) == 0
  {
    var me, room := "me", "R";
    var msgs := [ChatMessage("1", room, "A", "a", "10:01"),
                 ChatMessage("2", room, "B", "b", "10:02"),
                 ChatMessage("3", room, "A", "c", "10:03"),
                 ChatMessage("4", room, "C", "d", "10:04"),
                 ChatMessage("5", room, "B", "e", "10:05")];
    CountEveryMatch(msgs, room, me, None);
    forall i | 0 <= i < |msgs|
      ensures !CreatedAfter(msgs[i], "11:00")
    {
      assert msgs[i].createdAt[1] == '0';
    }
    RecountAfterMarkRead(msgs, map[], me, room, "11:00");
  }

  /**
   * `totalUnreadCount`: the sum of the values of the map. The sum does not
   * depend on the order in which `Object.values` lists them
   * (`TotalUnreadCountRemove`).
   */
  ghost function TotalUnreadCount(counts: Counts): (t: nat)
    ensures counts == map[] ==> t == 0
    decreases |counts|
  {
    if counts == map[] then 0
    else
      var k :| k in counts;
      counts[k] + TotalUnreadCount(counts - {k})
  }

  /** Any room can be taken out of the sum first. */
  lemma {:induction false} TotalUnreadCountRemove(counts: Counts, k: RoomId)
    requires k in counts
    ensures TotalUnreadCount(counts) == counts[k] + TotalUnreadCount(counts - {k})
    decreases |counts|
  {
    var j :| j in counts && TotalUnreadCount(counts) == counts[j] + TotalUnreadCount(counts - {j});
    if j != k {
      TotalUnreadCountRemove(counts - {j}, k);
      TotalUnreadCountRemove(counts - {k}, j);
      assert counts - {j} - {k} == counts - {k} - {j};
    }
  }

  /** Setting one room to `v` changes the total by the difference. */
  lemma TotalUnreadCountUpdate(counts: Counts, k: RoomId, v: nat)
    ensures TotalUnreadCount(counts[k := v]) == TotalUnreadCount(counts) - CountOf(counts, k) + v
  {
    TotalUnreadCountRemove(counts[k := v], k);
    if k in counts {
      TotalUnreadCountRemove(counts, k);
      assert counts[k := v] - {k} == counts - {k};
    } else {
      assert counts[k := v] - {k} == counts;
    }
  }

  /** Marking a room read takes exactly that room's count off the total. */
  lemma TotalAfterMarkRead(counts: Counts, r: RoomId)
    ensures TotalUnreadCount(MarkedRead(counts, r)) == TotalUnreadCount(counts) - CountOf(counts, r)
  {
    TotalUnreadCountUpdate(counts, r, 0);
  }

  /** A live INSERT raises the total by one when it counts and leaves it alone otherwise. */
  lemma TotalAfterLiveInsert(counts: Counts, m: ChatMessage, self: UserId, lastViewed: Option<string>)
    ensures TotalUnreadCount(AfterLiveInsert(counts, m, self, lastViewed))
         == TotalUnreadCount(counts) + (if CountsAsUnread(m, self, lastViewed) then 1 else 0)
  {
    if CountsAsUnread(m, self, lastViewed) {
      TotalUnreadCountUpdate(counts, m.roomId, CountOf(counts, m.roomId) + 1);
    }
  }

  /** The total is 0 exactly when every room reads 0. */
  lemma {:induction false} TotalZeroIff(counts: Counts)
    ensures TotalUnreadCount(counts) == 0 <==> forall k :: k in counts ==> counts[k] == 0
    decreases |counts|
  {
    if counts != map[] {
      var k :| k in counts;
      TotalUnreadCountRemove(counts, k);
      TotalZeroIff(counts - {k});
      assert forall j :: j in counts && j != k ==> j in counts - {k};
    }
  }

  /** The context provider's state. */
  class UnreadTracker {
    /** The signed-in user's id; None while signed out. */
    var user: Option<UserId>
    /** The browser's localStorage, shared with everything else stored there. */
    var storage: Storage
    var unreadCounts: Counts

    constructor (user: Option<UserId>, storage: Storage)
      ensures this.user == user && this.storage == storage && unreadCounts == map[]
    {
      this.user := user;
      this.storage := storage;
      unreadCounts := map[];
    }

    /** `getLastViewed`: null while signed out, otherwise the stored watermark if any. */
    function GetLastViewed(roomId: RoomId): (r: Option<string>)
      reads this
      ensures user.None? ==> r == None
      ensures user.Some? ==> (r.Some? <==> LastViewedKey(user.value, roomId) in storage)
      ensures user.Some? && r.Some? ==> r.value == storage[LastViewedKey(user.value, roomId)]
    {
      if user.None? then None else Lookup(storage, user.value, roomId)
    }

    /**
     * `markRoomAsRead`: with no user nothing happens; otherwise the room's
     * watermark becomes `now`, which `GetLastViewed` then returns, and the room's
     * count becomes 0 with every other count unchanged.
     */
    method MarkRoomAsRead(roomId: RoomId, now: string)
      modifies this`storage, this`unreadCounts
      ensures user.None? ==> storage == old(storage) && unreadCounts == old(unreadCounts)
      ensures user.Some? ==> storage == Stamp(old(storage), user.value, roomId, now)
      ensures user.Some? ==> unreadCounts == MarkedRead(old(unreadCounts), roomId)
      ensures user.Some? ==> GetLastViewed(roomId) == Some(now)
    {
      if user.None? {
        return;
      }
      var key := LastViewedKey(user.value, roomId);
      storage := storage[key := now];
      unreadCounts := unreadCounts[roomId := 0];
    }

    /**
     * `refreshUnreadCounts`, given the room list query's result (None when it
     * returned no data) and the server's messages. Signed out: the map becomes
     * empty. No room list: nothing changes. Otherwise the map is replaced by one
     * whose keys are exactly the fetched rooms, each holding its server count.
     */
    method RefreshUnreadCounts(rooms: Option<seq<RoomId>>, server: seq<ChatMessage>)
      modifies this`unreadCounts
      ensures user.None? ==> unreadCounts == map[]
      ensures user.Some? && rooms.None? ==> unreadCounts == old(unreadCounts)
      ensures user.Some? && rooms.Some? ==> unreadCounts == RefreshedCounts(rooms.value, server, user.value, storage)
      ensures user.Some? && rooms.Some? ==> unreadCounts.Keys == set k | k in rooms.value
    {
      if user.None? {
        unreadCounts := map[];
        return;
      }
      if rooms.None? {
        return;
      }
      var self := user.value;
      var list := rooms.value;
      var counts: Counts := map[];
      for i := 0 to |list|
        invariant counts == RefreshedCounts(list[..i], server, self, storage)
      {
        var roomId := list[i];
        var lastViewed := GetLastViewed(roomId);
        var n;
        if lastViewed.None? || lastViewed.value == "" {
          n := CountMatching(server, roomId, self, None);
        } else {
          n := CountMatching(server, roomId, self, Some(lastViewed.value));
        }
        assert n == ServerUnreadCount(server, roomId, self, Lookup(storage, self, roomId));
        RefreshedCountsSnoc(list[..i], roomId, server, self, storage);
        assert list[..i + 1] == list[..i] + [roomId];
        counts := counts[roomId := n];
      }
      assert list[..|list|] == list;
      unreadCounts := counts;
    }

    /**
     * The handler of the global `chat_messages` INSERT stream. The stream is
     * only subscribed while a user is signed in, so with no user nothing
     * changes; otherwise the counts follow `AfterLiveInsert` under the room's
     * current watermark.
     */
    method OnMessageInsert(msg: ChatMessage)
      modifies this`unreadCounts
      ensures user.None? ==> unreadCounts == old(unreadCounts)
      ensures user.Some? ==> unreadCounts == AfterLiveInsert(old(unreadCounts), msg, user.value, GetLastViewed(msg.roomId))
    {
      if user.None? {
        return;
      }
      if msg.userId == user.value {
        return;
      }
      var lastViewed := GetLastViewed(msg.roomId);
      if lastViewed.None? || lastViewed.value == "" || CreatedAfter(msg, lastViewed.value) {
        unreadCounts := unreadCounts[msg.roomId := CountOf(unreadCounts, msg.roomId) + 1];
      }
    }

    /** The effect that runs when the signed-in user changes: signing out empties the counts. */
    method OnUserChanged(newUser: Option<UserId>)
      modifies this`user, this`unreadCounts
      ensures user == newUser && storage == old(storage)
      ensures newUser.None? ==> unreadCounts == map[]
      ensures newUser.Some? ==> unreadCounts == old(unreadCounts)
    {
      user := newUser;
      if newUser.None? {
        unreadCounts := map[];
      }
    }
  }
}
