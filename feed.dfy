/**
 * The confession feed and its comment threads, as both src/components/Confessions.tsx
 * and src/components/Home.tsx keep them: the same backfill labelling, the same
 * live updaters for the confession list and the comment map, the same
 * `formatDate` and `getInitial`. What the two files do differently (posting and
 * deleting a comment) is in the modules `Confessions` and `Home`.
 *
 * The confession list prepends every live insert and filters on delete; it
 * never checks for duplicates. The comment map is a `Record<string, Comment[]>`,
 * where a missing key reads as an empty list.
 */
module Feed {
  import opened Wrappers
  import opened Text
  import opened Rows

  /** A confession as listed: the row plus the anonymous author label. */
  datatype Confession = Confession(
    id: ConfessionId,
    userId: UserId,
    content: string,
    createdAt: string,
    authorLabel: string)

  /** A backfill row or an insert payload, with its author's looked up `college_name`. */
  datatype ConfessionSource = ConfessionSource(row: ConfessionRow, collegeName: Option<string>)

  type CommentMap = map<ConfessionId, seq<Comment>>

  /** The per-confession comment widgets of one feed screen. */
  datatype CommentUi = CommentUi(
    comments: CommentMap,
    commentText: map<ConfessionId, string>,
    showCommentInput: map<ConfessionId, bool>,
    postingComment: map<ConfessionId, bool>)

  const LabelPrefix := "Someone from "
  /** The college named when the author's college is missing or empty. */
  const DefaultCollege := "DU"

  /**
   * `college_name ? \`Someone from ${college_name}\` : 'Someone from DU'`: every
   * label starts "Someone from ", followed by the college when there is a
   * non-empty one and by "DU" otherwise.
   */
  function AuthorLabel(collegeName: Option<string>): (a: string)
    ensures LabelPrefix <= a
    ensures collegeName.Some? && collegeName.value != "" ==> a[|LabelPrefix|..] == collegeName.value
    ensures collegeName.None? || collegeName.value == "" ==> a[|LabelPrefix|..] == DefaultCollege
  {
    LabelPrefix + (if collegeName.Some? && collegeName.value != "" then collegeName.value else DefaultCollege)
  }

  /** The object the backfill `map` and the live INSERT handler build. */
  function Labelled(s: ConfessionSource): (c: Confession)
    ensures c.id == s.row.id && c.userId == s.row.userId
    ensures c.content == s.row.content && c.createdAt == s.row.createdAt
    ensures c.authorLabel == AuthorLabel(s.collegeName)
  {
    Confession(s.row.id, s.row.userId, s.row.content, s.row.createdAt, AuthorLabel(s.collegeName))
  }

  /** `data.map(...)` in `fetchConfessions`: the rows in the server's order, each labelled. */
  function FormatConfessions(rows: seq<ConfessionSource>): (r: seq<Confession>)
    ensures |r| == |rows|
    ensures forall i :: 0 <= i < |rows| ==> r[i] == Labelled(rows[i])
  {
    if rows == [] then [] else [Labelled(rows[0])] + FormatConfessions(rows[1..])
  }

  /** The live confession INSERT updater: the new item goes to index 0 and the rest shift by one, unchanged. */
  function InsertConfession(prev: seq<Confession>, c: Confession): (r: seq<Confession>)
    ensures |r| == |prev| + 1 && r[0] == c && r[1..] == prev
  {
    [c] + prev
  }

  /** How many listed confessions carry `id`. */
  function Occurrences(cs: seq<Confession>, id: ConfessionId): nat {
    if cs == [] then 0 else (if cs[0].id == id then 1 else 0) + Occurrences(cs[1..], id)
  }

  /** There is no duplicate check: a repeated INSERT event lists the confession once more. */
  lemma InsertConfessionCountsEveryDelivery(prev: seq<Confession>, c: Confession)
    ensures Occurrences(InsertConfession(prev, c), c.id) == Occurrences(prev, c.id) + 1
    ensures Occurrences(InsertConfession(InsertConfession(prev, c), c), c.id) == Occurrences(prev, c.id) + 2
  {
    assert InsertConfession(prev, c)[1..] == prev;
    assert InsertConfession(InsertConfession(prev, c), c)[1..] == InsertConfession(prev, c);
  }

  /**
   * The live confession DELETE updater, `prev.filter((c) => c.id !== id)`: no
   * confession with that id is left, every other one stays, nothing new
   * appears, and a list without the id is returned unchanged.
   */
  function DeleteConfession(prev: seq<Confession>, id: ConfessionId): (r: seq<Confession>)
    ensures |r| <= |prev|
    ensures forall c :: c in r ==> c in prev && c.id != id
    ensures forall c :: c in prev && c.id != id ==> c in r
    ensures (forall c :: c in prev ==> c.id != id) ==> r == prev
    ensures Occurrences(r, id) == 0
  {
    if prev == [] then []
    else if prev[0].id == id then DeleteConfession(prev[1..], id)
    else [prev[0]] + DeleteConfession(prev[1..], id)
  }

  /** Deleting keeps the survivors in their order: filtering a concatenation filters each part. */
  lemma {:induction false} DeleteConfessionDistributes(a: seq<Confession>, b: seq<Confession>, id: ConfessionId)
    ensures DeleteConfession(a + b, id) == DeleteConfession(a, id) + DeleteConfession(b, id)
  {
    if a != [] {
      assert (a + b)[0] == a[0] && (a + b)[1..] == a[1..] + b;
      DeleteConfessionDistributes(a[1..], b, id);
      if a[0].id == id {
        assert DeleteConfession(a + b, id) == DeleteConfession(a[1..] + b, id);
      } else {
        assert DeleteConfession(a + b, id) == [a[0]] + DeleteConfession(a[1..] + b, id);
      }
    } else {
      assert a + b == b;
    }
  }

  /** A second delete event for the same id changes nothing. */
  lemma DeleteConfessionIdempotent(prev: seq<Confession>, id: ConfessionId)
    ensures DeleteConfession(DeleteConfession(prev, id), id) == DeleteConfession(prev, id)
  {
  }

  /** Deleting a just inserted confession's id leaves what deleting it before the insert leaves. */
  lemma DeleteAfterInsert(prev: seq<Confession>, c: Confession)
    ensures DeleteConfession(InsertConfession(prev, c), c.id) == DeleteConfession(prev, c.id)
  {
    assert InsertConfession(prev, c)[1..] == prev;
  }

  /** `prev[confessionId] || []`. */
  function CommentsFor(m: CommentMap, cid: ConfessionId): (cs: seq<Comment>)
    ensures cid !in m ==> cs == []
    ensures cid in m ==> cs == m[cid]
  {
    if cid in m then m[cid] else []
  }

  /**
   * `loadComments`: a fetched list (in the server's `created_at` order)
   * replaces that confession's entry; no data leaves the map as it is. Other
   * confessions' lists are unchanged either way.
   */
  function LoadComments(m: CommentMap, cid: ConfessionId, data: Option<seq<Comment>>): (r: CommentMap)
    ensures data.None? ==> r == m
    ensures data.Some? ==> r.Keys == m.Keys + {cid} && r[cid] == data.value
    ensures forall k :: k in m && k != cid ==> k in r && r[k] == m[k]
  {
    if data.Some? then m[cid := data.value] else m
  }

  /**
   * The live comment INSERT updater: the comment is appended to its
   * confession's list, which is created when absent; every other list is
   * unchanged and no other key appears.
   */
  function CommentInserted(m: CommentMap, c: Comment): (r: CommentMap)
    ensures r.Keys == m.Keys + {c.confessionId}
    ensures CommentsFor(r, c.confessionId) == CommentsFor(m, c.confessionId) + [c]
    ensures forall k :: k in m && k != c.confessionId ==> r[k] == m[k]
  {
    m[c.confessionId := CommentsFor(m, c.confessionId) + [c]]
  }

  /** `.filter((c) => c.id !== commentId)` on one comment list. */
  function RemoveComment(cs: seq<Comment>, commentId: CommentId): (r: seq<Comment>)
    ensures |r| <= |cs|
    ensures forall c :: c in r ==> c in cs && c.id != commentId
    ensures forall c :: c in cs && c.id != commentId ==> c in r
    ensures (forall c :: c in cs ==> c.id != commentId) ==> r == cs
  {
    if cs == [] then []
    else if cs[0].id == commentId then RemoveComment(cs[1..], commentId)
    else [cs[0]] + RemoveComment(cs[1..], commentId)
  }

  lemma {:induction false} RemoveCommentDistributes(a: seq<Comment>, b: seq<Comment>, commentId: CommentId)
    ensures RemoveComment(a + b, commentId) == RemoveComment(a, commentId) + RemoveComment(b, commentId)
  {
    if a != [] {
      assert (a + b)[0] == a[0] && (a + b)[1..] == a[1..] + b;
      RemoveCommentDistributes(a[1..], b, commentId);
      if a[0].id == commentId {
        assert RemoveComment(a + b, commentId) == RemoveComment(a[1..] + b, commentId);
      } else {
        assert RemoveComment(a + b, commentId) == [a[0]] + RemoveComment(a[1..] + b, commentId);
      }
    } else {
      assert a + b == b;
    }
  }

  /**
   * The comment DELETE updater, shared by the live handler of both screens and
   * the delete handler of the Tea screen: only that comment leaves its
   * confession's list, a missing list counts as empty (and is created empty),
   * and every other list is unchanged.
   */
  function CommentDeleted(m: CommentMap, cid: ConfessionId, commentId: CommentId): (r: CommentMap)
    ensures r.Keys == m.Keys + {cid}
    ensures CommentsFor(r, cid) == RemoveComment(CommentsFor(m, cid), commentId)
    ensures forall k :: k in m && k != cid ==> r[k] == m[k]
  {
    m[cid := RemoveComment(CommentsFor(m, cid), commentId)]
  }

  /**
   * A comment that arrives and is then deleted leaves its confession's thread
   * as it was, when no listed comment already had its id.
   */
  lemma InsertThenDeleteComment(m: CommentMap, c: Comment)
    requires forall x :: x in CommentsFor(m, c.confessionId) ==> x.id != c.id
    ensures CommentsFor(CommentDeleted(CommentInserted(m, c), c.confessionId, c.id), c.confessionId)
         == CommentsFor(m, c.confessionId)
  {
    RemoveCommentDistributes(CommentsFor(m, c.confessionId), [c], c.id);
  }

  /**
   * The reply button's updater, `!prev[confession.id]`: a missing flag reads
   * false, so the first click opens the box; no other confession's flag changes.
   */
  function ToggleCommentInput(show: map<ConfessionId, bool>, cid: ConfessionId): (r: map<ConfessionId, bool>)
    ensures r.Keys == show.Keys + {cid}
    ensures r[cid] == !(cid in show && show[cid])
    ensures forall k :: k in show && k != cid ==> r[k] == show[k]
  {
    show[cid := !(cid in show && show[cid])]
  }

  /** Two clicks restore the flag as it read before. */
  lemma ToggleCommentInputTwice(show: map<ConfessionId, bool>, cid: ConfessionId)
    ensures var r := ToggleCommentInput(ToggleCommentInput(show, cid), cid);
            r[cid] == (cid in show && show[cid])
  {
  }

  /** What `formatDate` renders: a relative text, or the locale's month and day. */
  datatype DateLabel = Relative(text: string) | CalendarDate

  const MinuteMs: nat := 60000
  const HourMs: nat := 3600000
  const DayMs: nat := 86400000
  const WeekDays: nat := 7

  /** `${n}m ago` and its kin: the count, the unit letter, " ago". */
  function Ago(n: nat, unit: char): string {
    NatToString(n) + [unit] + " ago"
  }

  /**
   * `text` reads "<n><unit> ago" for a decimal `n` in `[lo, hi)`, written
   * without a leading zero, such that `elapsedMs` lies in the `n`-th whole
   * unit of `unitMs` milliseconds.
   */
  predicate ShowsAgo(text: string, unit: char, unitMs: nat, lo: nat, hi: nat, elapsedMs: int) {
    && |text| > 5
    && text[|text| - 5..] == [unit] + " ago"
    && AllDigits(text[..|text| - 5])
    && text[0] != '0'
    && var n := DecimalValue(text[..|text| - 5]);
       lo <= n < hi && n * unitMs <= elapsedMs < (n + 1) * unitMs
  }

  lemma AgoShows(n: nat, unit: char, unitMs: nat, lo: nat, hi: nat, elapsedMs: int)
    requires 0 < lo <= n < hi && n * unitMs <= elapsedMs < (n + 1) * unitMs
    ensures ShowsAgo(Ago(n, unit), unit, unitMs, lo, hi, elapsedMs)
  {
    var t := Ago(n, unit);
    assert t == NatToString(n) + ([unit] + " ago");
    assert t[..|t| - 5] == NatToString(n);
    DecimalValueOfNatToString(n);
  }

  /**
   * `formatDate`, given the elapsed milliseconds as an integer: "now" under a
   * minute (a timestamp in the future included), whole minutes under an hour,
   * whole hours under a day, whole days under a week, and the calendar date
   * from seven days on. Counts are floors of the elapsed time.
   */
  function FormatDate(elapsedMs: int): (d: DateLabel)
    ensures d == Relative("now") <==> elapsedMs < MinuteMs
    ensures MinuteMs <= elapsedMs < HourMs ==> d.Relative? && ShowsAgo(d.text, 'm', MinuteMs, 1, 60, elapsedMs)
    ensures HourMs <= elapsedMs < DayMs ==> d.Relative? && ShowsAgo(d.text, 'h', HourMs, 1, 24, elapsedMs)
    ensures DayMs <= elapsedMs < WeekDays * DayMs ==> d.Relative? && ShowsAgo(d.text, 'd', DayMs, 1, WeekDays, elapsedMs)
    ensures d == CalendarDate <==> elapsedMs >= WeekDays * DayMs
  {
    var diffMins := elapsedMs / MinuteMs;
    var diffHours := elapsedMs / HourMs;
    var diffDays := elapsedMs / DayMs;
    if diffMins < 1 then Relative("now")
    else if diffMins < 60 then
      AgoShows(diffMins, 'm', MinuteMs, 1, 60, elapsedMs);
      Relative(Ago(diffMins, 'm'))
    else if diffHours < 24 then
      AgoShows(diffHours, 'h', HourMs, 1, 24, elapsedMs);
      Relative(Ago(diffHours, 'h'))
    else if diffDays < WeekDays then
      AgoShows(diffDays, 'd', DayMs, 1, WeekDays, elapsedMs);
      Relative(Ago(diffDays, 'd'))
    else CalendarDate
  }

  /**
   * `name?.charAt(0)?.toUpperCase() || 'U'`: one character, "U" for a missing
   * or empty name, otherwise the name's first character upper-cased, so never
   * a lower-case letter.
   */
  function GetInitial(name: Option<string>): (i: string)
    ensures |i| == 1 && !('a' <= i[0] <= 'z')
    ensures name.None? || name.value == "" ==> i == "U"
    ensures name.Some? && name.value != "" ==> i[0] == ToUpper(name.value[0])
  {
    if name.Some? && name.value != "" then [ToUpper(name.value[0])] else "U"
  }

  /** Every anonymous author label has the initial "S". */
  lemma InitialOfAuthorLabel(collegeName: Option<string>)
    ensures GetInitial(Some(AuthorLabel(collegeName))) == "S"
  {
    assert AuthorLabel(collegeName)[0] == LabelPrefix[0];
  }
}
