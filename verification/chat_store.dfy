/** The `chat_messages` table and `SQLChatMessageRepository`
    (backend/internal/models/chat_message.go).  Messages are soft-deleted by
    a flag that hides them from every read, or hard-deleted by removing the
    row. */
module ChatStore {
  import opened Wrappers
  import opened Sql

  datatype ChatMessage = ChatMessage(
    id: int,
    reportId: int,
    userMessage: string,
    aiResponse: string,
    createdAt: nat,
    isDeleted: bool)

  datatype Store = Store(rows: map<int, ChatMessage>, nextId: int)

  const Empty := Store(map[], 1)

  /** Every row sits under its own id, and every id is below `nextId`. */
  predicate Valid(s: Store) {
    s.nextId >= 1 && forall id :: id in s.rows ==> 1 <= id < s.nextId && s.rows[id].id == id
  }

  /** The message is stored and not deleted. */
  predicate Visible(s: Store, id: int) {
    id in s.rows && !s.rows[id].isDeleted
  }

  /** `Create`: a fresh id, `now` as creation time, and not deleted. */
  function Create(s: Store, message: ChatMessage, now: nat): (res: (Store, ChatMessage))
    requires Valid(s)
    ensures var (s', row) := res;
      Valid(s') && row.id !in s.rows && s'.rows == s.rows[row.id := row] && Visible(s', row.id)
    ensures var row := res.1;
      row.reportId == message.reportId && row.userMessage == message.userMessage
      && row.aiResponse == message.aiResponse && row.createdAt == now
  {
    var row := message.(id := s.nextId, createdAt := now, isDeleted := false);
    (Store(s.rows[row.id := row], s.nextId + 1), row)
  }

  /** `GetByID`: a visible message, or `None` for a missing or soft-deleted one. */
  function GetByID(s: Store, id: int): (r: Option<ChatMessage>)
    ensures r.Some? <==> Visible(s, id)
    ensures r.Some? ==> r.value == s.rows[id]
  {
    if Visible(s, id) then Some(s.rows[id]) else None
  }

  /** The WHERE and ORDER BY clauses of the listings. */
  function LiveOfReport(reportId: int): ChatMessage -> bool {
    (m: ChatMessage) => m.reportId == reportId && !m.isDeleted
  }

  function OldestFirst(m: ChatMessage): int {
    m.createdAt
  }

  /** `GetByReportID`: the report's visible messages, oldest first, after
      skipping `offset`, at most `limit`. */
  function GetByReportID(s: Store, reportId: int, limit: int, offset: int): (r: seq<ChatMessage>)
    ensures forall m :: m in r ==> m.reportId == reportId && !m.isDeleted && m in s.rows.Values
    ensures forall i, j :: 0 <= i < j < |r| ==> r[i].createdAt <= r[j].createdAt
    ensures limit >= 0 ==> |r| <= limit
    ensures r == Page(SortBy(Select(s.rows, 1, s.nextId, LiveOfReport(reportId)), OldestFirst), limit, offset)
  {
    var r := Query(s.rows, s.nextId, LiveOfReport(reportId), OldestFirst, limit, offset);
    assert Sorted(r, OldestFirst);
    r
  }

  /** Every page of a conversation is a window of the whole history, and
      consecutive pages join up with nothing skipped or repeated. */
  lemma GetByReportIDPages(s: Store, reportId: int, limit: int, offset: int, a: nat, b: nat, start: nat)
    ensures GetByReportID(s, reportId, limit, offset) == Page(GetChatHistory(s, reportId), limit, offset)
    ensures GetByReportID(s, reportId, a, start) + GetByReportID(s, reportId, b, start + a)
         == GetByReportID(s, reportId, a + b, start)
  {
    QueryWindow(s.rows, s.nextId, LiveOfReport(reportId), OldestFirst, limit, offset);
    QueryPagesTile(s.rows, s.nextId, LiveOfReport(reportId), OldestFirst, a, b, start);
  }

  /** `GetChatHistory`: the whole conversation of a report, which is the
      unpaged `GetByReportID`. */
  function GetChatHistory(s: Store, reportId: int): (r: seq<ChatMessage>)
    ensures r == GetByReportID(s, reportId, -1, 0)
    ensures Valid(s) ==> forall id :: Visible(s, id) && s.rows[id].reportId == reportId ==> s.rows[id] in r
  {
    HistoryComplete(s, reportId);
    Query(s.rows, s.nextId, LiveOfReport(reportId), OldestFirst, -1, 0)
  }

  lemma HistoryComplete(s: Store, reportId: int)
    ensures Valid(s) ==> forall id :: Visible(s, id) && s.rows[id].reportId == reportId ==>
      s.rows[id] in Query(s.rows, s.nextId, LiveOfReport(reportId), OldestFirst, -1, 0)
  {
    if Valid(s) {
      forall id | Visible(s, id) && s.rows[id].reportId == reportId
        ensures s.rows[id] in Query(s.rows, s.nextId, LiveOfReport(reportId), OldestFirst, -1, 0)
      {
        QueryComplete(s.rows, s.nextId, LiveOfReport(reportId), OldestFirst, id);
      }
    }
  }

  /** `Update`: changes only the two texts of a visible message; a missing
      or soft-deleted message is `ErrNoRows`. */
  function Update(s: Store, message: ChatMessage): (r: Result<Store, DbError>)
    ensures !Visible(s, message.id) <==> r == Failure(ErrNoRows)
    ensures r.Success? ==>
      r.value.nextId == s.nextId && r.value.rows.Keys == s.rows.Keys
      && (forall id :: id in s.rows && id != message.id ==> r.value.rows[id] == s.rows[id])
      && r.value.rows[message.id]
         == s.rows[message.id].(userMessage := message.userMessage, aiResponse := message.aiResponse)
    ensures r.Success? && Valid(s) ==> Valid(r.value)
  {
    if !Visible(s, message.id) then Failure(ErrNoRows)
    else
      var row := s.rows[message.id].(userMessage := message.userMessage, aiResponse := message.aiResponse);
      Success(s.(rows := s.rows[message.id := row]))
  }

  /** `SoftDelete`: flags the row and keeps it.  It matches on the id alone,
      so flagging an already deleted message succeeds again. */
  function SoftDelete(s: Store, id: int): (r: Result<Store, DbError>)
    ensures id !in s.rows <==> r == Failure(ErrNoRows)
    ensures r.Success? ==>
      r.value.nextId == s.nextId && r.value.rows.Keys == s.rows.Keys
      && (forall k :: k in s.rows && k != id ==> r.value.rows[k] == s.rows[k])
      && r.value.rows[id] == s.rows[id].(isDeleted := true)
      && !Visible(r.value, id)
    ensures r.Success? && Valid(s) ==> Valid(r.value)
  {
    if id !in s.rows then Failure(ErrNoRows)
    else Success(s.(rows := s.rows[id := s.rows[id].(isDeleted := true)]))
  }

  /** `HardDelete`: removes the row; a missing row is `ErrNoRows`. */
  function HardDelete(s: Store, id: int): (r: Result<Store, DbError>)
    ensures id !in s.rows <==> r == Failure(ErrNoRows)
    ensures r.Success? ==>
      r.value.rows.Keys == s.rows.Keys - {id} && r.value.nextId == s.nextId
      && forall k :: k in r.value.rows ==> r.value.rows[k] == s.rows[k]
    ensures r.Success? && Valid(s) ==> Valid(r.value)
  {
    if id !in s.rows then Failure(ErrNoRows) else Success(s.(rows := s.rows - {id}))
  }

  /** Soft and hard deletion differ only in what stays behind: after either,
      the message can no longer be read or updated, but only a soft-deleted
      one can still be hard-deleted. */
  lemma DeletionsCompared(s: Store, id: int, m: ChatMessage)
    requires id in s.rows && m.id == id
    ensures var soft := SoftDelete(s, id).value;
      GetByID(soft, id) == None && Update(soft, m) == Failure(ErrNoRows) && HardDelete(soft, id).Success?
    ensures var hard := HardDelete(s, id).value;
      GetByID(hard, id) == None && Update(hard, m) == Failure(ErrNoRows) && HardDelete(hard, id) == Failure(ErrNoRows)
  {}
}
