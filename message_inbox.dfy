/** admin/messages.php: the contact-message inbox of the admin area. A POST
    marks one message read or deletes it; the list is restricted by a status
    filter and an optional search term, the two combined with AND, and
    paginated; three badges count all, unread and read messages. */
module MessageInbox {
  import opened PhpBuiltins
  import opened SqlLike
  import opened Config
  import opened Store
  import opened AdminLists

  const MARKED_READ: string := "Message marked as read!"
  const STATUS_FAILED: string := "Failed to update message status."
  const MESSAGE_DELETED: string := "Message deleted successfully!"
  const MESSAGE_DELETE_FAILED: string := "Failed to delete message."

  /** A POST carrying both `action` and `message_id`; the id is already
      `(int)`-cast. */
  datatype ActionRequest = ActionRequest(csrfToken: Option<string>, action: string, messageId: int)

  /** The action handler, with the sign-in guard in front. `mark_read` and
      `delete` run one statement on the named message and report its
      outcome; a statement that affects no row still succeeds. Any other
      action, a missing request, a CSRF failure and a failed statement leave
      the table as it was, and an unknown action reports nothing at all. */
  method HandleAction(session: Session, db: Database, request: Option<ActionRequest>, statementOk: bool)
    returns (outcome: PageOutcome)
    requires db.Valid()
    modifies db`messages
    ensures db.Valid()
    ensures session.adminId.None? ==> outcome == RedirectToLogin && db.messages == old(db.messages)
    ensures session.adminId.Some? && request.None? ==> outcome == Shown(NoFlash) && db.messages == old(db.messages)
    ensures session.adminId.Some? && request.Some? && !RequestTokenValid(session.csrfToken, request.value.csrfToken) ==>
      outcome == Shown(Failure(CSRF_FAILED)) && db.messages == old(db.messages)
    ensures session.adminId.Some? && request.Some? && RequestTokenValid(session.csrfToken, request.value.csrfToken) ==>
      var r := request.value;
      && (r.action == "mark_read" && statementOk ==>
            outcome == Shown(Success(MARKED_READ)) && db.messages == MarkedRead(old(db.messages), r.messageId))
      && (r.action == "mark_read" && !statementOk ==>
            outcome == Shown(Failure(STATUS_FAILED)) && db.messages == old(db.messages))
      && (r.action == "delete" && statementOk ==>
            outcome == Shown(Success(MESSAGE_DELETED)) && db.messages == old(db.messages) - {r.messageId})
      && (r.action == "delete" && !statementOk ==>
            outcome == Shown(Failure(MESSAGE_DELETE_FAILED)) && db.messages == old(db.messages))
      && (r.action != "mark_read" && r.action != "delete" ==>
            outcome == Shown(NoFlash) && db.messages == old(db.messages))
  {
    if session.adminId.None? {
      return RedirectToLogin;
    }
    if request.None? {
      return Shown(NoFlash);
    }
    var r := request.value;
    if !RequestTokenValid(session.csrfToken, r.csrfToken) {
      return Shown(Failure(CSRF_FAILED));
    }
    outcome := Shown(NoFlash);
    if r.action == "mark_read" {
      if statementOk {
        db.MarkMessageRead(r.messageId);
        outcome := Shown(Success(MARKED_READ));
      } else {
        outcome := Shown(Failure(STATUS_FAILED));
      }
    } else if r.action == "delete" {
      if statementOk {
        db.DeleteMessage(r.messageId);
        outcome := Shown(Success(MESSAGE_DELETED));
      } else {
        outcome := Shown(Failure(MESSAGE_DELETE_FAILED));
      }
    }
  }

  /** Marking a message read twice is marking it once, and marking never
      adds or removes a message nor touches anything but the status. */
  lemma {:induction false} MarkReadIdempotent(messages: map<int, Message>, id: int)
    ensures MarkedRead(MarkedRead(messages, id), id) == MarkedRead(messages, id)
    ensures forall k :: k in messages ==>
      MarkedRead(messages, id)[k] == messages[k].(status := MarkedRead(messages, id)[k].status)
  {
    var once := MarkedRead(messages, id);
    var twice := MarkedRead(once, id);
    assert twice.Keys == once.Keys;
    forall k | k in once ensures twice[k] == once[k] {
      if k == id {
        assert once[k].status == Read;
      }
    }
  }

  // ---------------------------------------------------------------------
  // Filter, search and count
  // ---------------------------------------------------------------------

  /** `$_GET['filter']`, defaulting to 'all' when absent. */
  function FilterParam(param: Option<string>): string {
    if param.Some? then param.value else "all"
  }

  /** The status a filter value restricts to; any value other than 'unread'
      and 'read' (including 'all') restricts nothing. */
  function StatusFilter(filter: string): (r: Option<MessageStatus>)
    ensures r == Some(Unread) <==> filter == "unread"
    ensures r == Some(Read) <==> filter == "read"
  {
    if filter == "unread" then Some(Unread)
    else if filter == "read" then Some(Read)
    else None
  }

  /** `(first_name LIKE ? OR last_name LIKE ? OR email LIKE ? OR message LIKE ?)`
      with `%term%` bound to every placeholder. */
  predicate MessageMatches(m: Message, term: string) {
    var p := ContainsPattern(term);
    Like(m.firstName, p) || Like(m.lastName, p) || Like(m.email, p) || Like(m.body, p)
  }

  /** Which messages the view is meant to list: the status restriction of
      the filter and the search predicate of a truthy term, both of them. */
  predicate MessageVisible(filter: string, term: string, m: Message) {
    && (StatusFilter(filter).Some? ==> m.status == StatusFilter(filter).value)
    && (Truthy(term) ==> MessageMatches(m, term))
  }

  /** One entry of `$where_conditions`. */
  datatype Condition = StatusIs(status: MessageStatus) | SearchFor(term: string)

  predicate Holds(c: Condition, m: Message) {
    match c
    case StatusIs(st) => m.status == st
    case SearchFor(t) => MessageMatches(m, t)
  }

  /** `implode(' AND ', $where_conditions)`, with no WHERE at all when the
      list is empty. */
  predicate AllHold(conds: seq<Condition>, m: Message) {
    forall i :: 0 <= i < |conds| ==> Holds(conds[i], m)
  }

  /** Builds `$where_conditions` by appending: the status condition first,
      then the search condition. The conjunction is exactly the intended
      visibility, and there is no WHERE clause exactly when the filter
      restricts nothing and the term is not truthy. */
  method WhereConditions(filter: string, term: string) returns (conds: seq<Condition>)
    ensures forall m :: AllHold(conds, m) <==> MessageVisible(filter, term, m)
    ensures conds == [] <==> StatusFilter(filter).None? && !Truthy(term)
    ensures |conds| <= 2
  {
    conds := [];
    if filter == "unread" {
      conds := conds + [StatusIs(Unread)];
    } else if filter == "read" {
      conds := conds + [StatusIs(Read)];
    }
    ghost var statusPart := conds;
    if Truthy(term) {
      conds := conds + [SearchFor(term)];
    }
    forall m ensures AllHold(conds, m) <==> MessageVisible(filter, term, m) {
      if Truthy(term) {
        assert conds[|conds| - 1] == SearchFor(term);
      }
      if statusPart != [] {
        assert conds[0] == statusPart[0];
      }
    }
  }

  /** The rows `SELECT COUNT(*) FROM messages $where_sql` counts. */
  function VisibleIds(messages: map<int, Message>, filter: string, term: string): set<int> {
    set id | id in messages && MessageVisible(filter, term, messages[id])
  }

  /** `$total_messages`, the count the pagination divides. */
  function TotalMessages(messages: map<int, Message>, filter: string, term: string): nat {
    |VisibleIds(messages, filter, term)|
  }

  /** The rows `SELECT COUNT(*) FROM messages WHERE status = ?` counts. */
  function StatusIds(messages: map<int, Message>, status: MessageStatus): set<int> {
    set id | id in messages && messages[id].status == status
  }

  /** The three badge counts: every message, the unread ones, the read ones. */
  function AllCount(messages: map<int, Message>): nat {
    |messages|
  }

  function UnreadCount(messages: map<int, Message>): nat {
    |StatusIds(messages, Unread)|
  }

  function ReadCount(messages: map<int, Message>): nat {
    |StatusIds(messages, Read)|
  }

  /** Every message is either unread or read, so the two status badges add
      up to the total badge; each status badge is the total of the list
      under that filter with no search. */
  lemma BadgesAddUp(messages: map<int, Message>)
    ensures UnreadCount(messages) + ReadCount(messages) == AllCount(messages)
    ensures UnreadCount(messages) == TotalMessages(messages, "unread", "")
    ensures ReadCount(messages) == TotalMessages(messages, "read", "")
  {
    var u, r := StatusIds(messages, Unread), StatusIds(messages, Read);
    forall id | id in messages ensures id in u + r {
      assert messages[id].status == Unread || messages[id].status == Read;
    }
    assert u + r == messages.Keys;
    assert u * r == {};
    assert StatusFilter("unread") == Some(Unread) && StatusFilter("read") == Some(Read);
    assert !Truthy("");
    forall id ensures id in VisibleIds(messages, "unread", "") <==> id in u {
      if id in messages {
        assert MessageVisible("unread", "", messages[id]) <==> messages[id].status == Unread;
      }
    }
    forall id ensures id in VisibleIds(messages, "read", "") <==> id in r {
      if id in messages {
        assert MessageVisible("read", "", messages[id]) <==> messages[id].status == Read;
      }
    }
    assert VisibleIds(messages, "unread", "") == u;
    assert VisibleIds(messages, "read", "") == r;
  }

  /** The two status filters split any filtered view between them, and any
      other filter value lists what 'all' lists. */
  lemma FiltersPartition(messages: map<int, Message>, filter: string, term: string)
    ensures VisibleIds(messages, "unread", term) + VisibleIds(messages, "read", term)
         == VisibleIds(messages, "all", term)
    ensures VisibleIds(messages, "unread", term) * VisibleIds(messages, "read", term) == {}
    ensures filter != "unread" && filter != "read" ==>
      VisibleIds(messages, filter, term) == VisibleIds(messages, "all", term)
  {
    assert StatusFilter("unread") == Some(Unread) && StatusFilter("read") == Some(Read);
    assert StatusFilter("all") == None;
    var u, r, a := VisibleIds(messages, "unread", term), VisibleIds(messages, "read", term),
                   VisibleIds(messages, "all", term);
    forall id ensures id in u + r <==> id in a {
      if id in messages {
        assert messages[id].status == Unread || messages[id].status == Read;
      }
    }
    forall id | id in u ensures id !in r {
      assert messages[id].status == Unread;
    }
    if filter != "unread" && filter != "read" {
      assert StatusFilter(filter) == None;
      forall id ensures id in VisibleIds(messages, filter, term) <==> id in a {
        if id in messages {
          assert MessageVisible(filter, term, messages[id]) == MessageVisible("all", term, messages[id]);
        }
      }
      assert VisibleIds(messages, filter, term) == a;
    }
  }

  /** With a truthy term free of `%` and `_`, a message is listed exactly
      when it has the filter's status and one of its four searched columns
      contains the term, ignoring case. */
  lemma SearchMeansContains(messages: map<int, Message>, filter: string, term: string, id: int)
    requires Truthy(term) && NoWildcards(term)
    ensures id in VisibleIds(messages, filter, term) <==>
      id in messages &&
        var m := messages[id];
        && (StatusFilter(filter).Some? ==> m.status == StatusFilter(filter).value)
        && (ContainsFold(m.firstName, term) || ContainsFold(m.lastName, term)
            || ContainsFold(m.email, term) || ContainsFold(m.body, term))
  {
    if id in messages {
      var m := messages[id];
      LikeContains(m.firstName, term);
      LikeContains(m.lastName, term);
      LikeContains(m.email, term);
      LikeContains(m.body, term);
    }
  }
}
