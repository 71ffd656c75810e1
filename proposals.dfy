/** The `proposals` table both bots keep in SQLite, the records of what a
    handler did, and the in-place store the handlers update.

    A row holds the proposer, where the original message lives (chat and
    message id, enough to forward or copy it), its status and the creation
    time, which nothing reads back. `id` is `INTEGER PRIMARY KEY
    AUTOINCREMENT`: the store hands out 1, 2, 3, ... and never reuses one,
    which the model keeps as the next id to give out. */
module Proposals {
  import opened Wrappers

  datatype Status = Pending | Approved | Rejected

  datatype Proposal = Proposal(
    userId: int,
    fromChatId: int,
    messageId: int,
    status: Status,
    createdAt: string)

  /** The table as a value: its rows by id and the next id to assign. */
  datatype Table = Table(rows: map<int, Proposal>, nextId: int)

  /** Every row's id was handed out before: ids start at 1 and stay below
      the next one to assign. */
  predicate Numbered(t: Table) {
    t.nextId >= 1 && forall id :: id in t.rows ==> 1 <= id < t.nextId
  }

  /** The row an `INSERT` without a status creates: the column default
      `'pending'` applies. */
  function NewRow(userId: int, fromChatId: int, messageId: int, createdAt: string): (p: Proposal)
    ensures p.status == Pending
  {
    Proposal(userId, fromChatId, messageId, Pending, createdAt)
  }

  /** `INSERT`: the row goes in under the next id, which then moves on;
      on a well-numbered table that id is unused and no row is touched. */
  function Inserted(t: Table, p: Proposal): (r: Table)
    ensures r.rows.Keys == t.rows.Keys + {t.nextId} && r.rows[t.nextId] == p
    ensures r.nextId == t.nextId + 1
    ensures forall k :: k in t.rows && k != t.nextId ==> r.rows[k] == t.rows[k]
    ensures Numbered(t) ==> Numbered(r) && t.nextId !in t.rows && Evolves(t.rows, r.rows)
  {
    Table(t.rows[t.nextId := p], t.nextId + 1)
  }

  /** `UPDATE proposals SET status = s WHERE id = ?`: an unconditional
      write of one row's status, whatever it was; no row, no change. */
  function WithStatus(rows: map<int, Proposal>, id: int, s: Status): (r: map<int, Proposal>)
    ensures r.Keys == rows.Keys
    ensures forall k :: k in rows && k != id ==> r[k] == rows[k]
    ensures id in rows ==> r[id] == rows[id].(status := s)
  {
    if id in rows then rows[id := rows[id].(status := s)] else rows
  }

  /** What a row may become: itself, or, while pending, the same row with
      another status. */
  predicate Succeeds(p: Proposal, q: Proposal) {
    q == p || (p.status == Pending && q == p.(status := q.status))
  }

  /** Rows are never deleted, and each one only ever `Succeeds` itself. */
  predicate Evolves(before: map<int, Proposal>, after: map<int, Proposal>) {
    before.Keys <= after.Keys && forall id :: id in before ==> Succeeds(before[id], after[id])
  }

  lemma SucceedsTransitive(p: Proposal, q: Proposal, r: Proposal)
    requires Succeeds(p, q) && Succeeds(q, r)
    ensures Succeeds(p, r)
  {
  }

  lemma EvolvesTransitive(a: map<int, Proposal>, b: map<int, Proposal>, c: map<int, Proposal>)
    requires Evolves(a, b) && Evolves(b, c)
    ensures Evolves(a, c)
  {
    forall id | id in a ensures Succeeds(a[id], c[id]) {
      SucceedsTransitive(a[id], b[id], c[id]);
    }
  }

  /** A row that is decided never changes again. */
  lemma EvolvesKeepsDecided(before: map<int, Proposal>, after: map<int, Proposal>, id: int)
    requires Evolves(before, after)
    requires id in before && before[id].status != Pending
    ensures id in after && after[id] == before[id]
  {
  }

  /** Writing a terminal status to a pending row is a legal step, and
      rewriting a row with its own status changes nothing. */
  lemma DecidingEvolves(rows: map<int, Proposal>, id: int, s: Status)
    requires id in rows ==> rows[id].status == Pending || rows[id].status == s
    ensures Evolves(rows, WithStatus(rows, id, s))
  {
  }

  // ---------------------------------------------------------------------
  // What a handler did

  /** The calls a handler makes to the store and to the chat transport, in
      the order it makes them. A transport call is recorded when it is
      attempted, whether it succeeds or not. */
  datatype Effect =
    | InsertRow(id: int)                                      // INSERT INTO proposals
    | ReadRow(id: int)                                        // SELECT ... WHERE id = ?
    | WriteStatus(id: int, status: Status)                    // UPDATE ... SET status
    | AckSubmitter                                            // "sent to the moderators"
    | AdminForward(admin: int, fromChatId: int, messageId: int)     // forward_message of the original
    | AdminButtons(admin: int, proposalId: int, buttons: seq<string>) // send_message with the keyboard
    | AdminPreview(admin: int, proposalId: int)               // send_message of the preview text
    | AdminCopy(admin: int, fromChatId: int, messageId: int, buttons: seq<string>) // copy_to with the keyboard
    | Publish(fromChatId: int, messageId: int)                // copy_message to the channel
    | NotifyProposer(userId: int, decision: Status)          // "approved" / "rejected" notice

  /** How a button press ends, as the moderator sees it. `PermissionDenied`
      only happens in the webhook bot, `Raised` (an uncaught exception)
      only in the polling bot. */
  datatype Outcome =
    | PermissionDenied
    | Ignored
    | InvalidId
    | Raised
    | NotFound
    | AlreadyProcessed
    | PublishFailed
    | Approval
    | Rejection

  /** The outcome of one press, the rows afterwards and what was done. */
  datatype Handled = Handled(outcome: Outcome, rows: map<int, Proposal>, effects: seq<Effect>)

  /** How many times a log writes the status of `id`. */
  function WritesTo(log: seq<Effect>, id: int): (n: nat)
    ensures n <= |log|
    ensures n == 0 <==> forall k :: 0 <= k < |log| ==> !(log[k].WriteStatus? && log[k].id == id)
  {
    if log == [] then 0
    else (if log[0].WriteStatus? && log[0].id == id then 1 else 0) + WritesTo(log[1..], id)
  }

  lemma {:induction false} WritesToAppend(a: seq<Effect>, b: seq<Effect>, id: int)
    ensures WritesTo(a + b, id) == WritesTo(a, id) + WritesTo(b, id)
  {
    if a != [] {
      assert (a + b)[0] == a[0] && (a + b)[1..] == a[1..] + b;
      WritesToAppend(a[1..], b, id);
    } else {
      assert a + b == b;
    }
  }

  // ---------------------------------------------------------------------
  // The store

  /** The SQLite database, updated in place by the handlers. */
  class ProposalStore {
    var rows: map<int, Proposal>
    var nextId: int

    ghost predicate Valid()
      reads this
    {
      Numbered(Table(rows, nextId))
    }

    /** A freshly created table: no rows, the first id will be 1. */
    constructor ()
      ensures Valid() && rows == map[] && nextId == 1
    {
      rows := map[];
      nextId := 1;
    }

    /** `save_proposal`: inserts one pending row and returns its id, one
        that no existing row has. */
    method Create(userId: int, fromChatId: int, messageId: int, createdAt: string) returns (id: int)
      requires Valid()
      modifies this
      ensures Valid()
      ensures id == old(nextId) && id !in old(rows)
      ensures Table(rows, nextId) == Inserted(Table(old(rows), old(nextId)), NewRow(userId, fromChatId, messageId, createdAt))
    {
      id := nextId;
      rows := rows[id := NewRow(userId, fromChatId, messageId, createdAt)];
      nextId := nextId + 1;
    }

    /** `get_proposal`: the row with that id, if there is one; an id the
        store never handed out has none. */
    function Get(id: int): (r: Option<Proposal>)
      reads this
      ensures r.Some? <==> id in rows
      ensures r.Some? ==> r.value == rows[id]
      ensures Valid() && (id < 1 || id >= nextId) ==> r.None?
    {
      if id in rows then Some(rows[id]) else None
    }

    /** `update_proposal_status`: writes the status of that one row,
        whatever its current status; nothing else changes. */
    method SetStatus(id: int, s: Status)
      requires Valid()
      modifies this
      ensures Valid()
      ensures rows == WithStatus(old(rows), id, s) && nextId == old(nextId)
    {
      if id in rows {
        rows := rows[id := rows[id].(status := s)];
      }
    }
  }
}
