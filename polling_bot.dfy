/** The polling bot (main.py): the same moderation flow as the webhook
    bot, with the store behind `save_proposal`, `get_proposal` and
    `update_proposal_status`, and with three differences that matter: there
    is no allow-list check on button presses, malformed button data raises
    instead of being answered, and an approval is recorded before the
    proposer is told. */
module PollingBot {
  import opened Wrappers
  import opened Text
  import opened Proposals
  import opened Tokens
  import opened Lifecycle
  import WebhookBot

  // ---------------------------------------------------------------------
  // Button data

  /** The handler's filter (`c.data and (c.data.startswith("approve:") or
      c.data.startswith("reject:"))`), then `action, sid = data.split(":")`
      and `int(sid)`. More than one colon makes the unpacking raise, a
      non-integer id makes `int` raise: both are `Malformed`. */
  function ParseCallbackData(data: Option<string>): (r: Parsed)
    ensures r.NotDecision? <==> data.None? || !(StartsWith(data.value, Prefix(Approve)) || StartsWith(data.value, Prefix(Reject)))
    ensures data.Some? && StartsWith(data.value, Prefix(Approve)) ==> r == ReadAs(Approve, data.value[|Prefix(Approve)|..])
    ensures data.Some? && StartsWith(data.value, Prefix(Reject)) ==> r == ReadAs(Reject, data.value[|Prefix(Reject)|..])
  {
    if data.None? || !(StartsWith(data.value, Prefix(Approve)) || StartsWith(data.value, Prefix(Reject))) then NotDecision
    else
      var d := data.value;
      var a := if StartsWith(d, Prefix(Approve)) then Approve else Reject;
      PrefixesDisjoint(d);
      SplitDecisionData(d, a);
      var parts := Split(d, ':');
      if |parts| != 2 then Malformed
      else
        match ParseInt(parts[1])
        case None => Malformed
        case Some(id) => Decision(if parts[0] == ActionName(Approve) then Approve else Reject, id)
  }

  lemma OnePieceHasNoSeparator(s: string, sep: char)
    requires |Split(s, sep)| == 1
    ensures sep !in s
  {
    SplitThenJoin(s, sep);
  }

  /** Data that starts with `a`'s prefix splits on every colon into two
      pieces, the action name and the rest, exactly when the rest has no
      colon; otherwise the rest is not an integer either. */
  lemma SplitDecisionData(d: string, a: Action)
    requires StartsWith(d, Prefix(a))
    ensures var parts := Split(d, ':');
      if |parts| == 2 then parts == [ActionName(a), d[|Prefix(a)|..]] else ParseInt(d[|Prefix(a)|..]).None?
  {
    var name, rest := ActionName(a), d[|Prefix(a)|..];
    PrefixSplit(d, a);
    SplitAround(name, rest, ':');
    SplitWithoutSeparator(name, ':');
    var parts := Split(d, ':');
    assert parts == [name] + Split(rest, ':');
    if ':' in rest {
      if |Split(rest, ':')| == 1 {
        OnePieceHasNoSeparator(rest, ':');
      }
      if ParseInt(rest).Some? {
        ParsedHasOnlyDigits(rest);
      }
    } else {
      SplitWithoutSeparator(rest, ':');
    }
  }

  /** Data is a decision for `a` and `id` exactly when it is `a`'s prefix
      followed by an integer literal for `id`, and it raises exactly when
      the prefix is there and the rest (a second colon included) is not an
      integer. */
  lemma ParseCallbackDataSpec(d: string, a: Action, id: int)
    ensures ParseCallbackData(Some(d)).NotDecision? <==> !(StartsWith(d, Prefix(Approve)) || StartsWith(d, Prefix(Reject)))
    ensures ParseCallbackData(Some(d)) == Decision(a, id) <==>
      StartsWith(d, Prefix(a)) && ParseInt(d[|Prefix(a)|..]) == Some(id)
    ensures ParseCallbackData(Some(d)).Malformed? <==>
      exists b :: StartsWith(d, Prefix(b)) && ParseInt(d[|Prefix(b)|..]).None?
  {
    PrefixesDisjoint(d);
  }

  /** The data on both buttons of proposal `id` reads back as that
      button's action and `id`. */
  lemma KeyboardRoundTrip(id: int)
    ensures ParseCallbackData(Some(Keyboard(id)[0])) == Decision(Approve, id)
    ensures ParseCallbackData(Some(Keyboard(id)[1])) == Decision(Reject, id)
  {
    IntRoundTrip(id);
    ParseCallbackDataSpec(Token(Approve, id), Approve, id);
    ParseCallbackDataSpec(Token(Reject, id), Reject, id);
  }

  /** `split(":")` with unpacking and `split(":", 1)` read every present
      piece of data the same way; the bots differ only in what they do with
      the malformed ones. */
  lemma SameReadingAsWebhook(d: string)
    ensures ParseCallbackData(Some(d)) == WebhookBot.ParseCallbackData(d)
  {
    ParseCallbackDataSpec(d, Approve, 0);
    WebhookBot.ParseCallbackDataSpec(d, Approve, 0);
    if StartsWith(d, Prefix(Approve)) || StartsWith(d, Prefix(Reject)) {
      var b := if StartsWith(d, Prefix(Approve)) then Approve else Reject;
      var rest := d[|Prefix(b)|..];
      PrefixesDisjoint(d);
      if ParseInt(rest).Some? {
        ParseCallbackDataSpec(d, b, ParseInt(rest).value);
        WebhookBot.ParseCallbackDataSpec(d, b, ParseInt(rest).value);
      }
    }
  }

  // ---------------------------------------------------------------------
  // Button presses

  /** `handle_moderation_callback`, as a function of the rows before the
      press: the token, then `get_proposal`, then the "still pending"
      check, then approve (publish, write, notify) or reject (write,
      notify). There is no actor: nothing checks who pressed. */
  function Decide(data: Option<string>, rows: map<int, Proposal>, publishOk: bool): (h: Handled)
    ensures Evolves(rows, h.rows)
    ensures h.outcome !in {Approval, Rejection} ==> h.rows == rows
    ensures h.outcome in {Approval, Rejection} ==>
      exists id :: id in rows && rows[id].status == Pending
        && h.rows == WithStatus(rows, id, if h.outcome == Approval then Approved else Rejected)
  {
    match ParseCallbackData(data)
    case NotDecision => Handled(Ignored, rows, [])
    case Malformed => Handled(Raised, rows, [])
    case Decision(action, id) => Resolve(action, id, rows, publishOk)
  }

  /** What `handle_moderation_callback` does once the token has been read:
      the lookup, the "still pending" check, then approve (publish, write,
      notify) or reject (write, notify). */
  function Resolve(action: Action, id: int, rows: map<int, Proposal>, publishOk: bool): (h: Handled)
    ensures Evolves(rows, h.rows)
    ensures h.outcome !in {Approval, Rejection} ==> h.rows == rows
    ensures h.outcome in {Approval, Rejection} ==>
      id in rows && rows[id].status == Pending
        && h.rows == WithStatus(rows, id, if h.outcome == Approval then Approved else Rejected)
  {
    if id !in rows then Handled(NotFound, rows, [ReadRow(id)])
    else
      var p := rows[id];
      if p.status != Pending then Handled(AlreadyProcessed, rows, [ReadRow(id)])
      else
        match action
        case Approve =>
          if !publishOk then Handled(PublishFailed, rows, [ReadRow(id), Publish(p.fromChatId, p.messageId)])
          else Handled(Approval, WithStatus(rows, id, Approved),
            [ReadRow(id), Publish(p.fromChatId, p.messageId), WriteStatus(id, Approved), NotifyProposer(p.userId, Approved)])
        case Reject =>
          Handled(Rejection, WithStatus(rows, id, Rejected),
            [ReadRow(id), WriteStatus(id, Rejected), NotifyProposer(p.userId, Rejected)])
  }

  /** `handle_moderation_callback` against the store. Whether the
      proposer's notice arrives (`notifyOk`) changes nothing: its failure
      is swallowed. */
  method HandleModerationCallback(store: ProposalStore, data: Option<string>, publishOk: bool, notifyOk: bool)
    returns (outcome: Outcome, log: seq<Effect>)
    requires store.Valid()
    modifies store
    ensures store.Valid() && store.nextId == old(store.nextId)
    ensures Decide(data, old(store.rows), publishOk) == Handled(outcome, store.rows, log)
  {
    var parsed := ParseCallbackData(data);
    if parsed.NotDecision? {
      return Ignored, [];
    }
    if parsed.Malformed? {
      return Raised, [];
    }
    outcome, log := ResolveInStore(store, parsed.action, parsed.id, publishOk);
  }

  /** The part of `handle_moderation_callback` after the token is read. */
  method ResolveInStore(store: ProposalStore, action: Action, id: int, publishOk: bool)
    returns (outcome: Outcome, log: seq<Effect>)
    requires store.Valid()
    modifies store
    ensures store.Valid() && store.nextId == old(store.nextId)
    ensures Resolve(action, id, old(store.rows), publishOk) == Handled(outcome, store.rows, log)
  {
    var row := store.Get(id);
    log := [ReadRow(id)];
    if row.None? {
      return NotFound, log;
    }
    var p := row.value;
    if p.status != Pending {
      return AlreadyProcessed, log;
    }
    if action == Approve {
      log := log + [Publish(p.fromChatId, p.messageId)];
      if !publishOk {
        return PublishFailed, log;
      }
      store.SetStatus(id, Approved);
      log := log + [WriteStatus(id, Approved), NotifyProposer(p.userId, Approved)];
      outcome := Approval;
    } else {
      store.SetStatus(id, Rejected);
      log := log + [WriteStatus(id, Rejected), NotifyProposer(p.userId, Rejected)];
      outcome := Rejection;
    }
  }

  /** Malformed decision data raises before the store is touched: no
      lookup, no write. */
  lemma MalformedRaisesFirst(d: string, rows: map<int, Proposal>, publishOk: bool)
    ensures var h := Decide(Some(d), rows, publishOk);
      && (h.outcome == Raised <==> exists b :: StartsWith(d, Prefix(b)) && ParseInt(d[|Prefix(b)|..]).None?)
      && (h.outcome == Ignored <==> !(StartsWith(d, Prefix(Approve)) || StartsWith(d, Prefix(Reject))))
      && (h.outcome in {Raised, Ignored} ==> h.rows == rows && h.effects == [])
  {
    ParseCallbackDataSpec(d, Approve, 0);
  }

  /** In particular a second colon after a valid token raises. */
  lemma SecondColonRaises(a: Action, id: int, extra: string, rows: map<int, Proposal>, publishOk: bool)
    ensures Decide(Some(Token(a, id) + ":" + extra), rows, publishOk).outcome == Raised
  {
    var d := Token(a, id) + ":" + extra;
    assert d[..|Prefix(a)|] == Prefix(a);
    var rest := d[|Prefix(a)|..];
    assert rest[|IntToString(id)|] == ':';
    if ParseInt(rest).Some? {
      ParsedHasOnlyDigits(rest);
    }
    MalformedRaisesFirst(d, rows, publishOk);
  }

  /** Whoever presses, any data that reads as a decision on a pending
      proposal decides it: with the channel reachable, approve publishes
      and records `approved`, reject records `rejected`. */
  lemma NoAllowList(data: Option<string>, a: Action, id: int, rows: map<int, Proposal>)
    requires ParseCallbackData(data) == Decision(a, id)
    requires id in rows && rows[id].status == Pending
    ensures var h := Decide(data, rows, true);
      && h.outcome == (if a == Approve then Approval else Rejection)
      && h.rows == WithStatus(rows, id, if a == Approve then Approved else Rejected)
  {
  }

  /** A decision on an unknown id is "not found", one on a proposal that is
      no longer pending "already processed"; both only read the row. This
      holds for any data that reads as the decision. */
  lemma LookupFailuresTouchNothing(data: Option<string>, a: Action, id: int, rows: map<int, Proposal>, publishOk: bool)
    requires ParseCallbackData(data) == Decision(a, id)
    ensures var h := Decide(data, rows, publishOk);
      && (h.outcome == NotFound <==> id !in rows)
      && (h.outcome == AlreadyProcessed <==> id in rows && rows[id].status != Pending)
      && (h.outcome in {NotFound, AlreadyProcessed} ==> h.rows == rows && h.effects == [ReadRow(id)])
  {
  }

  /** Approving a pending proposal publishes it first. If publishing fails
      the handler returns before the write, so the proposal stays pending;
      if it succeeds `approved` is written and only then is the proposer
      told. */
  lemma ApproveOutcome(data: Option<string>, id: int, rows: map<int, Proposal>, publishOk: bool)
    requires ParseCallbackData(data) == Decision(Approve, id)
    requires id in rows && rows[id].status == Pending
    ensures var h := Decide(data, rows, publishOk);
      var p := rows[id];
      && (!publishOk ==> h.outcome == PublishFailed && h.rows == rows
                          && h.effects == [ReadRow(id), Publish(p.fromChatId, p.messageId)])
      && (publishOk ==> h.outcome == Approval && h.rows == WithStatus(rows, id, Approved) && h.rows[id].status == Approved
                         && h.effects == [ReadRow(id), Publish(p.fromChatId, p.messageId),
                                          WriteStatus(id, Approved), NotifyProposer(p.userId, Approved)])
  {
  }

  /** Rejecting a pending proposal records `rejected` unconditionally,
      then tries to tell the proposer, and never publishes. */
  lemma RejectOutcome(data: Option<string>, id: int, rows: map<int, Proposal>, publishOk: bool)
    requires ParseCallbackData(data) == Decision(Reject, id)
    requires id in rows && rows[id].status == Pending
    ensures var h := Decide(data, rows, publishOk);
      && h.outcome == Rejection && h.rows == WithStatus(rows, id, Rejected) && h.rows[id].status == Rejected
      && h.effects == [ReadRow(id), WriteStatus(id, Rejected), NotifyProposer(rows[id].userId, Rejected)]
  {
  }

  // ---------------------------------------------------------------------
  // Submissions

  /** The messages sent to the moderators, in allow-list order: for each,
      the preview text and, if that worked, a copy of the submission with
      the buttons. One moderator's failure does not stop the others.
      `previewOk[k]` is whether the preview to the k-th list entry went
      through, so an id listed twice gets two independent attempts. */
  function AdminFanout(admins: seq<int>, id: int, fromChatId: int, messageId: int, previewOk: seq<bool>): (log: seq<Effect>)
    requires |previewOk| == |admins|
    ensures |admins| <= |log| <= 2 * |admins|
    decreases |admins|
  {
    if admins == [] then []
    else
      var n := |admins| - 1;
      AdminFanout(admins[..n], id, fromChatId, messageId, previewOk[..n])
        + [AdminPreview(admins[n], id)]
        + (if previewOk[n] then [AdminCopy(admins[n], fromChatId, messageId, Keyboard(id))] else [])
  }

  /** The loop over `ADMIN_IDS` in `handle_user_message`, each iteration in
      its own `try`. */
  method NotifyAdmins(admins: seq<int>, id: int, fromChatId: int, messageId: int, previewOk: seq<bool>)
    returns (log: seq<Effect>)
    requires |previewOk| == |admins|
    ensures log == AdminFanout(admins, id, fromChatId, messageId, previewOk)
  {
    log := [];
    for i := 0 to |admins|
      invariant log == AdminFanout(admins[..i], id, fromChatId, messageId, previewOk[..i])
    {
      assert admins[..i + 1][..i] == admins[..i];
      assert previewOk[..i + 1][..i] == previewOk[..i];
      log := log + [AdminPreview(admins[i], id)];
      if previewOk[i] {
        log := log + [AdminCopy(admins[i], fromChatId, messageId, Keyboard(id))];
      }
    }
    assert admins[..|admins|] == admins;
    assert previewOk[..|admins|] == previewOk;
  }

  /** Some entry of the list is `a` and its preview went through. */
  ghost predicate PreviewWorked(admins: seq<int>, previewOk: seq<bool>, a: int)
    requires |previewOk| == |admins|
  {
    exists k :: 0 <= k < |admins| && admins[k] == a && previewOk[k]
  }

  /** Every list entry gets the preview, every entry whose preview went
      through gets the copy with this proposal's buttons, and nothing else
      is sent: any copy goes to a moderator with a preview that worked. */
  lemma {:induction false} FanoutReachesEveryAdmin(admins: seq<int>, id: int, fromChatId: int, messageId: int, previewOk: seq<bool>)
    requires |previewOk| == |admins|
    ensures var log := AdminFanout(admins, id, fromChatId, messageId, previewOk);
      && (forall k :: 0 <= k < |admins| ==> AdminPreview(admins[k], id) in log)
      && (forall k :: 0 <= k < |admins| && previewOk[k] ==> AdminCopy(admins[k], fromChatId, messageId, Keyboard(id)) in log)
      && (forall e :: e in log ==>
            || (e.AdminPreview? && e.admin in admins && e.proposalId == id)
            || (e.AdminCopy? && PreviewWorked(admins, previewOk, e.admin) && e.fromChatId == fromChatId
                && e.messageId == messageId && e.buttons == Keyboard(id)))
  {
    FanoutFirsts(admins, id, fromChatId, messageId, previewOk);
    FanoutSeconds(admins, id, fromChatId, messageId, previewOk);
    FanoutOnly(admins, id, fromChatId, messageId, previewOk);
  }

  /** The log of a list is the log of all but its last entry, then that
      entry's messages. */
  lemma FanoutLast(admins: seq<int>, id: int, fromChatId: int, messageId: int, previewOk: seq<bool>)
    requires |previewOk| == |admins| && admins != []
    ensures var n := |admins| - 1;
      AdminFanout(admins, id, fromChatId, messageId, previewOk)
        == AdminFanout(admins[..n], id, fromChatId, messageId, previewOk[..n])
           + [AdminPreview(admins[n], id)]
           + (if previewOk[n] then [AdminCopy(admins[n], fromChatId, messageId, Keyboard(id))] else [])
  {
  }

  lemma {:induction false} FanoutFirsts(admins: seq<int>, id: int, fromChatId: int, messageId: int, previewOk: seq<bool>)
    requires |previewOk| == |admins|
    ensures forall k :: 0 <= k < |admins| ==> AdminPreview(admins[k], id) in AdminFanout(admins, id, fromChatId, messageId, previewOk)
    decreases |admins|
  {
    if admins != [] {
      var n := |admins| - 1;
      FanoutFirsts(admins[..n], id, fromChatId, messageId, previewOk[..n]);
      FanoutLast(admins, id, fromChatId, messageId, previewOk);
      var prev := AdminFanout(admins[..n], id, fromChatId, messageId, previewOk[..n]);
      var log := AdminFanout(admins, id, fromChatId, messageId, previewOk);
      forall k | 0 <= k < |admins| ensures AdminPreview(admins[k], id) in log {
        if k < n {
          assert admins[..n][k] == admins[k];
          assert AdminPreview(admins[k], id) in prev;
        } else {
          assert log[|prev|] == AdminPreview(admins[k], id);
        }
      }
    }
  }

  lemma {:induction false} FanoutSeconds(admins: seq<int>, id: int, fromChatId: int, messageId: int, previewOk: seq<bool>)
    requires |previewOk| == |admins|
    ensures forall k :: 0 <= k < |admins| && previewOk[k] ==> AdminCopy(admins[k], fromChatId, messageId, Keyboard(id)) in AdminFanout(admins, id, fromChatId, messageId, previewOk)
    decreases |admins|
  {
    if admins != [] {
      var n := |admins| - 1;
      FanoutSeconds(admins[..n], id, fromChatId, messageId, previewOk[..n]);
      FanoutLast(admins, id, fromChatId, messageId, previewOk);
      var prev := AdminFanout(admins[..n], id, fromChatId, messageId, previewOk[..n]);
      var log := AdminFanout(admins, id, fromChatId, messageId, previewOk);
      forall k | 0 <= k < |admins| && previewOk[k] ensures AdminCopy(admins[k], fromChatId, messageId, Keyboard(id)) in log {
        if k < n {
          assert admins[..n][k] == admins[k] && previewOk[..n][k];
          assert AdminCopy(admins[k], fromChatId, messageId, Keyboard(id)) in prev;
        } else {
          assert log[|prev| + 1] == AdminCopy(admins[k], fromChatId, messageId, Keyboard(id));
        }
      }
    }
  }

  lemma {:induction false} FanoutOnly(admins: seq<int>, id: int, fromChatId: int, messageId: int, previewOk: seq<bool>)
    requires |previewOk| == |admins|
    ensures forall e :: e in AdminFanout(admins, id, fromChatId, messageId, previewOk) ==>
      || (e.AdminPreview? && e.admin in admins && e.proposalId == id)
      || (e.AdminCopy? && PreviewWorked(admins, previewOk, e.admin) && e.fromChatId == fromChatId && e.messageId == messageId && e.buttons == Keyboard(id))
    decreases |admins|
  {
    if admins != [] {
      var n := |admins| - 1;
      var init, initOk := admins[..n], previewOk[..n];
      FanoutOnly(init, id, fromChatId, messageId, initOk);
      FanoutLast(admins, id, fromChatId, messageId, previewOk);
      var prev := AdminFanout(init, id, fromChatId, messageId, initOk);
      var log := AdminFanout(admins, id, fromChatId, messageId, previewOk);
      forall e | e in log ensures (e.AdminPreview? && e.admin in admins && e.proposalId == id) || (e.AdminCopy? && PreviewWorked(admins, previewOk, e.admin) && e.fromChatId == fromChatId && e.messageId == messageId && e.buttons == Keyboard(id)) {
        if e in prev {
          if e.AdminCopy? {
            assert PreviewWorked(init, initOk, e.admin);
            var k :| 0 <= k < |init| && init[k] == e.admin && initOk[k];
            assert admins[k] == e.admin && previewOk[k];
          } else {
            var k :| 0 <= k < |init| && init[k] == e.admin;
            assert admins[k] == e.admin;
          }
        } else if e.AdminCopy? {
          assert previewOk[n] && e.admin == admins[n];
        }
      }
    }
  }

  /** No message to the moderators writes a status. */
  lemma FanoutWritesNothing(admins: seq<int>, id: int, fromChatId: int, messageId: int, previewOk: seq<bool>, k: int)
    requires |previewOk| == |admins|
    ensures WritesTo(AdminFanout(admins, id, fromChatId, messageId, previewOk), k) == 0
  {
    FanoutReachesEveryAdmin(admins, id, fromChatId, messageId, previewOk);
    var log := AdminFanout(admins, id, fromChatId, messageId, previewOk);
    forall i | 0 <= i < |log| ensures !log[i].WriteStatus? {
      assert log[i] in log;
    }
  }

  /** `handle_user_message`: `save_proposal` (one pending row under a
      fresh id), the moderators, then the acknowledgement to the
      submitter. */
  method HandleUserMessage(store: ProposalStore, admins: seq<int>, userId: int, fromChatId: int, messageId: int,
                           createdAt: string, previewOk: seq<bool>)
    returns (id: int, log: seq<Effect>)
    requires store.Valid() && |previewOk| == |admins|
    modifies store
    ensures store.Valid()
    ensures id == old(store.nextId) && id !in old(store.rows)
    ensures Table(store.rows, store.nextId) == Inserted(Table(old(store.rows), old(store.nextId)), NewRow(userId, fromChatId, messageId, createdAt))
    ensures log == [InsertRow(id)] + AdminFanout(admins, id, fromChatId, messageId, previewOk) + [AckSubmitter]
  {
    id := store.Create(userId, fromChatId, messageId, createdAt);
    var sent := NotifyAdmins(admins, id, fromChatId, messageId, previewOk);
    log := [InsertRow(id)] + sent + [AckSubmitter];
  }

  // ---------------------------------------------------------------------
  // Runs

  /** One event against the table: a submission inserts, a press decides
      whoever made it. */
  function Step(t: Table, e: Event): Transition {
    match e
    case Submit(userId, fromChatId, messageId, createdAt) =>
      Transition(Inserted(t, NewRow(userId, fromChatId, messageId, createdAt)), [InsertRow(t.nextId)])
    case Press(_, data, publishOk) =>
      var h := Decide(data, t.rows, publishOk);
      Transition(Table(h.rows, t.nextId), h.effects)
  }

  lemma WritesOfStep(t: Table, e: Event, id: int)
    requires Numbered(t)
    ensures var tr := Step(t, e);
      WritesTo(tr.effects, id) <= 1 &&
      (WritesTo(tr.effects, id) == 1 ==> id in t.rows && t.rows[id].status == Pending && Decided(tr.table, id))
  {
    if e.Press? {
      DecideWritesOnce(e.data, t.rows, e.publishOk, id);
    }
  }

  /** A press writes a status at most once, and only to a row that was
      pending and is decided afterwards. */
  lemma DecideWritesOnce(data: Option<string>, rows: map<int, Proposal>, publishOk: bool, id: int)
    ensures var h := Decide(data, rows, publishOk);
      WritesTo(h.effects, id) <= 1 &&
      (WritesTo(h.effects, id) == 1 ==> id in rows && rows[id].status == Pending && id in h.rows && h.rows[id].status != Pending)
  {
    match ParseCallbackData(data)
    case Decision(action, target) => ResolveWritesOnce(action, target, rows, publishOk, id);
    case _ =>
  }

  lemma ResolveWritesOnce(action: Action, target: int, rows: map<int, Proposal>, publishOk: bool, id: int)
    ensures var h := Resolve(action, target, rows, publishOk);
      WritesTo(h.effects, id) <= 1 &&
      (WritesTo(h.effects, id) == 1 ==> id in rows && rows[id].status == Pending && id in h.rows && h.rows[id].status != Pending)
  {
    var h := Resolve(action, target, rows, publishOk);
    if target in rows && rows[target].status == Pending && (action == Reject || publishOk) {
      var p := rows[target];
      var s := if action == Approve then Status.Approved else Status.Rejected;
      var before := if action == Approve then [ReadRow(target), Publish(p.fromChatId, p.messageId)] else [ReadRow(target)];
      var after := [NotifyProposer(p.userId, s)];
      assert h.effects == before + [WriteStatus(target, s)] + after;
      assert h.rows == WithStatus(rows, target, s);
      WritesToAppend(before, [WriteStatus(target, s)], id);
      WritesToAppend(before + [WriteStatus(target, s)], after, id);
      assert WritesTo(before, id) == 0;
      assert WritesTo(after, id) == 0;
      assert WritesTo([WriteStatus(target, s)], id) == if target == id then 1 else 0;
    } else {
      assert WritesTo(h.effects, id) == 0;
    }
  }

  /** The log of `HandleUserMessage` writes no status, exactly like the
      log of the submission step, so the run results cover the handler as
      written: its table is `Step`'s and the fanout adds no write. */
  lemma SubmitWritesNothing(admins: seq<int>, t: Table, userId: int, fromChatId: int, messageId: int, createdAt: string,
                            previewOk: seq<bool>, k: int)
    requires |previewOk| == |admins|
    ensures var tr := Step(t, Submit(userId, fromChatId, messageId, createdAt));
      && WritesTo([InsertRow(t.nextId)] + AdminFanout(admins, t.nextId, fromChatId, messageId, previewOk) + [AckSubmitter], k) == 0
      && WritesTo(tr.effects, k) == 0
  {
    var fanout := AdminFanout(admins, t.nextId, fromChatId, messageId, previewOk);
    FanoutWritesNothing(admins, t.nextId, fromChatId, messageId, previewOk, k);
    WritesToAppend([InsertRow(t.nextId)], fanout, k);
    WritesToAppend([InsertRow(t.nextId)] + fanout, [AckSubmitter], k);
  }

  lemma StepLawful(t: Table, e: Event)
    requires Numbered(t)
    ensures Lawful(t, Step(t, e))
  {
    var tr := Step(t, e);
    forall id ensures WritesTo(tr.effects, id) <= 1 &&
      (WritesTo(tr.effects, id) == 1 ==> id in t.rows && t.rows[id].status == Pending && Decided(tr.table, id))
    {
      WritesOfStep(t, e, id);
    }
  }

  /** However the buttons are pressed, and by whomever, each proposal is
      decided at most once and a decided proposal never changes. */
  lemma DecidedAtMostOnce(t: Table, events: seq<Event>, id: int)
    requires Numbered(t)
    ensures Decisions(Step, t, events, id) <= if Decided(t, id) then 0 else 1
    ensures Decided(t, id) ==>
      var after := Run(Step, t, events);
      id in after.rows && after.rows[id] == t.rows[id]
  {
    forall t', e | Numbered(t') ensures Lawful(t', Step(t', e)) {
      StepLawful(t', e);
    }
    AtMostOneDecision(Step, t, events, id);
    RunEvolves(Step, t, events);
  }
}
