/** The webhook bot (bot.py): submissions are stored as pending proposals
    and shown to every moderator with approve/reject buttons; a button
    press from a moderator on the allow-list publishes the original message
    to the channel (approve) or turns the proposal down (reject) and tells
    the proposer. Telegram calls are boolean oracles; the store is a
    `ProposalStore`. */
module WebhookBot {
  import opened Wrappers
  import opened Text
  import opened Proposals
  import opened Tokens
  import opened Lifecycle

  // ---------------------------------------------------------------------
  // Webhook address

  function WebhookPath(botToken: string): string {
    "/webhook/" + botToken
  }

  /** `WEBHOOK_BASE.rstrip("/") + WEBHOOK_PATH`: some prefix of the base
      that does not end in `/`, all of whose remainder is `/`, then the
      path. */
  function WebhookUrl(base: string, botToken: string): (url: string)
    ensures exists n ::
      && 0 <= n <= |base| && url == base[..n] + "/webhook/" + botToken
      && (n == 0 || base[n - 1] != '/') && (forall k :: n <= k < |base| ==> base[k] == '/')
  {
    var kept := RStrip(base, '/');
    assert kept == base[..|kept|];
    kept + WebhookPath(botToken)
  }

  /** However many slashes the base ends with, the address is the base
      without them, then exactly one slash and the path: no `//` at the
      join. */
  lemma WebhookUrlJoin(host: string, slashes: string, botToken: string)
    requires host == [] || host[|host| - 1] != '/'
    requires forall k :: 0 <= k < |slashes| ==> slashes[k] == '/'
    ensures WebhookUrl(host + slashes, botToken) == host + "/webhook/" + botToken
    ensures var url := WebhookUrl(host + slashes, botToken);
      url[|host|] == '/' && (|host| == 0 || url[|host| - 1] != '/')
  {
    RStripExactly(host, slashes, '/');
  }

  // ---------------------------------------------------------------------
  // Button data

  /** `data.startswith("approve:") or data.startswith("reject:")`, then
      `action, sid = data.split(":", 1)` and `int(sid)`; the action is
      `approve` or, failing that, `reject`. */
  function ParseCallbackData(d: string): (r: Parsed)
    ensures r.NotDecision? <==> !(StartsWith(d, Prefix(Approve)) || StartsWith(d, Prefix(Reject)))
    ensures StartsWith(d, Prefix(Approve)) ==> r == ReadAs(Approve, d[|Prefix(Approve)|..])
    ensures StartsWith(d, Prefix(Reject)) ==> r == ReadAs(Reject, d[|Prefix(Reject)|..])
  {
    if !(StartsWith(d, Prefix(Approve)) || StartsWith(d, Prefix(Reject))) then NotDecision
    else
      var a := if StartsWith(d, Prefix(Approve)) then Approve else Reject;
      PrefixesDisjoint(d);
      SplitOnceDecisionData(d, a);
      var parts := SplitOnce(d, ':');
      var action, sid := parts[0], parts[1];
      match ParseInt(sid)
      case None => Malformed
      case Some(id) => Decision(if action == ActionName(Approve) then Approve else Reject, id)
  }

  /** Data that starts with `a`'s prefix splits at its first colon into
      the action name and the rest. */
  lemma SplitOnceDecisionData(d: string, a: Action)
    requires StartsWith(d, Prefix(a))
    ensures SplitOnce(d, ':') == [ActionName(a), d[|Prefix(a)|..]]
  {
    PrefixSplit(d, a);
    SplitOnceAfter(ActionName(a), d[|Prefix(a)|..], ':');
  }

  /** Data is a decision for `a` and `id` exactly when it is `a`'s prefix
      followed by an integer literal for `id`; it is malformed exactly when
      the prefix is there and the rest is not an integer. */
  lemma ParseCallbackDataSpec(d: string, a: Action, id: int)
    ensures ParseCallbackData(d).NotDecision? <==> !(StartsWith(d, Prefix(Approve)) || StartsWith(d, Prefix(Reject)))
    ensures ParseCallbackData(d) == Decision(a, id) <==>
      StartsWith(d, Prefix(a)) && ParseInt(d[|Prefix(a)|..]) == Some(id)
    ensures ParseCallbackData(d).Malformed? <==>
      exists b :: StartsWith(d, Prefix(b)) && ParseInt(d[|Prefix(b)|..]).None?
  {
    PrefixesDisjoint(d);
    if StartsWith(d, Prefix(Approve)) || StartsWith(d, Prefix(Reject)) {
      var b := if StartsWith(d, Prefix(Approve)) then Approve else Reject;
      PrefixSplit(d, b);
      SplitOnceAfter(ActionName(b), d[|Prefix(b)|..], ':');
      assert ParseCallbackData(d).Malformed? <==> ParseInt(d[|Prefix(b)|..]).None?;
    }
  }

  /** The data on both buttons of proposal `id` reads back as that
      button's action and `id`. */
  lemma KeyboardRoundTrip(id: int)
    ensures ParseCallbackData(Keyboard(id)[0]) == Decision(Approve, id)
    ensures ParseCallbackData(Keyboard(id)[1]) == Decision(Reject, id)
  {
    IntRoundTrip(id);
    ParseCallbackDataSpec(Token(Approve, id), Approve, id);
    ParseCallbackDataSpec(Token(Reject, id), Reject, id);
  }

  // ---------------------------------------------------------------------
  // Button presses

  /** `handle_admin_callback`, as a function of the rows before the press:
      authorisation, then the token, then the lookup, then the "still
      pending" check, then approve (publish, notify, write) or reject
      (notify, write). `query.data` may be absent and then reads as `""`. */
  function Decide(admins: seq<int>, actor: int, data: Option<string>, rows: map<int, Proposal>, publishOk: bool): (h: Handled)
    ensures Evolves(rows, h.rows)
    ensures h.outcome !in {Approval, Rejection} ==> h.rows == rows
    ensures h.outcome in {Approval, Rejection} ==>
      exists id :: id in rows && rows[id].status == Pending
        && h.rows == WithStatus(rows, id, if h.outcome == Approval then Approved else Rejected)
  {
    if actor !in admins then Handled(PermissionDenied, rows, [])
    else
      match ParseCallbackData(if data.Some? then data.value else "")
      case NotDecision => Handled(Ignored, rows, [])
      case Malformed => Handled(InvalidId, rows, [])
      case Decision(action, id) => Resolve(action, id, rows, publishOk)
  }

  /** What `handle_admin_callback` does once the token has been read: the
      lookup, the "still pending" check, then approve (publish, notify,
      write) or reject (notify, write). */
  function Resolve(action: Action, id: int, rows: map<int, Proposal>, publishOk: bool): (h: Handled)
    ensures Evolves(rows, h.rows)
    ensures h.outcome !in {Approval, Rejection} ==> h.rows == rows
    ensures h.outcome in {Approval, Rejection} ==>
      id in rows && rows[id].status == Pending
        && h.rows == WithStatus(rows, id, if h.outcome == Approval then Approved else Rejected)
  {
    if id !in rows then Handled(NotFound, rows, [ReadRow(id)])
    else
      var p := rows[id];
      if p.status != Pending then Handled(AlreadyProcessed, rows, [ReadRow(id)])
      else
        match action
        case Approve =>
          if !publishOk then Handled(PublishFailed, rows, [ReadRow(id), Publish(p.fromChatId, p.messageId)])
          else Handled(Approval, WithStatus(rows, id, Approved),
            [ReadRow(id), Publish(p.fromChatId, p.messageId), NotifyProposer(p.userId, Approved), WriteStatus(id, Approved)])
        case Reject =>
          Handled(Rejection, WithStatus(rows, id, Rejected),
            [ReadRow(id), NotifyProposer(p.userId, Rejected), WriteStatus(id, Rejected)])
  }

  /** `handle_admin_callback` against the store. Whether the proposer's
      notice arrives (`notifyOk`) changes nothing: its failure is only
      logged. */
  method HandleAdminCallback(store: ProposalStore, admins: seq<int>, actor: int, data: Option<string>, publishOk: bool, notifyOk: bool)
    returns (outcome: Outcome, log: seq<Effect>)
    requires store.Valid()
    modifies store
    ensures store.Valid() && store.nextId == old(store.nextId)
    ensures Decide(admins, actor, data, old(store.rows), publishOk) == Handled(outcome, store.rows, log)
  {
    if actor !in admins {
      return PermissionDenied, [];
    }
    var parsed := ParseCallbackData(if data.Some? then data.value else "");
    if parsed.NotDecision? {
      return Ignored, [];
    }
    if parsed.Malformed? {
      return InvalidId, [];
    }
    outcome, log := ResolveInStore(store, parsed.action, parsed.id, publishOk);
  }

  /** The part of `handle_admin_callback` after the token is read. */
  method ResolveInStore(store: ProposalStore, action: Action, id: int, publishOk: bool)
    returns (outcome: Outcome, log: seq<Effect>)
    requires store.Valid()
    modifies store
    ensures store.Valid() && store.nextId == old(store.nextId)
    ensures Resolve(action, id, old(store.rows), publishOk) == Handled(outcome, store.rows, log)
  {
    var row := store.Get(id);
    log := [ReadRow(id)];
    if row.None? {
      return NotFound, log;
    }
    var p := row.value;
    if p.status != Pending {
      return AlreadyProcessed, log;
    }
    if action == Approve {
      log := log + [Publish(p.fromChatId, p.messageId)];
      if !publishOk {
        return PublishFailed, log;
      }
      log := log + [NotifyProposer(p.userId, Approved)];
      store.SetStatus(id, Approved);
      log := log + [WriteStatus(id, Approved)];
      outcome := Approval;
    } else {
      log := log + [NotifyProposer(p.userId, Rejected)];
      store.SetStatus(id, Rejected);
      log := log + [WriteStatus(id, Rejected)];
      outcome := Rejection;
    }
  }

  /** Someone not on the allow-list is turned away, whatever the data, and
      the store is neither read nor written. */
  lemma OnlyModerators(admins: seq<int>, actor: int, data: Option<string>, rows: map<int, Proposal>, publishOk: bool)
    ensures var h := Decide(admins, actor, data, rows, publishOk);
      && (h.outcome == PermissionDenied <==> actor !in admins)
      && (actor !in admins ==> h.rows == rows && h.effects == [])
  {
  }

  /** Data without a decision prefix is ignored, and a decision prefix
      followed by something other than an integer is answered "invalid
      id"; either way there is no lookup and no write. */
  lemma BadDataTouchesNothing(admins: seq<int>, actor: int, d: string, rows: map<int, Proposal>, publishOk: bool)
    requires actor in admins
    ensures var h := Decide(admins, actor, Some(d), rows, publishOk);
      && (h.outcome == Ignored <==> !(StartsWith(d, Prefix(Approve)) || StartsWith(d, Prefix(Reject))))
      && (h.outcome == InvalidId <==> exists b :: StartsWith(d, Prefix(b)) && ParseInt(d[|Prefix(b)|..]).None?)
      && (h.outcome in {Ignored, InvalidId} ==> h.rows == rows && h.effects == [])
  {
    ParseCallbackDataSpec(d, Approve, 0);
  }

  /** A press without data (`query.data` absent) reads as `""` and is
      ignored, with no effect. */
  lemma AbsentDataIgnored(admins: seq<int>, actor: int, rows: map<int, Proposal>, publishOk: bool)
    requires actor in admins
    ensures Decide(admins, actor, None, rows, publishOk) == Handled(Ignored, rows, [])
  {
    BadDataTouchesNothing(admins, actor, "", rows, publishOk);
  }

  /** A decision on an unknown id is "not found", one on a proposal that is
      no longer pending "already processed"; both only read the row, and
      neither publishes, notifies or writes. This holds for any data that
      reads as the decision, not only the buttons' own. */
  lemma LookupFailuresTouchNothing(admins: seq<int>, actor: int, d: string, a: Action, id: int, rows: map<int, Proposal>, publishOk: bool)
    requires actor in admins && ParseCallbackData(d) == Decision(a, id)
    ensures var h := Decide(admins, actor, Some(d), rows, publishOk);
      && (h.outcome == NotFound <==> id !in rows)
      && (h.outcome == AlreadyProcessed <==> id in rows && rows[id].status != Pending)
      && (h.outcome in {NotFound, AlreadyProcessed} ==> h.rows == rows && h.effects == [ReadRow(id)])
  {
  }

  /** Approving a pending proposal publishes it first. If publishing fails
      the handler stops before any write, so the proposal stays pending; if
      it succeeds the status becomes approved, whether or not the proposer
      could be told (the notice comes before the write). */
  lemma ApproveOutcome(admins: seq<int>, actor: int, d: string, id: int, rows: map<int, Proposal>, publishOk: bool)
    requires actor in admins && ParseCallbackData(d) == Decision(Approve, id)
    requires id in rows && rows[id].status == Pending
    ensures var h := Decide(admins, actor, Some(d), rows, publishOk);
      var p := rows[id];
      && (!publishOk ==> h.outcome == PublishFailed && h.rows == rows
                          && h.effects == [ReadRow(id), Publish(p.fromChatId, p.messageId)])
      && (publishOk ==> h.outcome == Approval && h.rows == WithStatus(rows, id, Approved) && h.rows[id].status == Approved
                         && h.effects == [ReadRow(id), Publish(p.fromChatId, p.messageId),
                                          NotifyProposer(p.userId, Approved), WriteStatus(id, Approved)])
  {
  }

  /** Rejecting a pending proposal always records `rejected`, after trying
      to tell the proposer, and never publishes. */
  lemma RejectOutcome(admins: seq<int>, actor: int, d: string, id: int, rows: map<int, Proposal>, publishOk: bool)
    requires actor in admins && ParseCallbackData(d) == Decision(Reject, id)
    requires id in rows && rows[id].status == Pending
    ensures var h := Decide(admins, actor, Some(d), rows, publishOk);
      && h.outcome == Rejection && h.rows == WithStatus(rows, id, Rejected) && h.rows[id].status == Rejected
      && h.effects == [ReadRow(id), NotifyProposer(rows[id].userId, Rejected), WriteStatus(id, Rejected)]
  {
  }

  // ---------------------------------------------------------------------
  // Submissions

  /** The messages sent to the moderators, in allow-list order: for each,
      the original is forwarded and, if that worked, the buttons follow.
      One moderator's failure does not stop the others. `forwardOk[k]` is
      whether the forward to the k-th list entry worked, so an id listed
      twice gets two independent attempts. */
  function AdminFanout(admins: seq<int>, id: int, fromChatId: int, messageId: int, forwardOk: seq<bool>): (log: seq<Effect>)
    requires |forwardOk| == |admins|
    ensures |admins| <= |log| <= 2 * |admins|
    decreases |admins|
  {
    if admins == [] then []
    else
      var n := |admins| - 1;
      AdminFanout(admins[..n], id, fromChatId, messageId, forwardOk[..n])
        + [AdminForward(admins[n], fromChatId, messageId)]
        + (if forwardOk[n] then [AdminButtons(admins[n], id, Keyboard(id))] else [])
  }

  /** The loop over `ADMIN_IDS` in `handle_proposal`, each iteration in its
      own `try`. */
  method NotifyAdmins(admins: seq<int>, id: int, fromChatId: int, messageId: int, forwardOk: seq<bool>)
    returns (log: seq<Effect>)
    requires |forwardOk| == |admins|
    ensures log == AdminFanout(admins, id, fromChatId, messageId, forwardOk)
  {
    log := [];
    for i := 0 to |admins|
      invariant log == AdminFanout(admins[..i], id, fromChatId, messageId, forwardOk[..i])
    {
      assert admins[..i + 1][..i] == admins[..i];
      assert forwardOk[..i + 1][..i] == forwardOk[..i];
      log := log + [AdminForward(admins[i], fromChatId, messageId)];
      if forwardOk[i] {
        log := log + [AdminButtons(admins[i], id, Keyboard(id))];
      }
    }
    assert admins[..|admins|] == admins;
    assert forwardOk[..|admins|] == forwardOk;
  }

  /** Some entry of the list is `a` and its forward worked. */
  ghost predicate ForwardWorked(admins: seq<int>, forwardOk: seq<bool>, a: int)
    requires |forwardOk| == |admins|
  {
    exists k :: 0 <= k < |admins| && admins[k] == a && forwardOk[k]
  }

  /** Every list entry gets the original, every entry whose forward worked
      gets the buttons for this proposal, and nothing else is sent: any
      buttons go to a moderator with a forward that worked. */
  lemma {:induction false} FanoutReachesEveryAdmin(admins: seq<int>, id: int, fromChatId: int, messageId: int, forwardOk: seq<bool>)
    requires |forwardOk| == |admins|
    ensures var log := AdminFanout(admins, id, fromChatId, messageId, forwardOk);
      && (forall k :: 0 <= k < |admins| ==> AdminForward(admins[k], fromChatId, messageId) in log)
      && (forall k :: 0 <= k < |admins| && forwardOk[k] ==> AdminButtons(admins[k], id, Keyboard(id)) in log)
      && (forall e :: e in log ==>
            || (e.AdminForward? && e.admin in admins && e.fromChatId == fromChatId && e.messageId == messageId)
            || (e.AdminButtons? && ForwardWorked(admins, forwardOk, e.admin) && e.proposalId == id && e.buttons == Keyboard(id)))
  {
    FanoutFirsts(admins, id, fromChatId, messageId, forwardOk);
    FanoutSeconds(admins, id, fromChatId, messageId, forwardOk);
    FanoutOnly(admins, id, fromChatId, messageId, forwardOk);
  }

  /** The log of a list is the log of all but its last entry, then that
      entry's messages. */
  lemma FanoutLast(admins: seq<int>, id: int, fromChatId: int, messageId: int, forwardOk: seq<bool>)
    requires |forwardOk| == |admins| && admins != []
    ensures var n := |admins| - 1;
      AdminFanout(admins, id, fromChatId, messageId, forwardOk)
        == AdminFanout(admins[..n], id, fromChatId, messageId, forwardOk[..n])
           + [AdminForward(admins[n], fromChatId, messageId)]
           + (if forwardOk[n] then [AdminButtons(admins[n], id, Keyboard(id))] else [])
  {
  }

  lemma {:induction false} FanoutFirsts(admins: seq<int>, id: int, fromChatId: int, messageId: int, forwardOk: seq<bool>)
    requires |forwardOk| == |admins|
    ensures forall k :: 0 <= k < |admins| ==> AdminForward(admins[k], fromChatId, messageId) in AdminFanout(admins, id, fromChatId, messageId, forwardOk)
    decreases |admins|
  {
    if admins != [] {
      var n := |admins| - 1;
      FanoutFirsts(admins[..n], id, fromChatId, messageId, forwardOk[..n]);
      FanoutLast(admins, id, fromChatId, messageId, forwardOk);
      var prev := AdminFanout(admins[..n], id, fromChatId, messageId, forwardOk[..n]);
      var log := AdminFanout(admins, id, fromChatId, messageId, forwardOk);
      forall k | 0 <= k < |admins| ensures AdminForward(admins[k], fromChatId, messageId) in log {
        if k < n {
          assert admins[..n][k] == admins[k];
          assert AdminForward(admins[k], fromChatId, messageId) in prev;
        } else {
          assert log[|prev|] == AdminForward(admins[k], fromChatId, messageId);
        }
      }
    }
  }

  lemma {:induction false} FanoutSeconds(admins: seq<int>, id: int, fromChatId: int, messageId: int, forwardOk: seq<bool>)
    requires |forwardOk| == |admins|
    ensures forall k :: 0 <= k < |admins| && forwardOk[k] ==> AdminButtons(admins[k], id, Keyboard(id)) in AdminFanout(admins, id, fromChatId, messageId, forwardOk)
    decreases |admins|
  {
    if admins != [] {
      var n := |admins| - 1;
      FanoutSeconds(admins[..n], id, fromChatId, messageId, forwardOk[..n]);
      FanoutLast(admins, id, fromChatId, messageId, forwardOk);
      var prev := AdminFanout(admins[..n], id, fromChatId, messageId, forwardOk[..n]);
      var log := AdminFanout(admins, id, fromChatId, messageId, forwardOk);
      forall k | 0 <= k < |admins| && forwardOk[k] ensures AdminButtons(admins[k], id, Keyboard(id)) in log {
        if k < n {
          assert admins[..n][k] == admins[k] && forwardOk[..n][k];
          assert AdminButtons(admins[k], id, Keyboard(id)) in prev;
        } else {
          assert log[|prev| + 1] == AdminButtons(admins[k], id, Keyboard(id));
        }
      }
    }
  }

  lemma {:induction false} FanoutOnly(admins: seq<int>, id: int, fromChatId: int, messageId: int, forwardOk: seq<bool>)
    requires |forwardOk| == |admins|
    ensures forall e :: e in AdminFanout(admins, id, fromChatId, messageId, forwardOk) ==>
      || (e.AdminForward? && e.admin in admins && e.fromChatId == fromChatId && e.messageId == messageId)
      || (e.AdminButtons? && ForwardWorked(admins, forwardOk, e.admin) && e.proposalId == id && e.buttons == Keyboard(id))
    decreases |admins|
  {
    if admins != [] {
      var n := |admins| - 1;
      var init, initOk := admins[..n], forwardOk[..n];
      FanoutOnly(init, id, fromChatId, messageId, initOk);
      FanoutLast(admins, id, fromChatId, messageId, forwardOk);
      var prev := AdminFanout(init, id, fromChatId, messageId, initOk);
      var log := AdminFanout(admins, id, fromChatId, messageId, forwardOk);
      forall e | e in log ensures (e.AdminForward? && e.admin in admins && e.fromChatId == fromChatId && e.messageId == messageId) || (e.AdminButtons? && ForwardWorked(admins, forwardOk, e.admin) && e.proposalId == id && e.buttons == Keyboard(id)) {
        if e in prev {
          if e.AdminButtons? {
            assert ForwardWorked(init, initOk, e.admin);
            var k :| 0 <= k < |init| && init[k] == e.admin && initOk[k];
            assert admins[k] == e.admin && forwardOk[k];
          } else {
            var k :| 0 <= k < |init| && init[k] == e.admin;
            assert admins[k] == e.admin;
          }
        } else if e.AdminButtons? {
          assert forwardOk[n] && e.admin == admins[n];
        }
      }
    }
  }

  /** No message to the moderators writes a status. */
  lemma FanoutWritesNothing(admins: seq<int>, id: int, fromChatId: int, messageId: int, forwardOk: seq<bool>, k: int)
    requires |forwardOk| == |admins|
    ensures WritesTo(AdminFanout(admins, id, fromChatId, messageId, forwardOk), k) == 0
  {
    FanoutReachesEveryAdmin(admins, id, fromChatId, messageId, forwardOk);
    var log := AdminFanout(admins, id, fromChatId, messageId, forwardOk);
    forall i | 0 <= i < |log| ensures !log[i].WriteStatus? {
      assert log[i] in log;
    }
  }

  /** `handle_proposal`: one pending row under a fresh id, the
      acknowledgement to the submitter (its failure is only logged), then
      the moderators. */
  method HandleProposal(store: ProposalStore, admins: seq<int>, userId: int, fromChatId: int, messageId: int,
                        createdAt: string, forwardOk: seq<bool>)
    returns (id: int, log: seq<Effect>)
    requires store.Valid() && |forwardOk| == |admins|
    modifies store
    ensures store.Valid()
    ensures id == old(store.nextId) && id !in old(store.rows)
    ensures Table(store.rows, store.nextId) == Inserted(Table(old(store.rows), old(store.nextId)), NewRow(userId, fromChatId, messageId, createdAt))
    ensures log == [InsertRow(id), AckSubmitter] + AdminFanout(admins, id, fromChatId, messageId, forwardOk)
  {
    id := store.Create(userId, fromChatId, messageId, createdAt);
    log := [InsertRow(id), AckSubmitter];
    var sent := NotifyAdmins(admins, id, fromChatId, messageId, forwardOk);
    log := log + sent;
  }

  // ---------------------------------------------------------------------
  // Runs

  /** One event against the table: a submission inserts, a press decides. */
  function Step(admins: seq<int>, t: Table, e: Event): Transition {
    match e
    case Submit(userId, fromChatId, messageId, createdAt) =>
      Transition(Inserted(t, NewRow(userId, fromChatId, messageId, createdAt)), [InsertRow(t.nextId)])
    case Press(actor, data, publishOk) =>
      var h := Decide(admins, actor, data, t.rows, publishOk);
      Transition(Table(h.rows, t.nextId), h.effects)
  }

  /** The log of `HandleProposal` writes no status, exactly like the log
      of the submission step, so the run results cover the handler as
      written: its table is `Step`'s and the fanout adds no write. */
  lemma SubmitWritesNothing(admins: seq<int>, t: Table, userId: int, fromChatId: int, messageId: int, createdAt: string,
                            forwardOk: seq<bool>, k: int)
    requires |forwardOk| == |admins|
    ensures var tr := Step(admins, t, Submit(userId, fromChatId, messageId, createdAt));
      && WritesTo([InsertRow(t.nextId), AckSubmitter] + AdminFanout(admins, t.nextId, fromChatId, messageId, forwardOk), k) == 0
      && WritesTo(tr.effects, k) == 0
  {
    FanoutWritesNothing(admins, t.nextId, fromChatId, messageId, forwardOk, k);
    WritesToAppend([InsertRow(t.nextId), AckSubmitter], AdminFanout(admins, t.nextId, fromChatId, messageId, forwardOk), k);
  }

  lemma StepLawful(admins: seq<int>, t: Table, e: Event)
    requires Numbered(t)
    ensures Lawful(t, Step(admins, t, e))
  {
    var tr := Step(admins, t, e);
    forall id ensures WritesTo(tr.effects, id) <= 1 &&
      (WritesTo(tr.effects, id) == 1 ==> id in t.rows && t.rows[id].status == Pending && Decided(tr.table, id))
    {
      WritesOfStep(admins, t, e, id);
    }
  }

  lemma WritesOfStep(admins: seq<int>, t: Table, e: Event, id: int)
    requires Numbered(t)
    ensures var tr := Step(admins, t, e);
      WritesTo(tr.effects, id) <= 1 &&
      (WritesTo(tr.effects, id) == 1 ==> id in t.rows && t.rows[id].status == Pending && Decided(tr.table, id))
  {
    if e.Press? {
      DecideWritesOnce(admins, e.actor, e.data, t.rows, e.publishOk, id);
    }
  }

  /** A press writes a status at most once, and only to a row that was
      pending and is decided afterwards. */
  lemma DecideWritesOnce(admins: seq<int>, actor: int, data: Option<string>, rows: map<int, Proposal>, publishOk: bool, id: int)
    ensures var h := Decide(admins, actor, data, rows, publishOk);
      WritesTo(h.effects, id) <= 1 &&
      (WritesTo(h.effects, id) == 1 ==> id in rows && rows[id].status == Pending && id in h.rows && h.rows[id].status != Pending)
  {
    if actor in admins {
      match ParseCallbackData(if data.Some? then data.value else "")
      case Decision(action, target) => ResolveWritesOnce(action, target, rows, publishOk, id);
      case _ =>
    }
  }

  lemma ResolveWritesOnce(action: Action, target: int, rows: map<int, Proposal>, publishOk: bool, id: int)
    ensures var h := Resolve(action, target, rows, publishOk);
      WritesTo(h.effects, id) <= 1 &&
      (WritesTo(h.effects, id) == 1 ==> id in rows && rows[id].status == Pending && id in h.rows && h.rows[id].status != Pending)
  {
    var h := Resolve(action, target, rows, publishOk);
    if target in rows && rows[target].status == Pending && (action == Reject || publishOk) {
      var p := rows[target];
      var s := if action == Approve then Status.Approved else Status.Rejected;
      var before := if action == Approve then [ReadRow(target), Publish(p.fromChatId, p.messageId), NotifyProposer(p.userId, s)]
                    else [ReadRow(target), NotifyProposer(p.userId, s)];
      assert h.effects == before + [WriteStatus(target, s)];
      assert h.rows == WithStatus(rows, target, s);
      WritesToAppend(before, [WriteStatus(target, s)], id);
      assert WritesTo(before, id) == 0;
      assert WritesTo([WriteStatus(target, s)], id) == if target == id then 1 else 0;
    } else {
      assert WritesTo(h.effects, id) == 0;
    }
  }

  /** However moderators press the buttons, each proposal is decided at
      most once and a decided proposal never changes. */
  lemma DecidedAtMostOnce(admins: seq<int>, t: Table, events: seq<Event>, id: int)
    requires Numbered(t)
    ensures Decisions((t', e) => Step(admins, t', e), t, events, id) <= if Decided(t, id) then 0 else 1
    ensures Decided(t, id) ==>
      var after := Run((t', e) => Step(admins, t', e), t, events);
      id in after.rows && after.rows[id] == t.rows[id]
  {
    var step := (t', e) => Step(admins, t', e);
    forall t', e | Numbered(t') ensures Lawful(t', step(t', e)) {
      StepLawful(admins, t', e);
    }
    AtMostOneDecision(step, t, events, id);
    RunEvolves(step, t, events);
  }
}
