# Suggestion-box moderation bot, modelled in Dafny

The system is a Telegram "suggestion box". A user sends the bot a message.
The bot stores it as a **proposal** in a `proposals` table with status
`pending`. The webhook bot takes every message except `/start`; the
polling bot takes only the content types it registers (text, photo,
video, voice, audio, document, sticker, video note). Every moderator on the `ADMIN_IDS` allow-list gets the message
with two inline buttons. The buttons carry the data `approve:<id>` and
`reject:<id>`. A button press:
- approves the proposal: the original message is copied to the channel,
  the status becomes `approved` and the proposer is told;
- or rejects it: the status becomes `rejected` and the proposer is told.

The repository has two variants of the same pipeline:

- `bot.py` is a webhook bot. It checks the presser against the
  allow-list. It splits the button data on the first colon. It answers
  malformed data with "invalid id". On approval it tells the proposer
  before recording the status.
- `main.py` is a polling bot. It does no allow-list check. It splits
  on every colon and unpacks two values. Malformed data makes the handler
  raise. On approval it records the status before telling the proposer.

## Modules

- `Wrappers` is `Option`.
- `Text` holds the Python string operations the pipeline uses:
  - `strip()`, with Python's whitespace set;
  - `rstrip("/")`;
  - `split(",")`, `split(":")` and `split(":", 1)`;
  - `startswith`;
  - `str(int)`;
  - `int()` on an optional `-` followed by ASCII digits.

  It also proves the round trips between these operations.
- `Config` parses the `ADMIN_IDS` comprehension. Both files use the same one.
- `Proposals` holds:
  - the table, its rows and the status lattice `pending → approved | rejected`;
  - the log of transport and store effects;
  - the handler outcomes;
  - the `ProposalStore` class: the table as a map plus the AUTOINCREMENT
    counter, with `Create`, `Get` and `SetStatus`.
- `Tokens` builds the button data.
- `Lifecycle` describes runs of events, each event a submission or a button
  press. For any handler whose single steps are lawful, it proves that
  every proposal is decided at most once.
- `WebhookBot` (bot.py) and `PollingBot` (main.py) each hold:
  - the button-data parser;
  - the handlers as methods on the store;
  - a pure function `Decide` that each method is proved against;
  - the lemmas about each variant.

Telegram calls are boolean success inputs. The attempted calls are
recorded in an effect log, so the order of publish, write and notify is
part of every contract.

## Model

| member | source | states |
|---|---|---|
| Config.ParseAdminIds | bot.py:26 | The list exists exactly when every comma-separated piece is blank or an integer once stripped, and has at most one id per piece |
| Config.ParseIdsPointwise | bot.py:26 | The id list exists exactly when every stripped non-blank piece is an integer; then the k-th id is the k-th piece's value |
| Config.AdminIdsConcat | bot.py:26 | The list for `a + "," + b` is the list for `a` followed by the list for `b`, so ids keep input order |
| Config.OneField | main.py:25 | A comma-free piece adds nothing when blank, its stripped value when it is an integer, and fails otherwise |
| Config.PaddedId | main.py:25 | An id with whitespace around it reads back as exactly that id |
| Config.BlankGivesNothing | main.py:25 | An all-whitespace value gives the empty list |
| Config.BlankPieceSkipped | bot.py:26 | A blank piece between two commas is dropped |
| Text.StripSplit | bot.py:26 | The input is some whitespace, then the result of `strip`, then some whitespace: `strip` drops only whitespace, and only at the two ends |
| Text.StripExactly | main.py:25 | Stripping removes exactly the surrounding whitespace and keeps the body |
| Text.SplitThenJoin | main.py:123 | The pieces of `split` contain no separator, and joining them with it gives back the input |
| Text.JoinThenSplit | main.py:123 | Splitting a join of separator-free pieces gives back those pieces |
| Text.SplitAround | main.py:123 | Splitting `a + ":" + b` splits `a` and `b` independently |
| Text.SplitOnce | bot.py:114 | `split(":", 1)` gives one piece exactly when there is no colon, otherwise two pieces around the first colon |
| Text.SplitOnceAfter | bot.py:114 | A colon-free head before the first colon comes back as `[head, tail]` |
| Text.RStrip | bot.py:30 | The result is a prefix of the input, the rest is all `/`, and the result does not end in `/` |
| Text.IntRoundTrip | bot.py:58 | `int(str(i)) == i` for every integer |
| Text.ParseInt | main.py:124 | `int` succeeds exactly on an optional `-` followed by one or more ASCII digits |
| Text.ParsedHasOnlyDigits | main.py:124 | Text that `int` accepts contains no colon and no comma |
| Tokens.TokenInjective | main.py:81-82 | Different buttons carry different data: equal data means the same action and the same proposal id |
| Tokens.Keyboard | bot.py:54-63 | The keyboard holds the approve button, then the reject button, and their data differ |
| Tokens.PrefixesDisjoint | bot.py:110 | No data starts with both `approve:` and `reject:` |
| Proposals.NewRow | bot.py:47 | A row inserted without a status is `pending` (the column default) |
| Proposals.Inserted | bot.py:43-47 | Inserting a row adds exactly the next id, bumps the counter, keeps the table numbered and changes no existing row |
| Proposals.WithStatus | main.py:69-72 | The status update writes the given status to that one row only, whatever its current status |
| Proposals.EvolvesKeepsDecided | bot.py:133-136 | After any lawful evolution, an approved or rejected row is still there and unchanged |
| Proposals.DecidingEvolves | main.py:137-156 | Deciding a pending row is a lawful evolution of the table |
| Proposals.ProposalStore.Create | main.py:51-59 | `save_proposal` returns an id no existing row uses and inserts exactly one pending row under it |
| Proposals.ProposalStore.Get | main.py:61-67 | `get_proposal` returns the row when the id exists, and nothing for an id never created |
| Proposals.ProposalStore.SetStatus | main.py:69-72 | `update_proposal_status` changes only that row's status and not the counter |
| Lifecycle.RunEvolves | bot.py:121-165 | Over any run of a lawful handler, every row only moves from pending to a decided status |
| Lifecycle.AtMostOneDecision | bot.py:133-136 | Over any run of a lawful handler, each proposal gets at most one status write, and none once decided |
| WebhookBot.WebhookUrl | bot.py:29-30 | The address is a prefix of the base that does not end in `/`, whose remainder in the base is all `/`, followed by `/webhook/` and the token |
| WebhookBot.WebhookUrlJoin | bot.py:29-30 | The webhook address is the base without its trailing slashes, then `/webhook/` and the token, with no `//` at the join |
| WebhookBot.ParseCallbackData | bot.py:109-119 | Data is not a decision exactly when it lacks both prefixes; with `a`'s prefix it is the decision `a` on the rest's integer value, or malformed when the rest is not an integer |
| WebhookBot.ParseCallbackDataSpec | bot.py:109-119 | The data is ignored exactly without a decision prefix; it decides `a` on `id` exactly when it is `a`'s prefix followed by an integer literal for `id`; it is invalid exactly when the rest is not an integer |
| WebhookBot.KeyboardRoundTrip | bot.py:54-63 | Both buttons' data parse back to their own action and id |
| WebhookBot.Decide | bot.py:103-168 | A press only evolves the rows; every outcome other than an approval or a rejection leaves them unchanged, and those two write the decided status to one pending row only |
| WebhookBot.Resolve | bot.py:121-168 | After the token is read, only an approval or a rejection changes the rows, and then it writes that decided status to the one pending row the token names |
| WebhookBot.ResolveInStore | bot.py:121-168 | The lookup, pending check and decision steps give the outcome, new rows and call sequence of `Resolve` on the old rows; the counter is unchanged |
| WebhookBot.DecideWritesOnce | bot.py:138-165 | A press writes a status at most once, and only to a row that was pending and is decided afterwards |
| WebhookBot.HandleAdminCallback | bot.py:103-168 | The handler's outcome, new rows and call sequence are those of `Decide` on the old rows; the counter is unchanged and the store stays valid |
| WebhookBot.OnlyModerators | bot.py:104-107 | A presser is refused exactly when not on the allow-list, and then the store is neither read nor written |
| WebhookBot.BadDataTouchesNothing | bot.py:109-119 | Data without a prefix is ignored and a non-integer id is "invalid id", each exactly in those cases, and neither reads nor writes the store |
| WebhookBot.AbsentDataIgnored | bot.py:109-112 | A press by a moderator without any data reads as `""` and is ignored, with no read and no write |
| WebhookBot.LookupFailuresTouchNothing | bot.py:121-136 | For any data that reads as a decision, an unknown id is "not found" and a non-pending one "already processed", each exactly in those cases, with one read and no other effect |
| WebhookBot.ApproveOutcome | bot.py:138-156 | For any data that reads as an approval of a pending proposal, a failed publish leaves the proposal pending with no write; otherwise the proposer is told and then `approved` is written |
| WebhookBot.RejectOutcome | bot.py:157-168 | For any data that reads as a rejection of a pending proposal, the handler tells the proposer, then writes `rejected`, and never publishes |
| WebhookBot.AdminFanout | bot.py:91-99 | Each list entry gets one or two messages, so the fanout has between one and two entries per entry of the list; the success of each forward is given per list position, so an id listed twice gets two independent attempts |
| WebhookBot.NotifyAdmins | bot.py:91-99 | The moderator loop sends exactly, for each list entry in order, the forward and, if that entry's forward worked, the buttons |
| WebhookBot.FanoutReachesEveryAdmin | bot.py:91-99 | Every list entry gets the forward, each entry whose forward worked gets this proposal's buttons, and nothing else is sent: any buttons go to an entry whose forward worked |
| WebhookBot.FanoutWritesNothing | bot.py:91-99 | The messages to the moderators write no status |
| WebhookBot.HandleProposal | bot.py:72-99 | A submission inserts one pending row under a fresh id, acknowledges the sender, then notifies the moderators |
| WebhookBot.SubmitWritesNothing | bot.py:72-99 | The full log of a submission writes no status, like the log of the submission step in the run model, so the at-most-once results cover the handler as written |
| WebhookBot.StepLawful | bot.py:102-168 | A single submission or button press is a lawful step |
| WebhookBot.DecidedAtMostOnce | bot.py:133-165 | Over any sequence of submissions and presses, each proposal is decided at most once, and a decided one never changes |
| PollingBot.ParseCallbackData | main.py:120-124 | Absent data or data without both prefixes never reaches the handler; with `a`'s prefix it is the decision `a` on the rest's integer value, or raises when the rest is not an integer (a second colon included) |
| PollingBot.SplitDecisionData | main.py:123 | Prefixed data splits on every colon into exactly the action name and the rest when the rest has no colon; otherwise the rest is not an integer |
| PollingBot.ParseCallbackDataSpec | main.py:120-124 | Data reaches the handler exactly with a decision prefix; it decides `a` on `id` exactly when it is `a`'s prefix followed by an integer literal for `id`; otherwise it raises |
| PollingBot.KeyboardRoundTrip | main.py:77-85 | Both buttons' data go through `split(":")` and `int` back to their own action and id |
| PollingBot.SameReadingAsWebhook | main.py:122-124 | For every present data string, splitting on every colon with unpacking reads it as splitting on the first colon does |
| PollingBot.Decide | main.py:120-165 | A press only evolves the rows; every outcome other than an approval or a rejection leaves them unchanged, and those two write the decided status to one pending row only |
| PollingBot.Resolve | main.py:126-165 | After the token is read, only an approval or a rejection changes the rows, and then it writes that decided status to the one pending row the token names |
| PollingBot.ResolveInStore | main.py:126-165 | The lookup, pending check and decision steps give the outcome, new rows and call sequence of `Resolve` on the old rows; the counter is unchanged |
| PollingBot.DecideWritesOnce | main.py:137-165 | A press writes a status at most once, and only to a row that was pending and is decided afterwards, whoever presses |
| PollingBot.HandleModerationCallback | main.py:120-165 | The handler's outcome, new rows and call sequence are those of `Decide` on the old rows; the counter is unchanged and the store stays valid |
| PollingBot.MalformedRaisesFirst | main.py:120-124 | Unprefixed data is never handled and malformed data raises, each exactly in those cases, before the store is touched |
| PollingBot.SecondColonRaises | main.py:123 | Valid button data followed by a second colon raises |
| PollingBot.NoAllowList | main.py:120-124 | Whoever presses, any data that reads as a decision on a pending proposal decides it, given a reachable channel |
| PollingBot.LookupFailuresTouchNothing | main.py:126-135 | For any data that reads as a decision, an unknown id is "not found" and a non-pending one "already processed", each exactly in those cases, with one read and no write |
| PollingBot.ApproveOutcome | main.py:137-153 | For any data that reads as an approval of a pending proposal, a failed publish leaves the proposal pending with no write; otherwise `approved` is written and only then the proposer is told |
| PollingBot.RejectOutcome | main.py:155-165 | For any data that reads as a rejection of a pending proposal, the handler writes `rejected` unconditionally, then tells the proposer, and never publishes |
| PollingBot.AdminFanout | main.py:111-116 | Each list entry gets one or two messages, so the fanout has between one and two entries per entry of the list; the success of each preview is given per list position, so an id listed twice gets two independent attempts |
| PollingBot.NotifyAdmins | main.py:111-116 | The moderator loop sends exactly, for each list entry in order, the preview and, if that entry's preview worked, the copy with buttons |
| PollingBot.FanoutReachesEveryAdmin | main.py:111-116 | Every list entry gets the preview, each entry whose preview worked gets the copy with this proposal's buttons, and nothing else is sent: any copy goes to an entry whose preview worked |
| PollingBot.FanoutWritesNothing | main.py:111-116 | The messages to the moderators write no status |
| PollingBot.HandleUserMessage | main.py:102-118 | A submission inserts one pending row under a fresh id, notifies the moderators, then acknowledges the sender |
| PollingBot.SubmitWritesNothing | main.py:102-118 | The full log of a submission writes no status, like the log of the submission step in the run model, so the at-most-once results cover the handler as written |
| PollingBot.StepLawful | main.py:120-165 | A single submission or button press is a lawful step |
| PollingBot.DecidedAtMostOnce | main.py:133-165 | Over any sequence of submissions and presses by anyone, each proposal is decided at most once, and a decided one never changes |

## Left out

- The Telegram, aiohttp and FastAPI plumbing is I/O and framework wiring:
  - the webhook and HTTP endpoints;
  - `feed_webhook_update` and `process_update`;
  - the polling task;
  - the startup and shutdown hooks;
  - `web.run_app` and `uvicorn.run`.
- The `/start` command handler (bot.py:66-68) only sends a fixed reply.
- `PollingBot.HandleUserMessage` does not model the content-type filter of
  main.py:90-101. Telegram decides which messages reach the handler, and
  the model takes every message it is given. A message of another type,
  such as an animation or a location, creates no proposal in main.py.
- Telegram calls are boolean success inputs. They are `forward_message`,
  `send_message`, `copy_message`, `copy_to`, `edit_text` and `answer`.
  Message texts, HTML and the localised strings are not modelled.
  - The proposer notice is attempted in both variants. Whether it
    succeeds changes nothing, so the `notifyOk` input of both handlers is unused.
  - The answers and message edits of the decision handlers are not in
    the effect log. They have no effect on the store.
- SQLite is replaced by the map and counter of `ProposalStore`. Database
  errors and the upper bound of AUTOINCREMENT ids are not modelled.
  One such error is reachable from button data. `int(sid)` accepts an id
  outside SQLite's 64-bit range, such as `approve:9223372036854775808`.
  Binding it in the lookup (bot.py:123-126, main.py:62-66) raises
  `OverflowError`, which neither handler catches. The model answers
  `NotFound` with a single `ReadRow`. Neither writes to the store.
  `execute_fetchone` (bot.py:123) is taken to return the one row with
  that id, or nothing.
- The check-then-update race between the status read and the
  unconditional `UPDATE` is out of scope. Two presses can run concurrently
  in either bot. Each handler is modelled as one atomic step, so
  `DecidedAtMostOnce` holds only for sequential runs. The source does not
  guard against the race.
- `created_at` is an opaque string given by the caller. `datetime.utcnow()`
  is a clock.
- `Text.ParseInt`: Python's `int()` also accepts surrounding whitespace, `+`,
  `_` separators and non-ASCII digits. The model accepts only an optional
  `-` and ASCII digits. Data such as `approve: 7` is therefore malformed in
  the model and accepted by Python.
- A value in `ADMIN_IDS` that `int()` refuses stops the program at
  start-up. The model returns `None` for it.
- The environment checks (bot.py:22-24, main.py:22-23) are not modelled.
- The hard-coded `WEBHOOK_HOST` and the reassignment of `WEBHOOK_URL`
  (bot.py:172-174) are not modelled. That reassignment makes the
  line-30 address dead: the webhook is registered at the hard-coded host.
  `WebhookBot.WebhookUrl` models line 30 as written.
- `main.py` falls through when the action is neither `approve` nor
  `reject` (main.py:155). The prefix filter makes that branch
  unreachable, so `PollingBot.ParseCallbackData` maps every decision to
  `Approve` or `Reject`.
- The code decides unconditionally and publishes before it records.
  The model follows the code. An approval whose publish fails leaves the
  proposal `pending`, and the status write is an unconditional `UPDATE`.
