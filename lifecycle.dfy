/** Runs of a bot: a sequence of submissions and button presses, each
    handled to completion before the next (the async interleaving of two
    handlers is not modelled). Given a handler that is `Lawful` step by
    step, a run only lets rows evolve from pending to decided, and each
    proposal is decided at most once however often its buttons are
    pressed. */
module Lifecycle {
  import opened Wrappers
  import opened Proposals

  datatype Event =
    | Submit(userId: int, fromChatId: int, messageId: int, createdAt: string)
    | Press(actor: int, data: Option<string>, publishOk: bool)

  /** The table after one event and what the handler did. */
  datatype Transition = Transition(table: Table, effects: seq<Effect>)

  predicate Decided(t: Table, id: int) {
    id in t.rows && t.rows[id].status != Pending
  }

  /** One handled event keeps the numbering, lets rows only evolve, and
      writes a status at most once, and only to a row that was pending and
      is decided afterwards. */
  ghost predicate Lawful(t: Table, tr: Transition) {
    && Numbered(tr.table)
    && Evolves(t.rows, tr.table.rows)
    && forall id {:trigger WritesTo(tr.effects, id)} ::
         WritesTo(tr.effects, id) <= 1 &&
         (WritesTo(tr.effects, id) == 1 ==> id in t.rows && t.rows[id].status == Pending && Decided(tr.table, id))
  }

  ghost predicate LawfulHandler(step: (Table, Event) -> Transition) {
    forall t, e :: Numbered(t) ==> Lawful(t, step(t, e))
  }

  /** The table after handling `events` in order. */
  function Run(step: (Table, Event) -> Transition, t: Table, events: seq<Event>): Table
    decreases |events|
  {
    if events == [] then t else Run(step, step(t, events[0]).table, events[1..])
  }

  /** How many status writes to `id` the run makes. */
  function Decisions(step: (Table, Event) -> Transition, t: Table, events: seq<Event>, id: int): nat
    decreases |events|
  {
    if events == [] then 0
    else
      var tr := step(t, events[0]);
      WritesTo(tr.effects, id) + Decisions(step, tr.table, events[1..], id)
  }

  /** Over a whole run rows are never lost and only go from pending to
      decided; in particular a decided row never changes again. */
  lemma {:induction false} RunEvolves(step: (Table, Event) -> Transition, t: Table, events: seq<Event>)
    requires LawfulHandler(step) && Numbered(t)
    ensures Numbered(Run(step, t, events)) && Evolves(t.rows, Run(step, t, events).rows)
    decreases |events|
  {
    if events != [] {
      var next := step(t, events[0]).table;
      assert Lawful(t, step(t, events[0]));
      RunEvolves(step, next, events[1..]);
      EvolvesTransitive(t.rows, next.rows, Run(step, next, events[1..]).rows);
    }
  }

  /** However the events go, a proposal gets at most one status write, and
      none at all once it is decided. */
  lemma {:induction false} AtMostOneDecision(step: (Table, Event) -> Transition, t: Table, events: seq<Event>, id: int)
    requires LawfulHandler(step) && Numbered(t)
    ensures Decisions(step, t, events, id) <= if Decided(t, id) then 0 else 1
    decreases |events|
  {
    if events != [] {
      var tr := step(t, events[0]);
      assert Lawful(t, tr);
      assert WritesTo(tr.effects, id) <= 1;
      AtMostOneDecision(step, tr.table, events[1..], id);
      if Decided(t, id) {
        EvolvesKeepsDecided(t.rows, tr.table.rows, id);
      }
    }
  }
}
