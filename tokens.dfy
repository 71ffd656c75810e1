/** The callback data of the two moderation buttons: `approve:<id>` and
    `reject:<id>`, with the id written by `str`. Both bots build the same
    keyboard; each parses the data back in its own way (see WebhookBot and
    PollingBot). */
module Tokens {
  import opened Text

  datatype Action = Approve | Reject

  function ActionName(a: Action): (name: string)
    ensures name != [] && ':' !in name
  {
    match a
    case Approve => "approve"
    case Reject => "reject"
  }

  /** What a button's data starts with: the action and a colon. */
  function Prefix(a: Action): string {
    ActionName(a) + ":"
  }

  /** `f"{action}:{proposal_id}"`. */
  function Token(a: Action, id: int): (t: string)
    ensures StartsWith(t, Prefix(a)) && t[|Prefix(a)|..] == IntToString(id)
  {
    Prefix(a) + IntToString(id)
  }

  /** The callback data of the keyboard attached for proposal `id`: the
      approve button first, then the reject button. */
  function Keyboard(id: int): (buttons: seq<string>)
    ensures |buttons| == 2 && buttons[0] == Token(Approve, id) && buttons[1] == Token(Reject, id)
    ensures buttons[0] != buttons[1]
  {
    PrefixesDisjoint(Token(Approve, id));
    [Token(Approve, id), Token(Reject, id)]
  }

  /** What a handler makes of a button's data: not a decision button at
      all, a decision button whose id is not an integer, or a decision. */
  datatype Parsed = NotDecision | Malformed | Decision(action: Action, id: int)

  /** What the rest of the data after `a`'s prefix stands for: a decision
      when it is an integer, malformed otherwise. */
  function ReadAs(a: Action, rest: string): Parsed {
    match ParseInt(rest)
    case None => Malformed
    case Some(id) => Decision(a, id)
  }

  /** The two prefixes exclude each other. */
  lemma PrefixesDisjoint(d: string)
    ensures !(StartsWith(d, Prefix(Approve)) && StartsWith(d, Prefix(Reject)))
  {
    if StartsWith(d, Prefix(Approve)) {
      assert d[0] == d[..|Prefix(Approve)|][0] == 'a';
    }
  }

  /** Data that starts with an action's prefix is that action's name, a
      colon, and the rest. */
  lemma PrefixSplit(d: string, a: Action)
    requires StartsWith(d, Prefix(a))
    ensures d == ActionName(a) + [':'] + d[|Prefix(a)|..]
  {
    assert d == d[..|Prefix(a)|] + d[|Prefix(a)|..];
  }

  /** Different buttons carry different data: the data determines both
      the action and the proposal id. */
  lemma TokenInjective(a: Action, i: int, b: Action, j: int)
    requires Token(a, i) == Token(b, j)
    ensures a == b && i == j
  {
    PrefixesDisjoint(Token(a, i));
    IntRoundTrip(i);
    IntRoundTrip(j);
  }
}
