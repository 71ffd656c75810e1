/** The moderator allow-list read from the `ADMIN_IDS` environment
    variable. Both bots build it with the same comprehension: split on
    `,`, strip each piece, drop the blank ones, convert the rest with
    `int`. A piece that `int` refuses stops the program at start-up; the
    model says `None` there. */
module Config {
  import opened Wrappers
  import opened Text

  /** The stripped, non-blank pieces, in input order. */
  function Fields(pieces: seq<string>): (fields: seq<string>)
    ensures |fields| <= |pieces|
    ensures forall k :: 0 <= k < |fields| ==> fields[k] != []
  {
    if pieces == [] then []
    else
      var t := Strip(pieces[0]);
      (if t == [] then [] else [t]) + Fields(pieces[1..])
  }

  /** `int` applied to every field in order; `None` as soon as one fails. */
  function ParseIds(fields: seq<string>): (ids: Option<seq<int>>)
    ensures ids.Some? ==> |ids.value| == |fields|
  {
    if fields == [] then Some([])
    else
      match ParseInt(fields[0])
      case None => None
      case Some(n) =>
        match ParseIds(fields[1..])
        case None => None
        case Some(rest) => Some([n] + rest)
  }

  /** A piece the comprehension accepts: blank once stripped (it is
      skipped), or an integer once stripped. */
  predicate Accepted(piece: string) {
    var t := Strip(piece);
    t == [] || ParseInt(t).Some?
  }

  predicate AllAccepted(pieces: seq<string>) {
    forall k :: 0 <= k < |pieces| ==> Accepted(pieces[k])
  }

  /** `[int(x.strip()) for x in raw.split(",") if x.strip()]`: the list
      exists exactly when every comma-separated piece is accepted, and has
      at most one id per piece. */
  function ParseAdminIds(raw: string): (ids: Option<seq<int>>)
    ensures ids.Some? <==> AllAccepted(Split(raw, ','))
    ensures ids.Some? ==> |ids.value| <= |Split(raw, ',')|
  {
    AcceptedPieces(Split(raw, ','));
    ParseIds(Fields(Split(raw, ',')))
  }

  /** The ids exist exactly when every piece is accepted. */
  lemma AcceptedPieces(pieces: seq<string>)
    ensures ParseIds(Fields(pieces)).Some? <==> AllAccepted(pieces)
    ensures ParseIds(Fields(pieces)).Some? ==> |ParseIds(Fields(pieces)).value| <= |pieces|
  {
    var fields := Fields(pieces);
    ParseIdsPointwise(fields);
    FieldsKeep(pieces);
    var ok := t => ParseInt(t).Some?;
    assert forall piece :: Accepted(piece) <==> Strip(piece) == [] || ok(Strip(piece));
    KeepAll(pieces, Strip, ok, Accepted);
  }

  /** The non-empty images of the pieces under `f`, in order. */
  function Keep(pieces: seq<string>, f: string -> string): seq<string> {
    if pieces == [] then []
    else
      var t := f(pieces[0]);
      (if t == [] then [] else [t]) + Keep(pieces[1..], f)
  }

  lemma {:induction false} FieldsKeep(pieces: seq<string>)
    ensures Fields(pieces) == Keep(pieces, Strip)
  {
    if pieces != [] {
      FieldsKeep(pieces[1..]);
    }
  }

  /** Every kept image passes `ok` exactly when every piece passes `acc`,
      where `acc` accepts a piece whose image is empty or passes `ok`. */
  lemma {:induction false} KeepAll(pieces: seq<string>, f: string -> string, ok: string -> bool, acc: string -> bool)
    requires forall piece :: acc(piece) <==> f(piece) == [] || ok(f(piece))
    ensures (forall k :: 0 <= k < |Keep(pieces, f)| ==> ok(Keep(pieces, f)[k])) <==>
      (forall k :: 0 <= k < |pieces| ==> acc(pieces[k]))
  {
    if pieces != [] {
      var tail := pieces[1..];
      var rest := Keep(tail, f);
      KeepAll(tail, f, ok, acc);
      var t := f(pieces[0]);
      var head: seq<string> := if t == [] then [] else [t];
      var fs := Keep(pieces, f);
      assert fs == head + rest;
      assert acc(pieces[0]) <==> t == [] || ok(t);
      if t != [] {
        assert head[0] == t;
      }
      assert acc(pieces[0]) <==> forall k :: 0 <= k < |head| ==> ok(head[k]);
      assert (forall k :: 0 <= k < |fs| ==> ok(fs[k])) <==>
        (forall k :: 0 <= k < |head| ==> ok(head[k])) && (forall k :: 0 <= k < |rest| ==> ok(rest[k])) by {
        assert forall k :: 0 <= k < |head| ==> fs[k] == head[k];
        assert forall k :: 0 <= k < |rest| ==> fs[|head| + k] == rest[k];
      }
      assert (forall k :: 0 <= k < |pieces| ==> acc(pieces[k])) <==>
        acc(pieces[0]) && (forall k :: 0 <= k < |tail| ==> acc(tail[k])) by {
        assert forall k :: 1 <= k < |pieces| ==> pieces[k] == tail[k - 1];
      }
    }
  }

  /** Both lists, one after the other, when both exist. */
  function Concat(a: Option<seq<int>>, b: Option<seq<int>>): Option<seq<int>> {
    if a.Some? && b.Some? then Some(a.value + b.value) else None
  }

  /** The list exists exactly when every field is an integer, and then its
      k-th entry is the k-th field's value. */
  lemma {:induction false} ParseIdsPointwise(fields: seq<string>)
    ensures ParseIds(fields).Some? <==> forall k :: 0 <= k < |fields| ==> ParseInt(fields[k]).Some?
    ensures ParseIds(fields).Some? ==>
      forall k :: 0 <= k < |fields| ==> ParseInt(fields[k]) == Some(ParseIds(fields).value[k])
  {
    if fields != [] {
      ParseIdsPointwise(fields[1..]);
      assert forall k :: 1 <= k < |fields| ==> fields[k] == fields[1..][k - 1];
    }
  }

  lemma {:induction false} FieldsAppend(a: seq<string>, b: seq<string>)
    ensures Fields(a + b) == Fields(a) + Fields(b)
  {
    if a != [] {
      assert (a + b)[1..] == a[1..] + b;
      FieldsAppend(a[1..], b);
    } else {
      assert a + b == b;
    }
  }

  lemma {:induction false} ParseIdsAppend(a: seq<string>, b: seq<string>)
    ensures ParseIds(a + b) == Concat(ParseIds(a), ParseIds(b))
  {
    if a != [] {
      var ab := a + b;
      assert ab[0] == a[0] && ab[1..] == a[1..] + b;
      ParseIdsAppend(a[1..], b);
      if ParseInt(a[0]).Some? && ParseIds(a[1..]).Some? && ParseIds(b).Some? {
        var n, x, y := ParseInt(a[0]).value, ParseIds(a[1..]).value, ParseIds(b).value;
        assert [n] + (x + y) == ([n] + x) + y;
      }
    } else {
      assert a + b == b;
      if ParseIds(b).Some? {
        assert [] + ParseIds(b).value == ParseIds(b).value;
      }
    }
  }

  /** A piece without a comma contributes nothing when blank, and
      otherwise the value of its stripped text. */
  lemma OneField(s: string)
    requires ',' !in s
    ensures ParseAdminIds(s) ==
      if Strip(s) == [] then Some([])
      else if ParseInt(Strip(s)).Some? then Some([ParseInt(Strip(s)).value])
      else None
  {
    SplitWithoutSeparator(s, ',');
    var t := Strip(s);
    assert Fields([s]) == (if t == [] then [] else [t]) by {
      assert [s][1..] == [];
    }
    if t != [] {
      ParseIdsOfOne(t);
    }
  }

  lemma ParseIdsOfOne(t: string)
    ensures ParseIds([t]) == if ParseInt(t).Some? then Some([ParseInt(t).value]) else None
  {
    assert [t][1..] == [];
    if ParseInt(t).Some? {
      assert [ParseInt(t).value] + [] == [ParseInt(t).value];
    }
  }

  /** The list of `a + "," + b` is the list of `a` followed by that of `b`:
      the ids keep the order of the input. With `OneField` this pins the
      list down for every input. */
  lemma AdminIdsConcat(a: string, b: string)
    ensures ParseAdminIds(a + [','] + b) == Concat(ParseAdminIds(a), ParseAdminIds(b))
  {
    SplitAround(a, b, ',');
    FieldsAppend(Split(a, ','), Split(b, ','));
    ParseIdsAppend(Fields(Split(a, ',')), Fields(Split(b, ',')));
  }

  /** An id written with spaces around it reads back as that id. */
  lemma PaddedId(lead: string, n: int, trail: string)
    requires forall k :: 0 <= k < |lead| ==> IsSpace(lead[k])
    requires forall k :: 0 <= k < |trail| ==> IsSpace(trail[k])
    ensures ParseAdminIds(lead + IntToString(n) + trail) == Some([n])
  {
    var digits := IntToString(n);
    IntRoundTrip(n);
    ParsedHasOnlyDigits(digits);
    assert !IsSpace(digits[0]) && !IsSpace(digits[|digits| - 1]);
    StripExactly(lead, digits, trail);
    var s := lead + digits + trail;
    forall k | 0 <= k < |s| ensures s[k] != ',' {
      if k < |lead| {
        assert s[k] == lead[k];
      } else if k < |lead| + |digits| {
        assert s[k] == digits[k - |lead|];
      } else {
        assert s[k] == trail[k - |lead| - |digits|];
      }
    }
    OneField(s);
  }

  /** Nothing but whitespace gives the empty list. */
  lemma BlankGivesNothing(blank: string)
    requires forall k :: 0 <= k < |blank| ==> IsSpace(blank[k])
    ensures ParseAdminIds(blank) == Some([])
  {
    forall k | 0 <= k < |blank| ensures blank[k] != ',' {
      assert IsSpace(blank[k]);
    }
    StripExactly(blank, "", "");
    assert blank + "" + "" == blank;
    OneField(blank);
  }

  /** A blank piece between two commas adds nothing to the list. */
  lemma BlankPieceSkipped(a: string, blank: string, b: string)
    requires forall k :: 0 <= k < |blank| ==> IsSpace(blank[k])
    ensures ParseAdminIds(a + [','] + blank + [','] + b) == Concat(ParseAdminIds(a), ParseAdminIds(b))
  {
    var rest := blank + [','] + b;
    calc {
      ParseAdminIds(a + [','] + blank + [','] + b);
      { assert a + [','] + blank + [','] + b == a + [','] + rest; }
      ParseAdminIds(a + [','] + rest);
      { AdminIdsConcat(a, rest); }
      Concat(ParseAdminIds(a), ParseAdminIds(rest));
      { SkipBlankHead(blank, b); }
      Concat(ParseAdminIds(a), ParseAdminIds(b));
    }
  }

  lemma SkipBlankHead(blank: string, b: string)
    requires forall k :: 0 <= k < |blank| ==> IsSpace(blank[k])
    ensures ParseAdminIds(blank + [','] + b) == ParseAdminIds(b)
  {
    BlankGivesNothing(blank);
    AdminIdsConcat(blank, b);
    if ParseAdminIds(b).Some? {
      assert [] + ParseAdminIds(b).value == ParseAdminIds(b).value;
    }
  }
}
