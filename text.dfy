/** The few pieces of Python string handling the bots rely on:
    `str.strip()`, `str.rstrip(c)`, `str.split(sep)`, `str.split(sep, 1)`,
    `str.startswith`, `str(int)` and `int(str)`. */
module Text {
  import opened Wrappers

  /** Python's `str.isspace()` for a single character: the ASCII controls
      TAB..CR, the separators FS..US, SPACE, and the Unicode spaces. */
  predicate IsSpace(c: char) {
    var n := c as int;
    || (0x09 <= n <= 0x0D)
    || (0x1C <= n <= 0x20)
    || n == 0x85 || n == 0xA0 || n == 0x1680
    || (0x2000 <= n <= 0x200A)
    || n == 0x2028 || n == 0x2029 || n == 0x202F || n == 0x205F || n == 0x3000
  }

  predicate StartsWith(s: string, prefix: string) {
    |prefix| <= |s| && s[..|prefix|] == prefix
  }

  /** Drops the longest prefix of characters satisfying `p`. */
  function TrimLeft(s: string, p: char -> bool): (r: string)
    ensures |r| <= |s|
    ensures r == [] || !p(r[0])
  {
    if s != [] && p(s[0]) then TrimLeft(s[1..], p) else s
  }

  /** Drops the longest suffix of characters satisfying `p`. */
  function TrimRight(s: string, p: char -> bool): (r: string)
    ensures |r| <= |s|
    ensures r == [] || !p(r[|r| - 1])
  {
    if s != [] && p(s[|s| - 1]) then TrimRight(s[..|s| - 1], p) else s
  }

  /** Python `s.strip()`. */
  function Strip(s: string): (r: string)
    ensures |r| <= |s|
    ensures r == [] || (!IsSpace(r[0]) && !IsSpace(r[|r| - 1]))
  {
    var t := TrimLeft(s, IsSpace);
    TrimRightParts(t, IsSpace);
    TrimRight(t, IsSpace)
  }

  /** Every character of `s` satisfies `p`. */
  predicate All(s: string, p: char -> bool) {
    forall k :: 0 <= k < |s| ==> p(s[k])
  }

  /** `r` is what is left of `s` after dropping a prefix and a suffix
      whose characters all satisfy `p`. */
  ghost predicate TrimmedOf(s: string, r: string, p: char -> bool) {
    exists lead, trail :: s == lead + r + trail && All(lead, p) && All(trail, p)
  }

  lemma {:induction false} TrimLeftSplit(s: string, p: char -> bool) returns (lead: string)
    ensures s == lead + TrimLeft(s, p) && All(lead, p)
    decreases |s|
  {
    if s != [] && p(s[0]) {
      var rest := TrimLeftSplit(s[1..], p);
      var r := TrimLeft(s[1..], p);
      assert TrimLeft(s, p) == r;
      lead := [s[0]] + rest;
      calc {
        lead + r;
        [s[0]] + (rest + r);
        [s[0]] + s[1..];
        s;
      }
      forall k | 0 <= k < |lead| ensures p(lead[k]) {
        if k > 0 {
          assert lead[k] == rest[k - 1];
        }
      }
    } else {
      lead := [];
    }
  }

  lemma {:induction false} TrimRightSplit(s: string, p: char -> bool) returns (trail: string)
    ensures s == TrimRight(s, p) + trail && All(trail, p)
    decreases |s|
  {
    if s != [] && p(s[|s| - 1]) {
      var init := s[..|s| - 1];
      var rest := TrimRightSplit(init, p);
      var r := TrimRight(init, p);
      assert TrimRight(s, p) == r;
      trail := rest + [s[|s| - 1]];
      calc {
        r + trail;
        (r + rest) + [s[|s| - 1]];
        init + [s[|s| - 1]];
        s;
      }
      forall k | 0 <= k < |trail| ensures p(trail[k]) {
        if k < |rest| {
          assert trail[k] == rest[k];
        }
      }
    } else {
      trail := [];
    }
  }

  /** Trimming the right end keeps a prefix of the input and drops only
      characters satisfying `p`. */
  lemma TrimRightParts(s: string, p: char -> bool)
    ensures var r := TrimRight(s, p); s == r + s[|r|..] && All(s[|r|..], p)
  {
    var trail := TrimRightSplit(s, p);
    assert s[|TrimRight(s, p)|..] == trail;
  }

  /** Trimming both ends drops a prefix and a suffix of characters
      satisfying `p`, and nothing else. */
  lemma {:induction false} TrimBothSplit(s: string, p: char -> bool)
    ensures TrimmedOf(s, TrimRight(TrimLeft(s, p), p), p)
  {
    var t := TrimLeft(s, p);
    var lead := TrimLeftSplit(s, p);
    var trail := TrimRightSplit(t, p);
    assert s == lead + TrimRight(t, p) + trail;
  }

  /** What `strip` drops is whitespace at the two ends and nothing else:
      the input is some whitespace, the result, then some whitespace. */
  lemma {:induction false} StripSplit(s: string)
    ensures TrimmedOf(s, Strip(s), IsSpace)
  {
    TrimBothSplit(s, IsSpace);
  }

  /** Python `s.rstrip(c)` for a one-character argument. */
  function RStrip(s: string, c: char): (r: string)
    ensures |r| <= |s| && s == r + s[|r|..]
    ensures forall k :: |r| <= k < |s| ==> s[k] == c
    ensures r == [] || r[|r| - 1] != c
  {
    TrimRightParts(s, x => x == c);
    TrimRight(s, x => x == c)
  }

  lemma {:induction false} TrimLeftOf(lead: string, rest: string, p: char -> bool)
    requires forall k :: 0 <= k < |lead| ==> p(lead[k])
    requires rest == [] || !p(rest[0])
    ensures TrimLeft(lead + rest, p) == rest
  {
    if lead != [] {
      assert (lead + rest)[1..] == lead[1..] + rest;
      TrimLeftOf(lead[1..], rest, p);
    }
  }

  lemma {:induction false} TrimRightOf(rest: string, trail: string, p: char -> bool)
    requires forall k :: 0 <= k < |trail| ==> p(trail[k])
    requires rest == [] || !p(rest[|rest| - 1])
    ensures TrimRight(rest + trail, p) == rest
  {
    if trail != [] {
      var t := trail[..|trail| - 1];
      assert (rest + trail)[..|rest + trail| - 1] == rest + t;
      TrimRightOf(rest, t, p);
    }
  }

  /** `strip()` removes exactly the surrounding whitespace: whatever
      lies between a whitespace prefix and a whitespace suffix, and neither
      starts nor ends with whitespace, is what is left. */
  lemma StripExactly(lead: string, body: string, trail: string)
    requires forall k :: 0 <= k < |lead| ==> IsSpace(lead[k])
    requires forall k :: 0 <= k < |trail| ==> IsSpace(trail[k])
    requires body == [] || (!IsSpace(body[0]) && !IsSpace(body[|body| - 1]))
    ensures Strip(lead + body + trail) == body
  {
    if body == [] {
      assert lead + body + trail == lead + trail + [];
      TrimLeftOf(lead + trail, [], IsSpace);
    } else {
      assert lead + body + trail == lead + (body + trail);
      TrimLeftOf(lead, body + trail, IsSpace);
      TrimRightOf(body, trail, IsSpace);
    }
  }

  /** `rstrip(c)` removes any number of trailing `c`s and nothing else. */
  lemma RStripExactly(body: string, trail: string, c: char)
    requires forall k :: 0 <= k < |trail| ==> trail[k] == c
    requires body == [] || body[|body| - 1] != c
    ensures RStrip(body + trail, c) == body
  {
    TrimRightOf(body, trail, x => x == c);
  }

  // ---------------------------------------------------------------------
  // split

  /** Python `pieces[0] + sep + pieces[1] + ... + sep + pieces[n-1]`. */
  function Join(pieces: seq<string>, sep: char): string
    requires |pieces| >= 1
    decreases |pieces|
  {
    if |pieces| == 1 then pieces[0] else pieces[0] + [sep] + Join(pieces[1..], sep)
  }

  /** Python `s.split(sep)` for a one-character separator: never empty,
      and no piece holds the separator. */
  function Split(s: string, sep: char): (pieces: seq<string>)
    ensures |pieces| >= 1
    ensures forall k :: 0 <= k < |pieces| ==> sep !in pieces[k]
    decreases |s|
  {
    if s == [] then [[]]
    else
      var rest := Split(s[1..], sep);
      if s[0] == sep then [[]] + rest else [[s[0]] + rest[0]] + rest[1..]
  }

  /** Splitting and joining again gives back the input. */
  lemma {:induction false} SplitThenJoin(s: string, sep: char)
    ensures Join(Split(s, sep), sep) == s
    decreases |s|
  {
    if s != [] {
      var rest := Split(s[1..], sep);
      SplitThenJoin(s[1..], sep);
      if s[0] == sep {
        assert ([[]] + rest)[1..] == rest;
      } else {
        var ps := [[s[0]] + rest[0]] + rest[1..];
        if |rest| > 1 {
          assert ps[1..] == rest[1..];
        }
      }
    }
  }

  /** Joining separator-free pieces and splitting again gives back the
      pieces: `Split` is the only decomposition of its input into
      separator-free pieces. */
  lemma {:induction false} JoinThenSplit(pieces: seq<string>, sep: char)
    requires |pieces| >= 1
    requires forall k :: 0 <= k < |pieces| ==> sep !in pieces[k]
    ensures Split(Join(pieces, sep), sep) == pieces
    decreases |pieces|, |pieces[0]|
  {
    var p := pieces[0];
    if |pieces| == 1 {
      if p != [] {
        JoinThenSplit([p[1..]], sep);
        assert Split(p[1..], sep) == [p[1..]];
        assert [p[0]] + p[1..] == p;
      }
    } else if p == [] {
      var tail := Join(pieces[1..], sep);
      assert Join(pieces, sep) == [sep] + tail;
      assert ([sep] + tail)[1..] == tail;
      JoinThenSplit(pieces[1..], sep);
      assert [[]] + pieces[1..] == pieces;
    } else {
      var shorter := [p[1..]] + pieces[1..];
      assert shorter[1..] == pieces[1..];
      JoinThenSplit(shorter, sep);
      var s := Join(pieces, sep);
      assert s == [p[0]] + Join(shorter, sep);
      assert s[1..] == Join(shorter, sep);
      assert [p[0]] + p[1..] == p;
      assert [[p[0]] + p[1..]] + pieces[1..] == pieces;
    }
  }

  /** A string without the separator splits into itself. */
  lemma SplitWithoutSeparator(s: string, sep: char)
    requires sep !in s
    ensures Split(s, sep) == [s]
  {
    JoinThenSplit([s], sep);
  }

  /** Splitting distributes over a separator: the pieces of `a + sep + b`
      are those of `a` followed by those of `b`. */
  lemma SplitAround(a: string, b: string, sep: char)
    ensures Split(a + [sep] + b, sep) == Split(a, sep) + Split(b, sep)
  {
    var pa, pb := Split(a, sep), Split(b, sep);
    var ps := pa + pb;
    forall k | 0 <= k < |ps| ensures sep !in ps[k] {
      if k >= |pa| { assert ps[k] == pb[k - |pa|]; }
    }
    JoinAppend(pa, pb, sep);
    SplitThenJoin(a, sep);
    SplitThenJoin(b, sep);
    JoinThenSplit(ps, sep);
  }

  lemma {:induction false} JoinAppend(pa: seq<string>, pb: seq<string>, sep: char)
    requires |pa| >= 1 && |pb| >= 1
    ensures Join(pa + pb, sep) == Join(pa, sep) + [sep] + Join(pb, sep)
    decreases |pa|
  {
    if |pa| == 1 {
      assert (pa + pb)[1..] == pb;
    } else {
      assert (pa + pb)[1..] == pa[1..] + pb;
      JoinAppend(pa[1..], pb, sep);
    }
  }

  /** Python `s.split(sep, 1)`: the text before the first separator and,
      when there is one, everything after it. */
  function SplitOnce(s: string, sep: char): (pieces: seq<string>)
    ensures 1 <= |pieces| <= 2 && sep !in pieces[0]
    ensures |pieces| == 1 <==> sep !in s
    ensures |pieces| == 1 ==> pieces[0] == s
    ensures |pieces| == 2 ==> s == pieces[0] + [sep] + pieces[1]
    decreases |s|
  {
    if s == [] then [[]]
    else if s[0] == sep then [[], s[1..]]
    else
      var rest := SplitOnce(s[1..], sep);
      assert s == [s[0]] + s[1..];
      [[s[0]] + rest[0]] + rest[1..]
  }

  /** The first separator of `head + sep + tail` is the one after `head`
      when `head` has none. */
  lemma {:induction false} SplitOnceAfter(head: string, tail: string, sep: char)
    requires sep !in head
    ensures SplitOnce(head + [sep] + tail, sep) == [head, tail]
    decreases |head|
  {
    var s := head + [sep] + tail;
    if head == [] {
      assert s == [sep] + tail;
    } else {
      assert s[1..] == head[1..] + [sep] + tail;
      SplitOnceAfter(head[1..], tail, sep);
      assert [head[0]] + head[1..] == head;
    }
  }

  // ---------------------------------------------------------------------
  // decimal integers

  predicate IsDigit(c: char) {
    '0' <= c <= '9'
  }

  /** One or more ASCII digits. */
  predicate IsDecimal(s: string) {
    |s| >= 1 && forall k :: 0 <= k < |s| ==> IsDigit(s[k])
  }

  function DigitChar(d: nat): (c: char)
    requires d < 10
    ensures IsDigit(c)
  {
    ('0' as int + d) as char
  }

  /** The value of a string of digits, read left to right. */
  function DecimalValue(s: string): nat
    requires forall k :: 0 <= k < |s| ==> IsDigit(s[k])
  {
    if s == [] then 0
    else
      assert IsDigit(s[|s| - 1]);
      DecimalValue(s[..|s| - 1]) * 10 + (s[|s| - 1] as int - '0' as int)
  }

  /** Python `str(n)` for `n >= 0`: the decimal digits, without leading
      zeros. */
  function NatToDecimal(n: nat): (s: string)
    ensures IsDecimal(s)
    ensures |s| > 1 ==> s[0] != '0'
  {
    if n < 10 then [DigitChar(n)] else NatToDecimal(n / 10) + [DigitChar(n % 10)]
  }

  /** Python `str(i)` (the f-string `{i}`) for any integer. */
  function IntToString(i: int): (s: string)
    ensures forall k :: 0 <= k < |s| ==> IsDigit(s[k]) || s[k] == '-'
  {
    if i < 0 then "-" + NatToDecimal(-i) else NatToDecimal(i)
  }

  /** Python `int(s)` restricted to an optional `-` followed by ASCII
      digits; `None` where Python raises `ValueError`. */
  function ParseInt(s: string): (r: Option<int>)
    ensures r.Some? <==> IsDecimal(s) || (|s| >= 1 && s[0] == '-' && IsDecimal(s[1..]))
  {
    if |s| >= 1 && s[0] == '-' then
      if IsDecimal(s[1..]) then Some(-(DecimalValue(s[1..]) as int)) else None
    else if IsDecimal(s) then Some(DecimalValue(s))
    else None
  }

  lemma {:induction false} DecimalRoundTrip(n: nat)
    ensures DecimalValue(NatToDecimal(n)) == n
  {
    if n >= 10 {
      var s := NatToDecimal(n);
      assert s[..|s| - 1] == NatToDecimal(n / 10);
      DecimalRoundTrip(n / 10);
    }
  }

  /** `int(str(i)) == i`. */
  lemma IntRoundTrip(i: int)
    ensures ParseInt(IntToString(i)) == Some(i)
  {
    if i < 0 {
      assert IntToString(i)[1..] == NatToDecimal(-i);
      DecimalRoundTrip(-i);
    } else {
      DecimalRoundTrip(i);
    }
  }

  /** A string that `int` accepts holds no character other than `-` and
      digits, so in particular no `:` and no `,`. */
  lemma ParsedHasOnlyDigits(s: string)
    requires ParseInt(s).Some?
    ensures forall k :: 0 <= k < |s| ==> IsDigit(s[k]) || s[k] == '-'
    ensures ':' !in s && ',' !in s
  {
    if s[0] == '-' && IsDecimal(s[1..]) {
      forall k | 1 <= k < |s| ensures IsDigit(s[k]) {
        assert s[k] == s[1..][k - 1];
      }
    }
  }
}
