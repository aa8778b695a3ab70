/** The update expression that starting a new voting round sends to the store: its text,
    the loop that builds it, a reading of that text back into the SET actions it names,
    and the effect those actions have on a session record when the store applies them. */
module UpdateExpression {
  import opened SessionModel

  predicate IsDigit(c: char) {
    '0' <= c <= '9'
  }

  predicate AllDigits(s: string) {
    forall i :: 0 <= i < |s| ==> IsDigit(s[i])
  }

  function DigitChar(d: nat): (c: char)
    requires d < 10
    ensures IsDigit(c) && c as int - '0' as int == d
  {
    ('0' as int + d) as char
  }

  /** The decimal text of a number, as a template literal writes it. */
  function NatToString(n: nat): (s: string)
    ensures |s| > 0 && AllDigits(s)
    ensures n < 10 ==> |s| == 1
    ensures n >= 10 ==> s[0] != '0'
  {
    if n < 10 then [DigitChar(n)] else NatToString(n / 10) + [DigitChar(n % 10)]
  }

  /** The value of a run of decimal digits. */
  function DigitsValue(s: string): nat
    requires AllDigits(s)
  {
    if |s| == 0 then 0 else 10 * DigitsValue(s[..|s| - 1]) + (s[|s| - 1] as int - '0' as int)
  }

  /** The longest prefix of `s` made of decimal digits. */
  function TakeDigits(s: string): (d: string)
    ensures |d| <= |s| && d == s[..|d|] && AllDigits(d)
    ensures |d| < |s| ==> !IsDigit(s[|d|])
  {
    if |s| == 0 || !IsDigit(s[0]) then [] else [s[0]] + TakeDigits(s[1..])
  }

  lemma {:induction false} NatToStringRoundTrip(n: nat)
    ensures DigitsValue(NatToString(n)) == n
  {
    if n >= 10 {
      var s := NatToString(n);
      assert s[..|s| - 1] == NatToString(n / 10);
      NatToStringRoundTrip(n / 10);
    }
  }

  lemma {:induction false} TakeDigitsOfDigits(d: string, t: string)
    requires AllDigits(d)
    requires |t| == 0 || !IsDigit(t[0])
    ensures TakeDigits(d + t) == d
  {
    if |d| == 0 {
      assert d + t == t;
    } else {
      assert (d + t)[1..] == d[1..] + t;
      TakeDigitsOfDigits(d[1..], t);
    }
  }

  const Prefix: string := "SET "
  const PointTarget: string := "#attrName["
  const PointAssign: string := "].point = :attrValue, "
  const HideClause: string := "#hide = :hide"

  /** The clause that sets participant `i`'s point. */
  function PointClause(i: nat): string {
    PointTarget + NatToString(i) + PointAssign
  }

  /** The clauses for participants lo, lo+1, ..., hi-1, in that order. */
  function PointClauses(lo: nat, hi: nat): string
    decreases hi - lo
  {
    if lo >= hi then "" else PointClause(lo) + PointClauses(lo + 1, hi)
  }

  /** The whole update expression for a roster of `usersCount` participants. */
  function ResetExpression(usersCount: nat): string {
    Prefix + PointClauses(0, usersCount) + HideClause
  }

  lemma {:induction false} PointClausesSnoc(lo: nat, hi: nat)
    requires lo <= hi
    ensures PointClauses(lo, hi + 1) == PointClauses(lo, hi) + PointClause(hi)
    decreases hi - lo
  {
    if lo < hi {
      PointClausesSnoc(lo + 1, hi);
    }
  }

  /** The loop of the handler that starts a round: one clause per participant, appended
      in ascending index order, then the clause for the visibility flag. */
  method BuildResetExpression(usersCount: nat) returns (expression: string)
    ensures expression == ResetExpression(usersCount)
  {
    expression := "SET ";
    for i := 0 to usersCount
      invariant expression == Prefix + PointClauses(0, i)
    {
      PointClausesSnoc(0, i);
      expression := expression + "#attrName[" + NatToString(i) + "].point = :attrValue, ";
    }
    expression := expression + "#hide = :hide";
  }

  /** The SET actions of an update expression in the shape this handler writes. */
  datatype SetAction = SetUserPoint(index: nat) | SetHide

  predicate StartsWith(s: string, p: string) {
    |p| <= |s| && s[..|p|] == p
  }

  /** Reads an update expression back into its list of SET actions; None when the text is
      not of the shape `SET (#attrName[<digits>].point = :attrValue, )* #hide = :hide`. */
  function ParseUpdate(s: string): Option<seq<SetAction>> {
    if StartsWith(s, Prefix) then ParseActions(s[|Prefix|..]) else None
  }

  function ParseActions(s: string): Option<seq<SetAction>>
    decreases |s|
  {
    if s == HideClause then Some([SetHide])
    else if !StartsWith(s, PointTarget) then None
    else
      var digits := TakeDigits(s[|PointTarget|..]);
      var rest := s[|PointTarget| + |digits|..];
      if |digits| == 0 || !StartsWith(rest, PointAssign) then None
      else
        match ParseActions(rest[|PointAssign|..])
        case None => None
        case Some(tail) => Some([SetUserPoint(DigitsValue(digits))] + tail)
  }

  /** The actions that set the points of participants lo, ..., hi-1, in ascending order. */
  function PointActions(lo: nat, hi: nat): (r: seq<SetAction>)
    requires lo <= hi
    ensures |r| == hi - lo
    ensures forall k :: 0 <= k < |r| ==> r[k] == SetUserPoint(lo + k)
    decreases hi - lo
  {
    if lo == hi then [] else [SetUserPoint(lo)] + PointActions(lo + 1, hi)
  }

  /** One step of the reading, in terms of the pieces the reader takes apart. */
  lemma ParseStep(s: string, d: string, rest: string, tail: seq<SetAction>)
    requires |d| > 0 && AllDigits(d)
    requires ParseActions(rest) == Some(tail)
    requires s != HideClause && StartsWith(s, PointTarget)
    requires TakeDigits(s[|PointTarget|..]) == d
    requires StartsWith(s[|PointTarget| + |d|..], PointAssign)
    requires s[|PointTarget| + |d|..][|PointAssign|..] == rest
    ensures ParseActions(s) == Some([SetUserPoint(DigitsValue(d))] + tail)
  {
  }

  /** How a point clause with digits `d` in front of `rest` splits into the reader's pieces. */
  lemma PointClauseShape(d: string, rest: string)
    requires |d| > 0 && AllDigits(d)
    ensures var s := PointTarget + d + PointAssign + rest;
      && s != HideClause && StartsWith(s, PointTarget)
      && TakeDigits(s[|PointTarget|..]) == d
      && StartsWith(s[|PointTarget| + |d|..], PointAssign)
      && s[|PointTarget| + |d|..][|PointAssign|..] == rest
  {
    var after := PointAssign + rest;
    var s := PointTarget + d + PointAssign + rest;
    assert s == PointTarget + (d + after);
    assert |s| != |HideClause|;
    assert s[..|PointTarget|] == PointTarget;
    assert TakeDigits(s[|PointTarget|..]) == d by {
      assert s[|PointTarget|..] == d + after;
      TakeDigitsOfDigits(d, after);
    }
    assert s[|PointTarget| + |d|..] == after;
    assert after[..|PointAssign|] == PointAssign;
    assert after[|PointAssign|..] == rest;
  }

  /** A point clause with digits `d` in front of `rest` reads as one action before `rest`'s. */
  lemma ParseDigitsClause(d: string, rest: string, tail: seq<SetAction>)
    requires |d| > 0 && AllDigits(d)
    requires ParseActions(rest) == Some(tail)
    ensures ParseActions(PointTarget + d + PointAssign + rest) == Some([SetUserPoint(DigitsValue(d))] + tail)
  {
    PointClauseShape(d, rest);
    ParseStep(PointTarget + d + PointAssign + rest, d, rest, tail);
  }

  lemma ParsePointClause(i: nat, rest: string, tail: seq<SetAction>)
    requires ParseActions(rest) == Some(tail)
    ensures ParseActions(PointClause(i) + rest) == Some([SetUserPoint(i)] + tail)
  {
    ParseDigitsClause(NatToString(i), rest, tail);
    NatToStringRoundTrip(i);
  }

  lemma {:induction false} ParsePointClauses(lo: nat, hi: nat)
    requires lo <= hi
    ensures ParseActions(PointClauses(lo, hi) + HideClause) == Some(PointActions(lo, hi) + [SetHide])
    decreases hi - lo
  {
    if lo == hi {
      assert PointClauses(lo, hi) + HideClause == HideClause;
      assert PointActions(lo, hi) + [SetHide] == [SetHide];
      assert ParseActions(HideClause) == Some([SetHide]);
    } else {
      ParsePointClauses(lo + 1, hi);
      assert PointClauses(lo, hi) + HideClause == PointClause(lo) + (PointClauses(lo + 1, hi) + HideClause);
      ParsePointClause(lo, PointClauses(lo + 1, hi) + HideClause, PointActions(lo + 1, hi) + [SetHide]);
      assert [SetUserPoint(lo)] + (PointActions(lo + 1, hi) + [SetHide]) == PointActions(lo, hi) + [SetHide];
    }
  }

  /** Read back, the expression for `usersCount` participants sets the points of exactly
      participants 0 .. usersCount-1, in ascending order, and then the visibility flag. */
  lemma ResetExpressionParses(usersCount: nat)
    ensures ParseUpdate(ResetExpression(usersCount)) == Some(PointActions(0, usersCount) + [SetHide])
  {
    var e := ResetExpression(usersCount);
    assert e == Prefix + (PointClauses(0, usersCount) + HideClause);
    assert e[..|Prefix|] == Prefix;
    assert e[|Prefix|..] == PointClauses(0, usersCount) + HideClause;
    ParsePointClauses(0, usersCount);
  }

  /** The store applying SET actions to a record, with `:attrValue` bound to `pointValue` and
      `:hide` to `hideValue`; a path to a participant the roster lacks is an error (None). */
  function ApplyActions(s: Session, actions: seq<SetAction>, pointValue: string, hideValue: bool): Option<Session>
    decreases |actions|
  {
    if |actions| == 0 then Some(s)
    else
      match actions[0]
      case SetHide => ApplyActions(s.(hide := Some(hideValue)), actions[1..], pointValue, hideValue)
      case SetUserPoint(i) =>
        if s.users.Some? && i < |s.users.value| then
          var users := s.users.value;
          ApplyActions(s.(users := Some(users[i := users[i].(point := pointValue)])), actions[1..], pointValue, hideValue)
        else None
  }

  /** The store executing an update expression on a record. */
  function ApplyUpdate(s: Session, expression: string, pointValue: string, hideValue: bool): Option<Session> {
    match ParseUpdate(expression)
    case None => None
    case Some(actions) => ApplyActions(s, actions, pointValue, hideValue)
  }

  /** `users` with the points of participants lo .. hi-1 set to `v`. */
  function PointsSet(users: seq<Participant>, lo: nat, hi: nat, v: string): seq<Participant> {
    seq(|users|, i requires 0 <= i < |users| => if lo <= i < hi then users[i].(point := v) else users[i])
  }

  lemma {:induction false} ApplyPointActions(s: Session, lo: nat, hi: nat, v: string, h: bool)
    requires s.users.Some? && lo <= hi <= |s.users.value|
    ensures ApplyActions(s, PointActions(lo, hi) + [SetHide], v, h)
         == Some(s.(users := Some(PointsSet(s.users.value, lo, hi, v)), hide := Some(h)))
    decreases hi - lo
  {
    var users := s.users.value;
    var actions := PointActions(lo, hi) + [SetHide];
    if lo == hi {
      assert actions == [SetHide];
      assert actions[1..] == [];
      assert PointsSet(users, lo, hi, v) == users;
    } else {
      var users1 := users[lo := users[lo].(point := v)];
      var s1 := s.(users := Some(users1));
      assert actions[0] == SetUserPoint(lo);
      assert actions[1..] == PointActions(lo + 1, hi) + [SetHide];
      ApplyPointActions(s1, lo + 1, hi, v, h);
      assert PointsSet(users1, lo + 1, hi, v) == PointsSet(users, lo, hi, v);
    }
  }

  /** Executed by the store on a record whose roster has `usersCount` participants, the
      expression clears every participant's vote and hides the votes, and nothing else. */
  lemma ResetExpressionResets(s: Session)
    requires s.users.Some?
    ensures ApplyUpdate(s, ResetExpression(|s.users.value|), "0", true) == Some(ResetRound(s))
  {
    var users := s.users.value;
    ResetExpressionParses(|users|);
    ApplyPointActions(s, 0, |users|, "0", true);
    assert PointsSet(users, 0, |users|, "0") == ResetPoints(users);
  }

  /** An expression built from a roster count read earlier than the roster (a participant
      joined in between) clears only the participants that were counted. */
  lemma StaleResetMissesLateJoiners(s: Session, usersCount: nat)
    requires s.users.Some? && usersCount <= |s.users.value|
    ensures ApplyUpdate(s, ResetExpression(usersCount), "0", true).Some?
    ensures var r := ApplyUpdate(s, ResetExpression(usersCount), "0", true).value;
      r.hide == Some(true) && r.users.Some? && |r.users.value| == |s.users.value|
      && forall i :: usersCount <= i < |s.users.value| ==> r.users.value[i] == s.users.value[i]
  {
    ResetExpressionParses(usersCount);
    ApplyPointActions(s, 0, usersCount, "0", true);
  }
}
