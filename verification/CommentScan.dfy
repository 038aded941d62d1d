/**
 * A token in a comment, seen by one pass (src/connectors/commentSpamSignals.ts).
 *
 * A pass that finds nothing to match in the token either leaves it where it is or
 * swallows it in a match that begins before it. Which of the two, and what becomes of
 * the text around, does not depend on the token.
 */
module CommentScan {
  import opened CommentText

  /* ----- one step of a pass ----- */

  lemma RewriteMatch(p: Pass, s: string, n: nat, rest: string)
    requires MatchLength(p, s) == n > 0 && rest == s[n..]
    ensures Rewrite(p, s) == Replacement(p) + Rewrite(p, rest)
  {
  }

  lemma RewriteNoMatch(p: Pass, s: string, rest: string)
    requires s != [] && MatchLength(p, s) == 0 && rest == s[1..]
    ensures Rewrite(p, s) == [s[0]] + Rewrite(p, rest)
  {
  }

  lemma Regroup(a: string, b: string, c: string)
    ensures a + (b + c) == (a + b) + c
  {
  }

  lemma DropFromFirst(x: string, y: string, k: nat)
    requires k <= |x|
    ensures (x + y)[k..] == x[k..] + y
  {
  }

  lemma DropFromSecond(x: string, y: string, k: nat)
    requires k <= |y|
    ensures (x + y)[|x| + k..] == y[k..]
  {
  }

  lemma DropFromFront(u: string, t: string, v: string, k: nat)
    requires k <= |u|
    ensures (u + t + v)[k..] == u[k..] + t + v
  {
    DropFromFirst(u, t, k);
    DropFromFirst(u + t, v, k);
  }

  lemma {:induction false} PrefixLengthAcross(p: char -> bool, x: string, y: string)
    ensures PrefixLength(p, x + y) ==
            if PrefixLength(p, x) < |x| then PrefixLength(p, x) else |x| + PrefixLength(p, y)
  {
    if x == [] {
      assert x + y == y;
    } else {
      assert (x + y)[1..] == x[1..] + y;
      PrefixLengthAcross(p, x[1..], y);
    }
  }

  /** A run that goes on through all of `t`, if it gets there. */
  lemma RunOver(p: char -> bool, u: string, t: string, v: string)
    requires forall c <- t :: p(c)
    ensures PrefixLength(p, u + t + v) ==
            if PrefixLength(p, u) < |u| then PrefixLength(p, u) else |u| + |t| + PrefixLength(p, v)
  {
    PrefixLengthAcross(p, u + t, v);
    PrefixLengthAcross(p, u, t);
    PrefixLengthIs(p, t, |t|);
  }

  /* ----- the scan of a text up to a token ----- */

  /** What becomes of a text around a token, which may be inside a match, and gone. */
  datatype Around = Inside(result: string) | Outside(before: string, after: string)

  ghost function Filled(a: Around, t: string): string {
    match a
    case Inside(result) => result
    case Outside(before, after) => before + t + after
  }

  ghost function Before(prefix: string, a: Around): Around {
    match a
    case Inside(result) => Inside(prefix + result)
    case Outside(before, after) => Outside(prefix + before, after)
  }

  /** A match at the front of a text ends in it, after `n` characters, or `m` characters behind the token. */
  datatype Reach = Within(n: nat) | Over(m: nat)

  /** How far a match at the front of `u` reaches if a token and `v` follow. */
  ghost function ReachOf(p: Pass, u: string, v: string): (r: Reach)
    requires u != []
    ensures r.Within? ==> r.n <= |u|
    ensures r.Over? ==> r.m <= |v|
  {
    match p
    case Tag =>
      var inner, closing := PrefixLength(IsInsideTag, u[1..]), PrefixLength(IsInsideTag, v);
      if u[0] == '<' && inner == |u| - 1 && closing < |v| then Over(closing + 1)
      else Within(if u[0] == '<' && 0 < inner < |u| - 1 then inner + 2 else 0)
    case Url =>
      if 0 < UrlHead(u) && |Word(u)| == |u| then Over(|Word(v)|)
      else Within(if 0 < UrlHead(u) < |Word(u)| then |Word(u)| else 0)
    case Handle =>
      var name := PrefixLength(IsHandleChar, u[1..]);
      if u[0] == '@' && name == |u| - 1 then Over(PrefixLength(IsHandleChar, v))
      else Within(if u[0] == '@' && name > 0 then name + 1 else 0)
    case _ =>
      Within(MatchLength(p, u))
  }

  /** The pass does reach so far, for this token. */
  ghost predicate Reaches(p: Pass, u: string, t: string, v: string)
    requires u != []
  {
    MatchLength(p, u + t + v) ==
    match ReachOf(p, u, v)
    case Within(n) => n
    case Over(m) => |u| + |t| + m
  }

  /** How much of the text goes in one step, if the match ends in it. */
  ghost function StepOf(p: Pass, u: string, v: string): (k: nat)
    requires u != [] && ReachOf(p, u, v).Within?
    ensures 0 < k <= |u|
  {
    if ReachOf(p, u, v).n > 0 then ReachOf(p, u, v).n else 1
  }

  /** What that step puts in its place. */
  ghost function StepResult(p: Pass, u: string, v: string): string
    requires u != [] && ReachOf(p, u, v).Within?
  {
    if ReachOf(p, u, v).n > 0 then Replacement(p) else [u[0]]
  }

  ghost function Scan(p: Pass, u: string, v: string): Around
    decreases |u|
  {
    if u == [] then
      Outside([], Rewrite(p, v))
    else
      match ReachOf(p, u, v)
      case Over(m) => Inside(Replacement(p) + Rewrite(p, v[m..]))
      case Within(_) => Before(StepResult(p, u, v), Scan(p, u[StepOf(p, u, v)..], v))
  }

  lemma FilledBefore(prefix: string, a: Around, t: string)
    ensures Filled(Before(prefix, a), t) == prefix + Filled(a, t)
  {
    if a.Outside? {
      assert prefix + (a.before + t + a.after) == (prefix + a.before) + t + a.after;
    }
  }

  lemma ScanEnd(p: Pass, t: string, v: string)
    requires Rewrite(p, t + v) == t + Rewrite(p, v)
    ensures Rewrite(p, [] + t + v) == Filled(Scan(p, [], v), t)
  {
    assert [] + t == t;
    assert Scan(p, [], v) == Outside([], Rewrite(p, v));
  }

  lemma ScanOver(p: Pass, u: string, t: string, v: string)
    requires u != [] && Reaches(p, u, t, v) && ReachOf(p, u, v).Over?
    ensures Rewrite(p, u + t + v) == Filled(Scan(p, u, v), t)
  {
    var m := ReachOf(p, u, v).m;
    DropFromSecond(u + t, v, m);
    RewriteMatch(p, u + t + v, |u + t| + m, v[m..]);
  }

  lemma ScanWithin(p: Pass, u: string, t: string, v: string)
    requires u != [] && Reaches(p, u, t, v) && ReachOf(p, u, v).Within?
    requires var rest := u[StepOf(p, u, v)..]; Rewrite(p, rest + t + v) == Filled(Scan(p, rest, v), t)
    ensures Rewrite(p, u + t + v) == Filled(Scan(p, u, v), t)
  {
    var k := StepOf(p, u, v);
    DropFromFront(u, t, v, k);
    StepTaken(p, u, u + t + v, u[k..] + t + v, v);
    FilledBefore(StepResult(p, u, v), Scan(p, u[k..], v), t);
  }

  lemma StepTaken(p: Pass, u: string, s: string, rest: string, v: string)
    requires u != [] && ReachOf(p, u, v).Within? && MatchLength(p, s) == ReachOf(p, u, v).n
    requires u <= s && rest == s[StepOf(p, u, v)..]
    ensures Rewrite(p, s) == StepResult(p, u, v) + Rewrite(p, rest)
  {
    if ReachOf(p, u, v).n > 0 {
      RewriteMatch(p, s, ReachOf(p, u, v).n, rest);
    } else {
      RewriteNoMatch(p, s, rest);
    }
  }

  /* ----- what the text around ends and begins with ----- */

  /** A pass leaves at the end of the text before the token what was there, or a blank. */
  lemma {:induction false} ScanKeepsEnd(p: Pass, u: string, v: string)
    requires p != NonLetter && Scan(p, u, v).Outside?
    ensures Scan(p, u, v).after == Rewrite(p, v)
    ensures u == [] <==> Scan(p, u, v).before == []
    ensures var before := Scan(p, u, v).before;
            u != [] && before != [] ==> before[|before| - 1] == ' ' || before[|before| - 1] == u[|u| - 1]
    decreases |u|
  {
    if u != [] {
      ScanKeepsEnd(p, u[StepOf(p, u, v)..], v);
    }
  }

  lemma {:induction false} RewriteKeepsEnd(p: Pass, u: string)
    requires p != NonLetter && u != []
    ensures var r := Rewrite(p, u); r != [] && (r[|r| - 1] == ' ' || r[|r| - 1] == u[|u| - 1])
  {
    var n := MatchLength(p, u);
    var rest := if n > 0 then u[n..] else u[1..];
    if rest != [] {
      RewriteKeepsEnd(p, rest);
    }
  }

  /** And at the front of the text behind it. */
  lemma RewriteKeepsFront(p: Pass, v: string)
    requires p != NonLetter && v != []
    ensures Rewrite(p, v) != [] && (Rewrite(p, v)[0] == ' ' || Rewrite(p, v)[0] == v[0])
  {
  }
}
