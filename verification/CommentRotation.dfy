/**
 * What rotating one token of a comment does to its canonical text
 * (src/connectors/commentSpamSignals.ts).
 *
 * A token here is a piece of text between spaces or at an end of the comment. Outside
 * tags the canonical text is made token by token, and the tokens that spammers rotate
 * (links, handles, identifiers with a digit, numbers) leave nothing in it.
 */
module CommentRotation {
  import opened CommentText
  import opened CommentPatterns
  import opened CommentScan

  /** A token that markup removal leaves alone: no space, no bracket of a tag, no entity of a blank. */
  ghost predicate IsToken(t: string) {
    && t != []
    && (forall c <- t :: !IsSpace(c) && c != '<' && c != '>')
    && IsNbspFree(t)
  }

  ghost predicate EndsInSpace(u: string) {
    u == [] || IsSpace(u[|u| - 1])
  }

  ghost predicate StartsWithSpace(v: string) {
    v == [] || IsSpace(v[0])
  }

  /** There is a space on one side of the seam between `x` and `y`, or an end of the text. */
  ghost predicate IsSeam(x: string, y: string) {
    EndsInSpace(x) || StartsWithSpace(y)
  }

  /* ----- the passes that look no further than the next space ----- */

  predicate StaysInWord(p: Pass) {
    p in {Nbsp, Url, Handle, IdToken}
  }

  lemma {:induction false} PrefixLengthOfPrefix(p: char -> bool, s: string, n: nat)
    requires n <= |s| && PrefixLength(p, s) <= n
    ensures PrefixLength(p, s[..n]) == PrefixLength(p, s)
  {
    PrefixLengthIs(p, s[..n], PrefixLength(p, s));
  }

  /** A run of characters that are no spaces ends in the first word. */
  lemma RunInWord(p: char -> bool, s: string)
    requires forall c | IsSpace(c) :: !p(c)
    ensures PrefixLength(p, s) <= |Word(s)|
    ensures PrefixLength(p, Word(s)) == PrefixLength(p, s)
  {
    PrefixLengthOfPrefix(p, s, |Word(s)|);
  }

  lemma PrefixInWord(w: string, s: string)
    requires forall c <- w :: !IsSpace(c)
    ensures w <= s <==> w <= Word(s)
  {
    var n := |Word(s)|;
    assert n < |w| ==> w[n] in w;
    if n < |w| && n < |s| {
      DiffersAt(w, s, n);
    }
  }

  lemma DiffersAt(w: string, s: string, n: nat)
    requires n < |w| && n < |s| && w[n] != s[n]
    ensures !(w <= s)
  {
  }

  lemma MatchInWord(p: Pass, s: string)
    requires StaysInWord(p)
    ensures MatchLength(p, s) == MatchLength(p, Word(s))
  {
    var w := Word(s);
    match p
    case Nbsp => PrefixInWord("&nbsp;", s);
    case Url =>
      PrefixInWord("https://", s);
      PrefixInWord("http://", s);
      PrefixInWord("www.", s);
      WordOfWord(s);
    case Handle =>
      if s != [] && s[0] == '@' {
        TailOfWord(s);
        RunInWord(IsHandleChar, s[1..]);
      }
    case IdToken =>
      RunInWord(IsAlphanumeric, s);
      var run := PrefixLength(IsAlphanumeric, s);
      assert s[..run] == w[..run];
    case _ =>
  }

  lemma WordOfWord(s: string)
    ensures Word(Word(s)) == Word(s)
  {
    PrefixLengthOfPrefix(IsNonSpace, s, |Word(s)|);
  }

  lemma TailOfWord(s: string)
    requires s != [] && !IsSpace(s[0])
    ensures Word(s) != [] && Word(s)[0] == s[0] && Word(s)[1..] == Word(s[1..])
  {
    assert PrefixLength(IsNonSpace, s) == 1 + PrefixLength(IsNonSpace, s[1..]);
  }

  lemma WordAtSeam(x: string, y: string)
    requires x != [] && IsSeam(x, y)
    ensures Word(x + y) == Word(x)
  {
    var n := PrefixLength(IsNonSpace, x);
    PrefixLengthIs(IsNonSpace, x + y, n);
    assert (x + y)[..n] == x[..n];
  }

  /** How far a pass gets in one step. */
  function Width(p: Pass, s: string): (n: nat)
    requires s != []
    ensures 0 < n <= |s|
  {
    var n := MatchLength(p, s);
    if n > 0 then n else 1
  }

  lemma RewriteAcross(p: Pass, x: string, y: string)
    requires x != [] && MatchLength(p, x + y) == MatchLength(p, x)
    requires Rewrite(p, x[Width(p, x)..] + y) == Rewrite(p, x[Width(p, x)..]) + Rewrite(p, y)
    ensures Rewrite(p, x + y) == Rewrite(p, x) + Rewrite(p, y)
  {
    var k := Width(p, x);
    var head := if MatchLength(p, x) > 0 then Replacement(p) else [x[0]];
    RewriteOnce(p, x);
    RewriteOnce(p, x + y);
    DropFromFirst(x, y, k);
    Regroup(head, Rewrite(p, x[k..]), Rewrite(p, y));
  }

  lemma RewriteOnce(p: Pass, s: string)
    requires s != []
    ensures Rewrite(p, s) ==
            (if MatchLength(p, s) > 0 then Replacement(p) else [s[0]]) + Rewrite(p, s[Width(p, s)..])
  {
  }

  lemma MatchAtSeam(p: Pass, x: string, y: string)
    requires StaysInWord(p) && x != [] && IsSeam(x, y)
    ensures MatchLength(p, x + y) == MatchLength(p, x)
  {
    WordAtSeam(x, y);
    MatchInWord(p, x + y);
    MatchInWord(p, x);
  }

  lemma SeamStays(x: string, y: string, k: nat)
    requires IsSeam(x, y) && k <= |x|
    ensures IsSeam(x[k..], y)
  {
  }

  /** Such a pass treats the two sides of a seam separately. */
  lemma {:induction false} RewriteAtSeam(p: Pass, x: string, y: string)
    requires StaysInWord(p) && IsSeam(x, y)
    ensures Rewrite(p, x + y) == Rewrite(p, x) + Rewrite(p, y)
    decreases |x|
  {
    if x == [] {
      assert x + y == y;
    } else {
      MatchAtSeam(p, x, y);
      var k := Width(p, x);
      SeamStays(x, y, k);
      RewriteAtSeam(p, x[k..], y);
      RewriteAcross(p, x, y);
    }
  }

  /** Such a pass leaves the space at the end, or at the front, where it is. */
  lemma SpaceStaysLast(p: Pass, u: string)
    requires StaysInWord(p) && EndsInSpace(u)
    ensures EndsInSpace(Rewrite(p, u))
  {
    if u != [] {
      var last := |u| - 1;
      assert u == u[..last] + [u[last]];
      RewriteAtSeam(p, u[..last], [u[last]]);
      SpaceIsKept(p, [u[last]]);
    }
  }

  lemma SpaceIsKept(p: Pass, v: string)
    requires StaysInWord(p) || p == Tag
    requires v != [] && IsSpace(v[0])
    ensures Rewrite(p, v) == [v[0]] + Rewrite(p, v[1..])
  {
    assert "&nbsp;"[0] == '&';
    assert Word(v) == [];
  }

  /** Such a pass treats a token and what surrounds it separately. */
  lemma RewriteAround(p: Pass, u: string, t: string, v: string)
    requires StaysInWord(p) && EndsInSpace(u) && StartsWithSpace(v)
    ensures Rewrite(p, u + t + v) == Rewrite(p, u) + Rewrite(p, t) + Rewrite(p, v)
    ensures EndsInSpace(Rewrite(p, u)) && StartsWithSpace(Rewrite(p, v))
  {
    RewriteAtSeam(p, u + t, v);
    RewriteAtSeam(p, u, t);
    SpaceStaysLast(p, u);
    if v != [] {
      SpaceIsKept(p, v);
    }
  }

  lemma NbspAround(u: string, t: string, v: string)
    requires IsToken(t) && EndsInSpace(u) && StartsWithSpace(v)
    ensures Rewrite(Nbsp, u + t + v) == Rewrite(Nbsp, u) + t + Rewrite(Nbsp, v)
    ensures EndsInSpace(Rewrite(Nbsp, u)) && StartsWithSpace(Rewrite(Nbsp, v))
  {
    RewriteAround(Nbsp, u, t, v);
    NothingToRewrite(Nbsp, t);
  }

  /* ----- collapsing spaces ----- */

  lemma {:induction false} SpacesAtSeam(x: string, y: string)
    requires x == [] || y == [] || !IsSpace(x[|x| - 1]) || !IsSpace(y[0])
    ensures Rewrite(Spaces, x + y) == Rewrite(Spaces, x) + Rewrite(Spaces, y)
    decreases |x|
  {
    if x == [] {
      assert x + y == y;
    } else {
      PrefixLengthIs(IsSpace, x + y, PrefixLength(IsSpace, x));
      SpacesAtSeam(x[Width(Spaces, x)..], y);
      RewriteAcross(Spaces, x, y);
    }
  }

  /** Collapsing leaves a space at the end, or at the front, where there was one. */
  lemma SpacesKeepEnds(s: string)
    ensures EndsInSpace(s) ==> EndsInSpace(Rewrite(Spaces, s))
    ensures StartsWithSpace(s) ==> StartsWithSpace(Rewrite(Spaces, s))
  {
    if s != [] {
      RewriteKeepsEnd(Spaces, s);
      RewriteKeepsFront(Spaces, s);
    }
  }

  lemma NoSpacesToCollapse(t: string)
    requires forall c <- t :: !IsSpace(c)
    ensures Rewrite(Spaces, t) == t
  {
    forall i | 0 <= i < |t|
      ensures MatchLength(Spaces, t[i..]) == 0
    {
      assert t[i] in t;
    }
    NothingToRewrite(Spaces, t);
  }

  lemma CollapsedAround(u: string, t: string, v: string)
    requires IsToken(t) && EndsInSpace(u) && StartsWithSpace(v)
    ensures Rewrite(Spaces, u + t + v) == Rewrite(Spaces, u) + t + Rewrite(Spaces, v)
    ensures EndsInSpace(Rewrite(Spaces, u)) && StartsWithSpace(Rewrite(Spaces, v))
  {
    SpacesSplit(u, t, v);
    SpacesKeepEnds(u);
    SpacesKeepEnds(v);
  }

  lemma SpacesSplit(u: string, t: string, v: string)
    requires t != [] && forall c <- t :: !IsSpace(c)
    ensures Rewrite(Spaces, u + t + v) == Rewrite(Spaces, u) + t + Rewrite(Spaces, v)
  {
    assert t != [] && t[0] in t && t[|t| - 1] in t;
    SpacesAtSeam(u + t, v);
    SpacesAtSeam(u, t);
    NoSpacesToCollapse(t);
  }

  lemma LoweredAround(u: string, t: string, v: string)
    requires EndsInSpace(u) && StartsWithSpace(v)
    ensures Lowered(u + t + v) == Lowered(u) + Lowered(t) + Lowered(v)
    ensures EndsInSpace(Lowered(u)) && StartsWithSpace(Lowered(v))
  {
  }

  /* ----- tags, which may reach over the token ----- */

  ghost predicate IsUnbracketed(t: string) {
    t != [] && '<' !in t && '>' !in t
  }

  lemma {:induction false} NoTagStartsIn(t: string, v: string)
    requires '<' !in t
    ensures Rewrite(Tag, t + v) == t + Rewrite(Tag, v)
  {
    if t == [] {
      assert t + v == v;
    } else {
      assert t[0] in t;
      assert (t + v)[1..] == t[1..] + v;
      RewriteNoMatch(Tag, t + v, t[1..] + v);
      NoTagStartsIn(t[1..], v);
      Regroup([t[0]], t[1..], Rewrite(Tag, v));
      assert t == [t[0]] + t[1..];
    }
  }

  /** Whether and how far a tag at the front of the text reaches. */
  lemma TagReaches(u: string, t: string, v: string)
    requires u != [] && IsUnbracketed(t)
    ensures Reaches(Tag, u, t, v)
  {
    assert (u + t + v)[0] == u[0];
    DropFromFront(u, t, v, 1);
    assert forall c <- t :: IsInsideTag(c);
    RunOver(IsInsideTag, u[1..], t, v);
  }

  /** The shape of the text after tags are removed is the same whatever the token is. */
  lemma {:induction false} TagsAroundToken(u: string, t: string, v: string)
    requires IsUnbracketed(t)
    ensures Rewrite(Tag, u + t + v) == Filled(Scan(Tag, u, v), t)
    decreases |u|
  {
    if u == [] {
      NoTagStartsIn(t, v);
      ScanEnd(Tag, t, v);
    } else {
      TagReaches(u, t, v);
      if ReachOf(Tag, u, v).Over? {
        ScanOver(Tag, u, t, v);
      } else {
        TagsAroundToken(u[StepOf(Tag, u, v)..], t, v);
        ScanWithin(Tag, u, t, v);
      }
    }
  }

  /** The text before the token ends with a tag that is not closed in it. */
  ghost predicate IsOpen(u: string) {
    exists i | 0 <= i < |u| :: u[i] == '<' && '>' !in u[i + 1..]
  }

  /** A tag reaches over the token exactly when one is open before it and closed behind it. */
  lemma {:induction false} ReachesOverWhen(u: string, v: string)
    ensures Scan(Tag, u, v).Inside? <==> IsOpen(u) && '>' in v
    decreases |u|
  {
    if u != [] {
      ClosingIn(v);
      if u[0] == '<' && PrefixLength(IsInsideTag, u[1..]) == |u| - 1 {
        OpenAtFront(u);
        if PrefixLength(IsInsideTag, v) == |v| {
          ReachesOverWhen(u[1..], v);
        }
      } else {
        var k := StepOf(Tag, u, v);
        ReachesOverWhen(u[k..], v);
        OpenLater(u, k);
      }
    }
  }

  lemma ClosingIn(v: string)
    ensures '>' in v <==> PrefixLength(IsInsideTag, v) < |v|
  {
  }

  lemma OpenAtFront(u: string)
    requires u != [] && u[0] == '<' && PrefixLength(IsInsideTag, u[1..]) == |u| - 1
    ensures IsOpen(u)
  {
    assert u[0] == '<' && '>' !in u[0 + 1..];
  }

  /** A `<` before the place where the scan goes on has its `>`. */
  lemma ClosedBefore(u: string, k: nat, i: nat)
    requires u != [] && k == TagWidth(u) && i < |u|
    requires !(u[0] == '<' && PrefixLength(IsInsideTag, u[1..]) == |u| - 1)
    ensures i < k && u[i] == '<' ==> '>' in u[i + 1..]
  {
    var closing := PrefixLength(IsInsideTag, u[1..]) + 1;
    if i < k && u[i] == '<' {
      assert u[closing] == u[1..][closing - 1] == '>';
      assert u[i + 1..][closing - (i + 1)] == u[closing];
    }
  }

  /** How much of the text goes in one step, unless a tag reaches over. */
  ghost function TagWidth(u: string): (k: nat)
    requires u != []
    ensures 0 < k <= |u|
  {
    var inner := PrefixLength(IsInsideTag, u[1..]);
    if u[0] == '<' && 0 < inner < |u| - 1 then inner + 2 else 1
  }

  /** Unless a tag is open at the front, being open is a matter of the rest. */
  lemma OpenLater(u: string, k: nat)
    requires u != [] && k == TagWidth(u)
    requires !(u[0] == '<' && PrefixLength(IsInsideTag, u[1..]) == |u| - 1)
    ensures IsOpen(u) <==> IsOpen(u[k..])
  {
    if i :| 0 <= i < |u| && u[i] == '<' && '>' !in u[i + 1..] {
      ClosedBefore(u, k, i);
      assert u[k..][i - k + 1..] == u[i + 1..];
    }
    if j :| 0 <= j < |u[k..]| && u[k..][j] == '<' && '>' !in u[k..][j + 1..] {
      assert u[k + j + 1..] == u[k..][j + 1..];
    }
  }

  /** If no tag reaches over, the two sides lose their own tags. */
  lemma {:induction false} TagsOfSides(u: string, v: string)
    requires Scan(Tag, u, v).Outside?
    ensures Scan(Tag, u, v) == Outside(Rewrite(Tag, u), Rewrite(Tag, v))
    decreases |u|
  {
    if u != [] {
      var k := StepOf(Tag, u, v);
      TagsOfSides(u[k..], v);
      StepTaken(Tag, u, u, u[k..], v);
    }
  }

  /* ----- the masks and the punctuation ----- */

  function MaskedAll(s: string): string {
    Rewrite(IdToken, Rewrite(Handle, Rewrite(Url, s)))
  }

  /** All passes of the canonicalisation after tags. */
  function AfterTags(s: string): string {
    Rewrite(NonLetter, MaskedAll(Lowered(TrimEnd(TrimStart(Rewrite(Spaces, Rewrite(Nbsp, s)))))))
  }

  lemma MasksAround(u: string, t: string, v: string)
    requires EndsInSpace(u) && StartsWithSpace(v)
    ensures MaskedAll(u + t + v) == MaskedAll(u) + MaskedAll(t) + MaskedAll(v)
  {
    RewriteAround(Url, u, t, v);
    var u1, t1, v1 := Rewrite(Url, u), Rewrite(Url, t), Rewrite(Url, v);
    RewriteAround(Handle, u1, t1, v1);
    RewriteAround(IdToken, Rewrite(Handle, u1), Rewrite(Handle, t1), Rewrite(Handle, v1));
  }

  /** Removing punctuation goes character by character. */
  lemma NonLetterCons(c: char, s: string)
    ensures Rewrite(NonLetter, [c] + s) == (if IsNonLetter(c) then [] else [c]) + Rewrite(NonLetter, s)
  {
    var n := PrefixLength(IsNonLetter, s);
    assert ([c] + s)[1..] == s;
    if IsNonLetter(c) {
      assert PrefixLength(IsNonLetter, [c] + s) == n + 1;
      assert ([c] + s)[n + 1..] == s[n..];
      RewriteMatch(NonLetter, [c] + s, n + 1, s[n..]);
      if n > 0 {
        RewriteMatch(NonLetter, s, n, s[n..]);
      } else {
        assert s[0..] == s;
      }
    } else {
      RewriteNoMatch(NonLetter, [c] + s, s);
    }
  }

  lemma FirstOfBoth(x: string, y: string)
    requires x != []
    ensures x == [x[0]] + x[1..] && x + y == [x[0]] + (x[1..] + y)
  {
  }

  lemma {:induction false} NonLetterSplits(x: string, y: string)
    ensures Rewrite(NonLetter, x + y) == Rewrite(NonLetter, x) + Rewrite(NonLetter, y)
  {
    if x == [] {
      assert x + y == y;
    } else {
      NonLetterSplits(x[1..], y);
      NonLetterCons(x[0], x[1..]);
      NonLetterCons(x[0], x[1..] + y);
      FirstOfBoth(x, y);
      Regroup(if IsNonLetter(x[0]) then [] else [x[0]], Rewrite(NonLetter, x[1..]), Rewrite(NonLetter, y));
    }
  }

  ghost predicate IsBlank(s: string) {
    forall c <- s :: IsSpace(c)
  }

  lemma {:induction false} BlankStays(p: Pass, s: string)
    requires StaysInWord(p) && IsBlank(s)
    ensures Rewrite(p, s) == s
  {
    if s != [] {
      assert s[0] in s;
      SpaceIsKept(p, s);
      BlankStays(p, s[1..]);
      assert s == [s[0]] + s[1..];
    }
  }

  lemma BlankLeavesNothing(s: string)
    requires IsBlank(s)
    ensures Lowered(s) == s && MaskedAll(s) == s && Rewrite(NonLetter, s) == ""
  {
    assert forall i | 0 <= i < |s| :: s[i] in s;
    BlankIsMasked(s);
    NonLettersLeaveNothing(s);
  }

  lemma BlankIsMasked(s: string)
    requires IsBlank(s)
    ensures MaskedAll(s) == s
  {
    BlankStays(Url, s);
    BlankStays(Handle, s);
    BlankStays(IdToken, s);
  }

  lemma {:induction false} NonLettersLeaveNothing(s: string)
    requires forall c <- s :: IsNonLetter(c)
    ensures Rewrite(NonLetter, s) == ""
  {
    if s != [] {
      assert s[0] in s;
      NonLettersLeaveNothing(s[1..]);
      NonLetterCons(s[0], s[1..]);
      assert s == [s[0]] + s[1..];
    }
  }

  /** What the masks and the removal of punctuation make of a text. */
  function Skeleton(s: string): string {
    Rewrite(NonLetter, MaskedAll(Lowered(s)))
  }

  lemma SkeletonAround(u: string, t: string, v: string)
    requires EndsInSpace(u) && StartsWithSpace(v)
    ensures Skeleton(u + t + v) == Skeleton(u) + Skeleton(t) + Skeleton(v)
  {
    LoweredAround(u, t, v);
    MasksAround(Lowered(u), Lowered(t), Lowered(v));
    NonLetterSplits(MaskedAll(Lowered(u)) + MaskedAll(Lowered(t)), MaskedAll(Lowered(v)));
    NonLetterSplits(MaskedAll(Lowered(u)), MaskedAll(Lowered(t)));
  }

  /** Blanks around a text leave nothing in its skeleton. */
  lemma SkeletonOfPadded(before: string, s: string, after: string)
    requires IsBlank(before) && IsBlank(after)
    ensures Skeleton(before + s + after) == Skeleton(s)
  {
    assert before != [] ==> before[|before| - 1] in before;
    assert after != [] ==> after[0] in after;
    SkeletonAround(before, s, after);
    BlankSkeleton(before);
    BlankSkeleton(after);
  }

  lemma BlankSkeleton(s: string)
    requires IsBlank(s)
    ensures Skeleton(s) == ""
  {
    BlankLeavesNothing(s);
  }

  lemma TrimStartPads(s: string) returns (blank: string)
    ensures IsBlank(blank) && s == blank + TrimStart(s)
  {
    var n := TrimStartIsSuffix(s);
    blank := s[..n];
  }

  lemma TrimEndPads(s: string) returns (blank: string)
    ensures IsBlank(blank) && s == TrimEnd(s) + blank
  {
    var n := TrimEndIsPrefix(s);
    blank := s[n..];
  }

  /** Trimming makes no difference to the skeleton. */
  lemma TrimmedSkeleton(s: string)
    ensures Skeleton(TrimStart(s)) == Skeleton(s) && Skeleton(TrimEnd(s)) == Skeleton(s)
  {
    var before := TrimStartPads(s);
    SkeletonOfPadded(before, TrimStart(s), []);
    assert before + TrimStart(s) + [] == s;
    var after := TrimEndPads(s);
    SkeletonOfPadded([], TrimEnd(s), after);
    assert [] + TrimEnd(s) == TrimEnd(s);
  }

  lemma AfterTagsIsSkeleton(s: string)
    ensures AfterTags(s) == Skeleton(Rewrite(Spaces, Rewrite(Nbsp, s)))
  {
    var x := Rewrite(Spaces, Rewrite(Nbsp, s));
    TrimmedSkeleton(x);
    TrimmedSkeleton(TrimStart(x));
  }

  lemma AfterTagsAround(u: string, t: string, v: string)
    requires IsToken(t) && EndsInSpace(u) && StartsWithSpace(v)
    ensures AfterTags(u + t + v) == AfterTags(u) + Skeleton(t) + AfterTags(v)
  {
    NbspAround(u, t, v);
    var u1, v1 := Rewrite(Nbsp, u), Rewrite(Nbsp, v);
    CollapsedAround(u1, t, v1);
    SkeletonAround(Rewrite(Spaces, u1), t, Rewrite(Spaces, v1));
    AfterTagsIsSkeleton(u + t + v);
    AfterTagsIsSkeleton(u);
    AfterTagsIsSkeleton(v);
  }

  lemma TokenSkeleton(t: string)
    requires IsToken(t)
    ensures NormalizeForDup(t) == Skeleton(t)
  {
    assert t[0] in t && t[|t| - 1] in t;
    assert IsTagFree(t) && IsCollapsed(t) by {
      assert forall i | 0 <= i < |t| :: t[i] in t;
    }
    PlainStays(t);
  }

  /* ----- token by token ----- */

  /** The tag around a token swallows it. */
  lemma SwallowedToken(u: string, t1: string, t2: string, v: string)
    requires IsToken(t1) && IsToken(t2) && EndsInSpace(u) && StartsWithSpace(v)
    requires IsOpen(u) && '>' in v
    ensures NormalizeForDup(u + t1 + v) == NormalizeForDup(u + t2 + v)
  {
    ReachesOverWhen(u, v);
    TagsAroundToken(u, t1, v);
    TagsAroundToken(u, t2, v);
  }

  lemma SidesAreSpaced(u: string, v: string)
    requires EndsInSpace(u) && StartsWithSpace(v) && Scan(Tag, u, v) == Outside(Rewrite(Tag, u), Rewrite(Tag, v))
    ensures EndsInSpace(Rewrite(Tag, u)) && StartsWithSpace(Rewrite(Tag, v))
  {
    ScanKeepsEnd(Tag, u, v);
    if v != [] {
      RewriteKeepsFront(Tag, v);
    }
  }

  /** Unless a tag reaches over it, a token and its two sides are canonicalised separately. */
  lemma TokenByToken(u: string, t: string, v: string)
    requires IsToken(t) && EndsInSpace(u) && StartsWithSpace(v)
    requires !(IsOpen(u) && '>' in v)
    ensures NormalizeForDup(u + t + v) == NormalizeForDup(u) + NormalizeForDup(t) + NormalizeForDup(v)
  {
    ReachesOverWhen(u, v);
    TagsAroundToken(u, t, v);
    TagsOfSides(u, v);
    SidesAreSpaced(u, v);
    AfterTagsAround(Rewrite(Tag, u), t, Rewrite(Tag, v));
    TokenSkeleton(t);
  }

  /**
   * Replacing one token by another leaves the canonical text as it is exactly when a
   * tag swallows them or both leave the same in a canonical text.
   */
  lemma RotatedToken(u: string, t1: string, t2: string, v: string)
    requires IsToken(t1) && IsToken(t2) && EndsInSpace(u) && StartsWithSpace(v)
    ensures NormalizeForDup(u + t1 + v) == NormalizeForDup(u + t2 + v)
       <==> (IsOpen(u) && '>' in v) || NormalizeForDup(t1) == NormalizeForDup(t2)
  {
    if IsOpen(u) && '>' in v {
      SwallowedToken(u, t1, t2, v);
    } else {
      TokenByToken(u, t1, v);
      TokenByToken(u, t2, v);
      SameInTheMiddle(NormalizeForDup(u), NormalizeForDup(t1), NormalizeForDup(t2), NormalizeForDup(v));
    }
  }

  lemma SameInTheMiddle(x: string, a: string, b: string, y: string)
    ensures x + a + y == x + b + y <==> a == b
  {
    if x + a + y == x + b + y {
      assert |a| == |b|;
      forall i | 0 <= i < |a|
        ensures a[i] == b[i]
      {
        assert (x + a + y)[|x| + i] == a[i] && (x + b + y)[|x| + i] == b[i];
      }
    }
  }

  /* ----- the tokens that vanish ----- */

  predicate IsNumeric(c: char) {
    IsDigit(c) || IsNonLetter(c)
  }

  /** A link, a handle, an identifier with a digit, or a number written with any punctuation, in any case. */
  ghost predicate IsVolatile(t: string) {
    && IsToken(t)
    && var lowered := Lowered(t);
       || Denotes(Url, lowered) || Denotes(Handle, lowered) || Denotes(IdToken, lowered)
       || All(IsNumeric, t)
  }

  lemma DenotedIsMasked(p: Pass, s: string)
    requires p in {Url, Handle, IdToken} && s != [] && Denotes(p, s)
    ensures Rewrite(p, s) == " "
  {
    assert s[..|s|] == s && s[|s|..] == [];
    MatchIsLongest(p, s, |s|);
    RewriteMatch(p, s, |s|, []);
  }

  lemma NoLinkIn(p: Pass, s: string)
    requires p in {Url, Handle} && (p == Handle ==> '@' !in s) && (p == Url ==> ':' !in s && '.' !in s)
    ensures Rewrite(p, s) == s
  {
    forall i | 0 <= i < |s|
      ensures MatchLength(p, s[i..]) == 0
    {
      assert s[i] in s;
      if p == Url {
        UrlNeedsPunctuation(s[i..]);
      }
    }
    NothingToRewrite(p, s);
  }

  lemma MaskedToBlank(s: string)
    requires s != [] && (Denotes(Url, s) || Denotes(Handle, s) || Denotes(IdToken, s))
    ensures MaskedAll(s) == " "
  {
    if Denotes(Url, s) {
      DenotedIsMasked(Url, s);
      BlankStays(Handle, " ");
      BlankStays(IdToken, " ");
    } else if Denotes(Handle, s) {
      HandleIsNoLink(s);
      DenotedIsMasked(Handle, s);
      BlankStays(IdToken, " ");
    } else {
      NoLinkIn(Url, s);
      NoLinkIn(Handle, s);
      DenotedIsMasked(IdToken, s);
    }
  }

  lemma HandleIsNoLink(s: string)
    requires Denotes(Handle, s)
    ensures Rewrite(Url, s) == s
  {
    assert s == [s[0]] + s[1..];
    NoLinkIn(Url, s);
  }

  /** Such a token leaves nothing in a canonical text. */
  lemma VolatileVanishes(t: string)
    requires IsVolatile(t)
    ensures NormalizeForDup(t) == ""
  {
    TokenSkeleton(t);
    if All(IsNumeric, t) {
      LetterlessVanishes(t);
    } else {
      MarkedVanishes(t);
    }
  }

  lemma MarkedVanishes(t: string)
    requires t != []
    requires var lowered := Lowered(t); Denotes(Url, lowered) || Denotes(Handle, lowered) || Denotes(IdToken, lowered)
    ensures Skeleton(t) == ""
  {
    var masked := MaskedAll(Lowered(t));
    assert masked == " " by {
      MaskedToBlank(Lowered(t));
    }
    NonLettersLeaveNothing(masked);
  }

  lemma LetterlessVanishes(t: string)
    requires All(IsNumeric, t)
    ensures Skeleton(t) == ""
  {
    var lowered := Lowered(t);
    assert lowered == t by {
      assert forall i | 0 <= i < |t| :: t[i] in t;
    }
    RewriteKeepsCharacters(Url, t);
    RewriteKeepsCharacters(Handle, Rewrite(Url, t));
    RewriteKeepsCharacters(IdToken, Rewrite(Handle, Rewrite(Url, t)));
    NoDigitsLeft(Rewrite(Handle, Rewrite(Url, t)));
    NonLettersLeaveNothing(MaskedAll(t));
  }

  /**
   * Rotating links, handles, identifiers and numbers, also against each other, leaves
   * the canonical text as it is; outside tags it is as if the token were not there.
   */
  lemma RotatedVolatile(u: string, t1: string, t2: string, v: string)
    requires IsVolatile(t1) && IsVolatile(t2) && EndsInSpace(u) && StartsWithSpace(v)
    ensures NormalizeForDup(u + t1 + v) == NormalizeForDup(u + t2 + v)
    ensures !(IsOpen(u) && '>' in v) ==>
              NormalizeForDup(u + t1 + v) == NormalizeForDup(u) + NormalizeForDup(v)
  {
    VolatileVanishes(t1);
    VolatileVanishes(t2);
    RotatedToken(u, t1, t2, v);
    if !(IsOpen(u) && '>' in v) {
      TokenByToken(u, t1, v);
    }
  }
}
