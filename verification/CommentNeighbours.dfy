/**
 * Rotating contact ids and handles that stand next to other text, as they do in
 * languages without spaces (src/connectors/commentSpamSignals.ts).
 *
 * What may touch an identifier or handle is anything that cannot make it part of a
 * larger one, or of the head of a link.
 */
module CommentNeighbours {
  import opened CommentText
  import opened CommentPatterns
  import opened CommentScan
  import opened CommentRotation
  import opened CommentSimilarity

  /** Letters and digits with a digit among them. */
  ghost predicate IsIdentifier(t: string) {
    All(IsAlphanumeric, t) && exists c <- t :: IsDigit(c)
  }

  predicate IsNameChar(c: char) {
    IsAlphanumeric(c) || c == '_'
  }

  ghost predicate IsHandle(t: string) {
    |t| >= 2 && t[0] == '@' && All(IsNameChar, t[1..])
  }

  /** No letter or digit of an identifier can come before. */
  ghost predicate EndsApart(u: string) {
    u == [] || !IsAlphanumeric(u[|u| - 1])
  }

  /** Neither a letter or digit comes behind, nor what would make a head of a link of them. */
  ghost predicate StartsApart(v: string) {
    v == [] || !(IsAlphanumeric(v[0]) || v[0] == '.' || v[0] == ':')
  }

  ghost predicate StartsWithName(v: string) {
    v != [] && v[0] == '_'
  }

  /** An identifier or a handle in a place where it ends at its own ends. */
  ghost predicate Fits(u: string, t: string, v: string) {
    && StartsApart(v)
    && ((IsIdentifier(t) && EndsApart(u)) || (IsHandle(t) && !StartsWithName(v)))
  }

  lemma FitsChars(u: string, t: string, v: string)
    requires Fits(u, t, v)
    ensures t != [] && forall c <- t :: IsNameChar(c) || c == '@'
  {
    if IsHandle(t) {
      assert t == [t[0]] + t[1..];
    }
  }

  lemma FitsRest(u: string, t: string, v: string, k: nat)
    requires Fits(u, t, v) && k <= |u|
    ensures Fits(u[k..], t, v)
  {
  }

  /* ----- the passes that may swallow the token ----- */

  lemma PrefixWithin(w: string, u: string, t: string, v: string)
    requires |w| <= |u|
    ensures w <= u + t + v <==> w <= u
  {
    assert (u + t + v)[..|w|] == u[..|w|];
  }

  /** Neither kind of token lets an entity begin before it and end behind it. */
  lemma NbspReaches(u: string, t: string, v: string)
    requires u != [] && Fits(u, t, v)
    ensures Reaches(Nbsp, u, t, v)
  {
    if |u| >= |"&nbsp;"| {
      PrefixWithin("&nbsp;", u, t, v);
    } else if IsHandle(t) {
      assert (u + t + v)[|u|] == '@';
      EntityHasNoAt(|u|);
      DiffersAt("&nbsp;", u + t + v, |u|);
    } else {
      EntityHasNoDigit(u, t, v);
    }
  }

  lemma EntityHasNoAt(n: nat)
    requires n < |"&nbsp;"|
    ensures "&nbsp;"[n] != '@' && !IsDigit("&nbsp;"[n])
  {
  }

  lemma EntityHasNoDigit(u: string, t: string, v: string)
    requires IsIdentifier(t) && |u| < |"&nbsp;"|
    ensures !("&nbsp;" <= u + t + v)
  {
    var s := u + t + v;
    var k :| 0 <= k < |t| && IsDigit(t[k]);
    assert s[|u| + k] == t[k];
    if |u| + k < |"&nbsp;"| {
      EntityHasNoAt(|u| + k);
      DiffersAt("&nbsp;", s, |u| + k);
    } else {
      assert s[5] == t[5 - |u|] && t[5 - |u|] in t;
      DiffersAt("&nbsp;", s, 5);
    }
  }

  /** The head of a link at the front ends before the token. */
  lemma HeadReaches(u: string, t: string, v: string)
    requires u != [] && Fits(u, t, v)
    ensures UrlHead(u + t + v) == UrlHead(u)
  {
    HeadWithin("https://", u, t, v);
    HeadWithin("http://", u, t, v);
    HeadWithin("www.", u, t, v);
  }

  lemma HeadWithin(w: string, u: string, t: string, v: string)
    requires w in ["http://", "https://", "www."] && u != [] && Fits(u, t, v)
    ensures w <= u + t + v <==> w <= u
  {
    if |w| <= |u| {
      PrefixWithin(w, u, t, v);
    } else {
      HeadDiffers(w, u, t, v);
    }
  }

  lemma HeadDiffers(w: string, u: string, t: string, v: string)
    requires w in ["http://", "https://", "www."] && u != [] && Fits(u, t, v) && |u| < |w|
    ensures !(w <= u + t + v)
  {
    var s, n := u + t + v, |u|;
    FitsChars(u, t, v);
    HeadTurnsOnce(w, n);
    assert s[n] == t[0] && s[n - 1] == u[n - 1] && t[0] in t;
    if w[n] != s[n] {
      DiffersAt(w, s, n);
    } else {
      DiffersAt(w, s, n - 1);
    }
  }

  /** In the head of a link no letter comes after anything but a letter, and no `@`, and `_` neither. */
  lemma HeadTurnsOnce(w: string, n: nat)
    requires w in ["http://", "https://", "www."] && 0 < n < |w|
    ensures w[n] != '@' && w[n] != '_'
    ensures IsAlphanumeric(w[n]) ==> IsAlphanumeric(w[n - 1])
  {
    if w == "http://" {
      HttpTurnsOnce(n);
    } else if w == "https://" {
      HttpsTurnsOnce(n);
    } else {
      assert w == "www." && |w| == 4;
    }
  }

  lemma HttpTurnsOnce(n: nat)
    requires 0 < n < |"http://"|
    ensures var w := "http://"; w[n] != '@' && w[n] != '_' && (IsAlphanumeric(w[n]) ==> IsAlphanumeric(w[n - 1]))
  {
  }

  lemma HttpsTurnsOnce(n: nat)
    requires 0 < n < |"https://"|
    ensures var w := "https://"; w[n] != '@' && w[n] != '_' && (IsAlphanumeric(w[n]) ==> IsAlphanumeric(w[n - 1]))
  {
  }

  lemma UrlReaches(u: string, t: string, v: string)
    requires u != [] && Fits(u, t, v)
    ensures Reaches(Url, u, t, v)
  {
    HeadReaches(u, t, v);
    FitsChars(u, t, v);
    RunOver(IsNonSpace, u, t, v);
  }

  lemma HandleReaches(u: string, t: string, v: string)
    requires u != [] && t != [] && All(IsHandleChar, t)
    ensures Reaches(Handle, u, t, v)
  {
    assert (u + t + v)[0] == u[0];
    DropFromFront(u, t, v, 1);
    RunOver(IsHandleChar, u[1..], t, v);
  }

  /* ----- nothing matches in the token itself ----- */

  /** No link begins in the token: behind its letters comes neither a dot nor a colon. */
  lemma NoHeadIn(t: string, v: string)
    requires t != [] && StartsApart(v) && forall c <- t :: IsNameChar(c) || c == '@'
    ensures UrlHead(t + v) == 0
  {
    NoHead("https://", 5, t, v);
    NoHead("http://", 4, t, v);
    NoHead("www.", 3, t, v);
  }

  /** `n` is where the first character that is no letter stands in the head. */
  lemma NoHead(w: string, n: nat, t: string, v: string)
    requires n < |w| && (w[n] == '.' || w[n] == ':') && forall i | 0 <= i < n :: IsAlphanumeric(w[i])
    requires t != [] && StartsApart(v) && forall c <- t :: IsNameChar(c) || c == '@'
    ensures !(w <= t + v)
  {
    var s := t + v;
    if n < |t| {
      assert s[n] == t[n] && t[n] in t;
      DiffersAt(w, s, n);
    } else if |t| < |s| {
      assert s[|t|] == v[0];
      DiffersAt(w, s, |t|);
    }
  }

  lemma {:induction false} NoLinkStartsIn(t: string, v: string)
    requires StartsApart(v) && forall c <- t :: IsNameChar(c) || c == '@'
    ensures Rewrite(Url, t + v) == t + Rewrite(Url, v)
  {
    if t == [] {
      assert t + v == v;
    } else {
      NoHeadIn(t, v);
      RewriteNoMatch(Url, t + v, t[1..] + v);
      NoLinkStartsIn(t[1..], v);
      Regroup([t[0]], t[1..], Rewrite(Url, v));
      assert t == [t[0]] + t[1..];
    }
  }

  /** No match of the entity or the handle expression begins without its first character. */
  lemma {:induction false} NothingStartsIn(p: Pass, t: string, v: string)
    requires (p == Nbsp && '&' !in t) || (p == Handle && '@' !in t)
    ensures Rewrite(p, t + v) == t + Rewrite(p, v)
  {
    if t == [] {
      assert t + v == v;
    } else {
      assert (t + v)[0] == t[0] && t[0] in t;
      if p == Nbsp {
        DiffersAt("&nbsp;", t + v, 0);
      }
      RewriteNoMatch(p, t + v, t[1..] + v);
      NothingStartsIn(p, t[1..], v);
      Regroup([t[0]], t[1..], Rewrite(p, v));
      assert t == [t[0]] + t[1..];
    }
  }

  /* ----- the passes over the whole text ----- */

  lemma {:induction false} LinksAround(u: string, t: string, v: string)
    requires Fits(u, t, v)
    ensures Rewrite(Url, u + t + v) == Filled(Scan(Url, u, v), t)
    decreases |u|
  {
    if u == [] {
      FitsChars(u, t, v);
      NoLinkStartsIn(t, v);
      ScanEnd(Url, t, v);
    } else {
      UrlReaches(u, t, v);
      if ReachOf(Url, u, v).Over? {
        ScanOver(Url, u, t, v);
      } else {
        FitsRest(u, t, v, StepOf(Url, u, v));
        LinksAround(u[StepOf(Url, u, v)..], t, v);
        ScanWithin(Url, u, t, v);
      }
    }
  }

  lemma {:induction false} EntitiesAround(u: string, t: string, v: string)
    requires Fits(u, t, v)
    ensures Rewrite(Nbsp, u + t + v) == Filled(Scan(Nbsp, u, v), t) && Scan(Nbsp, u, v).Outside?
    decreases |u|
  {
    if u == [] {
      FitsChars(u, t, v);
      NothingStartsIn(Nbsp, t, v);
      ScanEnd(Nbsp, t, v);
    } else {
      NbspReaches(u, t, v);
      FitsRest(u, t, v, StepOf(Nbsp, u, v));
      EntitiesAround(u[StepOf(Nbsp, u, v)..], t, v);
      ScanWithin(Nbsp, u, t, v);
    }
  }

  lemma {:induction false} HandlesAround(u: string, t: string, v: string)
    requires t != [] && All(IsHandleChar, t)
    ensures Rewrite(Handle, u + t + v) == Filled(Scan(Handle, u, v), t)
    decreases |u|
  {
    if u == [] {
      NothingStartsIn(Handle, t, v);
      ScanEnd(Handle, t, v);
    } else {
      HandleReaches(u, t, v);
      if ReachOf(Handle, u, v).Over? {
        ScanOver(Handle, u, t, v);
      } else {
        HandlesAround(u[StepOf(Handle, u, v)..], t, v);
        ScanWithin(Handle, u, t, v);
      }
    }
  }

  /** A pass leaves the token in a place where it fits. */
  lemma StillFits(p: Pass, u: string, t: string, v: string)
    requires p != NonLetter && Fits(u, t, v) && Scan(p, u, v).Outside?
    ensures Fits(Scan(p, u, v).before, t, Scan(p, u, v).after)
  {
    ScanKeepsEnd(p, u, v);
    if v != [] {
      RewriteKeepsFront(p, v);
    }
  }

  /** Collapsing spaces leaves it in a place where it fits. */
  lemma SpacesAround(u: string, t: string, v: string)
    requires Fits(u, t, v)
    ensures Rewrite(Spaces, u + t + v) == Rewrite(Spaces, u) + t + Rewrite(Spaces, v)
    ensures Fits(Rewrite(Spaces, u), t, Rewrite(Spaces, v))
  {
    FitsChars(u, t, v);
    SpacesSplit(u, t, v);
    if u != [] {
      RewriteKeepsEnd(Spaces, u);
    }
    if v != [] {
      RewriteKeepsFront(Spaces, v);
    }
  }

  lemma LoweredFits(u: string, t: string, v: string)
    requires Fits(u, t, v)
    ensures Lowered(u + t + v) == Lowered(u) + Lowered(t) + Lowered(v)
    ensures Fits(Lowered(u), Lowered(t), Lowered(v))
    ensures IsIdentifier(t) ==> IsIdentifier(Lowered(t)) && All(IsHandleChar, Lowered(t))
    ensures IsHandle(t) ==> IsHandle(Lowered(t)) && All(IsHandleChar, Lowered(t)[1..])
  {
    var l := Lowered(t);
    if IsIdentifier(t) {
      var k :| 0 <= k < |t| && IsDigit(t[k]);
      assert l[k] in l;
      assert forall i | 0 <= i < |l| :: t[i] in t;
    }
    if IsHandle(t) {
      forall i | 0 <= i < |l[1..]|
        ensures IsNameChar(l[1..][i]) && IsHandleChar(l[1..][i])
      {
        assert t[1..][i] in t[1..];
      }
    }
  }

  /* ----- the masks ----- */

  /** Handles before and behind a seam are masked separately if no character of a name is behind it. */
  lemma {:induction false} HandlesSplit(x: string, y: string)
    requires y == [] || !IsHandleChar(y[0])
    ensures Rewrite(Handle, x + y) == Rewrite(Handle, x) + Rewrite(Handle, y)
    decreases |x|
  {
    if x == [] {
      assert x + y == y;
    } else {
      HandleEndsAtSeam(x, y);
      HandlesSplit(x[Width(Handle, x)..], y);
      RewriteAcross(Handle, x, y);
    }
  }

  lemma HandleEndsAtSeam(x: string, y: string)
    requires x != [] && (y == [] || !IsHandleChar(y[0]))
    ensures MatchLength(Handle, x + y) == MatchLength(Handle, x)
  {
    assert (x + y)[1..] == x[1..] + y;
    PrefixLengthAcross(IsHandleChar, x[1..], y);
  }

  /** Identifiers before and behind a seam likewise, if one side of it is no letter or digit. */
  lemma {:induction false} IdentifiersSplit(x: string, y: string)
    requires EndsApart(x) || y == [] || !IsAlphanumeric(y[0])
    ensures Rewrite(IdToken, x + y) == Rewrite(IdToken, x) + Rewrite(IdToken, y)
    decreases |x|
  {
    if x == [] {
      assert x + y == y;
    } else {
      IdentifierEndsAtSeam(x, y);
      IdentifiersSplit(x[Width(IdToken, x)..], y);
      RewriteAcross(IdToken, x, y);
    }
  }

  lemma IdentifierEndsAtSeam(x: string, y: string)
    requires x != [] && (EndsApart(x) || y == [] || !IsAlphanumeric(y[0]))
    ensures MatchLength(IdToken, x + y) == MatchLength(IdToken, x)
  {
    PrefixLengthAcross(IsAlphanumeric, x, y);
    var run := PrefixLength(IsAlphanumeric, x);
    assert (x + y)[..run] == x[..run];
  }

  lemma IdentifierMasked(u: string, t: string, v: string)
    requires IsIdentifier(t) && EndsApart(u) && StartsApart(v)
    ensures Rewrite(IdToken, u + t + v) == Rewrite(IdToken, u) + " " + Rewrite(IdToken, v)
  {
    IdentifiersSplit(u + t, v);
    IdentifiersSplit(u, t);
    DenotedIsMasked(IdToken, t);
  }

  lemma HandleMasked(u: string, t: string, v: string)
    requires IsHandle(t) && All(IsHandleChar, t[1..]) && StartsApart(v) && !StartsWithName(v)
    ensures Rewrite(Handle, u + t + v) == Rewrite(Handle, u) + " " + Rewrite(Handle, v)
  {
    HandlesSplit(u + t, v);
    HandlesSplit(u, t);
    DenotedIsMasked(Handle, t);
  }

  /** Both are identifiers, or both handles, and fit in. */
  ghost predicate AreAlike(u: string, t1: string, t2: string, v: string) {
    && Fits(u, t1, v) && Fits(u, t2, v)
    && (IsIdentifier(t1) <==> IsIdentifier(t2))
  }

  lemma KindOf(u: string, t: string, v: string)
    requires Fits(u, t, v)
    ensures IsIdentifier(t) <==> !IsHandle(t)
  {
    if IsHandle(t) {
      assert t[0] in t;
    }
  }

  /** What is left of identifiers once links are masked. */
  lemma IdentifiersMasked(u: string, t1: string, t2: string, v: string)
    requires IsIdentifier(t1) && IsIdentifier(t2) && EndsApart(u) && StartsApart(v)
    requires All(IsHandleChar, t1) && All(IsHandleChar, t2)
    ensures Rewrite(IdToken, Rewrite(Handle, u + t1 + v)) == Rewrite(IdToken, Rewrite(Handle, u + t2 + v))
  {
    HandlesAround(u, t1, v);
    HandlesAround(u, t2, v);
    var around := Scan(Handle, u, v);
    if around.Outside? {
      StillFits(Handle, u, t1, v);
      KindOf(around.before, t1, around.after);
      IdentifierMasked(around.before, t1, around.after);
      IdentifierMasked(around.before, t2, around.after);
    }
  }

  lemma AlikeMasked(u: string, t1: string, t2: string, v: string)
    requires AreAlike(u, t1, t2, v)
    requires IsIdentifier(t1) ==> All(IsHandleChar, t1) && All(IsHandleChar, t2)
    requires IsHandle(t1) ==> All(IsHandleChar, t1[1..])
    requires IsHandle(t2) ==> All(IsHandleChar, t2[1..])
    ensures MaskedAll(u + t1 + v) == MaskedAll(u + t2 + v)
  {
    LinksAround(u, t1, v);
    LinksAround(u, t2, v);
    KindOf(u, t1, v);
    KindOf(u, t2, v);
    var around := Scan(Url, u, v);
    if around.Outside? {
      StillFits(Url, u, t1, v);
      StillFits(Url, u, t2, v);
      if IsIdentifier(t1) {
        IdentifiersMasked(around.before, t1, t2, around.after);
      } else {
        HandleMasked(around.before, t1, around.after);
        HandleMasked(around.before, t2, around.after);
      }
    }
  }

  lemma AlikeSkeletons(u: string, t1: string, t2: string, v: string)
    requires AreAlike(u, t1, t2, v)
    ensures Skeleton(u + t1 + v) == Skeleton(u + t2 + v)
  {
    LoweredFits(u, t1, v);
    LoweredFits(u, t2, v);
    KindOf(u, t1, v);
    KindOf(u, t2, v);
    KindOf(Lowered(u), Lowered(t1), Lowered(v));
    KindOf(Lowered(u), Lowered(t2), Lowered(v));
    AlikeMasked(Lowered(u), Lowered(t1), Lowered(t2), Lowered(v));
  }

  lemma AlikeAfterTags(u: string, t1: string, t2: string, v: string)
    requires AreAlike(u, t1, t2, v)
    ensures AfterTags(u + t1 + v) == AfterTags(u + t2 + v)
  {
    AfterTagsIsSkeleton(u + t1 + v);
    AfterTagsIsSkeleton(u + t2 + v);
    EntitiesAround(u, t1, v);
    EntitiesAround(u, t2, v);
    StillFits(Nbsp, u, t1, v);
    StillFits(Nbsp, u, t2, v);
    var u1, v1 := Scan(Nbsp, u, v).before, Scan(Nbsp, u, v).after;
    SpacesAround(u1, t1, v1);
    SpacesAround(u1, t2, v1);
    AlikeSkeletons(Rewrite(Spaces, u1), t1, t2, Rewrite(Spaces, v1));
  }

  lemma FitsIsUnbracketed(u: string, t: string, v: string)
    requires Fits(u, t, v)
    ensures IsUnbracketed(t)
  {
    FitsChars(u, t, v);
  }

  /**
   * Replacing an identifier by another, or a handle by another, leaves the canonical text
   * as it is also when it touches other text: punctuation, ideographs, other marks. It may
   * stand in a tag, a link or a longer handle as well.
   */
  lemma RotatedInText(u: string, t1: string, t2: string, v: string)
    requires AreAlike(u, t1, t2, v)
    ensures NormalizeForDup(u + t1 + v) == NormalizeForDup(u + t2 + v)
  {
    FitsIsUnbracketed(u, t1, v);
    FitsIsUnbracketed(u, t2, v);
    TagsAroundToken(u, t1, v);
    TagsAroundToken(u, t2, v);
    var around := Scan(Tag, u, v);
    if around.Outside? {
      StillFits(Tag, u, t1, v);
      StillFits(Tag, u, t2, v);
      AlikeAfterTags(around.before, t1, t2, around.after);
    }
  }

  /** So a template with such a mark rotated is a near duplicate, if any text remains. */
  lemma RotatedInTextIsNearDuplicate(u: string, t1: string, t2: string, v: string, threshold: real)
    requires AreAlike(u, t1, t2, v) && threshold <= 1.0
    ensures NearDuplicate(u + t1 + v, u + t2 + v, threshold) <==> NormalizeForDup(u + t1 + v) != ""
  {
    RotatedInText(u, t1, t2, v);
    SameTextIsNearDuplicate(u + t1 + v, u + t2 + v, threshold);
  }

  /* ----- why no dot may follow ----- */

  lemma NoLinkWithout(s: string)
    requires 'w' !in s && ':' !in s
    ensures Rewrite(Url, s) == s
  {
    forall i | 0 <= i < |s|
      ensures MatchLength(Url, s[i..]) == 0
    {
      NotAPrefix("https://", s[i..], 5);
      NotAPrefix("http://", s[i..], 4);
      NotAPrefix("www.", s[i..], 0);
    }
    NothingToRewrite(Url, s);
  }

  lemma NoDigitToMask(s: string)
    requires forall c <- s :: !IsDigit(c)
    ensures Rewrite(IdToken, s) == s
  {
    forall i | 0 <= i < |s|
      ensures MatchLength(IdToken, s[i..]) == 0
    {
      assert forall c <- s[i..][..PrefixLength(IsAlphanumeric, s[i..])] :: c in s;
    }
    NothingToRewrite(IdToken, s);
  }

  /** The canonical text of a plain token. */
  lemma PlainToken(s: string)
    requires s != [] && forall c <- s :: c != '<' && c != '>' && c != '&' && !IsSpace(c) && !IsUpper(c)
    ensures NormalizeForDup(s) == Rewrite(NonLetter, MaskedAll(s))
  {
    forall i | 0 <= i < |s|
      ensures !("&nbsp;" <= s[i..])
    {
      assert s[i..][0] == s[i] && s[i] in s;
      DiffersAt("&nbsp;", s[i..], 0);
    }
    TokenSkeleton(s);
    assert forall i | 0 <= i < |s| :: s[i] in s;
    assert Lowered(s) == s;
  }

  ghost predicate IsPlainChar(c: char) {
    IsLower(c) || IsDigit(c) || c == '.'
  }

  lemma LinkMaskedBehindDigit(d: string, link: string)
    requires |d| == 1 && IsDigit(d[0]) && link != [] && Denotes(Url, link)
    ensures Rewrite(Url, d + link) == d + " "
  {
    DiffersAt("https://", d + link, 0);
    DiffersAt("http://", d + link, 0);
    if |d + link| >= 1 {
      DiffersAt("www.", d + link, 0);
    }
    RewriteNoMatch(Url, d + link, link);
    DenotedIsMasked(Url, link);
  }

  lemma DigitMasked(d: string)
    requires |d| == 1 && IsDigit(d[0])
    ensures Rewrite(IdToken, Rewrite(Handle, d + " ")) == " " + " "
  {
    NoLinkIn(Handle, d + " ");
    IdentifiersSplit(d, " ");
    assert d[0] in d;
    DenotedIsMasked(IdToken, d);
    NoDigitToMask(" ");
  }

  /** A digit before a link vanishes with it. */
  lemma LinkBehindDigit(d: string, link: string)
    requires |d| == 1 && IsDigit(d[0]) && link != [] && Denotes(Url, link) && All(IsPlainChar, link)
    ensures NormalizeForDup(d + link) == ""
  {
    LinkMaskedBehindDigit(d, link);
    PlainBoth(d, link);
    DigitAlone(d, d + link);
  }

  lemma DigitAlone(d: string, s: string)
    requires |d| == 1 && IsDigit(d[0]) && Rewrite(Url, s) == d + " "
    requires s != [] && forall c <- s :: IsPlainChar(c)
    ensures NormalizeForDup(s) == ""
  {
    PlainToken(s);
    DigitMasked(d);
    MaskedFrom(s, d + " ", " " + " ");
    NonLettersLeaveNothing(" " + " ");
  }

  lemma PlainBoth(d: string, link: string)
    requires |d| == 1 && IsDigit(d[0]) && All(IsPlainChar, link)
    ensures d + link != [] && forall c <- d + link :: IsPlainChar(c)
  {
  }

  lemma MaskedFrom(s: string, a: string, r: string)
    requires Rewrite(Url, s) == a && Rewrite(IdToken, Rewrite(Handle, a)) == r
    ensures MaskedAll(s) == r
  {
  }

  lemma WordIsPlain(t: string, w: string)
    requires IsIdentifier(t) && All(IsPlainChar, t) && 'w' !in t && All(IsLower, w) && 'w' !in w
    ensures forall c <- t + ("." + w) :: IsPlainChar(c) && c != 'w'
  {
    assert forall c <- "." :: c == '.';
  }

  lemma WordMasked(t: string, rest: string)
    requires IsIdentifier(t) && rest != [] && rest[0] == '.' && forall c <- rest :: !IsDigit(c)
    ensures Rewrite(IdToken, t + rest) == " " + rest
  {
    IdentifiersSplit(t, rest);
    DenotedIsMasked(IdToken, t);
    NoDigitToMask(rest);
  }

  lemma DotDropped(w: string)
    requires All(IsLower, w)
    ensures Rewrite(NonLetter, " " + ("." + w)) == w
  {
    NonLetterCons(' ', "." + w);
    NonLetterCons('.', w);
    LettersStay(w);
  }

  /** An identifier that cannot end in the head of a link leaves the word behind a dot alone. */
  lemma WordBehindDot(t: string, w: string)
    requires IsIdentifier(t) && All(IsPlainChar, t) && 'w' !in t
    requires All(IsLower, w) && 'w' !in w
    ensures NormalizeForDup(t + ("." + w)) == w
  {
    WordIsPlain(t, w);
    PlainToken(t + ("." + w));
    NoLinkWithout(t + ("." + w));
    NoLinkIn(Handle, t + ("." + w));
    WordMasked(t, "." + w);
    DotDropped(w);
  }

  lemma LettersStay(s: string)
    requires All(IsLower, s)
    ensures Rewrite(NonLetter, s) == s
  {
    forall i | 0 <= i < |s|
      ensures MatchLength(NonLetter, s[i..]) == 0
    {
      assert s[i] in s;
    }
    NothingToRewrite(NonLetter, s);
  }

  /** Before a dot the end of one identifier makes a link of what follows, and that of another does not. */
  lemma DotMakesALink()
    ensures IsIdentifier("1www") && IsIdentifier("a1")
    ensures NormalizeForDup("1www" + ".foo") == "" && NormalizeForDup("a1" + ".foo") == "foo"
  {
    TwoIdentifiers();
    LinkVanishes("1www" + ".foo", "1", "www.foo");
    assert ".foo" == "." + "foo";
    WordBehindDot("a1", "foo");
  }

  lemma LinkVanishes(s: string, d: string, link: string)
    requires s == d + link && d == "1" && link == "www.foo"
    ensures NormalizeForDup(s) == ""
  {
    IsALink(link);
    LinkBehindDigit(d, link);
  }

  lemma TwoIdentifiers()
    ensures IsIdentifier("1www") && IsIdentifier("a1") && All(IsPlainChar, "a1") && 'w' !in "a1"
    ensures All(IsLower, "foo") && 'w' !in "foo"
  {
    assert "1www"[0] in "1www" && "a1"[1] in "a1";
  }

  lemma IsALink(s: string)
    requires s == "www.foo"
    ensures Denotes(Url, s) && All(IsPlainChar, s)
  {
    var heads := ["http://", "https://", "www."];
    assert heads[2] in heads && heads[2] < s;
    assert All(IsNonSpace, s[|heads[2]|..]);
  }
}
