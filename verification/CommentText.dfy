/**
 * Canonical text of a comment (src/connectors/commentSpamSignals.ts).
 *
 * Every regular expression of the source is a pass that scans from left to right,
 * replaces each match and goes on behind it. The alphabet is ASCII; a character
 * beyond it counts as a letter without case, as ideographs are.
 */
module CommentText {

  predicate IsSpace(c: char) {
    c == ' ' || '\t' <= c <= '\r'
  }

  predicate IsDigit(c: char) {
    '0' <= c <= '9'
  }

  predicate IsLower(c: char) {
    'a' <= c <= 'z'
  }

  predicate IsUpper(c: char) {
    'A' <= c <= 'Z'
  }

  predicate IsAlphanumeric(c: char) {
    IsLower(c) || IsUpper(c) || IsDigit(c)
  }

  predicate IsBeyondAscii(c: char) {
    c > '\U{7F}'
  }

  predicate IsLetterOrNumber(c: char) {
    IsAlphanumeric(c) || IsBeyondAscii(c)
  }

  predicate IsNonSpace(c: char) {
    !IsSpace(c)
  }

  predicate IsNonLetter(c: char) {
    !IsLetterOrNumber(c)
  }

  predicate IsInsideTag(c: char) {
    c != '>'
  }

  predicate IsHandleChar(c: char) {
    IsLower(c) || IsDigit(c) || c == '_'
  }

  /** The length of the longest prefix all of whose characters satisfy `p`. */
  function PrefixLength(p: char -> bool, s: string): (n: nat)
    ensures n <= |s|
    ensures forall i | 0 <= i < n :: p(s[i])
    ensures n < |s| ==> !p(s[n])
  {
    if s == [] || !p(s[0]) then 0 else 1 + PrefixLength(p, s[1..])
  }

  lemma {:induction false} PrefixLengthIs(p: char -> bool, s: string, n: nat)
    requires n <= |s| && forall i | 0 <= i < n :: p(s[i])
    requires n < |s| ==> !p(s[n])
    ensures PrefixLength(p, s) == n
  {
  }

  /** The characters of `s` before its first space. */
  function Word(s: string): (w: string)
    ensures w <= s
  {
    s[..PrefixLength(IsNonSpace, s)]
  }

  /* ----- the passes ----- */

  datatype Pass = Tag | Nbsp | Spaces | Url | Handle | IdToken | NonLetter

  function UrlHead(s: string): (n: nat)
    ensures n <= |s|
  {
    if "https://" <= s then 8 else if "http://" <= s then 7 else if "www." <= s then 4 else 0
  }

  /** The length of the match of a pass's expression at the start of `s`, or 0. */
  function MatchLength(p: Pass, s: string): (n: nat)
    ensures n <= |s|
  {
    match p
    // an opening bracket, characters other than the closing one, the closing one
    case Tag =>
      if s == [] || s[0] != '<' then 0
      else
        var inner := PrefixLength(IsInsideTag, s[1..]);
        if inner > 0 && 1 + inner < |s| then inner + 2 else 0
    // the entity of a blank
    case Nbsp =>
      if "&nbsp;" <= s then 6 else 0
    // one or more spaces
    case Spaces =>
      PrefixLength(IsSpace, s)
    // a link: one of three heads and at least one more character that is no space
    case Url =>
      if 0 < UrlHead(s) < |Word(s)| then |Word(s)| else 0
    // a handle
    case Handle =>
      if s == [] || s[0] != '@' then 0
      else
        var name := PrefixLength(IsHandleChar, s[1..]);
        if name > 0 then name + 1 else 0
    // letters and digits around a digit
    case IdToken =>
      var run := PrefixLength(IsAlphanumeric, s);
      if exists c <- s[..run] :: IsDigit(c) then run else 0
    // one or more characters that are neither letters nor numbers
    case NonLetter =>
      PrefixLength(IsNonLetter, s)
  }

  function Replacement(p: Pass): string {
    if p == NonLetter then "" else " "
  }

  function Rewrite(p: Pass, s: string): string {
    if s == [] then
      []
    else
      var n := MatchLength(p, s);
      if n > 0 then Replacement(p) + Rewrite(p, s[n..]) else [s[0]] + Rewrite(p, s[1..])
  }

  function TrimStart(s: string): string {
    if s != [] && IsSpace(s[0]) then TrimStart(s[1..]) else s
  }

  function TrimEnd(s: string): string {
    if s != [] && IsSpace(s[|s| - 1]) then TrimEnd(s[..|s| - 1]) else s
  }

  function ToLower(c: char): char {
    if IsUpper(c) then c - 'A' + 'a' else c
  }

  function Lowered(s: string): (r: string)
    ensures |r| == |s|
    ensures forall i | 0 <= i < |s| :: r[i] == ToLower(s[i])
  {
    seq(|s|, i requires 0 <= i < |s| => ToLower(s[i]))
  }

  function StripHtml(html: string): string {
    TrimEnd(TrimStart(Rewrite(Spaces, Rewrite(Nbsp, Rewrite(Tag, html)))))
  }

  function NormalizeForDup(content: string): string {
    Rewrite(NonLetter, Rewrite(IdToken, Rewrite(Handle, Rewrite(Url, Lowered(StripHtml(content))))))
  }

  /* ----- passes that find nothing ----- */

  ghost predicate MatchesNowhere(p: Pass, s: string) {
    forall i | 0 <= i < |s| :: MatchLength(p, s[i..]) == 0
  }

  lemma {:induction false} NothingToRewrite(p: Pass, s: string)
    requires MatchesNowhere(p, s)
    ensures Rewrite(p, s) == s
  {
    if s != [] {
      assert s[0..] == s;
      forall i | 0 <= i < |s[1..]|
        ensures MatchLength(p, s[1..][i..]) == 0
      {
        assert s[1..][i..] == s[i + 1..];
      }
      NothingToRewrite(p, s[1..]);
    }
  }

  /** A pass brings in no character but a space. */
  lemma {:induction false} RewriteKeepsCharacters(p: Pass, s: string)
    ensures forall c <- Rewrite(p, s) :: c in s || c == ' '
  {
    if s != [] {
      var n := MatchLength(p, s);
      if n > 0 {
        RewriteKeepsCharacters(p, s[n..]);
      } else {
        RewriteKeepsCharacters(p, s[1..]);
      }
    }
  }

  /** What a pass leaves at the front without a space was at the front. */
  lemma {:induction false} PrefixWasThere(p: Pass, w: string, s: string)
    requires p != NonLetter && ' ' !in w
    requires w <= Rewrite(p, s)
    ensures w <= s
  {
    if w != [] {
      assert Rewrite(p, s)[0] == w[0];
      assert MatchLength(p, s) == 0;
      assert Rewrite(p, s) == [s[0]] + Rewrite(p, s[1..]);
      assert w[1..] <= Rewrite(p, s[1..]);
      PrefixWasThere(p, w[1..], s[1..]);
      assert w == [w[0]] + w[1..] && s == [s[0]] + s[1..];
    }
  }

  /* ----- stripping markup twice is stripping it once ----- */

  /** Every `<` left is directly followed by `>`, or by no `>` at all. */
  ghost predicate IsTagFree(s: string) {
    forall i | 0 <= i < |s| && s[i] == '<' :: (i + 1 < |s| && s[i + 1] == '>') || '>' !in s[i + 1..]
  }

  ghost predicate IsNbspFree(s: string) {
    forall i | 0 <= i < |s| :: !("&nbsp;" <= s[i..])
  }

  /** Spaces are single blanks. */
  ghost predicate IsCollapsed(s: string) {
    forall i | 0 <= i < |s| && IsSpace(s[i]) :: s[i] == ' ' && (i + 1 < |s| ==> !IsSpace(s[i + 1]))
  }

  ghost predicate IsTrimmed(s: string) {
    s == [] || (!IsSpace(s[0]) && !IsSpace(s[|s| - 1]))
  }

  ghost predicate IsPlain(s: string) {
    IsTagFree(s) && IsNbspFree(s) && IsCollapsed(s) && IsTrimmed(s)
  }

  lemma TagFreeCons(c: char, s: string)
    requires IsTagFree(s)
    requires c == '<' ==> (s != [] && s[0] == '>') || '>' !in s
    ensures IsTagFree([c] + s)
  {
    var t := [c] + s;
    forall i | 0 <= i < |t| && t[i] == '<'
      ensures (i + 1 < |t| && t[i + 1] == '>') || '>' !in t[i + 1..]
    {
      if i == 0 {
        assert t[1..] == s;
      } else {
        assert t[i + 1..] == s[i..];
        assert s[i - 1] == '<';
      }
    }
  }

  lemma TagFreeSuffix(s: string, n: nat)
    requires IsTagFree(s) && n <= |s|
    ensures IsTagFree(s[n..])
  {
    forall i | 0 <= i < |s[n..]| && s[n..][i] == '<'
      ensures (i + 1 < |s[n..]| && s[n..][i + 1] == '>') || '>' !in s[n..][i + 1..]
    {
      assert s[n + i] == '<';
      assert s[n..][i + 1..] == s[n + i + 1..];
    }
  }

  /** A `>` at the front stays there. */
  lemma FrontStays(p: Pass, s: string)
    requires p in {Tag, Nbsp, Spaces} && s != [] && s[0] == '>'
    ensures Rewrite(p, s) != [] && Rewrite(p, s)[0] == '>'
  {
  }

  lemma {:induction false} TagsAreGone(s: string)
    ensures IsTagFree(Rewrite(Tag, s))
  {
    if s != [] {
      var n := MatchLength(Tag, s);
      if n > 0 {
        TagsAreGone(s[n..]);
        TagFreeCons(' ', Rewrite(Tag, s[n..]));
      } else {
        TagsAreGone(s[1..]);
        if s[0] == '<' {
          if |s| > 1 && s[1] == '>' {
            FrontStays(Tag, s[1..]);
          } else {
            assert PrefixLength(IsInsideTag, s[1..]) == |s| - 1;
            RewriteKeepsCharacters(Tag, s[1..]);
          }
        }
        TagFreeCons(s[0], Rewrite(Tag, s[1..]));
      }
    }
  }

  lemma {:induction false} TagsStayGone(p: Pass, s: string)
    requires p == Nbsp || p == Spaces
    requires IsTagFree(s)
    ensures IsTagFree(Rewrite(p, s))
  {
    if s != [] {
      var n := MatchLength(p, s);
      if n > 0 {
        TagFreeSuffix(s, n);
        TagsStayGone(p, s[n..]);
        TagFreeCons(' ', Rewrite(p, s[n..]));
      } else {
        TagFreeSuffix(s, 1);
        TagsStayGone(p, s[1..]);
        if s[0] == '<' {
          if |s| > 1 && s[1] == '>' {
            FrontStays(p, s[1..]);
          } else {
            RewriteKeepsCharacters(p, s[1..]);
          }
        }
        TagFreeCons(s[0], Rewrite(p, s[1..]));
      }
    }
  }

  lemma NbspFreeCons(c: char, s: string)
    requires IsNbspFree(s) && !("&nbsp;" <= [c] + s)
    ensures IsNbspFree([c] + s)
  {
    forall i | 0 <= i < |[c] + s|
      ensures !("&nbsp;" <= ([c] + s)[i..])
    {
      if i == 0 {
        assert ([c] + s)[0..] == [c] + s;
      } else {
        assert ([c] + s)[i..] == s[i - 1..];
      }
    }
  }

  lemma NbspFreeSuffix(s: string, n: nat)
    requires IsNbspFree(s) && n <= |s|
    ensures IsNbspFree(s[n..])
  {
    forall i | 0 <= i < |s[n..]|
      ensures !("&nbsp;" <= s[n..][i..])
    {
      assert s[n..][i..] == s[n + i..];
    }
  }

  /** Neither replacing the entities nor collapsing spaces makes a new entity. */
  lemma {:induction false} EntitiesAreGone(p: Pass, s: string)
    requires p == Nbsp || (p == Spaces && IsNbspFree(s))
    ensures IsNbspFree(Rewrite(p, s))
  {
    if s != [] {
      var r := Rewrite(p, s);
      assert s[0..] == s && "&nbsp;"[0] == '&';
      if "&nbsp;" <= r {
        PrefixWasThere(p, "&nbsp;", s);
      }
      var n := MatchLength(p, s);
      var rest := if n > 0 then s[n..] else s[1..];
      if p == Spaces {
        NbspFreeSuffix(s, |s| - |rest|);
      }
      EntitiesAreGone(p, rest);
      NbspFreeCons(r[0], Rewrite(p, rest));
    }
  }

  lemma {:induction false} SpacesAreCollapsed(s: string)
    ensures IsCollapsed(Rewrite(Spaces, s))
    ensures s != [] && !IsSpace(s[0]) ==> Rewrite(Spaces, s) != [] && Rewrite(Spaces, s)[0] == s[0]
  {
    if s != [] {
      var n := MatchLength(Spaces, s);
      if n > 0 {
        SpacesAreCollapsed(s[n..]);
        assert n < |s| ==> !IsSpace(s[n..][0]);
      } else {
        SpacesAreCollapsed(s[1..]);
      }
    }
  }

  lemma CollapsedTail(s: string)
    requires IsCollapsed(s) && s != []
    ensures IsCollapsed(s[1..])
  {
    forall i | 0 <= i < |s[1..]| && IsSpace(s[1..][i])
      ensures s[1..][i] == ' ' && (i + 1 < |s[1..]| ==> !IsSpace(s[1..][i + 1]))
    {
      assert IsSpace(s[i + 1]);
    }
  }

  lemma {:induction false} CollapsedStays(s: string)
    requires IsCollapsed(s)
    ensures Rewrite(Spaces, s) == s
  {
    if s != [] {
      CollapsedTail(s);
      CollapsedStays(s[1..]);
      if IsSpace(s[0]) {
        PrefixLengthIs(IsSpace, s, 1);
      }
      assert s == [s[0]] + s[1..];
    }
  }

  lemma {:induction false} TrimStartIsSuffix(s: string) returns (n: nat)
    ensures n <= |s| && TrimStart(s) == s[n..]
    ensures TrimStart(s) == [] || !IsSpace(TrimStart(s)[0])
    ensures forall i | 0 <= i < n :: IsSpace(s[i])
  {
    if s != [] && IsSpace(s[0]) {
      var m := TrimStartIsSuffix(s[1..]);
      n := m + 1;
    } else {
      n := 0;
    }
  }

  lemma {:induction false} TrimEndIsPrefix(s: string) returns (n: nat)
    ensures n <= |s| && TrimEnd(s) == s[..n]
    ensures TrimEnd(s) == [] || !IsSpace(TrimEnd(s)[n - 1])
    ensures forall i | n <= i < |s| :: IsSpace(s[i])
  {
    if s != [] && IsSpace(s[|s| - 1]) {
      n := TrimEndIsPrefix(s[..|s| - 1]);
    } else {
      n := |s|;
    }
  }

  lemma PlainPrefix(s: string, n: nat)
    requires IsTagFree(s) && IsNbspFree(s) && IsCollapsed(s) && n <= |s|
    requires forall i | n <= i < |s| :: IsSpace(s[i])
    ensures IsTagFree(s[..n]) && IsNbspFree(s[..n]) && IsCollapsed(s[..n])
  {
    forall i | 0 <= i < n
      ensures !("&nbsp;" <= s[..n][i..])
    {
      assert s[i..] == s[..n][i..] + s[n..];
    }
    forall i | 0 <= i < n && s[i] == '<'
      ensures (i + 1 < n && s[i + 1] == '>') || '>' !in s[..n][i + 1..]
    {
      assert s[i + 1..] == s[..n][i + 1..] + s[n..];
    }
  }

  lemma StrippedIsPlain(html: string)
    ensures IsPlain(StripHtml(html))
  {
    var untagged := Rewrite(Tag, html);
    var decoded := Rewrite(Nbsp, untagged);
    var collapsed := Rewrite(Spaces, decoded);
    TagsAreGone(html);
    TagsStayGone(Nbsp, untagged);
    TagsStayGone(Spaces, decoded);
    EntitiesAreGone(Nbsp, untagged);
    EntitiesAreGone(Spaces, decoded);
    SpacesAreCollapsed(decoded);
    var n := TrimStartIsSuffix(collapsed);
    TagFreeSuffix(collapsed, n);
    NbspFreeSuffix(collapsed, n);
    var m := TrimEndIsPrefix(collapsed[n..]);
    PlainPrefix(collapsed[n..], m);
  }

  lemma PlainStays(s: string)
    requires IsPlain(s)
    ensures StripHtml(s) == s
  {
    forall i | 0 <= i < |s|
      ensures MatchLength(Tag, s[i..]) == 0
    {
      if s[i] == '<' {
        assert s[i..][1..] == s[i + 1..];
      }
    }
    NothingToRewrite(Tag, s);
    NothingToRewrite(Nbsp, s);
    CollapsedStays(s);
  }

  /** Stripping markup is idempotent, and its result is free of tags, entities and stray spaces. */
  lemma StripHtmlIdempotent(html: string)
    ensures IsPlain(StripHtml(html))
    ensures StripHtml(StripHtml(html)) == StripHtml(html)
  {
    StrippedIsPlain(html);
    PlainStays(StripHtml(html));
  }

  /* ----- what the canonical text is made of ----- */

  predicate IsSkeletonChar(c: char) {
    IsLower(c) || IsBeyondAscii(c)
  }

  lemma {:induction false} NoDigitsLeft(s: string)
    ensures forall c <- Rewrite(IdToken, s) :: !IsDigit(c)
  {
    if s != [] {
      var n := MatchLength(IdToken, s);
      if n > 0 {
        NoDigitsLeft(s[n..]);
      } else {
        NoDigitsLeft(s[1..]);
        var run := PrefixLength(IsAlphanumeric, s);
        assert run > 0 ==> s[..run][0] == s[0] && s[0] in s[..run];
      }
    }
  }

  lemma {:induction false} OnlyLettersLeft(s: string)
    ensures forall c <- Rewrite(NonLetter, s) :: c in s && IsLetterOrNumber(c)
  {
    if s != [] {
      var n := MatchLength(NonLetter, s);
      if n > 0 {
        OnlyLettersLeft(s[n..]);
      } else {
        OnlyLettersLeft(s[1..]);
      }
    }
  }

  lemma NormalizedIsSkeleton(content: string)
    ensures forall c <- NormalizeForDup(content) :: IsSkeletonChar(c)
  {
    var lowered := Lowered(StripHtml(content));
    var unlinked := Rewrite(Url, lowered);
    var unnamed := Rewrite(Handle, unlinked);
    var masked := Rewrite(IdToken, unnamed);
    assert forall c <- lowered :: !IsUpper(c);
    RewriteKeepsCharacters(Url, lowered);
    RewriteKeepsCharacters(Handle, unlinked);
    RewriteKeepsCharacters(IdToken, unnamed);
    NoDigitsLeft(unnamed);
    OnlyLettersLeft(masked);
  }

  lemma NotAPrefix(w: string, s: string, i: nat)
    requires i < |w| && w[i] !in s
    ensures !(w <= s)
  {
  }

  lemma UrlNeedsPunctuation(s: string)
    requires ':' !in s && '.' !in s
    ensures UrlHead(s) == 0
  {
    NotAPrefix("https://", s, 5);
    NotAPrefix("http://", s, 4);
    NotAPrefix("www.", s, 3);
  }

  lemma SkeletonMatchesNowhere(p: Pass, s: string)
    requires forall c <- s :: IsSkeletonChar(c)
    ensures MatchesNowhere(p, s)
  {
    forall i | 0 <= i < |s|
      ensures MatchLength(p, s[i..]) == 0
    {
      var t := s[i..];
      assert t[0] in s;
      assert forall c <- t :: c in s;
      match p
      case Url => UrlNeedsPunctuation(t);
      case Nbsp => NotAPrefix("&nbsp;", t, 0);
      case IdToken => assert forall c <- t[..PrefixLength(IsAlphanumeric, t)] :: c in t;
      case _ =>
    }
  }

  lemma SkeletonUnchanged(p: Pass, s: string)
    requires forall c <- s :: IsSkeletonChar(c)
    ensures Rewrite(p, s) == s
  {
    SkeletonMatchesNowhere(p, s);
    NothingToRewrite(p, s);
  }

  lemma SkeletonIsStripped(s: string)
    requires forall c <- s :: IsSkeletonChar(c)
    ensures StripHtml(s) == s
  {
    SkeletonUnchanged(Tag, s);
    SkeletonUnchanged(Nbsp, s);
    SkeletonUnchanged(Spaces, s);
    assert s != [] ==> s[0] in s && s[|s| - 1] in s;
  }

  lemma SkeletonIsLower(s: string)
    requires forall c <- s :: IsSkeletonChar(c)
    ensures Lowered(s) == s
  {
    assert forall i | 0 <= i < |s| :: s[i] in s;
  }

  lemma SkeletonStays(s: string)
    requires forall c <- s :: IsSkeletonChar(c)
    ensures NormalizeForDup(s) == s
  {
    SkeletonIsStripped(s);
    SkeletonIsLower(s);
    SkeletonUnchanged(Url, s);
    SkeletonUnchanged(Handle, s);
    SkeletonUnchanged(IdToken, s);
    SkeletonUnchanged(NonLetter, s);
  }

  /**
   * The canonical text consists of lower-case letters (and letters beyond ASCII)
   * only, and canonicalising it again changes nothing.
   */
  lemma NormalizeIdempotent(content: string)
    ensures forall c <- NormalizeForDup(content) :: IsSkeletonChar(c)
    ensures NormalizeForDup(NormalizeForDup(content)) == NormalizeForDup(content)
  {
    NormalizedIsSkeleton(content);
    SkeletonStays(NormalizeForDup(content));
  }
}
