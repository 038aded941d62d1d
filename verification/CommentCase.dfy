/**
 * The case of letters does not matter to the canonical text, except in the entity of a
 * blank (src/connectors/commentSpamSignals.ts).
 */
module CommentCase {
  import opened CommentText
  import opened CommentPatterns
  import opened CommentScan
  import opened CommentRotation
  import opened CommentNeighbours
  import opened CommentSimilarity

  /** The same character, or the same letter of the alphabet in either case. */
  ghost predicate IsSameLetter(c: char, d: char) {
    c == d || exists k | 0 <= k < 26 :: {c, d} == {SMALL[k], CAPITAL[k]}
  }

  ghost predicate AreSameLetters(s: string, t: string) {
    |s| == |t| && forall i | 0 <= i < |s| :: IsSameLetter(s[i], t[i])
  }

  /** The entity of a blank stands at the same places. */
  ghost predicate HaveSameEntities(s: string, t: string) {
    |s| == |t| && forall i | 0 <= i < |s| :: "&nbsp;" <= s[i..] <==> "&nbsp;" <= t[i..]
  }

  /* ----- the alphabet ----- */

  lemma SmallLetters()
    ensures forall k | 0 <= k < 26 :: SMALL[k] as int == 'a' as int + k
  {
  }

  lemma CapitalLetters()
    ensures forall k | 0 <= k < 26 :: CAPITAL[k] as int == 'A' as int + k
  {
  }

  lemma LetterAt(k: nat)
    requires k < 26
    ensures SMALL[k] == 'a' + k as char && CAPITAL[k] == 'A' + k as char
    ensures IsLower(SMALL[k]) && IsUpper(CAPITAL[k]) && ToLower(CAPITAL[k]) == SMALL[k] == ToLower(SMALL[k])
  {
    SmallLetters();
    CapitalLetters();
  }

  /** Lower-casing makes them one, and no pass before it tells them apart but for entities. */
  lemma SameWhenLowered(c: char, d: char)
    requires IsSameLetter(c, d)
    ensures ToLower(c) == ToLower(d)
    ensures c == d || (IsAlphanumeric(c) && IsAlphanumeric(d))
  {
    if c != d {
      var k :| 0 <= k < 26 && {c, d} == {SMALL[k], CAPITAL[k]};
      assert c in {SMALL[k], CAPITAL[k]} && d in {SMALL[k], CAPITAL[k]};
      LetterAt(k);
    }
  }

  lemma LoweredAlike(s: string, t: string)
    requires AreSameLetters(s, t)
    ensures Lowered(s) == Lowered(t)
  {
    forall i | 0 <= i < |s|
      ensures ToLower(s[i]) == ToLower(t[i])
    {
      SameWhenLowered(s[i], t[i]);
    }
  }

  /* ----- the passes before lower-casing ----- */

  /** What a run of these characters is does not depend on letters. */
  lemma {:induction false} SameRun(p: char -> bool, s: string, t: string)
    requires AreSameLetters(s, t)
    requires forall c, d | IsAlphanumeric(c) && IsAlphanumeric(d) :: p(c) == p(d)
    ensures PrefixLength(p, s) == PrefixLength(p, t)
  {
    if s != [] {
      SameWhenLowered(s[0], t[0]);
      TailsAlike(s, t, 1);
      SameRun(p, s[1..], t[1..]);
    }
  }

  lemma TailsAlike(s: string, t: string, n: nat)
    requires AreSameLetters(s, t) && n <= |s|
    ensures AreSameLetters(s[n..], t[n..])
  {
  }

  lemma EntitiesOfTails(s: string, t: string, n: nat)
    requires HaveSameEntities(s, t) && n <= |s|
    ensures HaveSameEntities(s[n..], t[n..])
  {
    forall i | 0 <= i < |s[n..]|
      ensures "&nbsp;" <= s[n..][i..] <==> "&nbsp;" <= t[n..][i..]
    {
      assert s[n..][i..] == s[n + i..] && t[n..][i..] == t[n + i..];
    }
  }

  lemma MatchedAlike(p: Pass, s: string, t: string)
    requires p in {Tag, Nbsp, Spaces} && AreSameLetters(s, t) && s != []
    requires p == Nbsp ==> HaveSameEntities(s, t)
    ensures MatchLength(p, s) == MatchLength(p, t)
  {
    SameWhenLowered(s[0], t[0]);
    TailsAlike(s, t, 1);
    match p
    case Tag => SameRun(IsInsideTag, s[1..], t[1..]);
    case Nbsp => assert s[0..] == s && t[0..] == t;
    case Spaces => SameRun(IsSpace, s, t);
    case _ =>
  }

  lemma {:induction false} RewrittenAlike(p: Pass, s: string, t: string)
    requires p in {Tag, Nbsp, Spaces} && AreSameLetters(s, t)
    requires p == Nbsp ==> HaveSameEntities(s, t)
    ensures AreSameLetters(Rewrite(p, s), Rewrite(p, t))
    decreases |s|
  {
    if s != [] {
      MatchedAlike(p, s, t);
      var n := if MatchLength(p, s) > 0 then MatchLength(p, s) else 1;
      TailsAlike(s, t, n);
      if p == Nbsp {
        EntitiesOfTails(s, t, n);
      }
      RewrittenAlike(p, s[n..], t[n..]);
      HeadsAlike(p, s, t, n);
    }
  }

  lemma HeadsAlike(p: Pass, s: string, t: string, n: nat)
    requires s != [] && AreSameLetters(s, t) && MatchLength(p, s) == MatchLength(p, t) <= n <= |s| && n > 0
    requires n == if MatchLength(p, s) > 0 then MatchLength(p, s) else 1
    requires AreSameLetters(Rewrite(p, s[n..]), Rewrite(p, t[n..]))
    ensures AreSameLetters(Rewrite(p, s), Rewrite(p, t))
  {
    if MatchLength(p, s) > 0 {
      RewriteMatch(p, s, n, s[n..]);
      RewriteMatch(p, t, n, t[n..]);
    } else {
      RewriteNoMatch(p, s, s[1..]);
      RewriteNoMatch(p, t, t[1..]);
    }
  }

  /** Removing tags leaves an entity at the front exactly if one was there. */
  lemma EntityStays(s: string)
    ensures "&nbsp;" <= Rewrite(Tag, s) <==> "&nbsp;" <= s
  {
    if "&nbsp;" <= s {
      var rest := s[6..];
      assert s == "&nbsp;" + rest;
      NoTagStartsIn("&nbsp;", rest);
    }
    if "&nbsp;" <= Rewrite(Tag, s) {
      PrefixWasThere(Tag, "&nbsp;", s);
    }
  }

  lemma {:induction false} TagsKeepEntities(s: string, t: string)
    requires AreSameLetters(s, t) && HaveSameEntities(s, t)
    ensures HaveSameEntities(Rewrite(Tag, s), Rewrite(Tag, t))
    decreases |s|
  {
    RewrittenAlike(Tag, s, t);
    if s != [] {
      MatchedAlike(Tag, s, t);
      var n := if MatchLength(Tag, s) > 0 then MatchLength(Tag, s) else 1;
      TailsAlike(s, t, n);
      EntitiesOfTails(s, t, n);
      TagsKeepEntities(s[n..], t[n..]);
      EntityStays(s);
      EntityStays(t);
      assert s[0..] == s && t[0..] == t;
      EntitiesBehind(s, t, n);
    }
  }

  lemma EntitiesBehind(s: string, t: string, n: nat)
    requires s != [] && |s| == |t| && MatchLength(Tag, s) == MatchLength(Tag, t) && n <= |s|
    requires n == if MatchLength(Tag, s) > 0 then MatchLength(Tag, s) else 1
    requires HaveSameEntities(Rewrite(Tag, s[n..]), Rewrite(Tag, t[n..]))
    requires "&nbsp;" <= Rewrite(Tag, s) <==> "&nbsp;" <= Rewrite(Tag, t)
    ensures HaveSameEntities(Rewrite(Tag, s), Rewrite(Tag, t))
  {
    var x, y := Rewrite(Tag, s), Rewrite(Tag, t);
    if MatchLength(Tag, s) > 0 {
      RewriteMatch(Tag, s, n, s[n..]);
      RewriteMatch(Tag, t, n, t[n..]);
    } else {
      RewriteNoMatch(Tag, s, s[1..]);
      RewriteNoMatch(Tag, t, t[1..]);
    }
    assert x[1..] == Rewrite(Tag, s[n..]) && y[1..] == Rewrite(Tag, t[n..]);
    forall i | 0 <= i < |x|
      ensures "&nbsp;" <= x[i..] <==> "&nbsp;" <= y[i..]
    {
      if i == 0 {
        assert x[0..] == x && y[0..] == y;
      } else {
        assert x[i..] == x[1..][i - 1..] && y[i..] == y[1..][i - 1..];
      }
    }
  }

  /* ----- the canonical text ----- */

  /**
   * Comments that agree at every place up to the case of a letter, and have the entity of
   * a blank at the same places, have the same canonical text.
   */
  lemma CaseDoesNotMatter(s: string, t: string)
    requires AreSameLetters(s, t) && HaveSameEntities(s, t)
    ensures NormalizeForDup(s) == NormalizeForDup(t)
  {
    RewrittenAlike(Tag, s, t);
    TagsKeepEntities(s, t);
    var s1, t1 := Rewrite(Tag, s), Rewrite(Tag, t);
    RewrittenAlike(Nbsp, s1, t1);
    RewrittenAlike(Spaces, Rewrite(Nbsp, s1), Rewrite(Nbsp, t1));
    LoweredAlike(Rewrite(Spaces, Rewrite(Nbsp, s1)), Rewrite(Spaces, Rewrite(Nbsp, t1)));
    AfterTagsIsSkeleton(s1);
    AfterTagsIsSkeleton(t1);
  }

  /** So they are near duplicates of each other exactly when any text remains. */
  lemma CaseIsNearDuplicate(s: string, t: string, threshold: real)
    requires AreSameLetters(s, t) && HaveSameEntities(s, t) && threshold <= 1.0
    ensures NearDuplicate(s, t, threshold) <==> NormalizeForDup(s) != ""
  {
    CaseDoesNotMatter(s, t);
    SameTextIsNearDuplicate(s, t, threshold);
  }

  /* ----- the entity is case-sensitive ----- */

  /** The entity vanishes, and in capitals it is the word it spells. */
  lemma CaseOfEntityMatters()
    ensures AreSameLetters("&nbsp;", "&NBSP;")
    ensures NormalizeForDup("&nbsp;") == "" && NormalizeForDup("&NBSP;") == "nbsp"
  {
    EntitySpelledAlike();
    EntityVanishes("&nbsp;");
    CapitalsStay("&NBSP;");
  }

  lemma EntitySpelledAlike()
    ensures AreSameLetters("&nbsp;", "&NBSP;")
  {
    LetterAt(13);
    LetterAt(1);
    LetterAt(18);
    LetterAt(15);
    var s, t := "&nbsp;", "&NBSP;";
    assert {s[1], t[1]} == {SMALL[13], CAPITAL[13]} && {s[2], t[2]} == {SMALL[1], CAPITAL[1]};
    assert {s[3], t[3]} == {SMALL[18], CAPITAL[18]} && {s[4], t[4]} == {SMALL[15], CAPITAL[15]};
  }

  lemma EntityVanishes(s: string)
    requires s == "&nbsp;"
    ensures NormalizeForDup(s) == ""
  {
    assert s + "" == s && Rewrite(Tag, "") == "";
    NoTagStartsIn(s, "");
    AfterTagsIsSkeleton(s);
    RewriteMatch(Nbsp, s, 6, "");
    assert " " + Rewrite(Nbsp, "") == " ";
    RewriteMatch(Spaces, " ", 1, "");
    assert " " + Rewrite(Spaces, "") == " ";
    BlankSkeleton(" ");
  }

  lemma CapitalsStay(s: string)
    requires s == "&NBSP;"
    ensures NormalizeForDup(s) == "nbsp"
  {
    NoEntity(s);
    TokenSkeleton(s);
    var lowered, word := Lowered(s), "nbsp";
    EntityLowered(s, word);
    MaskedIsSame(lowered);
    OnlyLettersStay(lowered, word);
  }

  lemma EntityLowered(s: string, word: string)
    requires s == "&NBSP;" && word == "nbsp"
    ensures Lowered(s) == ['&'] + (word + ";")
    ensures forall c <- Lowered(s) :: !IsDigit(c) && c != 'w' && c != ':' && c != '@'
    ensures forall c <- word :: IsLower(c)
  {
  }

  lemma OnlyLettersStay(s: string, word: string)
    requires s == ['&'] + (word + ";") && forall c <- word :: IsLower(c)
    ensures Rewrite(NonLetter, s) == word
  {
    NonLetterCons('&', word + ";");
    NonLetterSplits(word, ";");
    LettersStay(word);
    NonLettersLeaveNothing(";");
  }

  lemma NoEntity(s: string)
    requires s == "&NBSP;"
    ensures IsToken(s)
  {
    forall i | 0 <= i < |s|
      ensures !("&nbsp;" <= s[i..])
    {
      if i == 0 {
        DiffersAt("&nbsp;", s[0..], 1);
      } else {
        DiffersAt("&nbsp;", s[i..], 0);
      }
    }
  }

  lemma MaskedIsSame(s: string)
    requires forall c <- s :: !IsDigit(c) && c != 'w' && c != ':' && c != '@'
    ensures MaskedAll(s) == s
  {
    NoLinkWithout(s);
    NoLinkIn(Handle, s);
    NoDigitToMask(s);
  }
}
