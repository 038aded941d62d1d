/**
 * The scans of the text passes against the regular expressions they stand for
 * (src/connectors/commentSpamSignals.ts).
 */
module CommentPatterns {
  import opened CommentText

  ghost predicate All(p: char -> bool, w: string) {
    forall c <- w :: p(c)
  }

  /** The texts that the expression of a pass matches as a whole. */
  ghost predicate Denotes(p: Pass, w: string) {
    match p
    case Tag =>
      |w| >= 3 && w[0] == '<' && w[|w| - 1] == '>' && All(IsInsideTag, w[1..|w| - 1])
    case Nbsp =>
      w == "&nbsp;"
    case Spaces =>
      w != "" && All(IsSpace, w)
    case Url =>
      exists head <- ["http://", "https://", "www."] :: head < w && All(IsNonSpace, w[|head|..])
    case Handle =>
      |w| >= 2 && w[0] == '@' && All(IsHandleChar, w[1..])
    case IdToken =>
      All(IsAlphanumeric, w) && exists c <- w :: IsDigit(c)
    case NonLetter =>
      w != "" && All(IsNonLetter, w)
  }

  /* ----- the classes of characters, spelled out ----- */

  const DIGITS := "0123456789"
  const SMALL := "abcdefghijklmnopqrstuvwxyz"
  const CAPITAL := "ABCDEFGHIJKLMNOPQRSTUVWXYZ"

  lemma DigitsAre(c: char)
    ensures IsDigit(c) <==> c in DIGITS
  {
    if IsDigit(c) {
      var k := (c - '0') as int;
      assert forall i | 0 <= i < 10 :: DIGITS[i] as int == '0' as int + i;
      assert DIGITS[k] == c;
    }
  }

  lemma SmallLettersAre(c: char)
    ensures IsLower(c) <==> c in SMALL
  {
    assert forall i | 0 <= i < 26 :: SMALL[i] as int == 'a' as int + i;
    if IsLower(c) {
      var k := (c - 'a') as int;
      assert SMALL[k] == c;
    }
  }

  lemma CapitalLettersAre(c: char)
    ensures IsUpper(c) <==> c in CAPITAL
  {
    assert forall i | 0 <= i < 26 :: CAPITAL[i] as int == 'A' as int + i;
    if IsUpper(c) {
      var k := (c - 'A') as int;
      assert CAPITAL[k] == c;
    }
  }

  /**
   * The characters that the expressions speak of: the six ASCII spaces, digits, letters,
   * those of handles, and everything beyond ASCII as letters.
   */
  lemma Alphabets(c: char)
    ensures IsSpace(c) <==> c in " \t\n\U{0B}\U{0C}\r"
    ensures IsNonSpace(c) <==> c !in " \t\n\U{0B}\U{0C}\r"
    ensures IsDigit(c) <==> c in DIGITS
    ensures IsAlphanumeric(c) <==> c in SMALL || c in CAPITAL || c in DIGITS
    ensures IsHandleChar(c) <==> c in SMALL || c in DIGITS || c == '_'
    ensures IsNonLetter(c) <==> c as int < 128 && c !in SMALL && c !in CAPITAL && c !in DIGITS
    ensures IsInsideTag(c) <==> c != '>'
  {
    DigitsAre(c);
    SmallLettersAre(c);
    CapitalLettersAre(c);
    SpacesAre(c);
  }

  lemma SpacesAre(c: char)
    ensures IsSpace(c) <==> c in " \t\n\U{0B}\U{0C}\r"
  {
    var spaces := " \t\n\U{0B}\U{0C}\r";
    assert spaces[0] == ' ' && spaces[1] == '\t' && spaces[2] == '\n' && spaces[3] == '\U{0B}'
           && spaces[4] == '\U{0C}' && spaces[5] == '\r';
  }

  lemma RunIsLongest(p: char -> bool, s: string, k: nat)
    requires k <= |s|
    ensures All(p, s[..PrefixLength(p, s)])
    ensures All(p, s[..k]) ==> k <= PrefixLength(p, s)
  {
    var n := PrefixLength(p, s);
    if n < k {
      assert s[..k][n] == s[n];
    }
  }

  lemma TagIsLongest(s: string, k: nat)
    requires k <= |s|
    ensures Denotes(Tag, s[..k]) ==> k <= MatchLength(Tag, s)
    ensures MatchLength(Tag, s) > 0 ==> Denotes(Tag, s[..MatchLength(Tag, s)])
  {
    if Denotes(Tag, s[..k]) {
      assert forall i | 0 <= i < k - 2 :: s[1..][i] == s[..k][1..k - 1][i];
      PrefixLengthIs(IsInsideTag, s[1..], k - 2);
    }
    var n := MatchLength(Tag, s);
    if n > 0 {
      InnerOfTag(s, n);
    }
  }

  lemma InnerOfTag(s: string, n: nat)
    requires 2 <= n <= |s|
    ensures s[..n][1..n - 1] == s[1..][..n - 2]
  {
  }

  lemma HeadOfUrl(s: string, w: string, head: string)
    requires w <= s && head in ["http://", "https://", "www."] && head < w
    ensures UrlHead(s) == |head|
  {
    assert head <= s;
    if head == "http://" {
      assert s[4] == "http://"[4] && "https://"[4] == 's';
    } else if head == "www." {
      assert s[0] == "www."[0] && "https://"[0] == 'h' && "http://"[0] == 'h';
    }
  }

  lemma UrlIsLongest(s: string, k: nat)
    requires k <= |s|
    ensures Denotes(Url, s[..k]) ==> k <= MatchLength(Url, s)
    ensures MatchLength(Url, s) > 0 ==> Denotes(Url, s[..MatchLength(Url, s)])
  {
    if Denotes(Url, s[..k]) {
      UrlIsFound(s, k);
    }
    if MatchLength(Url, s) > 0 {
      FoundIsUrl(s);
    }
  }

  lemma UrlIsFound(s: string, k: nat)
    requires k <= |s| && Denotes(Url, s[..k])
    ensures k <= MatchLength(Url, s)
  {
    var w := s[..k];
    var head :| head in ["http://", "https://", "www."] && head < w && All(IsNonSpace, w[|head|..]);
    HeadOfUrl(s, w, head);
    UrlHasNoSpace(w, head);
    LongRun(IsNonSpace, s, k);
  }

  lemma UrlHasNoSpace(w: string, head: string)
    requires head in ["http://", "https://", "www."] && head < w && All(IsNonSpace, w[|head|..])
    ensures forall i | 0 <= i < |w| :: IsNonSpace(w[i])
  {
    NoSpaceInHead(head);
    forall i | 0 <= i < |w|
      ensures IsNonSpace(w[i])
    {
      if i < |head| {
        assert w[i] == head[i] && head[i] in head;
      } else {
        assert w[i] == w[|head|..][i - |head|];
      }
    }
  }

  lemma FoundIsUrl(s: string)
    requires 0 < UrlHead(s) < |Word(s)|
    ensures Denotes(Url, Word(s))
  {
    var head := s[..UrlHead(s)];
    HeadIsOneOfThree(s);
    assert head < Word(s);
    assert forall i | 0 <= i < |Word(s)| :: IsNonSpace(Word(s)[i]);
  }

  lemma HeadIsOneOfThree(s: string)
    requires UrlHead(s) > 0
    ensures s[..UrlHead(s)] in ["http://", "https://", "www."]
  {
    var heads := ["http://", "https://", "www."];
    assert s[..UrlHead(s)] == if "https://" <= s then heads[1] else if "http://" <= s then heads[0] else heads[2];
  }

  lemma NoSpaceInHead(head: string)
    requires head in ["http://", "https://", "www."]
    ensures All(IsNonSpace, head)
  {
  }

  lemma {:induction false} LongRun(p: char -> bool, s: string, k: nat)
    requires k <= |s| && forall i | 0 <= i < k :: p(s[i])
    ensures k <= PrefixLength(p, s)
  {
  }

  /**
   * At every place the scan takes the longest text that the expression denotes, and
   * takes none only if there is none.
   */
  lemma MatchIsLongest(p: Pass, s: string, k: nat)
    requires k <= |s|
    ensures Denotes(p, s[..k]) ==> k <= MatchLength(p, s)
    ensures MatchLength(p, s) > 0 ==> Denotes(p, s[..MatchLength(p, s)])
  {
    match p
    case Tag => TagIsLongest(s, k);
    case Nbsp => assert "&nbsp;" <= s ==> s[..6] == "&nbsp;";
    case Spaces => RunIsLongest(IsSpace, s, k);
    case Url => UrlIsLongest(s, k);
    case Handle => HandleIsLongest(s, k);
    case IdToken => IdTokenIsLongest(s, k);
    case NonLetter => RunIsLongest(IsNonLetter, s, k);
  }

  lemma HandleIsLongest(s: string, k: nat)
    requires k <= |s|
    ensures Denotes(Handle, s[..k]) ==> k <= MatchLength(Handle, s)
    ensures MatchLength(Handle, s) > 0 ==> Denotes(Handle, s[..MatchLength(Handle, s)])
  {
    if s != [] {
      var n := PrefixLength(IsHandleChar, s[1..]);
      if k > 0 {
        assert s[..k][1..] == s[1..][..k - 1];
        RunIsLongest(IsHandleChar, s[1..], k - 1);
      }
      assert s[..n + 1][1..] == s[1..][..n];
    }
  }

  lemma IdTokenIsLongest(s: string, k: nat)
    requires k <= |s|
    ensures Denotes(IdToken, s[..k]) ==> k <= MatchLength(IdToken, s)
    ensures MatchLength(IdToken, s) > 0 ==> Denotes(IdToken, s[..MatchLength(IdToken, s)])
  {
    var run := PrefixLength(IsAlphanumeric, s);
    RunIsLongest(IsAlphanumeric, s, k);
    if Denotes(IdToken, s[..k]) {
      var c :| c in s[..k] && IsDigit(c);
      assert s[..run] == s[..k] + s[k..run];
      assert c in s[..run];
    }
  }
}
