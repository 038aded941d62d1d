/** Which article a path of the site is about (src/connectors/ga4Service.ts). */
module Ga4Paths {
  import opened Common

  /** The ids of articles by the media hash of one of their versions, and by their short hash. */
  datatype Hashes = Hashes(media: map<string, string>, short: map<string, string>)

  /** The pieces of a text between separators; a text without any is one piece. */
  function Split(s: string, separator: char): (parts: seq<string>)
    ensures parts != []
  {
    if s == "" then [""]
    else
      var rest := Split(s[1..], separator);
      if s[0] == separator then [""] + rest else [[s[0]] + rest[0]] + rest[1..]
  }

  function Joined(parts: seq<string>, separator: char): string
    requires parts != []
  {
    if |parts| == 1 then parts[0] else parts[0] + [separator] + Joined(parts[1..], separator)
  }

  /** A piece that no `-` can be in is a numeral if it consists of digits. */
  predicate IsNumeral(s: string) {
    s != "" && forall c <- s :: '0' <= c <= '9'
  }

  function Lookup(ids: map<string, string>, hash: string): Option<string> {
    if hash in ids then Some(ids[hash]) else None
  }

  function PathToId(hashes: Hashes, path: string): Option<string> {
    var parts := Split(path, '/');
    if "/@" <= path then
      if |parts| > 2 && parts[2] != "" then
        var words := Split(parts[2], '-');
        if IsNumeral(words[0]) then Some(words[0]) else Lookup(hashes.media, words[|words| - 1])
      else
        None
    else if "/a/" <= path then
      if |parts| == 3 then Lookup(hashes.short, parts[2]) else None
    else
      None
  }

  /** Splitting undoes joining of pieces without separator, and joining undoes splitting. */
  lemma {:induction false} SplitJoined(parts: seq<string>, separator: char)
    requires parts != [] && forall p <- parts :: separator !in p
    ensures Split(Joined(parts, separator), separator) == parts
  {
    if |parts| == 1 {
      SplitWithout(parts[0], separator);
    } else {
      SplitJoined(parts[1..], separator);
      SplitAt(parts[0], Joined(parts[1..], separator), separator);
    }
  }

  lemma JoinedLonger(c: char, parts: seq<string>, separator: char)
    requires parts != []
    ensures Joined([[c] + parts[0]] + parts[1..], separator) == [c] + Joined(parts, separator)
  {
    assert ([[c] + parts[0]] + parts[1..])[1..] == parts[1..];
  }

  lemma {:induction false} JoinedSplit(s: string, separator: char)
    ensures Joined(Split(s, separator), separator) == s
    ensures forall p <- Split(s, separator) :: separator !in p
  {
    if s != "" {
      var rest := Split(s[1..], separator);
      JoinedSplit(s[1..], separator);
      if s[0] == separator {
        assert ([""] + rest)[1..] == rest;
      } else {
        assert forall p <- rest[1..] :: p in rest;
        assert rest[0] in rest;
        JoinedLonger(s[0], rest, separator);
      }
    }
  }

  lemma {:induction false} SplitWithout(s: string, separator: char)
    requires separator !in s
    ensures Split(s, separator) == [s]
  {
    if s != "" {
      SplitWithout(s[1..], separator);
      assert s == [s[0]] + s[1..];
    }
  }

  lemma {:induction false} SplitAt(head: string, tail: string, separator: char)
    requires separator !in head
    ensures Split(head + [separator] + tail, separator) == [head] + Split(tail, separator)
  {
    var s := head + [separator] + tail;
    if head == "" {
      assert s[1..] == tail;
    } else {
      assert s[1..] == head[1..] + [separator] + tail;
      SplitAt(head[1..], tail, separator);
      assert head == [head[0]] + head[1..];
    }
  }

  /** The pieces of a path that is made of pieces. */
  lemma PathPieces(parts: seq<string>)
    requires parts != [] && forall p <- parts :: '/' !in p
    ensures Split("/" + Joined(parts, '/'), '/') == [""] + parts
  {
    SplitJoined(parts, '/');
    SplitAt("", Joined(parts, '/'), '/');
    assert "" + "/" + Joined(parts, '/') == "/" + Joined(parts, '/');
  }

  /** Every path with a slash at its front is made of pieces. */
  lemma EveryPath(path: string) returns (parts: seq<string>)
    requires "/" <= path
    ensures parts != [] && path == "/" + Joined(parts, '/')
    ensures forall p <- parts :: '/' !in p
  {
    parts := Split(path[1..], '/');
    JoinedSplit(path[1..], '/');
  }

  /** What the name of an article, in words, leads to: its id if it begins with one, else the hash at its end. */
  function NameToId(hashes: Hashes, words: seq<string>): Option<string>
    requires words != []
  {
    if words == [""] then None
    else if IsNumeral(words[0]) then Some(words[0])
    else Lookup(hashes.media, words[|words| - 1])
  }

  /**
   * What a path below an author's page leads to is up to the piece behind the author's,
   * whatever follows; without one it leads nowhere.
   */
  lemma ArticleAddress(hashes: Hashes, author: string, words: seq<string>, more: seq<string>)
    requires '/' !in author && words != []
    requires forall w <- words :: '/' !in w && '-' !in w
    requires forall p <- more :: '/' !in p
    ensures PathToId(hashes, "/@" + author) == None
    ensures PathToId(hashes, "/" + Joined(["@" + author, Joined(words, '-')] + more, '/')) == NameToId(hashes, words)
  {
    AuthorAddress(hashes, author);
    var parts := ["@" + author, Joined(words, '-')] + more;
    var path := "/" + Joined(parts, '/');
    JoinedHas(words, '-', '/');
    PathPieces(parts);
    assert Split(path, '/')[2] == Joined(words, '-');
    SplitJoined(words, '-');
    SplitWithout("", '-');
    assert path == "/" + ("@" + author + ['/'] + Joined(parts[1..], '/'));
    assert "/@" <= path;
  }

  lemma AuthorAddress(hashes: Hashes, author: string)
    requires '/' !in author
    ensures PathToId(hashes, "/@" + author) == None
  {
    PathPieces(["@" + author]);
    assert "/" + Joined(["@" + author], '/') == "/@" + author;
  }

  lemma {:induction false} JoinedHas(parts: seq<string>, separator: char, c: char)
    requires parts != [] && c != separator && forall p <- parts :: c !in p
    ensures c !in Joined(parts, separator)
  {
    if |parts| > 1 {
      JoinedHas(parts[1..], separator, c);
    }
  }

  /** The short address of an article leads to it; anything behind it leads nowhere. */
  lemma ShortAddress(hashes: Hashes, hash: string, more: seq<string>)
    requires '/' !in hash && forall p <- more :: '/' !in p
    ensures PathToId(hashes, "/" + Joined(["a", hash] + more, '/')) == if more == [] then Lookup(hashes.short, hash) else None
  {
    var parts := ["a", hash] + more;
    PathPieces(parts);
    assert "/" + Joined(parts, '/') == "/" + ("a" + ['/'] + Joined(parts[1..], '/'));
    assert "/a/" <= "/" + Joined(parts, '/');
  }

  /** What a path is: an author's page, the address of an article, a short address, or none of these. */
  datatype Address =
    | Author(author: string)
    | Named(author: string, words: seq<string>, more: seq<string>)
    | Short(hash: string, more: seq<string>)
    | Other

  ghost predicate IsAddress(a: Address, path: string) {
    match a
    case Author(author) =>
      '/' !in author && path == "/@" + author
    case Named(author, words, more) =>
      && '/' !in author && words != [] && (forall w <- words :: '/' !in w && '-' !in w) && (forall p <- more :: '/' !in p)
      && path == "/" + Joined(["@" + author, Joined(words, '-')] + more, '/')
    case Short(hash, more) =>
      && '/' !in hash && (forall p <- more :: '/' !in p)
      && path == "/" + Joined(["a", hash] + more, '/')
    case Other =>
      !("/@" <= path) && !("/a/" <= path)
  }

  /**
   * Every path is an address of one of the four kinds, and leads to an article exactly
   * when it is one of a name with an id or a known hash, or a short one of a known hash
   * with nothing behind it.
   */
  lemma EveryAddress(hashes: Hashes, path: string) returns (a: Address)
    ensures IsAddress(a, path)
    ensures PathToId(hashes, path) == match a
                                      case Author(_) => None
                                      case Named(_, words, _) => NameToId(hashes, words)
                                      case Short(hash, more) => if more == [] then Lookup(hashes.short, hash) else None
                                      case Other => None
    ensures a.Named? && a.words != [""] && IsNumeral(a.words[0]) ==> PathToId(hashes, path) == Some(a.words[0])
    ensures a.Named? && a.words != [""] && !IsNumeral(a.words[0]) && a.words[|a.words| - 1] in hashes.media ==>
              PathToId(hashes, path) == Some(hashes.media[a.words[|a.words| - 1]])
    ensures a.Short? && a.more == [] && a.hash in hashes.short ==> PathToId(hashes, path) == Some(hashes.short[a.hash])
    ensures PathToId(hashes, path).None? <==>
            match a
            case Named(_, words, _) => words == [""] || !(IsNumeral(words[0]) || words[|words| - 1] in hashes.media)
            case Short(hash, more) => more != [] || hash !in hashes.short
            case _ => true
  {
    if "/@" <= path {
      var parts := EveryPath(path);
      var author := FirstIsAuthor(path, parts);
      if |parts| == 1 {
        a := Author(author);
        AuthorAddress(hashes, author);
      } else {
        a := NamedAddress(hashes, path, parts, author);
      }
    } else if "/a/" <= path {
      a := ShortPath(hashes, path);
    } else {
      a := Other;
    }
  }

  lemma JoinedFirst(parts: seq<string>, separator: char)
    requires parts != []
    ensures parts[0] == "" && |parts| > 1 ==> Joined(parts, separator) != "" && Joined(parts, separator)[0] == separator
    ensures parts[0] == "" && |parts| == 1 ==> Joined(parts, separator) == ""
    ensures parts[0] != "" ==> Joined(parts, separator) != "" && Joined(parts, separator)[0] == parts[0][0]
  {
  }

  lemma FirstIsAuthor(path: string, parts: seq<string>) returns (author: string)
    requires "/@" <= path && parts != [] && path == "/" + Joined(parts, '/') && forall p <- parts :: '/' !in p
    ensures parts[0] == "@" + author && '/' !in author
  {
    JoinedFirst(parts, '/');
    assert path[1] == "/@"[1] && path[1..] == Joined(parts, '/');
    author := parts[0][1..];
    assert parts[0] in parts;
    assert forall c <- author :: c in parts[0];
  }

  lemma NamedAddress(hashes: Hashes, path: string, parts: seq<string>, author: string) returns (a: Address)
    requires |parts| > 1 && path == "/" + Joined(parts, '/') && forall p <- parts :: '/' !in p
    requires parts[0] == "@" + author && '/' !in author
    ensures a.Named? && IsAddress(a, path) && PathToId(hashes, path) == NameToId(hashes, a.words)
  {
    var words := Split(parts[1], '-');
    JoinedSplit(parts[1], '-');
    PiecesLack(parts[1], '-', '/');
    var more := parts[2..];
    assert parts == ["@" + author, Joined(words, '-')] + more;
    a := Named(author, words, more);
    ArticleAddress(hashes, author, words, more);
  }

  lemma {:induction false} PiecesLack(s: string, separator: char, c: char)
    requires c !in s
    ensures forall p <- Split(s, separator) :: c !in p
  {
    if s != "" {
      PiecesLack(s[1..], separator, c);
      assert Split(s[1..], separator)[0] in Split(s[1..], separator);
    }
  }

  lemma ShortPath(hashes: Hashes, path: string) returns (a: Address)
    requires "/a/" <= path
    ensures a.Short? && IsAddress(a, path)
    ensures PathToId(hashes, path) == if a.more == [] then Lookup(hashes.short, a.hash) else None
  {
    var rest := path[3..];
    var parts := Split(rest, '/');
    JoinedSplit(rest, '/');
    a := Short(parts[0], parts[1..]);
    assert ["a", parts[0]] + parts[1..] == ["a"] + parts;
    assert (["a"] + parts)[1..] == parts;
    assert path == "/" + ("a" + ['/'] + rest);
    ShortAddress(hashes, parts[0], parts[1..]);
  }
}
