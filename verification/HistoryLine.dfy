/** Recording an input line in the history: a line comment is turned into a
    comment that ends on the line. */
module HistoryLine {
  import opened Options

  /* The standard string searches, with None for npos. */

  // One or two characters at a position.
  predicate At(s: string, i: int, what: string): (r: bool)
    requires 1 <= |what| <= 2
    ensures r ==> 0 <= i && i + |what| <= |s| && s[i..i + |what|] == what
  {
    0 <= i && i + |what| <= |s| && s[i] == what[0] && (|what| == 2 ==> s[i + 1] == what[1])
  }

  function Find(s: string, what: string, start: nat): (r: Option<nat>)
    requires 1 <= |what| <= 2
    ensures r.Some? ==> start <= r.value && At(s, r.value, what)
    ensures forall k :: start <= k && (r.None? || k < r.value) ==> !At(s, k, what)
    decreases |s| - start
  {
    if start + |what| > |s| then None
    else if At(s, start, what) then Some(start)
    else Find(s, what, start + 1)
  }

  predicate Quote(c: char) { c == '\'' || c == '\"' }

  function FindQuote(s: string, start: nat): (r: Option<nat>)
    ensures r.Some? ==> start <= r.value < |s| && Quote(s[r.value])
    ensures forall k :: start <= k < |s| && (r.None? || k < r.value) ==> !Quote(s[k])
    decreases |s| - start
  {
    if start >= |s| then None
    else if Quote(s[start]) then Some(start)
    else FindQuote(s, start + 1)
  }

  // Comparison of positions: npos is the largest.
  predicate Less(a: Option<nat>, b: Option<nat>) {
    a.Some? && (b.Some? ==> a.value < b.value)
  }

  function Min(a: Option<nat>, b: Option<nat>): Option<nat> {
    if Less(a, b) then a else b
  }

  /* The scanner of the original. */

  function EndOfString(sym: char, line: string, start: nat): (r: Option<nat>)
    requires Quote(sym)
    ensures r.Some? ==> start < r.value <= |line|
    decreases |line| - start
  {
    var end := Find(line, [sym], start);
    if end.None? then None
    else
      var escape := Min(Find(line, ['\\', sym], start), Find(line, "\\\\", start));
      if Less(end, escape) then Some(end.value + 1)
      else EndOfString(sym, line, escape.value + 2)
  }

  function EndOfComment(line: string, start: nat): (r: Option<nat>)
    ensures r.Some? ==> start < r.value <= |line|
  {
    var end := Find(line, "*/", start);
    if end.None? then None else Some(end.value + 2)
  }

  function SlashPos(line: string, start: Option<nat>): Option<nat>
    decreases if start.None? then 0 else 1, if start.None? then 0 else |line| - start.value
  {
    if start.None? then None
    else
      var pos := Find(line, "//", start.value);
      if pos.None? then None
      else
        var comment := Find(line, "/*", start.value);
        var quote := FindQuote(line, start.value);
        if Less(Min(comment, quote), pos) then SlashPos(line, Past(line, comment, quote)) else pos
  }

  // The end of the comment or string, whichever begins first.
  function Past(line: string, comment: Option<nat>, quote: Option<nat>): (r: Option<nat>)
    requires comment.Some? || quote.Some?
    requires quote.Some? ==> quote.value < |line| && Quote(line[quote.value])
    ensures r.Some? ==> Min(comment, quote).value < r.value <= |line|
  {
    if Less(comment, quote) then EndOfComment(line, comment.value + 2)
    else EndOfString(line[quote.value], line, quote.value + 1)
  }

  /* The lexer, one token at a time. */

  datatype Mode = Code | Str(quote: char) | Comment

  // The next line feed, or the end.
  function LineEnd(line: string, i: nat): (r: nat)
    requires i <= |line|
    ensures i <= r <= |line| && (r == |line| || line[r] == '\n') && forall k :: i <= k < r ==> line[k] != '\n'
    decreases |line| - i
  {
    if i == |line| || line[i] == '\n' then i else LineEnd(line, i + 1)
  }

  /** Where the token at i ends, and the mode after it.  In a comment, an opening
      slash-star is a token of its own if pairs is set, as in the lexer of the
      compiler. */
  function Token(line: string, i: nat, mode: Mode, pairs: bool): (r: (nat, Mode))
    requires i < |line|
    ensures i < r.0 <= |line|
  {
    match mode
    case Code =>
      if At(line, i, "//") then (LineEnd(line, i + 2), Code)
      else if At(line, i, "/*") then (i + 2, Comment)
      else if Quote(line[i]) then (i + 1, Str(line[i]))
      else (i + 1, Code)
    case Str(q) =>
      if At(line, i, ['\\', q]) || At(line, i, "\\\\") then (i + 2, mode)
      else if line[i] == q then (i + 1, Code)
      else (i + 1, mode)
    case Comment =>
      if At(line, i, "*/") then (i + 2, Code)
      else if pairs && At(line, i, "/*") then (i + 2, Comment)
      else (i + 1, Comment)
  }

  /** The first line comment. */
  function FirstSlash(line: string, i: nat, mode: Mode, pairs: bool): (r: Option<nat>)
    requires i <= |line|
    ensures r.Some? ==> i <= r.value && At(line, r.value, "//")
    decreases |line| - i
  {
    if i == |line| then None
    else if mode == Code && At(line, i, "//") then Some(i)
    else var (j, after) := Token(line, i, mode, pairs); FirstSlash(line, j, after, pairs)
  }

  /** The mode after the last token. */
  function EndMode(line: string, i: nat, mode: Mode, pairs: bool): Mode
    requires i <= |line|
    decreases |line| - i
  {
    if i == |line| then mode
    else var (j, after) := Token(line, i, mode, pairs); EndMode(line, j, after, pairs)
  }

  // What the compiler gets to see: code and string tokens, and where comments are.
  datatype Piece = Text(s: string) | Gap

  function Pieces(line: string, i: nat, mode: Mode, pairs: bool): seq<Piece>
    requires i <= |line|
    decreases |line| - i
  {
    if i == |line| then []
    else
      var (j, after) := Token(line, i, mode, pairs);
      PieceOf(line, i, mode, j) + Pieces(line, j, after, pairs)
  }

  function PieceOf(line: string, i: nat, mode: Mode, j: nat): seq<Piece>
    requires i < j <= |line|
  {
    if mode == Comment then []
    else if mode == Code && (At(line, i, "//") || At(line, i, "/*")) then [Gap]
    else [Text(line[i..j])]
  }

  /* The scanner finds the first line comment of the simple lexer. */

  // Characters of code that begin nothing.
  lemma {:induction false} SkipCode(line: string, i: nat, k: nat)
    requires i <= k <= |line|
    requires forall j :: i <= j < k ==> !At(line, j, "//") && !At(line, j, "/*") && !Quote(line[j])
    ensures FirstSlash(line, i, Code, false) == FirstSlash(line, k, Code, false)
    decreases k - i
  {
    if i < k {
      SkipCode(line, i + 1, k);
    }
  }

  lemma {:induction false} SkipComment(line: string, i: nat, k: nat)
    requires i <= k <= |line|
    requires forall j :: i <= j < k ==> !At(line, j, "*/")
    ensures FirstSlash(line, i, Comment, false) == FirstSlash(line, k, Comment, false)
    decreases k - i
  {
    if i < k {
      SkipComment(line, i + 1, k);
    }
  }

  lemma {:induction false} SkipString(q: char, line: string, i: nat, k: nat)
    requires i <= k <= |line|
    requires forall j :: i <= j < k ==> !At(line, j, ['\\', q]) && !At(line, j, "\\\\") && line[j] != q
    ensures FirstSlash(line, i, Str(q), false) == FirstSlash(line, k, Str(q), false)
    decreases k - i
  {
    if i < k {
      SkipString(q, line, i + 1, k);
    }
  }

  // The search goes on where a comment or string ends.
  function From(line: string, start: Option<nat>): Option<nat>
    requires start.Some? ==> start.value <= |line|
  {
    if start.None? then None else FirstSlash(line, start.value, Code, false)
  }

  lemma CommentEnds(line: string, i: nat)
    requires i <= |line|
    ensures FirstSlash(line, i, Comment, false) == From(line, EndOfComment(line, i))
  {
    var end := Find(line, "*/", i);
    SkipComment(line, i, if end.Some? then end.value else |line|);
  }

  lemma NoneBefore(q: char, line: string, i: nat)
    ensures var r := Find(line, [q], i); forall k :: i <= k < |line| && (r.None? || k < r.value) ==> line[k] != q
  {
    var r := Find(line, [q], i);
    forall k | i <= k < |line| && (r.None? || k < r.value)
      ensures line[k] != q
    {
      assert !At(line, k, [q]);
    }
  }

  // What ends at k, in a string.
  lemma StringToken(q: char, line: string, k: nat)
    requires k < |line| && Quote(q)
    ensures line[k] == q ==> FirstSlash(line, k, Str(q), false) == FirstSlash(line, k + 1, Code, false)
    ensures At(line, k, ['\\', q]) || At(line, k, "\\\\") ==>
              FirstSlash(line, k, Str(q), false) == FirstSlash(line, k + 2, Str(q), false)
  {
  }

  lemma {:induction false} StringEnds(q: char, line: string, i: nat)
    requires i <= |line| && Quote(q)
    ensures FirstSlash(line, i, Str(q), false) == From(line, EndOfString(q, line, i))
    decreases |line| - i
  {
    hide FirstSlash, Find, At;
    NoneBefore(q, line, i);
    var end := Find(line, [q], i);
    var escape := Min(Find(line, ['\\', q], i), Find(line, "\\\\", i));
    if end.None? {
      NoEnd(q, line, i);
    } else if Less(end, escape) {
      SkipString(q, line, i, end.value);
      StringToken(q, line, end.value);
    } else {
      SkipString(q, line, i, escape.value);
      StringToken(q, line, escape.value);
      StringEnds(q, line, escape.value + 2);
    }
  }

  // A string without another quote does not end.
  lemma {:induction false} NoEnd(q: char, line: string, i: nat)
    requires i <= |line| && forall k :: i <= k < |line| ==> line[k] != q
    ensures FirstSlash(line, i, Str(q), false) == None
    decreases |line| - i
  {
    if i < |line| {
      NoEnd(q, line, Token(line, i, Str(q), false).0);
    }
  }

  // What begins at i, in code.
  lemma CodeBegins(line: string, i: nat)
    requires i < |line|
    ensures At(line, i, "//") ==> FirstSlash(line, i, Code, false) == Some(i)
    ensures !At(line, i, "//") && At(line, i, "/*") ==>
              FirstSlash(line, i, Code, false) == FirstSlash(line, i + 2, Comment, false)
    ensures !At(line, i, "//") && !At(line, i, "/*") && Quote(line[i]) ==>
              FirstSlash(line, i, Code, false) == FirstSlash(line, i + 1, Str(line[i]), false)
  {
  }

  /** The scanner finds the first line comment outside strings and comments. */
  lemma {:induction false} SlashPosIsFirst(line: string, start: nat)
    requires start <= |line|
    ensures SlashPos(line, Some(start)) == FirstSlash(line, start, Code, false)
    decreases |line| - start
  {
    hide At, FirstSlash, Find, FindQuote, Past;
    var pos := Find(line, "//", start);
    var comment := Find(line, "/*", start);
    var quote := FindQuote(line, start);
    if pos.None? {
      NoSlash(line, start, Code);
    } else if Less(Min(comment, quote), pos) {
      PastSkips(line, start, pos.value, comment, quote);
      var next := Past(line, comment, quote);
      if next.Some? {
        SlashPosIsFirst(line, next.value);
      }
    } else {
      SkipCode(line, start, pos.value);
      CodeBegins(line, pos.value);
    }
  }

  // Nothing is missed by going on past the comment or string.
  lemma PastSkips(line: string, start: nat, pos: nat, comment: Option<nat>, quote: Option<nat>)
    requires start <= |line| && Less(Min(comment, quote), Some(pos))
    requires pos < |line| && forall k :: start <= k < pos ==> !At(line, k, "//")
    requires comment == Find(line, "/*", start) && quote == FindQuote(line, start)
    ensures FirstSlash(line, start, Code, false) == From(line, Past(line, comment, quote))
  {
    hide At, FirstSlash, EndOfString, EndOfComment, Find, FindQuote;
    var k := Min(comment, quote).value;
    SkipCode(line, start, k);
    CodeBegins(line, k);
    if Less(comment, quote) {
      CommentEnds(line, k + 2);
    } else {
      StringEnds(line[k], line, k + 1);
    }
  }

  lemma {:induction false} NoSlash(line: string, i: nat, mode: Mode)
    requires i <= |line| && forall k :: i <= k ==> !At(line, k, "//")
    ensures FirstSlash(line, i, mode, false) == None
    decreases |line| - i
  {
    if i < |line| {
      var (j, after) := Token(line, i, mode, false);
      NoSlash(line, j, after);
    }
  }

  /* Rewriting the line comment. */

  // The line with the line comment at pos made a comment that ends on the line.
  function Rewritten(line: string, pos: nat): (r: string)
    requires At(line, pos, "//")
    ensures |r| == |line| + 4
  {
    seq(|line|, k requires 0 <= k < |line| => Changed(line, pos, k)) + " */ "
  }

  function Changed(line: string, pos: nat, k: nat): char
    requires k < |line|
  {
    if k == pos + 1 then '*' else if k > pos + 2 && At(line, k - 1, "*/") then '!' else line[k]
  }

  /** The branch of endCommentOrString for a line comment. */
  method EndComment(line: string) returns (r: Option<string>)
    ensures r == match FirstSlash(line, 0, Code, false) case None => None case Some(pos) => Some(Rewritten(line, pos))
  {
    hide At, FirstSlash, SlashPos, Find, Changed;
    SlashPosIsFirst(line, 0);
    var first := SlashPos(line, Some(0));
    if first.None? {
      return None;
    }
    var pos := first.value;
    var sub := line[pos + 1 := '*'];
    ChangedFirst(line, pos);
    var from := pos + 2;
    var close := Find(line, "*/", from);
    while close.Some?
      invariant pos + 2 <= from <= |line| == |sub|
      invariant close == Find(line, "*/", from)
      invariant from == pos + 2 || line[from - 1] == '/'
      invariant forall k :: 0 <= k < from ==> sub[k] == Changed(line, pos, k)
      invariant forall k :: from <= k < |line| ==> sub[k] == line[k]
      decreases |line| - from
    {
      ChangedTo(line, pos, from, close);
      sub := sub[close.value + 1 := '!'];
      from := close.value + 2;
      close := Find(line, "*/", from);
    }
    ChangedTo(line, pos, from, close);
    assert sub == Rewritten(line, pos)[..|line|];
    return Some(sub + " */ ");
  }

  lemma ChangedFirst(line: string, pos: nat)
    requires At(line, pos, "//")
    ensures forall k :: 0 <= k < pos + 2 ==> Changed(line, pos, k) == line[pos + 1 := '*'][k]
  {
  }

  // Up to the next close, only its slash changes.
  lemma ChangedTo(line: string, pos: nat, from: nat, close: Option<nat>)
    requires pos + 2 <= from <= |line| && (from == pos + 2 || line[from - 1] == '/')
    requires close == Find(line, "*/", from)
    ensures forall k :: from <= k < |line| && (close.None? || k < close.value + 2) ==>
              Changed(line, pos, k) == if close.Some? && k == close.value + 1 then '!' else line[k]
  {
    hide Find;
    forall k | from <= k < |line| && (close.None? || k < close.value + 2)
      ensures Changed(line, pos, k) == if close.Some? && k == close.value + 1 then '!' else line[k]
    {
      if k > from && (close.None? || k - 1 < close.value) {
        assert !At(line, k - 1, "*/");
      }
    }
  }

  // The pieces before the first line comment.
  function PiecesTo(line: string, i: nat, mode: Mode, pairs: bool): seq<Piece>
    requires i <= |line|
    decreases |line| - i
  {
    if i == |line| || (mode == Code && At(line, i, "//")) then []
    else
      var (j, after) := Token(line, i, mode, pairs);
      PieceOf(line, i, mode, j) + PiecesTo(line, j, after, pairs)
  }

  predicate AgreeTo(line: string, r: string, pos: nat) {
    pos < |line| && pos < |r| && forall k :: 0 <= k <= pos ==> line[k] == r[k]
  }

  // A token before the first line comment is the same when only what follows changes.
  lemma SameToken(line: string, r: string, i: nat, mode: Mode, pos: nat, pairs: bool)
    requires i < pos && AgreeTo(line, r, pos) && !(mode == Code && At(line, i, "//"))
    ensures Token(line, i, mode, pairs) == Token(r, i, mode, pairs)
    ensures var j := Token(line, i, mode, pairs).0; j <= pos + 1 && PieceOf(line, i, mode, j) == PieceOf(r, i, mode, j)
    ensures !(mode == Code && At(r, i, "//"))
  {
    var j := Token(line, i, mode, pairs).0;
    assert line[i..j] == r[i..j];
  }

  lemma Unfold(line: string, i: nat, mode: Mode, pairs: bool)
    requires i < |line|
    ensures var (j, after) := Token(line, i, mode, pairs);
            && Pieces(line, i, mode, pairs) == PieceOf(line, i, mode, j) + Pieces(line, j, after, pairs)
            && EndMode(line, i, mode, pairs) == EndMode(line, j, after, pairs)
  {
    hide Token, PieceOf;
  }

  /** A line that agrees up to the first slash of the first line comment lexes the
      same up to there. */
  lemma {:induction false} PrefixPieces(line: string, r: string, i: nat, mode: Mode, pos: nat, pairs: bool)
    requires i <= |line| && FirstSlash(line, i, mode, pairs) == Some(pos) && AgreeTo(line, r, pos)
    ensures i <= pos
    ensures Pieces(r, i, mode, pairs) == PiecesTo(line, i, mode, pairs) + Pieces(r, pos, Code, pairs)
    ensures EndMode(r, i, mode, pairs) == EndMode(r, pos, Code, pairs)
    decreases |line| - i
  {
    hide Token, PieceOf, Pieces, EndMode, At;
    if !(mode == Code && At(line, i, "//")) {
      var (j, after) := Token(line, i, mode, pairs);
      SameToken(line, r, i, mode, pos, pairs);
      PrefixPieces(line, r, j, after, pos, pairs);
      Unfold(r, i, mode, pairs);
    }
  }

  /** The rewritten comment ends exactly at the end of the line. */
  lemma {:induction false} BodyCloses(line: string, pos: nat, k: nat, pairs: bool)
    requires At(line, pos, "//") && pos + 2 <= k <= |line| + 1
    ensures var r := Rewritten(line, pos);
            Pieces(r, k, Comment, pairs) == [Text(" ")] && EndMode(r, k, Comment, pairs) == Code
    decreases |line| + 1 - k
  {
    hide Pieces, EndMode;
    var r := Rewritten(line, pos);
    Unfold(r, k, Comment, pairs);
    if k == |line| + 1 {
      LastSpace(r, k + 2, pairs);
    } else {
      assert !At(r, k, "*/");
      BodyCloses(line, pos, Token(r, k, Comment, pairs).0, pairs);
    }
  }

  lemma LastSpace(r: string, k: nat, pairs: bool)
    requires |r| == k + 1 && r[k] == ' '
    ensures Pieces(r, k, Code, pairs) == [Text(" ")] && EndMode(r, k, Code, pairs) == Code
  {
    assert Token(r, k, Code, pairs) == (k + 1, Code);
    assert r[k..k + 1] == " ";
  }

  /** The rewritten line always ends in code.  It means the same as the line did,
      followed by a space, exactly when no line feed follows the line comment. */
  lemma RewrittenMeans(line: string, pos: nat, pairs: bool)
    requires FirstSlash(line, 0, Code, pairs) == Some(pos)
    ensures At(line, pos, "//")
    ensures var r := Rewritten(line, pos);
            && EndMode(r, 0, Code, pairs) == Code
            && (Pieces(r, 0, Code, pairs) == Pieces(line, 0, Code, pairs) + [Text(" ")] <==> '\n' !in line[pos..])
  {
    var r := Rewritten(line, pos);
    var before := PiecesTo(line, 0, Code, pairs);
    hide Pieces, EndMode, PiecesTo, Token, FirstSlash;
    PrefixPieces(line, r, 0, Code, pos, pairs);
    PrefixPieces(line, line, 0, Code, pos, pairs);
    BodyCloses(line, pos, pos + 2, pairs);
    CommentBegins(line, r, pos, pairs);
    var end := LineEnd(line, pos + 2);
    RestEmpty(line, end, pairs);
    OnlySpace(before, Pieces(line, end, Code, pairs));
    assert end == |line| <==> '\n' !in line[pos..] by {
      if end != |line| {
        assert line[pos..][end - pos] == '\n';
      }
    }
  }

  /** The line keeps its text: only the second slash changes, to a star, and the
      slash of every end of a comment after it. */
  lemma RewrittenKeeps(line: string, pos: nat)
    requires At(line, pos, "//")
    ensures var r := Rewritten(line, pos);
            && r[..pos + 1] == line[..pos + 1] && r[pos + 1] == '*' && r[|line|..] == " */ "
            && forall k :: pos + 2 <= k < |line| ==>
                 r[k] == if k > pos + 2 && line[k - 1] == '*' && line[k] == '/' then '!' else line[k]
  {
  }

  lemma OnlySpace(before: seq<Piece>, rest: seq<Piece>)
    ensures before + ([Gap] + [Text(" ")]) == before + ([Gap] + rest) + [Text(" ")] <==> rest == []
  {
    if rest != [] {
      assert |before + ([Gap] + [Text(" ")])| != |before + ([Gap] + rest) + [Text(" ")]|;
    }
  }

  lemma CommentBegins(line: string, r: string, pos: nat, pairs: bool)
    requires At(line, pos, "//") && At(r, pos, "/*")
    ensures Pieces(line, pos, Code, pairs) == [Gap] + Pieces(line, LineEnd(line, pos + 2), Code, pairs)
    ensures Pieces(r, pos, Code, pairs) == [Gap] + Pieces(r, pos + 2, Comment, pairs)
    ensures EndMode(r, pos, Code, pairs) == EndMode(r, pos + 2, Comment, pairs)
  {
    hide Pieces, EndMode;
    Unfold(line, pos, Code, pairs);
    Unfold(r, pos, Code, pairs);
  }

  lemma RestEmpty(line: string, end: nat, pairs: bool)
    requires end <= |line|
    ensures Pieces(line, end, Code, pairs) == [] <==> end == |line|
  {
    hide Pieces, Token;
    if end < |line| {
      Unfold(line, end, Code, pairs);
    } else {
      NoPieces(line, Code, pairs);
    }
  }

  lemma NoPieces(line: string, mode: Mode, pairs: bool)
    ensures Pieces(line, |line|, mode, pairs) == []
  {
  }

  /* The lexer of the compiler. */

  /** Whether a comment of the line contains a slash-star directly followed by a
      slash, which closes it for the scanner only. */
  predicate Overlaps(line: string, i: nat, mode: Mode)
    requires i <= |line|
    decreases |line| - i
  {
    i < |line| &&
    ((mode == Comment && At(line, i, "/*") && At(line, i + 1, "*/"))
     || var (j, after) := Token(line, i, mode, false); Overlaps(line, j, after))
  }

  /** For each character the mode its token begins in, and the mode at the end. */
  function Modes(line: string, i: nat, mode: Mode, pairs: bool): (r: seq<Mode>)
    requires i <= |line|
    ensures |r| == |line| - i + 1 && r[0] == mode
    decreases |line| - i
  {
    if i == |line| then [mode]
    else
      var (j, after) := Token(line, i, mode, pairs);
      seq(j - i, _ => mode) + Modes(line, j, after, pairs)
  }

  // After an opening slash-star inside a comment, with no slash following, both
  // lexers are past it and still in the comment.
  lemma PairPassed(line: string, i: nat)
    requires i < |line| && At(line, i, "/*") && !At(line, i + 1, "*/")
    ensures Modes(line, i, Comment, true) == [Comment, Comment] + Modes(line, i + 2, Comment, true)
    ensures Modes(line, i, Comment, false) == [Comment, Comment] + Modes(line, i + 2, Comment, false)
    ensures FirstSlash(line, i, Comment, true) == FirstSlash(line, i + 2, Comment, true)
    ensures FirstSlash(line, i, Comment, false) == FirstSlash(line, i + 2, Comment, false)
    ensures Overlaps(line, i, Comment) == Overlaps(line, i + 2, Comment)
  {
    assert Token(line, i, Comment, false) == (i + 1, Comment);
    assert Token(line, i + 1, Comment, false) == (i + 2, Comment);
    assert Token(line, i, Comment, true) == (i + 2, Comment);
    assert !At(line, i + 1, "/*");
  }

  // At an overlap the modes differ three characters on.
  lemma OverlapDiffers(line: string, i: nat)
    requires i < |line| && At(line, i, "/*") && At(line, i + 1, "*/")
    ensures Modes(line, i, Comment, true) != Modes(line, i, Comment, false)
  {
    hide Modes, At;
    var a, b := Modes(line, i, Comment, true), Modes(line, i, Comment, false);
    UnfoldModes(line, i, Comment, false);
    UnfoldModes(line, i + 1, Comment, false);
    assert b[3] == Code;
    UnfoldModes(line, i, Comment, true);
    UnfoldModes(line, i + 2, Comment, true);
    assert a[3] == Comment;
  }

  lemma UnfoldModes(line: string, i: nat, mode: Mode, pairs: bool)
    requires i < |line|
    ensures var (j, after) := Token(line, i, mode, pairs);
            Modes(line, i, mode, pairs) == seq(j - i, _ => mode) + Modes(line, j, after, pairs)
  {
    hide Token;
  }

  /** The simple lexer and that of the compiler read a line in the same modes
      exactly when no comment overlaps, and then agree on the line comment. */
  lemma {:induction false} LexersAgreeIff(line: string, i: nat, mode: Mode)
    requires i <= |line|
    ensures Modes(line, i, mode, true) == Modes(line, i, mode, false) <==> !Overlaps(line, i, mode)
    ensures !Overlaps(line, i, mode) ==> FirstSlash(line, i, mode, true) == FirstSlash(line, i, mode, false)
    decreases |line| - i
  {
    hide Token, At, FirstSlash, Modes;
    if i < |line| {
      if mode == Comment && At(line, i, "/*") {
        if At(line, i + 1, "*/") {
          OverlapDiffers(line, i);
        } else {
          PairPassed(line, i);
          LexersAgreeIff(line, i + 2, Comment);
          SameTail([Comment, Comment], Modes(line, i + 2, Comment, true), Modes(line, i + 2, Comment, false));
        }
      } else {
        var (j, after) := Token(line, i, mode, false);
        LexersAgreeIff(line, j, after);
        BothStep(line, i, mode);
        SameTail(seq(j - i, _ => mode), Modes(line, j, after, true), Modes(line, j, after, false));
      }
    } else {
      AtEnd(line, mode);
    }
  }

  lemma AtEnd(line: string, mode: Mode)
    ensures Modes(line, |line|, mode, true) == Modes(line, |line|, mode, false)
    ensures FirstSlash(line, |line|, mode, true) == FirstSlash(line, |line|, mode, false)
  {
  }

  // Everything else is the same token for both.
  lemma BothStep(line: string, i: nat, mode: Mode)
    requires i < |line| && !(mode == Comment && At(line, i, "/*"))
    ensures var (j, after) := Token(line, i, mode, false);
            && Modes(line, i, mode, true) == seq(j - i, _ => mode) + Modes(line, j, after, true)
            && Modes(line, i, mode, false) == seq(j - i, _ => mode) + Modes(line, j, after, false)
            && (FirstSlash(line, j, after, true) == FirstSlash(line, j, after, false) ==>
                  FirstSlash(line, i, mode, true) == FirstSlash(line, i, mode, false))
  {
    hide Token, At, Modes;
    BothToken(line, i, mode);
    UnfoldModes(line, i, mode, true);
    UnfoldModes(line, i, mode, false);
  }

  lemma BothToken(line: string, i: nat, mode: Mode)
    requires i < |line| && !(mode == Comment && At(line, i, "/*"))
    ensures Token(line, i, mode, true) == Token(line, i, mode, false)
  {
    hide At, LineEnd;
  }

  lemma SameTail(a: seq<Mode>, b: seq<Mode>, c: seq<Mode>)
    ensures a + b == a + c <==> b == c
  {
    if a + b == a + c {
      assert (a + b)[|a|..] == b && (a + c)[|a|..] == c;
    }
  }

  /** For every line without overlap the scanner finds the line comment that the
      compiler would, and the line recorded ends in code for the compiler, which
      sees in it what it saw in the line exactly when no line feed follows. */
  lemma RecordedForCompiler(line: string)
    requires !Overlaps(line, 0, Code)
    ensures SlashPos(line, Some(0)) == FirstSlash(line, 0, Code, true)
    ensures var pos := FirstSlash(line, 0, Code, true);
            pos.Some? ==>
              var r := Rewritten(line, pos.value);
              && EndMode(r, 0, Code, true) == Code
              && (Pieces(r, 0, Code, true) == Pieces(line, 0, Code, true) + [Text(" ")] <==> '\n' !in line[pos.value..])
  {
    hide Pieces, EndMode, Modes, Overlaps, SlashPos;
    SlashPosIsFirst(line, 0);
    LexersAgreeIff(line, 0, Code);
    var pos := FirstSlash(line, 0, Code, true);
    if pos.Some? {
      RewrittenMeans(line, pos.value, true);
    }
  }

  /** A line with an overlap that the compiler reads as one open comment, and the
      scanner as code with a line comment. */
  lemma OverlapMisleads()
    ensures SlashPos(MISLEADING, Some(0)) == Some(7)
    ensures FirstSlash(MISLEADING, 0, Code, true) == None
    ensures EndMode(MISLEADING, 0, Code, true) == Comment
  {
    hide Token, FirstSlash, EndMode, SlashPos, At;
    SlashPosIsFirst(MISLEADING, 0);
    ScannerTokens(MISLEADING);
    CompilerTokens(MISLEADING);
    OneToken(MISLEADING, 0, Code, false);
    OneToken(MISLEADING, 2, Comment, false);
    OneToken(MISLEADING, 3, Comment, false);
    OneToken(MISLEADING, 4, Comment, false);
    OneToken(MISLEADING, 6, Code, false);
    CodeBegins(MISLEADING, 7);
    OneToken(MISLEADING, 0, Code, true);
    OneToken(MISLEADING, 2, Comment, true);
    OneToken(MISLEADING, 3, Comment, true);
    OneToken(MISLEADING, 5, Comment, true);
    OneToken(MISLEADING, 6, Comment, true);
    OneToken(MISLEADING, 7, Comment, true);
    OneToken(MISLEADING, 8, Comment, true);
    LastToken(MISLEADING, Comment, true);
  }

  const MISLEADING := "/* /*/ //"

  lemma OneToken(line: string, i: nat, mode: Mode, pairs: bool)
    requires i < |line| && !(mode == Code && At(line, i, "//"))
    ensures var (j, after) := Token(line, i, mode, pairs);
            && FirstSlash(line, i, mode, pairs) == FirstSlash(line, j, after, pairs)
            && EndMode(line, i, mode, pairs) == EndMode(line, j, after, pairs)
  {
    hide Token, At;
  }

  lemma LastToken(line: string, mode: Mode, pairs: bool)
    ensures FirstSlash(line, |line|, mode, pairs) == None && EndMode(line, |line|, mode, pairs) == mode
  {
  }

  lemma ScannerTokens(line: string)
    requires line == MISLEADING
    ensures Token(line, 0, Code, false) == (2, Comment)
    ensures Token(line, 2, Comment, false) == (3, Comment)
    ensures Token(line, 3, Comment, false) == (4, Comment)
    ensures Token(line, 4, Comment, false) == (6, Code)
    ensures !At(line, 6, "//") && Token(line, 6, Code, false) == (7, Code) && At(line, 7, "//")
  {
    hide LineEnd;
  }

  lemma CompilerTokens(line: string)
    requires line == MISLEADING
    ensures !At(line, 0, "//") && Token(line, 0, Code, true) == (2, Comment)
    ensures Token(line, 2, Comment, true) == (3, Comment)
    ensures Token(line, 3, Comment, true) == (5, Comment)
    ensures Token(line, 5, Comment, true) == (6, Comment)
    ensures Token(line, 6, Comment, true) == (7, Comment)
    ensures Token(line, 7, Comment, true) == (8, Comment)
    ensures Token(line, 8, Comment, true) == (9, Comment)
  {
    hide LineEnd;
  }
}
