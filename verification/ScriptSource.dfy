/** What lexemes and source code between braces are, with their characters written out: a grammar of source
    code, against the walk and the lexemes of the scanner. */
module ScriptSource {
  import opened Wrappers
  import opened ScriptScanner
  import Clex

  // ---------- lexemes

  /** The inside of a string: its quote and the backslash only behind a backslash. */
  predicate Inside(body: seq<char>, quote: char) {
    || body == []
    || (body[0] == '\\' && |body| > 1 && Inside(body[2..], quote))
    || (body[0] != '\\' && body[0] != quote && Inside(body[1..], quote))
  }

  lemma {:induction false} PlainIsInside(body: seq<char>, quote: char)
    requires quote !in body && '\\' !in body
    ensures Inside(body, quote)
  {
    if body != [] {
      PlainIsInside(body[1..], quote);
    }
  }

  lemma {:induction false} QuotedEndIs(body: seq<char>, quote: char, rest: seq<char>)
    requires quote != '\\' && Inside(body, quote)
    ensures QuotedEnd(body + [quote] + rest, quote) == Ends(|body| + 1)
  {
    var s := body + [quote] + rest;
    if body == [] {
      assert s[0] == quote;
    } else if body[0] == '\\' {
      assert s[2..] == body[2..] + [quote] + rest;
      QuotedEndIs(body[2..], quote, rest);
    } else {
      assert s[1..] == body[1..] + [quote] + rest;
      QuotedEndIs(body[1..], quote, rest);
    }
  }

  lemma LongerIs(n: nat, k: nat)
    ensures Longer(n, Ends(k)) == Ends(n + k)
  {
  }

  lemma QuoteOpens(s: seq<char>)
    requires s != [] && (s[0] == '"' || s[0] == '\'')
    ensures LexemeAt(s) == Longer(1, QuotedEnd(s[1..], s[0]))
  {
    hide QuotedEnd;
  }

  /** A text between double or single quotes is one lexeme, and the walk passes over it. */
  lemma StringLexeme(quote: char, body: seq<char>, rest: seq<char>)
    requires (quote == '"' || quote == '\'') && Inside(body, quote)
    ensures LexemeAt([quote] + body + [quote] + rest) == Ends(|body| + 2)
  {
    var s := [quote] + body + [quote] + rest;
    QuoteOpens(s);
    hide *;
    BehindFirst(quote, body, rest);
    QuotedEndIs(body, quote, rest);
    LongerIs(1, |body| + 1);
  }

  lemma BehindFirst(quote: char, body: seq<char>, rest: seq<char>)
    ensures ([quote] + body + [quote] + rest)[1..] == body + [quote] + rest
  {
  }

  lemma LineLexeme(body: seq<char>, rest: seq<char>)
    requires '\n' !in body
    ensures LexemeAt("//" + body + "\n" + rest) == Ends(|body| + 3)
  {
    hide Clex.FirstNewline;
    var s := "//" + body + "\n" + rest;
    assert s[2..] == body + "\n" + rest && s[0] == '/' && s[1] == '/';
    Clex.FirstNewlineIs(body, rest);
  }

  lemma BlockLexeme(body: seq<char>, rest: seq<char>)
    requires Clex.BlockBody(body)
    ensures LexemeAt("/*" + body + "*/" + rest) == Ends(|body| + 4)
  {
    hide Clex.FirstClose, Clex.BlockBody;
    var s := "/*" + body + "*/" + rest;
    assert s[2..] == body + "*/" + rest && s[0] == '/' && s[1] == '*';
    Clex.FirstCloseIs(body, rest);
  }

  /** Letters, digits and underscores. */
  ghost predicate Word(w: seq<char>) {
    forall i :: 0 <= i < |w| ==> 'a' <= w[i] <= 'z' || 'A' <= w[i] <= 'Z' || '0' <= w[i] <= '9' || w[i] == '_'
  }

  ghost predicate Spaces(w: seq<char>) {
    forall i :: 0 <= i < |w| ==> w[i] in " \t\n\r\U{0B}\U{0C}\U{1C}\U{1D}\U{1E}\U{1F}"
  }

  lemma {:induction false} RunIsAll(w: seq<char>, rest: seq<char>, f: char -> bool)
    requires (forall i :: 0 <= i < |w| ==> f(w[i])) && (rest == [] || !f(rest[0]))
    ensures Run(w + rest, f) == |w|
  {
    if w == [] {
      assert w + rest == rest;
    } else {
      assert (w + rest)[1..] == w[1..] + rest;
      RunIsAll(w[1..], rest, f);
    }
  }

  lemma WordLexeme(w: seq<char>, rest: seq<char>)
    requires w != [] && Word(w) && (rest == [] || !Word(rest[..1]))
    ensures LexemeAt(w + rest) == Ends(|w|)
  {
    RunIsAll(w, rest, IsWord);
    WordIsNotOther(w[0]);
  }

  lemma WordIsNotOther(c: char)
    requires IsWord(c)
    ensures !IsSpace(c) && c != '/'
  {
  }

  lemma SpaceLexeme(w: seq<char>, rest: seq<char>)
    requires w != [] && Spaces(w) && (rest == [] || !Spaces(rest[..1]))
    ensures LexemeAt(w + rest) == Ends(|w|)
  {
    RunIsAll(w, rest, IsSpace);
  }

  // ---------- source code

  /** Source code with balanced braces: characters, strings, comments, and source code in braces. */
  datatype Source =
    | Nothing
    | Character(c: char, rest: Source)
    | Quotation(quote: char, body: seq<char>, rest: Source)
    | LineComment(body: seq<char>, rest: Source)
    | BlockComment(body: seq<char>, rest: Source)
    | Braced(inner: Source, rest: Source)
  {
    function Text(): seq<char> {
      match this
      case Nothing => []
      case Character(c, rest) => [c] + rest.Text()
      case Quotation(quote, body, rest) => [quote] + body + [quote] + rest.Text()
      case LineComment(body, rest) => "//" + body + "\n" + rest.Text()
      case BlockComment(body, rest) => "/*" + body + "*/" + rest.Text()
      case Braced(inner, rest) => "{" + inner.Text() + "}" + rest.Text()
    }

    /** Characters open nothing, and strings and comments end where they are said to. */
    ghost predicate WellFormed() {
      match this
      case Nothing => true
      case Character(c, rest) =>
        && c != '{' && c != '}' && c != '"' && c != '\'' && rest.WellFormed()
        && (c == '/' && rest.Text() != [] ==> rest.Text()[0] != '/' && rest.Text()[0] != '*')
      case Quotation(quote, body, rest) => (quote == '"' || quote == '\'') && Inside(body, quote) && rest.WellFormed()
      case LineComment(body, rest) => '\n' !in body && rest.WellFormed()
      case BlockComment(body, rest) => Clex.BlockBody(body) && rest.WellFormed()
      case Braced(inner, rest) => inner.WellFormed() && rest.WellFormed()
    }
  }

  /** A text stands at a place. */
  ghost predicate StandsAt(text: seq<char>, s: seq<char>, i: nat) {
    i + |text| <= |s| && s[i..i + |text|] == text
  }

  lemma StandsBoth(a: seq<char>, b: seq<char>, s: seq<char>, i: nat)
    ensures StandsAt(a + b, s, i) <==> StandsAt(a, s, i) && StandsAt(b, s, i + |a|)
  {
    if StandsAt(a + b, s, i) {
      assert s[i..i + |a|] == (a + b)[..|a|] == a;
      assert s[i + |a|..i + |a| + |b|] == (a + b)[|a|..] == b;
    }
    if StandsAt(a, s, i) && StandsAt(b, s, i + |a|) {
      assert s[i..i + |a + b|] == s[i..i + |a|] + s[i + |a|..i + |a| + |b|];
    }
  }

  lemma StandsFirst(text: seq<char>, s: seq<char>, i: nat)
    requires StandsAt(text, s, i)
    ensures s[i..] == text + s[i + |text|..]
    ensures text != [] ==> s[i] == text[0]
  {
    assert s[i..] == s[i..i + |text|] + s[i + |text|..];
    if text != [] {
      assert s[i] == s[i..i + |text|][0];
    }
  }

  /** One lexeme that is no brace. */
  lemma WalkOverPiece(piece: seq<char>, s: seq<char>, i: nat, depth: nat)
    requires piece != [] && StandsAt(piece, s, i) && piece[0] != '{' && piece[0] != '}'
    requires LexemeAt(piece + s[i + |piece|..]) == Ends(|piece|)
    ensures ClosingBrace(s, i, depth, Code) == ClosingBrace(s, i + |piece|, depth, Code)
  {
    hide ClosingBrace, LexemeAt;
    StandsFirst(piece, s, i);
    WalkOverLexeme(s, i, depth);
  }

  lemma WalkOverCharacter(s: seq<char>, i: nat, depth: nat)
    requires i < |s| && s[i] != '{' && s[i] != '}' && s[i] != '"' && s[i] != '\''
    requires s[i] == '/' && i + 1 < |s| ==> s[i + 1] != '/' && s[i + 1] != '*'
    ensures ClosingBrace(s, i, depth, Code) == ClosingBrace(s, i + 1, depth, Code)
  {
  }

  lemma WalkOverBrace(s: seq<char>, i: nat, depth: nat)
    requires i < |s|
    ensures s[i] == '{' ==> ClosingBrace(s, i, depth, Code) == ClosingBrace(s, i + 1, depth + 1, Code)
    ensures s[i] == '}' ==> ClosingBrace(s, i, depth, Code) == if depth == 0 then Some(i) else ClosingBrace(s, i + 1, depth - 1, Code)
  {
  }

  /** The walk passes over source code that a closing brace follows, and the depth is as before. */
  lemma {:induction false} WalkOverSource(src: Source, s: seq<char>, i: nat, depth: nat)
    requires src.WellFormed() && StandsAt(src.Text(), s, i) && i + |src.Text()| < |s| && s[i + |src.Text()|] == '}'
    ensures ClosingBrace(s, i, depth, Code) == ClosingBrace(s, i + |src.Text()|, depth, Code)
    decreases src, 1
  {
    hide ClosingBrace, LexemeAt, StandsAt, Inside, Clex.BlockBody;
    match src
    case Nothing =>
    case Character(c, rest) =>
      StandsBoth([c], rest.Text(), s, i);
      StandsFirst([c], s, i);
      StandsFirst(rest.Text(), s, i + 1);
      AfterCharacter(src, s, i);
      WalkOverCharacter(s, i, depth);
      WalkOverSource(rest, s, i + 1, depth);
    case Quotation(quote, body, rest) =>
      var piece := [quote] + body + [quote];
      assert src.Text() == piece + rest.Text();
      StandsBoth(piece, rest.Text(), s, i);
      StringLexeme(quote, body, s[i + |piece|..]) by { PieceInside(piece, s, i); }
      WalkOverPiece(piece, s, i, depth);
      WalkOverSource(rest, s, i + |piece|, depth);
    case LineComment(body, rest) =>
      var piece := "//" + body + "\n";
      assert src.Text() == piece + rest.Text();
      StandsBoth(piece, rest.Text(), s, i);
      LineLexeme(body, s[i + |piece|..]) by { PieceInside(piece, s, i); }
      WalkOverPiece(piece, s, i, depth);
      WalkOverSource(rest, s, i + |piece|, depth);
    case BlockComment(body, rest) =>
      var piece := "/*" + body + "*/";
      assert src.Text() == piece + rest.Text();
      StandsBoth(piece, rest.Text(), s, i);
      BlockLexeme(body, s[i + |piece|..]) by { PieceInside(piece, s, i); }
      WalkOverPiece(piece, s, i, depth);
      WalkOverSource(rest, s, i + |piece|, depth);
    case Braced(inner, rest) =>
      WalkOverBraced(src, s, i, depth);
  }

  lemma PieceInside(piece: seq<char>, s: seq<char>, i: nat)
    requires StandsAt(piece, s, i)
    ensures i + |piece| <= |s|
  {
  }

  lemma AfterCharacter(src: Source, s: seq<char>, i: nat)
    requires src.Character? && src.WellFormed()
    requires i + 1 <= |s| && s[i] == src.c && StandsAt(src.rest.Text(), s, i + 1)
    requires i + |src.Text()| < |s| && s[i + |src.Text()|] == '}'
    ensures s[i] == '/' && i + 1 < |s| ==> s[i + 1] != '/' && s[i + 1] != '*'
  {
    StandsFirst(src.rest.Text(), s, i + 1);
  }

  lemma {:induction false} WalkOverBraced(src: Source, s: seq<char>, i: nat, depth: nat)
    requires src.Braced? && src.WellFormed()
    requires StandsAt(src.Text(), s, i) && i + |src.Text()| < |s| && s[i + |src.Text()|] == '}'
    ensures ClosingBrace(s, i, depth, Code) == ClosingBrace(s, i + |src.Text()|, depth, Code)
    decreases src, 0
  {
    var inner, rest, n := src.inner, src.rest, |src.inner.Text()|;
    BracedStands(src, s, i);
    hide ClosingBrace, StandsAt, Source.Text;
    WalkOverBrace(s, i, depth);
    WalkOverSource(inner, s, i + 1, depth + 1);
    WalkOverBrace(s, i + 1 + n, depth + 1);
    WalkOverSource(rest, s, i + n + 2, depth);
  }

  lemma BracedStands(src: Source, s: seq<char>, i: nat)
    requires src.Braced? && StandsAt(src.Text(), s, i)
    ensures var n := |src.inner.Text()|;
            && |src.Text()| == n + 2 + |src.rest.Text()| && i + |src.Text()| <= |s|
            && s[i] == '{' && StandsAt(src.inner.Text(), s, i + 1) && s[i + 1 + n] == '}'
            && StandsAt(src.rest.Text(), s, i + n + 2)
  {
    var inner, rest := src.inner.Text(), src.rest.Text();
    assert src.Text() == "{" + inner + "}" + rest;
    PieceInside(src.Text(), s, i);
    hide *;
    BracesStand(inner, rest, s, i);
  }

  lemma BracesStand(inner: seq<char>, rest: seq<char>, s: seq<char>, i: nat)
    requires StandsAt("{" + inner + "}" + rest, s, i) && i + |inner| + 2 + |rest| <= |s|
    ensures s[i] == '{' && StandsAt(inner, s, i + 1) && s[i + 1 + |inner|] == '}' && StandsAt(rest, s, i + |inner| + 2)
  {
    hide StandsAt;
    StandsBoth("{" + inner + "}", rest, s, i);
    StandsBoth("{" + inner, "}", s, i);
    StandsBoth("{", inner, s, i);
    StandsFirst("{", s, i);
    StandsFirst("}", s, i + 1 + |inner|);
  }

  /** The inside of a string that is read to its end. */
  lemma {:induction false} InsideFound(t: seq<char>, quote: char)
    requires quote != '\\' && QuotedEnd(t, quote).Ends?
    ensures var n := QuotedEnd(t, quote).length; 0 < n <= |t| && t[n - 1] == quote && Inside(t[..n - 1], quote)
  {
    if t[0] == quote {
    } else if t[0] == '\\' {
      InsideFound(t[2..], quote);
      var n := QuotedEnd(t, quote).length;
      assert t[..n - 1][2..] == t[2..][..n - 3];
    } else {
      InsideFound(t[1..], quote);
      var n := QuotedEnd(t, quote).length;
      assert t[..n - 1][1..] == t[1..][..n - 2];
    }
  }

  /** A string or comment at a place, up to its end. */
  ghost predicate PieceFound(src: Source, s: seq<char>, i: nat, n: nat) {
    && i + n <= |s| && 0 < n && !src.Nothing? && !src.Braced? && !src.Character?
    && src.rest == Nothing && src.WellFormed() && src.Text() == s[i..i + n]
  }

  lemma StringFound(s: seq<char>, i: nat) returns (src: Source)
    requires i < |s| && (s[i] == '"' || s[i] == '\'') && LexemeAt(s[i..]).Ends?
    ensures src.Quotation? && PieceFound(src, s, i, LexemeAt(s[i..]).length)
  {
    var t, quote := s[i + 1..], s[i];
    QuoteOpens(s[i..]);
    assert s[i..][1..] == t;
    hide QuotedEnd, LexemeAt;
    InsideFound(t, quote);
    var n := QuotedEnd(t, quote).length;
    src := QuotationFound(s, i, n);
  }

  lemma QuotationFound(s: seq<char>, i: nat, n: nat) returns (src: Source)
    requires i < |s| && (s[i] == '"' || s[i] == '\'')
    requires 0 < n <= |s| - i - 1 && s[i + 1..][n - 1] == s[i] && Inside(s[i + 1..][..n - 1], s[i])
    ensures src.Quotation? && PieceFound(src, s, i, n + 1)
  {
    hide Inside;
    var quote, body := s[i], s[i + 1..][..n - 1];
    src := Quotation(quote, body, Nothing);
    var text := [quote] + body + [quote];
    assert src.Text() == text + [] == text;
    assert s[i..i + n + 1] == text;
    assert src.WellFormed();
  }

  lemma CommentFound(s: seq<char>, i: nat) returns (src: Source)
    requires i + 1 < |s| && s[i] == '/' && (s[i + 1] == '/' || s[i + 1] == '*')
    requires LexemeAt(s[i..]).Ends? && i + LexemeAt(s[i..]).length < |s|
    ensures (src.LineComment? || src.BlockComment?) && PieceFound(src, s, i, LexemeAt(s[i..]).length)
  {
    var t := s[i + 2..];
    assert s[i..][2..] == t;
    hide Clex.FirstNewline, Clex.FirstClose;
    if s[i + 1] == '/' {
      src := LineFound(s, i, Clex.FirstNewline(t).index);
    } else {
      src := BlockFound(s, i, Clex.FirstClose(t).index);
    }
  }

  lemma LineFound(s: seq<char>, i: nat, n: nat) returns (src: Source)
    requires i + 2 + n < |s| && s[i] == '/' && s[i + 1] == '/' && s[i + 2..][n] == '\n' && '\n' !in s[i + 2..][..n]
    ensures src.LineComment? && PieceFound(src, s, i, n + 3)
  {
    var body := s[i + 2..][..n];
    src := LineComment(body, Nothing);
    var text := "//" + body + "\n";
    assert src.Text() == text + [] == text;
    assert s[i..i + n + 3] == text;
  }

  lemma BlockFound(s: seq<char>, i: nat, n: nat) returns (src: Source)
    requires i + 3 + n < |s| && s[i] == '/' && s[i + 1] == '*' && Clex.FirstClose(s[i + 2..]) == Clex.At(n)
    ensures src.BlockComment? && PieceFound(src, s, i, n + 4)
  {
    hide Clex.FirstClose;
    var t := s[i + 2..];
    var body := t[..n];
    assert body + "*/" == t[..n + 2];
    forall k: nat | k < n ensures !Clex.ClosesAt(body + "*/", k) {
      assert !Clex.ClosesAt(t, k);
    }
    assert Clex.BlockBody(body);
    src := BlockComment(body, Nothing);
    var text := "/*" + body + "*/";
    assert src.Text() == text + [] == text;
    assert s[i..i + n + 4] == text;
    assert src.WellFormed();
  }

  /** A piece with more source code behind it. */
  function Behind(piece: Source, rest: Source): Source
    requires piece.Quotation? || piece.LineComment? || piece.BlockComment?
  {
    match piece
    case Quotation(quote, body, _) => Quotation(quote, body, rest)
    case LineComment(body, _) => LineComment(body, rest)
    case BlockComment(body, _) => BlockComment(body, rest)
  }

  lemma BehindIs(piece: Source, rest: Source, s: seq<char>, i: nat, n: nat, j: nat)
    requires piece.Quotation? || piece.LineComment? || piece.BlockComment?
    requires PieceFound(piece, s, i, n) && rest.WellFormed() && i + n <= j <= |s| && rest.Text() == s[i + n..j]
    ensures Behind(piece, rest).WellFormed() && Behind(piece, rest).Text() == s[i..j]
  {
    assert s[i..j] == s[i..i + n] + s[i + n..j];
    assert Behind(piece, rest).Text() == piece.Text() + rest.Text();
  }

  lemma EndHasNoBrace(s: seq<char>, depth: nat)
    ensures ClosingBrace(s, |s|, depth, Code) == None
  {
  }

  /** Where the walk finds a closing brace, what it has passed over up to the next one of its depth is source
      code. */
  lemma {:induction false} SourceFound(s: seq<char>, i: nat, depth: nat) returns (src: Source, j: nat)
    requires i <= |s| && ClosingBrace(s, i, depth, Code).Some?
    ensures i <= j < |s| && s[j] == '}' && src.WellFormed() && src.Text() == s[i..j]
    ensures ClosingBrace(s, i, depth, Code) == ClosingBrace(s, j, depth, Code)
    decreases |s| - i
  {
    EndHasNoBrace(s, depth);
    hide ClosingBrace, LexemeAt, PieceFound, Behind;
    if s[i] == '}' {
      src, j := Nothing, i;
    } else if s[i] == '{' {
      src, j := BracedFound(s, i, depth);
    } else if s[i] == '"' || s[i] == '\'' || (s[i] == '/' && i + 1 < |s| && (s[i + 1] == '/' || s[i + 1] == '*')) {
      WalkOverLexeme(s, i, depth);
      LexemeIsSomething(s, i);
      var n := LexemeAt(s[i..]).length;
      var piece;
      if s[i] == '/' {
        piece := CommentFound(s, i);
      } else {
        piece := StringFound(s, i);
      }
      var rest;
      rest, j := SourceFound(s, i + n, depth);
      BehindIs(piece, rest, s, i, n, j);
      src := Behind(piece, rest);
    } else {
      WalkOverCharacter(s, i, depth);
      var rest;
      rest, j := SourceFound(s, i + 1, depth);
      src := Character(s[i], rest);
      CharacterIs(rest, s, i, j);
    }
  }

  lemma LexemeIsSomething(s: seq<char>, i: nat)
    requires i < |s| && LexemeAt(s[i..]).Ends?
    ensures 0 < LexemeAt(s[i..]).length <= |s| - i
  {
  }

  lemma CharacterIs(rest: Source, s: seq<char>, i: nat, j: nat)
    requires i + 1 <= j <= |s| && rest.WellFormed() && rest.Text() == s[i + 1..j]
    requires s[i] != '{' && s[i] != '}' && s[i] != '"' && s[i] != '\''
    requires s[i] == '/' && i + 1 < |s| ==> s[i + 1] != '/' && s[i + 1] != '*'
    ensures Character(s[i], rest).WellFormed() && Character(s[i], rest).Text() == s[i..j]
  {
    assert s[i..j] == [s[i]] + s[i + 1..j];
    if rest.Text() != [] {
      assert rest.Text()[0] == s[i + 1];
    }
  }

  lemma {:induction false} BracedFound(s: seq<char>, i: nat, depth: nat) returns (src: Source, j: nat)
    requires i < |s| && s[i] == '{' && ClosingBrace(s, i, depth, Code).Some?
    ensures i <= j < |s| && s[j] == '}' && src.WellFormed() && src.Text() == s[i..j]
    ensures ClosingBrace(s, i, depth, Code) == ClosingBrace(s, j, depth, Code)
    decreases |s| - i, 0
  {
    WalkOverBrace(s, i, depth);
    hide ClosingBrace, Clex.BlockBody, Inside;
    var inner, k := SourceFound(s, i + 1, depth + 1);
    WalkOverBrace(s, k, depth + 1);
    var rest;
    rest, j := SourceFound(s, k + 1, depth);
    src := Braced(inner, rest);
    assert s[i..j] == "{" + s[i + 1..k] + "}" + s[k + 1..j];
  }

  /** The walk stops at n exactly if what stands before is source code and a closing brace follows. */
  lemma SourceIsGrammar(s: seq<char>, n: nat)
    ensures ClosingBrace(s, 0, 0, Code) == Some(n) <==>
            n < |s| && s[n] == '}' && exists src: Source :: src.WellFormed() && src.Text() == s[..n]
  {
    hide ClosingBrace, StandsAt, Source.WellFormed, Source.Text;
    if ClosingBrace(s, 0, 0, Code) == Some(n) {
      var src, j := SourceFound(s, 0, 0);
      WalkOverBrace(s, j, 0);
      assert s[0..j] == s[..n];
    }
    if n < |s| && s[n] == '}' && exists src: Source :: src.WellFormed() && src.Text() == s[..n] {
      var src: Source :| src.WellFormed() && src.Text() == s[..n];
      StandsInFront(src.Text(), s, n);
      WalkOverSource(src, s, 0, 0);
      WalkOverBrace(s, n, 0);
    }
  }

  lemma StandsInFront(text: seq<char>, s: seq<char>, n: nat)
    requires n <= |s| && text == s[..n]
    ensures |text| == n && StandsAt(text, s, 0)
  {
    assert s[0..0 + n] == s[..n];
  }

  lemma SourceIsRead(src: Source, rest: seq<char>)
    requires src.WellFormed()
    ensures ClosingBrace(src.Text() + "}" + rest, 0, 0, Code) == Some(|src.Text()|)
  {
    hide ClosingBrace;
    var s := src.Text() + "}" + rest;
    assert s[..|src.Text()|] == src.Text();
    SourceIsGrammar(s, |src.Text()|);
  }

  /** So `getSourceCode` returns exactly the source code before the brace that closes it, and goes on for ever
      exactly if there is none. */
  method ReadSourceCode(scanner: Scanner) returns (r: Option<string>)
    requires scanner.Valid()
    modifies scanner`pos, scanner`pending, scanner`tok
    ensures match r
            case Some(code) =>
              var s := old(scanner.Text());
              && |code| < |s| && s[..|code|] == code && s[|code|] == '}' && (exists src: Source :: src.WellFormed() && src.Text() == code)
              && scanner.Valid() && scanner.Text() == s[|code| + 1..]
            case None =>
              forall src: Source, rest: seq<char> :: src.WellFormed() ==> old(scanner.Text()) != src.Text() + "}" + rest
  {
    ghost var s := scanner.Text();
    r := scanner.GetSourceCode();
    hide ClosingBrace;
    if r.Some? {
      SourceIsGrammar(s, |r.value|);
    } else {
      forall src: Source, rest: seq<char> | src.WellFormed() ensures s != src.Text() + "}" + rest {
        if s == src.Text() + "}" + rest {
          SourceIsRead(src, rest);
        }
      }
    }
  }
}
