/** The scanner of the script: a reader that drops escaped newlines, lexemes cut from what it reads, and
    the source code between braces, against a plain walk over the characters. */
module ScriptScanner {
  import opened Wrappers
  import Clex

  predicate IsSpace(c: char) { c in " \t\n\r\U{0B}\U{0C}\U{1C}\U{1D}\U{1E}\U{1F}" }

  predicate IsWord(c: char) { Clex.IsAlpha(c) || Clex.IsDigit(c) || c == '_' }

  // ---------- escaped newlines

  /** A text without its escaped newlines; a backslash keeps company with the character after it. */
  function Unescaped(s: seq<char>): seq<char> {
    if s == [] then []
    else if s[0] != '\\' then [s[0]] + Unescaped(s[1..])
    else if |s| == 1 then s
    else if s[1] == '\n' then Unescaped(s[2..])
    else s[..2] + Unescaped(s[2..])
  }

  // ---------- lexemes

  /** How long something is, if the text goes on long enough; otherwise the script reads for ever. */
  datatype Extent = Ends(length: nat) | Endless

  function Longer(n: nat, e: Extent): Extent {
    if e.Ends? then Ends(n + e.length) else Endless
  }

  function Run(s: seq<char>, f: char -> bool): (n: nat)
    ensures n <= |s| && (forall i :: 0 <= i < n ==> f(s[i])) && (n < |s| ==> !f(s[n]))
  {
    if s == [] || !f(s[0]) then 0 else 1 + Run(s[1..], f)
  }

  /** The rest of a string, its closing quote included. */
  function QuotedEnd(s: seq<char>, quote: char): (e: Extent)
    ensures e.Ends? ==> e.length <= |s|
  {
    if s == [] then Endless
    else if s[0] == quote then Ends(1)
    else if s[0] == '\\' then if |s| == 1 then Endless else Longer(2, QuotedEnd(s[2..], quote))
    else Longer(1, QuotedEnd(s[1..], quote))
  }

  /** A block comment. The script takes the first two characters after the opening mark before it looks
      for the closing one; at the end of the text there is but one, and the mark may close itself. */
  function BlockEnd(s: seq<char>): (e: Extent)
    requires |s| >= 2
    ensures e.Ends? ==> 2 <= e.length <= |s|
  {
    if s[2..] == "/" then Ends(3)
    else
      var f := Clex.FirstClose(s[2..]);
      if f.At? then Ends(f.index + 4) else Endless
  }

  function LineEnd(s: seq<char>): (e: Extent)
    requires |s| >= 2
    ensures e.Ends? ==> 2 <= e.length <= |s|
  {
    var f := Clex.FirstNewline(s[2..]);
    if f.At? then Ends(f.index + 3) else Endless
  }

  /** The extent of the first lexeme; the end of the text is an empty one. */
  function LexemeAt(s: seq<char>): (e: Extent)
    ensures e.Ends? ==> e.length <= |s| && (s != [] ==> 0 < e.length)
  {
    if s == [] then Ends(0)
    else if IsSpace(s[0]) then Ends(Run(s, IsSpace))
    else if s[0] == '/' then
      if |s| > 1 && s[1] == '*' then BlockEnd(s)
      else if |s| > 1 && s[1] == '/' then LineEnd(s)
      else Ends(1)
    else if IsWord(s[0]) then Ends(Run(s, IsWord))
    else if Clex.IsQuote(s[0]) then Longer(1, QuotedEnd(s[1..], s[0]))
    else if s[0] == ':' && |s| > 1 && s[1] == ':' then Ends(2)
    else Ends(1)
  }

  /** All lexemes of a text; none if one of them has no end. */
  function Lexemes(s: seq<char>): Option<seq<string>>
    decreases |s|
  {
    if s == [] then Some([])
    else
      var e := LexemeAt(s);
      if e.Endless? then None
      else
        var others := Lexemes(s[e.length..]);
        if others.None? then None else Some([s[..e.length]] + others.value)
  }

  function Flatten(lexemes: seq<string>): string {
    if lexemes == [] then "" else lexemes[0] + Flatten(lexemes[1..])
  }

  /** Nothing is lost: the lexemes in a row are the text. */
  lemma {:induction false} Lossless(s: seq<char>)
    requires Lexemes(s).Some?
    ensures Flatten(Lexemes(s).value) == s
    decreases |s|
  {
    if s != [] {
      var n := LexemeAt(s).length;
      Lossless(s[n..]);
      assert s == s[..n] + s[n..];
    }
  }

  // ---------- the reference: a walk over the characters

  datatype Mode = Code | Quoted(quote: char) | Line | Block

  /** The first closing brace without an opening one, outside strings and comments, from a place in the
      text on. */
  function ClosingBrace(s: seq<char>, i: nat, depth: nat, mode: Mode): Option<nat>
    requires i <= |s|
    decreases |s| - i
  {
    if i == |s| then None
    else
      match mode
      case Code =>
        if s[i] == '{' then ClosingBrace(s, i + 1, depth + 1, Code)
        else if s[i] == '}' then if depth == 0 then Some(i) else ClosingBrace(s, i + 1, depth - 1, Code)
        else if Clex.IsQuote(s[i]) then ClosingBrace(s, i + 1, depth, Quoted(s[i]))
        else if s[i] == '/' && i + 1 < |s| && s[i + 1] == '*' then ClosingBrace(s, i + 2, depth, Block)
        else if s[i] == '/' && i + 1 < |s| && s[i + 1] == '/' then ClosingBrace(s, i + 2, depth, Line)
        else ClosingBrace(s, i + 1, depth, Code)
      case Quoted(quote) =>
        if s[i] == quote then ClosingBrace(s, i + 1, depth, Code)
        else if s[i] == '\\' && i + 1 < |s| then ClosingBrace(s, i + 2, depth, mode)
        else ClosingBrace(s, i + 1, depth, mode)
      case Line =>
        ClosingBrace(s, i + 1, depth, if s[i] == '\n' then Code else Line)
      case Block =>
        if s[i] == '*' && i + 1 < |s| && s[i + 1] == '/' then ClosingBrace(s, i + 2, depth, Code)
        else ClosingBrace(s, i + 1, depth, Block)
  }

  // ---------- the walk passes over lexemes

  /** Spaces and words have no brace, quote or slash in them. */
  lemma {:induction false} WalkOverPlain(s: seq<char>, i: nat, n: nat, depth: nat)
    requires i + n <= |s| && forall k :: i <= k < i + n ==> IsSpace(s[k]) || IsWord(s[k])
    ensures ClosingBrace(s, i, depth, Code) == ClosingBrace(s, i + n, depth, Code)
    decreases n
  {
    if n > 0 {
      WalkOverPlain(s, i + 1, n - 1, depth);
    }
  }

  lemma {:induction false} WalkOverQuoted(s: seq<char>, i: nat, depth: nat, quote: char)
    requires i <= |s|
    ensures var e := QuotedEnd(s[i..], quote);
            ClosingBrace(s, i, depth, Quoted(quote))
            == if e.Ends? then ClosingBrace(s, i + e.length, depth, Code) else None
    decreases |s| - i
  {
    if i < |s| && s[i] != quote {
      if s[i] == '\\' && i + 1 < |s| {
        assert s[i..][2..] == s[i + 2..];
        WalkOverQuoted(s, i + 2, depth, quote);
      } else {
        assert s[i..][1..] == s[i + 1..];
        WalkOverQuoted(s, i + 1, depth, quote);
      }
    }
  }

  lemma {:induction false} WalkOverLine(s: seq<char>, i: nat, depth: nat)
    requires i <= |s|
    ensures var f := Clex.FirstNewline(s[i..]);
            ClosingBrace(s, i, depth, Line) == if f.At? then ClosingBrace(s, i + f.index + 1, depth, Code) else None
    decreases |s| - i
  {
    if i < |s| && s[i] != '\n' {
      assert s[i..][1..] == s[i + 1..];
      WalkOverLine(s, i + 1, depth);
    }
  }

  lemma {:induction false} WalkOverBlock(s: seq<char>, i: nat, depth: nat)
    requires i <= |s|
    ensures var f := Clex.FirstClose(s[i..]);
            ClosingBrace(s, i, depth, Block) == if f.At? then ClosingBrace(s, i + f.index + 2, depth, Code) else None
    decreases |s| - i
  {
    if i < |s| && !Clex.ClosesAt(s[i..], 0) {
      assert s[i..][1..] == s[i + 1..];
      WalkOverBlock(s, i + 1, depth);
    }
  }

  ghost predicate WalksOver(s: seq<char>, i: nat, depth: nat)
    requires i < |s|
  {
    var e := LexemeAt(s[i..]);
    ClosingBrace(s, i, depth, Code) == if e.Ends? then ClosingBrace(s, i + e.length, depth, Code) else None
  }

  lemma WalkOverComment(s: seq<char>, i: nat, depth: nat)
    requires i + 1 < |s| && s[i] == '/' && (s[i + 1] == '*' || s[i + 1] == '/')
    ensures WalksOver(s, i, depth)
  {
    assert s[i..][2..] == s[i + 2..];
    if s[i + 1] == '*' {
      WalkOverBlock(s, i + 2, depth);
    } else {
      WalkOverLine(s, i + 2, depth);
    }
  }

  lemma WalkOverText(s: seq<char>, i: nat, depth: nat)
    requires i < |s| && Clex.IsQuote(s[i])
    ensures WalksOver(s, i, depth)
  {
    assert s[i..][1..] == s[i + 1..];
    WalkOverQuoted(s, i + 1, depth, s[i]);
  }

  lemma WalkOverRun(s: seq<char>, i: nat, depth: nat)
    requires i < |s| && (IsSpace(s[i]) || IsWord(s[i]))
    ensures WalksOver(s, i, depth)
  {
    hide ClosingBrace, Run;
    if IsSpace(s[i]) {
      RunIs(s, i, IsSpace);
      WalkOverPlain(s, i, Run(s[i..], IsSpace), depth);
    } else {
      RunIs(s, i, IsWord);
      WalkOverPlain(s, i, Run(s[i..], IsWord), depth);
    }
  }

  /** The walk passes over a whole lexeme that is no brace, and never ends in one without an end. */
  lemma WalkOverLexeme(s: seq<char>, i: nat, depth: nat)
    requires i < |s| && s[i] != '{' && s[i] != '}'
    ensures var e := LexemeAt(s[i..]);
            ClosingBrace(s, i, depth, Code) == if e.Ends? then ClosingBrace(s, i + e.length, depth, Code) else None
  {
    if IsSpace(s[i]) || IsWord(s[i]) {
      WalkOverRun(s, i, depth);
    } else if s[i] == '/' && i + 1 < |s| && (s[i + 1] == '*' || s[i + 1] == '/') {
      WalkOverComment(s, i, depth);
    } else if Clex.IsQuote(s[i]) {
      WalkOverText(s, i, depth);
    }
  }

  lemma RunIs(s: seq<char>, i: nat, f: char -> bool)
    requires i <= |s|
    ensures forall k :: i <= k < i + Run(s[i..], f) ==> f(s[k])
  {
    forall k | i <= k < i + Run(s[i..], f) ensures f(s[k]) {
      assert f(s[i..][k - i]);
    }
  }

  // ---------- the scanner

  class Scanner {
    const source: seq<char>
    var pos: nat
    /** The character after a backslash, still to be passed on. */
    var pending: Option<char>
    /** The character that the lexer looks at; none at the end of the text. */
    var tok: Option<char>

    ghost predicate Valid()
      reads this
    {
      pos <= |source| && (tok.None? ==> Rest() == [])
    }

    /** What the reader has still to pass on. */
    ghost function Rest(): seq<char>
      reads this`pos, this`pending
      requires pos <= |source|
    {
      var unread := Unescaped(source[pos..]);
      if pending.Some? then [pending.value] + unread else unread
    }

    /** What the lexer has still to cut. */
    ghost function Text(): seq<char>
      reads this
      requires Valid()
    {
      if tok.Some? then [tok.value] + Rest() else []
    }

    constructor (text: seq<char>)
      ensures Valid() && Text() == Unescaped(text)
    {
      source := text;
      pos, pending, tok := 0, None, None;
      new;
      tok := Read1();
      assert source[0..] == text;
    }

    /** `read1`: the next character, escaped newlines skipped. */
    method Read1() returns (c: Option<char>)
      requires pos <= |source|
      modifies this`pos, this`pending
      ensures pos <= |source|
      ensures if old(Rest()) == [] then c.None? && Rest() == []
              else c.Some? && [c.value] + Rest() == old(Rest())
    {
      hide Unescaped;
      if pending.Some? {
        c, pending := pending, None;
        return;
      }
      while true
        invariant pos <= |source| && pending.None? && Rest() == old(Rest())
        decreases |source| - pos
      {
        UnescapedStep(source, pos);
        if pos == |source| {
          return None;
        }
        var tok := source[pos];
        pos := pos + 1;
        if tok != '\\' {
          return Some(tok);
        }
        if pos == |source| {
          return Some(tok);
        }
        var next := source[pos];
        pos := pos + 1;
        if next == '\n' {
          continue;
        }
        pending := Some(next);
        return Some(tok);
      }
    }

    method Advance()
      requires Valid() && tok.Some?
      modifies this`pos, this`pending, this`tok
      ensures Valid() && Text() == old(Text())[1..]
    {
      tok := Read1();
    }

    /** A run of spaces or of word characters. */
    method TakeRun(f: char -> bool) returns (content: string)
      requires Valid()
      modifies this`pos, this`pending, this`tok
      ensures Valid()
      ensures var n := Run(old(Text()), f); content == old(Text())[..n] && Text() == old(Text())[n..]
    {
      hide *;
      content := "";
      ghost var s, i := Text(), 0;
      TokFacts();
      assert s[0..] == s;
      while tok.Some? && f(tok.value)
        invariant Valid() && i <= |s| && content == s[..i] && Text() == s[i..]
        invariant forall k :: 0 <= k < i ==> f(s[k])
        invariant if tok.Some? then i < |s| && tok.value == s[i] else i == |s|
        decreases |s| - i
      {
        content := content + [tok.value];
        Advance();
        TokFacts();
        i := i + 1;
      }
      RunEnds(s, f, i);
    }

    lemma TokFacts()
      requires Valid()
      ensures pos <= |source|
      ensures if tok.Some? then Text() == [tok.value] + Rest() && Text()[0] == tok.value && Text()[1..] == Rest()
              else Text() == [] == Rest()
    {
    }

    /** The character looked at is the next one that is read. */
    method Refill()
      requires pos <= |source|
      modifies this`pos, this`pending, this`tok
      ensures Valid() && Text() == old(Rest())
    {
      tok := Read1();
    }

    /** The rest of a string; none if the text ends first, where the script goes on reading for ever. */
    method TakeQuoted(quote: char) returns (r: Option<string>)
      requires pos <= |source| && quote != '\\'
      modifies this`pos, this`pending
      ensures pos <= |source|
      ensures match QuotedEnd(old(Rest()), quote)
              case Ends(n) => r == Some([quote] + old(Rest())[..n]) && Rest() == old(Rest())[n..]
              case Endless => r.None?
    {
      hide *;
      ghost var s, i := Rest(), 0;
      var content := [quote];
      QuotedStart(s, quote);
      while true
        invariant pos <= |source| && i <= |s| && Rest() == s[i..] && content == [quote] + s[..i]
        invariant QuotedEnd(s, quote) == Longer(i, QuotedEnd(s[i..], quote))
        decreases |s| - i
      {
        QuotedStep(s, i, quote);
        var nc := Read1();
        if nc.None? {
          return None;
        }
        Behind(s, i, nc.value, Rest());
        QuotedGrows(s, i, quote, content);
        content := content + [nc.value];
        i := i + 1;
        if nc.value == quote {
          return Some(content);
        }
        if nc.value == '\\' {
          nc := Read1();
          if nc.None? {
            return None;
          }
          Behind(s, i, nc.value, Rest());
          QuotedGrows(s, i, quote, content);
          content := content + [nc.value];
          i := i + 1;
        }
      }
    }

    /** The rest of a line comment. */
    method TakeLine() returns (r: Option<string>)
      requires pos <= |source|
      modifies this`pos, this`pending
      ensures pos <= |source|
      ensures match LineEnd("//" + old(Rest()))
              case Ends(n) => r == Some(("//" + old(Rest()))[..n]) && Rest() == ("//" + old(Rest()))[n..]
              case Endless => r.None?
    {
      hide *;
      ghost var s, i := "//" + Rest(), 2;
      var comment := "//";
      LineStart(s, Rest());
      while comment[|comment| - 1] != '\n'
        invariant pos <= |source| && 2 <= i <= |s| && Rest() == s[i..] && comment == s[..i]
        invariant i == 2 || '\n' !in s[2..i - 1]
        decreases |s| - i
      {
        NoNewlineYet(s, i);
        var c := Read1();
        if c.None? {
          return None;
        }
        Behind(s, i, c.value, Rest());
        comment := comment + [c.value];
        i := i + 1;
      }
      LineHere(s, i);
      return Some(comment);
    }

    /** The rest of a block comment. */
    method TakeBlock() returns (r: Option<string>)
      requires pos <= |source|
      modifies this`pos, this`pending
      ensures pos <= |source|
      ensures match BlockEnd("/*" + old(Rest()))
              case Ends(n) => r == Some(("/*" + old(Rest()))[..n]) && Rest() == ("/*" + old(Rest()))[n..]
              case Endless => r.None?
    {
      hide *;
      ghost var s, i := "/*" + Rest(), 2;
      var comment := "/*";
      BlockStart(s, Rest());
      var c := Read1();
      if c.Some? {
        Behind(s, i, c.value, Rest());
        comment := comment + [c.value];
        i := i + 1;
        c := Read1();
        if c.Some? {
          Behind(s, i, c.value, Rest());
          comment := comment + [c.value];
          i := i + 1;
        }
      }
      FirstTwo(s, i);
      while comment[|comment| - 2..] != "*/"
        invariant pos <= |source| && 2 <= i <= |s| && Rest() == s[i..] && comment == s[..i]
        invariant OpenUpTo(s, i)
        decreases |s| - i
      {
        c := Read1();
        if c.None? {
          StillOpen(s, i);
          return None;
        }
        Behind(s, i, c.value, Rest());
        NotClosed(s, i);
        comment := comment + [c.value];
        i := i + 1;
      }
      ClosedHere(s, i);
      return Some(comment);
    }

    /** `read2`: the next lexeme; an empty one at the end of the text, none if the script would go on
        reading for ever. */
    method NextLexeme() returns (r: Option<string>)
      requires Valid()
      modifies this`pos, this`pending, this`tok
      ensures match LexemeAt(old(Text()))
              case Ends(n) => r == Some(old(Text())[..n]) && Valid() && Text() == old(Text())[n..]
              case Endless => r.None?
    {
      hide *;
      ghost var s := Text();
      TokFacts();
      LexemeCases(s);
      if tok.None? {
        return Some("");
      }
      var nc := tok.value;
      if IsSpace(nc) {
        var content := TakeRun(IsSpace);
        return Some(content);
      }
      ghost var rest := Rest();
      if nc == '/' {
        var tok1 := Read1();
        Opened(s, nc, rest, tok1, Rest());
        if tok1 == Some('*') {
          r := TakeBlock();
          if r.Some? {
            Refill();
          }
          return;
        }
        if tok1 == Some('/') {
          r := TakeLine();
          if r.Some? {
            Refill();
          }
          return;
        }
        LookAt(tok1);
        return Some("/");
      }
      if IsWord(nc) {
        var content := TakeRun(IsWord);
        return Some(content);
      }
      if Clex.IsQuote(nc) {
        QuotedCase(s, nc, rest);
        r := TakeQuoted(nc);
        if r.Some? {
          Refill();
        }
        return;
      }
      if nc == ':' {
        var ntok := Read1();
        Opened(s, nc, rest, ntok, Rest());
        if ntok != Some(':') {
          LookAt(ntok);
          return Some(":");
        }
        Refill();
        return Some("::");
      }
      Advance();
      return Some([nc]);
    }

    /** Looks at a character that is read already. */
    method LookAt(c: Option<char>)
      requires pos <= |source| && (c.None? ==> Rest() == [])
      modifies this`tok
      ensures Valid() && Text() == if c.Some? then [c.value] + Rest() else []
    {
      tok := c;
    }

    /** `getSourceCode`: the text up to the first closing brace without an opening one, outside strings
        and comments; none if there is no such brace, as the script then goes on reading for ever. */
    method GetSourceCode() returns (r: Option<string>)
      requires Valid()
      modifies this`pos, this`pending, this`tok
      ensures match ClosingBrace(old(Text()), 0, 0, Code)
              case Some(n) => n < |old(Text())| && r == Some(old(Text())[..n]) && Valid() && Text() == old(Text())[n + 1..]
              case None => r.None?
    {
      hide *;
      ghost var s, i := Text(), 0;
      var depth := 0;
      var content := "";
      assert s[0..] == s && s[..0] == [];
      while true
        invariant Valid() && i <= |s| && Text() == s[i..] && content == s[..i] && 0 <= depth
        invariant ClosingBrace(s, 0, 0, Code) == ClosingBrace(s, i, depth, Code)
        decreases |s| - i
      {
        WalkStep(s, i, depth);
        var nl := NextLexeme();
        if nl.None? || nl.value == "" {
          return None;
        }
        LexemeBehind(s, i, nl.value);
        if nl.value == "{" {
          depth := depth + 1;
        } else if nl.value == "}" {
          depth := depth - 1;
        }
        if depth < 0 {
          return Some(content);
        }
        content := content + nl.value;
        i := i + |nl.value|;
      }
    }
  }

  /** The two characters that a lexeme begins with. */
  lemma Opened(s: seq<char>, nc: char, rest: seq<char>, c: Option<char>, behind: seq<char>)
    requires s == [nc] + rest && (if rest == [] then c.None? && behind == [] else c.Some? && [c.value] + behind == rest)
    ensures s[1..] == rest && s[..1] == [nc]
    ensures c.Some? ==> s == [nc, c.value] + behind && s[1] == c.value && s[..2] == [nc, c.value] && s[2..] == behind
  {
  }

  lemma QuotedCase(s: seq<char>, nc: char, rest: seq<char>)
    requires s == [nc] + rest && Clex.IsQuote(nc)
    ensures nc != '\\' && s[1..] == rest
    ensures match QuotedEnd(rest, nc)
            case Ends(n) => Longer(1, QuotedEnd(s[1..], nc)) == Ends(n + 1) && s[..n + 1] == [nc] + rest[..n] && s[n + 1..] == rest[n..]
            case Endless => Longer(1, QuotedEnd(s[1..], nc)) == Endless
  {
    hide QuotedEnd;
    assert s[1..] == rest;
  }

  lemma LexemeCases(s: seq<char>)
    ensures s == [] ==> LexemeAt(s) == Ends(0)
    ensures s != [] ==>
              if IsSpace(s[0]) then LexemeAt(s) == Ends(Run(s, IsSpace))
              else if s[0] == '/' then
                LexemeAt(s) == (if s[1..] != [] && s[1] == '*' then BlockEnd(s)
                                else if s[1..] != [] && s[1] == '/' then LineEnd(s) else Ends(1))
              else if IsWord(s[0]) then LexemeAt(s) == Ends(Run(s, IsWord))
              else if Clex.IsQuote(s[0]) then LexemeAt(s) == Longer(1, QuotedEnd(s[1..], s[0]))
              else if s[0] == ':' then LexemeAt(s) == Ends(if s[1..] != [] && s[1] == ':' then 2 else 1)
              else LexemeAt(s) == Ends(1)
  {
  }

  /** The walk and the lexemes, one lexeme on. */
  lemma WalkStep(s: seq<char>, i: nat, depth: nat)
    requires i <= |s|
    ensures i == |s| ==> LexemeAt(s[i..]) == Ends(0) && ClosingBrace(s, i, depth, Code) == None
    ensures i < |s| ==>
              var e := LexemeAt(s[i..]);
              if s[i] == '{' then e == Ends(1) && ClosingBrace(s, i, depth, Code) == ClosingBrace(s, i + 1, depth + 1, Code)
              else if s[i] == '}' then
                e == Ends(1)
                && ClosingBrace(s, i, depth, Code) == if depth == 0 then Some(i) else ClosingBrace(s, i + 1, depth - 1, Code)
              else ClosingBrace(s, i, depth, Code)
                   == if e.Ends? && i + e.length <= |s| then ClosingBrace(s, i + e.length, depth, Code) else None
  {
    if i < |s| && s[i] != '{' && s[i] != '}' {
      WalkOverLexeme(s, i, depth);
    }
  }

  /** One more lexeme cut. */
  lemma LexemeBehind(s: seq<char>, i: nat, nl: string)
    requires i <= |s| && nl <= s[i..] && nl != ""
    ensures i + |nl| <= |s| && s[i..][|nl|..] == s[i + |nl|..] && s[..i] + nl == s[..i + |nl|] && nl[0] == s[i]
    ensures |nl| == 1 ==> nl == [s[i]]
  {
    assert forall k :: 0 <= k < |nl| ==> nl[k] == s[i..][k] == s[i + k];
  }

  /** One more character read. */
  lemma Behind(s: seq<char>, i: nat, c: char, rest: seq<char>)
    requires i <= |s| && [c] + rest == s[i..]
    ensures i < |s| && c == s[i] && rest == s[i + 1..] && s[..i] + [c] == s[..i + 1]
  {
    assert rest == s[i..][1..];
  }

  lemma QuotedStart(s: seq<char>, quote: char)
    ensures s[0..] == s && s[..0] == [] && QuotedEnd(s, quote) == Longer(0, QuotedEnd(s, quote))
  {
  }

  lemma QuotedGrows(s: seq<char>, i: nat, quote: char, content: seq<char>)
    requires i < |s| && content == [quote] + s[..i]
    ensures content + [s[i]] == [quote] + s[..i + 1]
  {
  }

  lemma QuotedStep(s: seq<char>, i: nat, quote: char)
    requires i <= |s| && QuotedEnd(s, quote) == Longer(i, QuotedEnd(s[i..], quote))
    ensures i == |s| ==> QuotedEnd(s, quote) == Endless
    ensures i < |s| && s[i] == quote ==> QuotedEnd(s, quote) == Ends(i + 1)
    ensures i + 1 == |s| && s[i] == '\\' && quote != '\\' ==> QuotedEnd(s, quote) == Endless
    ensures i + 1 < |s| && s[i] == '\\' && quote != '\\' ==> QuotedEnd(s, quote) == Longer(i + 2, QuotedEnd(s[i + 2..], quote))
    ensures i < |s| && s[i] != quote && s[i] != '\\' ==> QuotedEnd(s, quote) == Longer(i + 1, QuotedEnd(s[i + 1..], quote))
  {
    if i < |s| {
      assert s[i..][1..] == s[i + 1..];
      if i + 1 < |s| {
        assert s[i..][2..] == s[i + 2..];
      }
    }
  }

  lemma LineStart(s: seq<char>, rest: seq<char>)
    requires s == "//" + rest
    ensures |s| >= 2 && s[..2] == "//" && s[2..] == rest
  {
  }

  lemma NoNewlineYet(s: seq<char>, i: nat)
    requires 2 <= i <= |s| && (i == 2 || '\n' !in s[2..i - 1]) && s[..i][i - 1] != '\n'
    ensures '\n' !in s[2..i]
    ensures i == |s| ==> LineEnd(s) == Endless
  {
    assert i > 2 ==> s[2..i] == s[2..i - 1] + [s[i - 1]];
  }

  lemma LineHere(s: seq<char>, i: nat)
    requires 2 < i <= |s| && '\n' !in s[2..i - 1] && s[i - 1] == '\n'
    ensures LineEnd(s) == Ends(i)
  {
    var t := s[2..];
    assert t[..i - 3] == s[2..i - 1];
    Clex.NewlineHere(t, i - 3);
  }

  /** No closing mark ends before the last character read. */
  ghost predicate OpenUpTo(s: seq<char>, i: nat) {
    && 2 <= i <= |s| && s[..2] == "/*" && (i < 4 ==> i == |s|)
    && forall k: nat :: k + 4 < i ==> !Clex.ClosesAt(s[2..], k)
  }

  lemma BlockStart(s: seq<char>, rest: seq<char>)
    requires s == "/*" + rest
    ensures |s| >= 2 && s[..2] == "/*" && s[2..] == rest
  {
  }

  lemma FirstTwo(s: seq<char>, i: nat)
    requires 2 <= i <= |s| && s[..2] == "/*" && i == (if |s| < 4 then |s| else 4)
    ensures OpenUpTo(s, i)
  {
  }

  lemma StillOpen(s: seq<char>, i: nat)
    requires OpenUpTo(s, i) && i == |s| && s[..i][i - 2..] != "*/"
    ensures BlockEnd(s) == Endless
  {
    var t := s[2..];
    if |s| >= 4 {
      assert s[..i][i - 2..] == [s[i - 2], s[i - 1]];
      assert !Clex.ClosesAt(t, i - 4);
    } else if |s| == 3 {
      assert s[..i][i - 2..] == [s[1], s[2]] && s[1] == s[..2][1];
      assert t == [s[2]];
    }
  }

  lemma NotClosed(s: seq<char>, i: nat)
    requires OpenUpTo(s, i) && i < |s| && s[..i][i - 2..] != "*/"
    ensures OpenUpTo(s, i + 1)
  {
    assert s[..i][i - 2..] == [s[i - 2], s[i - 1]];
    assert !Clex.ClosesAt(s[2..], i - 4);
  }

  lemma ClosedHere(s: seq<char>, i: nat)
    requires OpenUpTo(s, i) && s[..i][i - 2..] == "*/"
    ensures BlockEnd(s) == Ends(i)
  {
    var t := s[2..];
    assert s[..i][i - 2..] == [s[i - 2], s[i - 1]];
    if i < 4 {
      assert s[0] == s[..2][0];
      assert t == if i == 3 then [s[2]] else [];
    } else {
      assert Clex.ClosesAt(t, i - 4);
      assert t != "/";
    }
  }

  lemma RunEnds(s: seq<char>, f: char -> bool, n: nat)
    requires n <= |s| && (forall i :: 0 <= i < n ==> f(s[i])) && (n < |s| ==> !f(s[n]))
    ensures Run(s, f) == n
  {
  }

  lemma UnescapedStep(s: seq<char>, i: nat)
    requires i <= |s|
    ensures i == |s| ==> Unescaped(s[i..]) == []
    ensures i < |s| && s[i] != '\\' ==> Unescaped(s[i..]) == [s[i]] + Unescaped(s[i + 1..])
    ensures i + 1 == |s| && s[i] == '\\' ==> Unescaped(s[i..]) == [s[i]] && Unescaped(s[i + 1..]) == []
    ensures i + 1 < |s| && s[i] == '\\' && s[i + 1] == '\n' ==> Unescaped(s[i..]) == Unescaped(s[i + 2..])
    ensures i + 1 < |s| && s[i] == '\\' && s[i + 1] != '\n' ==>
              Unescaped(s[i..]) == [s[i]] + ([s[i + 1]] + Unescaped(s[i + 2..]))
  {
    if i < |s| {
      assert s[i..][1..] == s[i + 1..];
      if i + 1 < |s| {
        assert s[i..][2..] == s[i + 2..] && s[i..][..2] == [s[i]] + [s[i + 1]];
      } else {
        assert s[i..] == [s[i]];
      }
    }
  }
}
