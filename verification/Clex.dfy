/** The scanner of instruction set descriptions: one character of look-ahead, comments, numbers and
    quoted strings. */
module Clex {

  datatype Token =
    | ObjectOpening | ObjectClosing | ArrayOpening | ArrayClosing | GroupOpening | GroupClosing
    | StringQuotes | SingleQuote | Number | Name | Comma | Colon | Assign | Star | Dot | Less | More
    | SemiColon | QuestionMark | Arobase | Dollar | Slash | ControlChar | EoF

  datatype Error = UnexpectedEnd | UnexpectedEndOfLine | SyntaxError

  datatype Result<T> = Ok(value: T) | Err(error: Error)

  predicate IsSpace(c: char) { c in " \t\n\r\U{0B}\U{0C}" }

  predicate IsDigit(c: char) { '0' <= c <= '9' }

  predicate IsAlpha(c: char) { 'a' <= c <= 'z' || 'A' <= c <= 'Z' }

  /** `whatsnext`: the token a character starts. */
  function TokenOf(c: char): Result<Token> {
    if IsAlpha(c) || c == '_' then Ok(Name)
    else if IsDigit(c) then Ok(Number)
    else match c
      case '"' => Ok(StringQuotes)
      case '\'' => Ok(SingleQuote)
      case '{' => Ok(ObjectOpening)
      case '}' => Ok(ObjectClosing)
      case '[' => Ok(ArrayOpening)
      case ']' => Ok(ArrayClosing)
      case '(' => Ok(GroupOpening)
      case ')' => Ok(GroupClosing)
      case ',' => Ok(Comma)
      case ':' => Ok(Colon)
      case '=' => Ok(Assign)
      case '*' => Ok(Star)
      case '.' => Ok(Dot)
      case '<' => Ok(Less)
      case '>' => Ok(More)
      case ';' => Ok(SemiColon)
      case '?' => Ok(QuestionMark)
      case '@' => Ok(Arobase)
      case '$' => Ok(Dollar)
      case c => if c in "-+%/&^~|!`" then Ok(ControlChar) else Err(SyntaxError)
  }

  // ---------- comments

  /** Whether the closing mark of a block comment stands at i. */
  predicate ClosesAt(s: seq<char>, i: nat) {
    i + 1 < |s| && s[i] == '*' && s[i + 1] == '/'
  }

  datatype Found = Nowhere | At(index: nat)

  /** The first closing mark of a block comment. */
  function FirstClose(s: seq<char>): (f: Found)
    ensures f.At? ==> f.index + 2 <= |s| && ClosesAt(s, f.index) && forall i: nat :: i < f.index ==> !ClosesAt(s, i)
    ensures f.Nowhere? ==> forall i: nat :: !ClosesAt(s, i)
  {
    if |s| < 2 then Nowhere
    else if ClosesAt(s, 0) then At(0)
    else
      var f := FirstClose(s[1..]);
      assert forall i: nat :: 0 < i ==> ClosesAt(s, i) == ClosesAt(s[1..], i - 1);
      if f.At? then At(f.index + 1) else Nowhere
  }

  function FirstNewline(s: seq<char>): (f: Found)
    ensures f.At? ==> f.index < |s| && s[f.index] == '\n' && '\n' !in s[..f.index]
    ensures f.Nowhere? ==> '\n' !in s
  {
    if s == [] then Nowhere
    else if s[0] == '\n' then At(0)
    else
      var f := FirstNewline(s[1..]);
      assert s == [s[0]] + s[1..];
      if f.At? then assert s[..f.index + 1] == [s[0]] + s[1..][..f.index]; At(f.index + 1) else Nowhere
  }

  /** What the scanner finds after blanks and comments: a token, its first character and the rest. */
  datatype Scan = Lexeme(token: Token, first: char, rest: seq<char>) | End | Failed(error: Error)

  function NextToken(s: seq<char>): Scan
    decreases |s|
  {
    if s == [] then End
    else if IsSpace(s[0]) then NextToken(s[1..])
    else if s[0] == '#' then AfterLine(s[1..])
    else if s[0] == '/' then
      if |s| == 1 then Failed(UnexpectedEnd)
      else if s[1] == '*' then AfterBlock(s[2..])
      else if s[1] == '/' then AfterLine(s[2..])
      else Lexeme(Slash, '/', s[1..])
    else
      var t := TokenOf(s[0]);
      if t.Ok? then Lexeme(t.value, s[0], s[1..]) else Failed(t.error)
  }

  function AfterLine(s: seq<char>): Scan
    decreases |s|
  {
    var f := FirstNewline(s);
    if f.At? then NextToken(s[f.index + 1..]) else Failed(UnexpectedEnd)
  }

  function AfterBlock(s: seq<char>): Scan
    decreases |s|
  {
    var f := FirstClose(s);
    if f.At? then NextToken(s[f.index + 2..]) else Failed(UnexpectedEnd)
  }

  /** One blank: a space, a line comment with its newline, or a block comment, which ends at the first
      closing mark after its opening one. */
  ghost predicate Blank(p: seq<char>) {
    || (|p| == 1 && IsSpace(p[0]))
    || (exists body: seq<char> :: '\n' !in body && (p == "#" + body + "\n" || p == "//" + body + "\n"))
    || (exists body: seq<char> :: BlockBody(body) && p == "/*" + body + "*/")
  }

  /** A text that the closing mark after it is the first to close. */
  ghost predicate BlockBody(body: seq<char>) {
    forall i: nat :: i < |body| ==> !ClosesAt(body + "*/", i)
  }

  ghost predicate Blanks(p: seq<char>)
    decreases |p|
  {
    p == [] || exists k: nat :: 0 < k <= |p| && Blank(p[..k]) && Blanks(p[k..])
  }

  lemma FirstNewlineIs(body: seq<char>, s: seq<char>)
    requires '\n' !in body
    ensures FirstNewline(body + "\n" + s) == At(|body|)
  {
    hide FirstNewline;
    var t := body + "\n" + s;
    assert t[|body|] == '\n';
    assert forall i :: 0 <= i < |body| ==> t[i] == body[i];
    var f := FirstNewline(t);
    assert f.At?;
    forall i | 0 <= i < f.index ensures t[i] != '\n' {
      assert t[..f.index][i] == t[i];
    }
  }

  lemma FirstCloseIs(body: seq<char>, s: seq<char>)
    requires BlockBody(body)
    ensures FirstClose(body + "*/" + s) == At(|body|)
  {
    var t := body + "*/" + s;
    assert ClosesAt(t, |body|);
    forall i: nat | i < |body| ensures !ClosesAt(t, i) {
      assert !ClosesAt(body + "*/", i);
    }
  }

  lemma AfterLineIs(body: seq<char>, s: seq<char>)
    requires '\n' !in body
    ensures AfterLine(body + "\n" + s) == NextToken(s)
  {
    FirstNewlineIs(body, s);
    assert (body + "\n" + s)[|body| + 1..] == s;
  }

  lemma LineIsSkipped(body: seq<char>, s: seq<char>)
    requires '\n' !in body
    ensures NextToken("#" + body + "\n" + s) == NextToken("//" + body + "\n" + s) == NextToken(s)
  {
    hide TokenOf, AfterLine, FirstNewline, FirstClose;
    AfterLineIs(body, s);
    assert ("#" + body + "\n" + s)[1..] == body + "\n" + s;
    assert ("//" + body + "\n" + s)[2..] == body + "\n" + s;
  }

  lemma BlockIsSkipped(body: seq<char>, s: seq<char>)
    requires BlockBody(body)
    ensures NextToken("/*" + body + "*/" + s) == NextToken(s)
  {
    hide TokenOf, AfterLine, FirstNewline, FirstClose, BlockBody;
    FirstCloseIs(body, s);
    assert ("/*" + body + "*/" + s)[2..] == body + "*/" + s;
    assert (body + "*/" + s)[|body| + 2..] == s;
  }

  lemma BlankIsSkipped(p: seq<char>, s: seq<char>)
    requires Blank(p)
    ensures NextToken(p + s) == NextToken(s)
  {
    hide NextToken, AfterLine, BlockBody;
    if |p| == 1 && IsSpace(p[0]) {
      SpaceIsSkipped(p[0], s);
      assert p == [p[0]];
    } else if body: seq<char> :| '\n' !in body && (p == "#" + body + "\n" || p == "//" + body + "\n") {
      LineIsSkipped(body, s);
    } else {
      var body: seq<char> :| BlockBody(body) && p == "/*" + body + "*/";
      BlockIsSkipped(body, s);
    }
  }

  lemma SpaceIsSkipped(c: char, s: seq<char>)
    requires IsSpace(c)
    ensures NextToken([c] + s) == NextToken(s)
  {
    assert ([c] + s)[1..] == s;
  }

  /** Blanks and comments before a token change nothing. */
  lemma {:induction false} BlanksAreSkipped(p: seq<char>, s: seq<char>)
    requires Blanks(p)
    ensures NextToken(p + s) == NextToken(s)
    decreases |p|
  {
    hide NextToken, Blank;
    if p == [] {
      assert p + s == s;
    } else {
      var k: nat :| 0 < k <= |p| && Blank(p[..k]) && Blanks(p[k..]);
      BlankIsSkipped(p[..k], p[k..] + s);
      assert p[..k] + (p[k..] + s) == p + s;
      BlanksAreSkipped(p[k..], s);
    }
  }

  lemma OneMoreBlank(q: seq<char>, p: seq<char>)
    requires Blank(q) && Blanks(p) && q != []
    ensures Blanks(q + p)
  {
    assert (q + p)[..|q|] == q && (q + p)[|q|..] == p;
  }

  predicate StartsBlank(s: seq<char>) {
    s != [] && (IsSpace(s[0]) || s[0] == '#' || (s[0] == '/' && |s| > 1 && s[1] in "*/"))
  }

  /** A piece of the text that is skipped: the comment or space the text starts with. */
  lemma FirstBlank(s: seq<char>) returns (q: seq<char>)
    requires NextToken(s).Lexeme? && StartsBlank(s)
    ensures Blank(q) && q != [] && q <= s
  {
    if IsSpace(s[0]) {
      q := s[..1];
    } else {
      var open := if s[0] == '#' then 1 else 2;
      var t := s[open..];
      if s[0] == '/' && s[1] == '*' {
        var n := FirstClose(t).index;
        q := s[..n + 4];
        var body := t[..n];
        assert body + "*/" == t[..n + 2];
        assert BlockBody(body) by {
          forall i: nat | i < |body| ensures !ClosesAt(body + "*/", i) {
            assert !ClosesAt(t, i);
          }
        }
        assert q == "/*" + body + "*/";
      } else {
        var n := FirstNewline(t).index;
        q := s[..open + n + 1];
        assert q == s[..open] + t[..n] + "\n";
        assert s[..open] == if s[0] == '#' then "#" else "//";
      }
    }
  }

  lemma NoBlankFirst(s: seq<char>)
    requires NextToken(s).Lexeme? && !StartsBlank(s)
    ensures s == [NextToken(s).first] + NextToken(s).rest && !IsSpace(s[0]) && s[0] != '#'
    ensures if s[0] == '/' then NextToken(s).token == Slash else TokenOf(s[0]) == Ok(NextToken(s).token)
  {
    hide TokenOf;
  }

  /** The scanner skips nothing but blanks and comments: a token is found behind them and only there. */
  lemma {:induction false} OnlyBlanksAreSkipped(s: seq<char>) returns (p: seq<char>)
    requires NextToken(s).Lexeme?
    ensures Blanks(p) && s == p + [NextToken(s).first] + NextToken(s).rest
    ensures !IsSpace(NextToken(s).first) && NextToken(s).first != '#'
    ensures var t := NextToken(s); if t.first == '/' then t.token == Slash else TokenOf(t.first) == Ok(t.token)
    decreases |s|
  {
    hide NextToken, Blank, Blanks, TokenOf, IsSpace;
    if StartsBlank(s) {
      var q := FirstBlank(s);
      var t := s[|q|..];
      assert s == q + t;
      BlankIsSkipped(q, t);
      var r := OnlyBlanksAreSkipped(t);
      OneMoreBlank(q, r);
      p := q + r;
      assert p + [NextToken(s).first] + NextToken(s).rest == q + (r + [NextToken(t).first] + NextToken(t).rest);
    } else {
      NoBlankFirst(s);
      NoBlanks();
      p := [];
    }
  }

  lemma NoBlanks()
    ensures Blanks([])
  {
  }

  // ---------- spellings

  /** The characters that a token begins with, but for the slash, which may begin a comment. */
  ghost predicate Begins(t: Token, c: char) {
    match t
    case ObjectOpening => c == '{'
    case ObjectClosing => c == '}'
    case ArrayOpening => c == '['
    case ArrayClosing => c == ']'
    case GroupOpening => c == '('
    case GroupClosing => c == ')'
    case StringQuotes => c == '"'
    case SingleQuote => c == '\''
    case Number => '0' <= c <= '9'
    case Name => 'a' <= c <= 'z' || 'A' <= c <= 'Z' || c == '_'
    case Comma => c == ','
    case Colon => c == ':'
    case Assign => c == '='
    case Star => c == '*'
    case Dot => c == '.'
    case Less => c == '<'
    case More => c == '>'
    case SemiColon => c == ';'
    case QuestionMark => c == '?'
    case Arobase => c == '@'
    case Dollar => c == '$'
    case ControlChar => c in "-+%&^~|!`"
    case Slash => false
    case EoF => false
  }

  /** A character begins exactly the token it spells; where it spells none, it is an error. */
  lemma TokensAreSpelled(c: char, s: seq<char>)
    requires c !in " \t\n\r\U{0B}\U{0C}#/"
    ensures forall t :: NextToken([c] + s) == Lexeme(t, c, s) <==> Begins(t, c)
    ensures NextToken([c] + s) == Failed(SyntaxError) <==> forall t :: !Begins(t, c)
  {
    assert ([c] + s)[1..] == s;
    assert TokenOf(c).Ok? ==> Begins(TokenOf(c).value, c);
    assert TokenOf(c).Err? ==> TokenOf(c) == Err(SyntaxError);
  }

  lemma SpacesAreSkipped(c: char, s: seq<char>)
    requires c in " \t\n\r\U{0B}\U{0C}"
    ensures NextToken([c] + s) == NextToken(s)
  {
    assert ([c] + s)[1..] == s;
  }

  /** A slash that begins no comment is a token. */
  lemma SlashIsSpelled(s: seq<char>)
    requires s != [] && s[0] != '/' && s[0] != '*'
    ensures NextToken("/" + s) == Lexeme(Slash, '/', s)
  {
    assert ("/" + s)[1..] == s && ("/" + s)[1] == s[0];
  }

  // ---------- quoted strings

  datatype Text = Text(value: string, rest: seq<char>) | BadText(error: Error)

  function Prepend(v: string, t: Text): Text {
    if t.Text? then Text(v + t.value, t.rest) else t
  }

  /** The string up to the closing quote, escapes replaced. */
  function StringAt(s: seq<char>, quote: char): Text {
    if s == [] then BadText(UnexpectedEnd)
    else if s[0] == quote then Text("", s[1..])
    else if s[0] == '\n' then BadText(UnexpectedEndOfLine)
    else if s[0] == '\\' then
      if |s| == 1 then BadText(UnexpectedEnd)
      else match s[1]
        case '"' => Prepend("\"", StringAt(s[2..], quote))
        case '\\' => Prepend("\\", StringAt(s[2..], quote))
        case '\n' => StringAt(s[2..], quote)
        case 'n' => Prepend("\n", StringAt(s[2..], quote))
        case 't' => Prepend("\t", StringAt(s[2..], quote))
        case c => BadText(SyntaxError)
    else Prepend([s[0]], StringAt(s[1..], quote))
  }

  predicate IsQuote(c: char) { c == '"' || c == '\'' }

  /** A string written with escapes. */
  function Escape(v: string): seq<char> {
    if v == "" then "" else EscapeChar(v[0]) + Escape(v[1..])
  }

  function EscapeChar(c: char): seq<char> {
    match c
    case '"' => "\\\""
    case '\\' => "\\\\"
    case '\n' => "\\n"
    case '\t' => "\\t"
    case c => [c]
  }

  lemma EscapedCharIsRead(c: char, s: seq<char>, quote: char)
    requires IsQuote(quote) && !(quote == '\'' && c == '\'')
    ensures StringAt(EscapeChar(c) + s, quote) == Prepend([c], StringAt(s, quote))
  {
    hide Prepend;
    if |EscapeChar(c)| == 2 {
      assert (EscapeChar(c) + s)[2..] == s;
    } else {
      assert (EscapeChar(c) + s)[1..] == s;
    }
  }

  /** Reading undoes escaping, for every string between double quotes and every one without a single
      quote between single quotes. */
  lemma {:induction false} StringAtInvertsEscape(v: string, quote: char, rest: seq<char>)
    requires IsQuote(quote) && !(quote == '\'' && '\'' in v)
    ensures StringAt(Escape(v) + [quote] + rest, quote) == Text(v, rest)
  {
    hide *;
    EscapeUnfolds(v, rest, quote);
    if v != "" {
      var t := Escape(v[1..]) + [quote] + rest;
      EscapedCharIsRead(v[0], t, quote);
      StringAtInvertsEscape(v[1..], quote, rest);
    }
  }

  lemma EscapeUnfolds(v: string, rest: seq<char>, quote: char)
    ensures StringAt(Escape("") + [quote] + rest, quote) == Text("", rest)
    ensures v != "" ==> Escape(v) + [quote] + rest == EscapeChar(v[0]) + (Escape(v[1..]) + [quote] + rest)
    ensures v != "" ==> Prepend([v[0]], Text(v[1..], rest)) == Text(v, rest)
  {
    hide EscapeChar;
    assert ([quote] + rest)[1..] == rest && Escape("") + [quote] + rest == [quote] + rest;
    hide StringAt;
    if v != "" {
      EscapeJoined(EscapeChar(v[0]), Escape(v[1..]), [quote], rest);
      assert [v[0]] + v[1..] == v;
    }
  }

  lemma EscapeJoined(a: seq<char>, b: seq<char>, c: seq<char>, d: seq<char>)
    ensures (a + b) + c + d == a + (b + c + d)
  {
  }

  /** No text between single quotes reads as a string with a single quote in it. */
  lemma {:induction false} NoSingleQuoteWithin(s: seq<char>)
    ensures StringAt(s, '\'').Text? ==> '\'' !in StringAt(s, '\'').value
  {
    if s != [] && s[0] != '\'' {
      if s[0] == '\\' && |s| > 1 {
        NoSingleQuoteWithin(s[2..]);
      } else {
        NoSingleQuoteWithin(s[1..]);
      }
    }
  }

  /** The strings that can be written between two quotes: all of them between double quotes, and between
      single quotes those without a single quote, which has no escape. */
  lemma WritableStrings(v: string, quote: char)
    requires IsQuote(quote)
    ensures (exists s: seq<char> :: StringAt(s, quote) == Text(v, [])) <==> !(quote == '\'' && '\'' in v)
  {
    if quote == '\'' && '\'' in v {
      forall s: seq<char> ensures StringAt(s, quote) != Text(v, []) {
        NoSingleQuoteWithin(s);
      }
    } else {
      StringAtInvertsEscape(v, quote, []);
    }
  }

  // ---------- numbers

  /** The number of digits in front. */
  function DigitRun(s: seq<char>): (n: nat)
    ensures n <= |s| && (forall i :: 0 <= i < n ==> IsDigit(s[i])) && (n < |s| ==> !IsDigit(s[n]))
  {
    if s == [] || !IsDigit(s[0]) then 0 else 1 + DigitRun(s[1..])
  }

  predicate Digits(s: seq<char>) { s != [] && forall i :: 0 <= i < |s| ==> IsDigit(s[i]) }

  predicate Sign(s: seq<char>) { s == "" || s == "-" }

  predicate Whole(s: seq<char>) { s == "0" || (Digits(s) && s[0] != '0') }

  predicate Fraction(s: seq<char>) { s == "" || (s[0] == '.' && Digits(s[1..])) }

  predicate Exponent(s: seq<char>) {
    s == "" || (s[0] in "eE" && (Digits(s[1..]) || (|s| > 1 && s[1] in "+-" && Digits(s[2..]))))
  }

  /** The number words: a sign, a whole part without leading zeros, a fraction and an exponent. */
  ghost predicate IsNumber(w: seq<char>) {
    exists sign: seq<char>, whole: seq<char>, fraction: seq<char>, exponent: seq<char> ::
      IsNumberOf(w, sign, whole, fraction, exponent)
  }

  predicate IsNumberOf(w: seq<char>, sign: seq<char>, whole: seq<char>, fraction: seq<char>, exponent: seq<char>) {
    Sign(sign) && Whole(whole) && Fraction(fraction) && Exponent(exponent) && w == sign + whole + fraction + exponent
  }

  /** The end of the whole part, of the fraction and of the exponent of the number at the start of a text. */
  function WholeAt(s: seq<char>): (r: Result<nat>)
    ensures r.Ok? ==> 0 < r.value <= |s|
  {
    var a := if s != [] && s[0] == '-' then 1 else 0;
    if a == |s| then Err(UnexpectedEnd)
    else if s[a] == '0' then
      if a + 1 < |s| && IsDigit(s[a + 1]) then Err(SyntaxError) else Ok(a + 1)
    else if IsDigit(s[a]) then Ok(a + DigitRun(s[a..]))
    else Err(SyntaxError)
  }

  /** At least one digit from i on, and the end of them. */
  function DigitsAt(s: seq<char>, i: nat): (r: Result<nat>)
    requires i <= |s|
    ensures r.Ok? ==> i < r.value <= |s|
  {
    if i == |s| then Err(UnexpectedEnd)
    else if IsDigit(s[i]) then Ok(i + DigitRun(s[i..]))
    else Err(SyntaxError)
  }

  function FractionAt(s: seq<char>, b: nat): (r: Result<nat>)
    requires b <= |s|
    ensures r.Ok? ==> b <= r.value <= |s|
  {
    if b < |s| && s[b] == '.' then DigitsAt(s, b + 1) else Ok(b)
  }

  function ExponentAt(s: seq<char>, c: nat): (r: Result<nat>)
    requires c <= |s|
    ensures r.Ok? ==> c <= r.value <= |s|
  {
    if c < |s| && s[c] in "eE" then
      DigitsAt(s, if c + 1 < |s| && s[c + 1] in "+-" then c + 2 else c + 1)
    else Ok(c)
  }

  /** The length of the number at the start of a text. */
  function NumberAt(s: seq<char>): (r: Result<nat>)
    ensures r.Ok? ==> 0 < r.value <= |s|
  {
    var b := WholeAt(s);
    if b.Err? then b
    else
      var c := FractionAt(s, b.value);
      if c.Err? then c else ExponentAt(s, c.value)
  }

  lemma DigitsAtIs(s: seq<char>, i: nat)
    requires i <= |s| && DigitsAt(s, i).Ok?
    ensures Digits(s[i..DigitsAt(s, i).value])
  {
    var n := DigitRun(s[i..]);
    assert s[i..i + n] == s[i..][..n];
  }

  lemma WholeAtIs(s: seq<char>)
    requires WholeAt(s).Ok?
    ensures var a := if s[0] == '-' then 1 else 0; a < WholeAt(s).value && Whole(s[a..WholeAt(s).value])
  {
    var a, b := if s[0] == '-' then 1 else 0, WholeAt(s).value;
    if s[a] == '0' {
      assert s[a..b] == "0";
    } else {
      DigitsAtIs(s, a);
    }
  }

  lemma FractionAtIs(s: seq<char>, b: nat)
    requires b <= |s| && FractionAt(s, b).Ok?
    ensures Fraction(s[b..FractionAt(s, b).value])
  {
    var c := FractionAt(s, b).value;
    if b < c {
      DigitsAtIs(s, b + 1);
      assert s[b..c][1..] == s[b + 1..c];
    }
  }

  lemma ExponentAtIs(s: seq<char>, c: nat)
    requires c <= |s| && ExponentAt(s, c).Ok?
    ensures Exponent(s[c..ExponentAt(s, c).value])
  {
    var d := ExponentAt(s, c).value;
    if c < d {
      if c + 1 < |s| && s[c + 1] in "+-" {
        DigitsAtIs(s, c + 2);
        assert s[c..d][2..] == s[c + 2..d] && s[c..d][1] == s[c + 1];
      } else {
        DigitsAtIs(s, c + 1);
        assert s[c..d][1..] == s[c + 1..d];
      }
    }
  }

  lemma IsNumberOfParts(w: seq<char>, sign: seq<char>, whole: seq<char>, fraction: seq<char>, exponent: seq<char>)
    requires IsNumberOf(w, sign, whole, fraction, exponent)
    ensures IsNumber(w)
  {
  }

  /** Only words of the grammar are read as numbers. */
  lemma NumbersAreOfTheGrammar(s: seq<char>)
    requires NumberAt(s).Ok?
    ensures IsNumber(s[..NumberAt(s).value])
  {
    hide WholeAt, FractionAt, ExponentAt, Whole, Fraction, Exponent;
    var a := if s[0] == '-' then 1 else 0;
    var b := WholeAt(s).value;
    var c := FractionAt(s, b).value;
    var d := ExponentAt(s, c).value;
    WholeAtIs(s);
    FractionAtIs(s, b);
    ExponentAtIs(s, c);
    assert s[..d] == s[..a] + s[a..b] + s[b..c] + s[c..d];
    IsNumberOfParts(s[..d], s[..a], s[a..b], s[b..c], s[c..d]);
  }

  /** Whether a character after a number would be read as more of it. */
  predicate Continues(fraction: seq<char>, exponent: seq<char>, next: seq<char>) {
    next != [] && (IsDigit(next[0]) || (exponent == "" && (next[0] in "eE" || (fraction == "" && next[0] == '.'))))
  }

  lemma DigitsEnd(s: seq<char>, i: nat, j: nat)
    requires i < j <= |s| && Digits(s[i..j])
    ensures DigitsAt(s, i).Ok? && j <= DigitsAt(s, i).value
    ensures DigitsAt(s, i).value == j <==> !(j < |s| && IsDigit(s[j]))
  {
    assert s[i..j][0] == s[i];
    forall k | i <= k < j ensures IsDigit(s[k]) {
      assert s[i..j][k - i] == s[k];
    }
    var n := DigitRun(s[i..]);
    forall k | i <= k < i + n ensures IsDigit(s[k]) {
      assert s[i..][k - i] == s[k];
    }
    assert i + n < |s| ==> !IsDigit(s[i + n]);
  }

  lemma WholeEnds(s: seq<char>, a: nat, b: nat)
    requires a < b <= |s| && Sign(s[..a]) && Whole(s[a..b])
    ensures if b < |s| && IsDigit(s[b]) then WholeAt(s).Ok? ==> b < WholeAt(s).value else WholeAt(s) == Ok(b)
  {
    assert s[a] == s[a..b][0] && s[0] == (if a == 0 then s[a..b][0] else s[..a][0]);
    if s[a] != '0' {
      DigitsEnd(s, a, b);
    } else {
      assert s[a..b] == "0";
    }
  }

  lemma FractionEnds(s: seq<char>, b: nat, c: nat)
    requires b <= c <= |s| && Fraction(s[b..c])
    ensures if c < |s| && (if b < c then IsDigit(s[c]) else s[c] == '.')
            then FractionAt(s, b).Ok? ==> c < FractionAt(s, b).value else FractionAt(s, b) == Ok(c)
  {
    if b < c {
      assert s[b..c][0] == s[b] && s[b..c][1..] == s[b + 1..c];
      DigitsEnd(s, b + 1, c);
    }
  }

  lemma ExponentEnds(s: seq<char>, c: nat, d: nat)
    requires c <= d <= |s| && Exponent(s[c..d])
    ensures if d < |s| && (if c < d then IsDigit(s[d]) else s[d] in "eE")
            then ExponentAt(s, c).Ok? ==> d < ExponentAt(s, c).value else ExponentAt(s, c) == Ok(d)
  {
    if c < d {
      assert s[c..d][0] == s[c] && s[c..d][1..] == s[c + 1..d];
      if c + 1 < d {
        assert s[c..d][1] == s[c + 1];
      }
      if c + 2 <= d {
        assert s[c..d][2..] == s[c + 2..d];
      }
      if Digits(s[c + 1..d]) {
        assert s[c + 1] == s[c + 1..d][0];
        DigitsEnd(s, c + 1, d);
      } else {
        DigitsEnd(s, c + 2, d);
      }
    }
  }

  /** A word of the grammar is read whole exactly when no character after it continues it. */
  lemma NumbersAreReadWhole(sign: seq<char>, whole: seq<char>, fraction: seq<char>, exponent: seq<char>, next: seq<char>)
    requires Sign(sign) && Whole(whole) && Fraction(fraction) && Exponent(exponent)
    ensures var w := sign + whole + fraction + exponent;
            NumberAt(w + next) == Ok(|w|) <==> !Continues(fraction, exponent, next)
  {
    hide *;
    var w := sign + whole + fraction + exponent;
    var s := w + next;
    var a, b := |sign|, |sign| + |whole|;
    var c := b + |fraction|;
    var d := |w|;
    PartsBegin(whole, fraction, exponent);
    assert s[..a] == sign && s[a..b] == whole && s[b..c] == fraction && s[c..d] == exponent;
    assert d < |s| ==> s[d] == next[0];
    assert b < c ==> s[b] == fraction[0];
    assert c < d ==> s[c] == exponent[0];
    WholeEnds(s, a, b);
    FractionEnds(s, b, c);
    ExponentEnds(s, c, d);
    NumberStages(s, fraction, exponent, next);
  }

  lemma PartsBegin(whole: seq<char>, fraction: seq<char>, exponent: seq<char>)
    requires Whole(whole) && Fraction(fraction) && Exponent(exponent)
    ensures whole != [] && (fraction != [] ==> fraction[0] == '.') && (exponent != [] ==> exponent[0] in "eE")
  {
  }

  lemma NumberStages(s: seq<char>, fraction: seq<char>, exponent: seq<char>, next: seq<char>)
    ensures WholeAt(s).Err? ==> NumberAt(s).Err?
    ensures var b := WholeAt(s);
            b.Ok? ==> if FractionAt(s, b.value).Err? then NumberAt(s).Err?
                      else NumberAt(s) == ExponentAt(s, FractionAt(s, b.value).value)
    ensures NumberAt(s).Ok? ==> WholeAt(s).value <= FractionAt(s, WholeAt(s).value).value <= NumberAt(s).value
    ensures Continues(fraction, exponent, next)
            <==> next != [] && (IsDigit(next[0]) || (exponent == "" && (next[0] in "eE" || (fraction == "" && next[0] == '.'))))
    ensures !IsDigit('.') && !IsDigit('e') && !IsDigit('E')
  {
  }

  // ---------- the scanner

  class Scanner {
    const source: seq<char>
    var pos: nat
    var good: bool
    var lch: char
    var putback: bool
    var lnext: Token

    /** The character in hand is the last one read; one put back is still to come. */
    ghost predicate Valid()
      reads this`pos, this`good, this`lch, this`putback
    {
      && pos <= |source|
      && (0 < pos ==> lch == source[pos - 1])
      && (good && putback ==> 0 < pos)
      && (!good ==> pos == |source|)
    }

    /** What is still to be read. */
    ghost function Rest(): seq<char>
      reads this`pos, this`good, this`lch, this`putback
      requires Valid()
    {
      if good && putback then source[pos - 1..] else source[pos..]
    }

    /** The character in hand and what is still to be read; nothing once the source has failed. */
    ghost function Current(): seq<char>
      reads this`pos, this`good, this`lch, this`putback
      requires Valid()
    {
      if good then [lch] + source[pos..] else []
    }

    constructor (text: seq<char>)
      ensures Valid() && Rest() == text && source == text
    {
      source := text;
      pos, good, lch, putback, lnext := 0, true, '\n', false, EoF;
    }

    method NextChar() returns (ok: bool)
      requires Valid()
      modifies this`pos, this`good, this`lch, this`putback
      ensures Valid() && !putback && ok == good == (old(Rest()) != [])
      ensures ok ==> 0 < pos && Current() == old(Rest()) && Rest() == old(Rest())[1..] && lch == old(Rest())[0]
      ensures !ok ==> Rest() == [] && lch == old(lch)
    {
      if putback {
        putback := false;
        return good;
      }
      if good && pos < |source| {
        lch := source[pos];
        pos := pos + 1;
        return true;
      }
      good := false;
      return false;
    }

    /** The character in hand is read again. */
    method PutBack()
      requires Valid() && (good ==> 0 < pos)
      modifies this`putback
      ensures Valid() && putback && Rest() == old(Current())
    {
      putback := true;
    }

    /** A character, or the failure of a text that ends too early. */
    method GetChar() returns (ok: bool)
      requires Valid()
      modifies this`pos, this`good, this`lch, this`putback, this`lnext
      ensures Valid() && !putback && ok == good == (old(Rest()) != [])
      ensures ok ==> 0 < pos && Current() == old(Rest()) && Rest() == old(Rest())[1..] && lch == old(Rest())[0]
      ensures ok ==> lnext == old(lnext)
    {
      ok := NextChar();
      if !ok {
        lnext := EoF;
      }
    }

    /** A character of a text from its place on. */
    method GetCharOf(ghost s: seq<char>, ghost i: nat) returns (ok: bool)
      requires Valid() && i <= |s| && Rest() == s[i..]
      modifies this`pos, this`good, this`lch, this`putback, this`lnext
      ensures Valid() && !putback && ok == good == (i < |s|)
      ensures ok ==> Rest() == s[i + 1..] && lch == s[i]
    {
      hide *;
      ok := GetChar();
      if ok {
        Tail(s, i);
      }
    }

    /** The rest of a block comment. */
    method SkipBlock() returns (ok: bool)
      requires Valid()
      modifies this`pos, this`good, this`lch, this`putback, this`lnext
      ensures Valid() && !putback
      ensures match FirstClose(old(Rest()))
              case Nowhere => !ok
              case At(n) => ok && good && Rest() == old(Rest())[n + 2..]
    {
      hide *;
      ghost var s: seq<char>, i: nat := Rest(), 0;
      assert s[0..] == s;
      NothingOpened(s);
      while true
        invariant Valid() && i <= |s| && Rest() == s[i..]
        invariant OpenUntil(s, i)
        decreases |s| - i
      {
        ok := GetCharOf(s, i);
        if !ok {
          NoClose(s, i);
          return;
        }
        i := i + 1;
        if lch != '*' {
          NotStar(s, i - 1);
          continue;
        }
        ok := GetCharOf(s, i);
        i := i + 1;
        while ok && lch == '*'
          invariant Valid() && !putback && ok == good
          invariant 1 < i <= |s| + 1 && OpenUntil(s, i - 2)
          invariant if ok then i <= |s| && Rest() == s[i..] && lch == s[i - 1] && s[i - 2] == '*'
                    else i == |s| + 1
          decreases |s| + 1 - i
        {
          StarStar(s, i - 2);
          ok := GetCharOf(s, i);
          i := i + 1;
        }
        if !ok {
          NoClose(s, i - 2);
          return;
        }
        CloseHere(s, i - 2);
        if lch == '/' {
          return;
        }
      }
    }

    /** The rest of a line comment, its newline included. */
    method SkipLine() returns (ok: bool)
      requires Valid()
      modifies this`pos, this`good, this`lch, this`putback, this`lnext
      ensures Valid() && !putback
      ensures match FirstNewline(old(Rest()))
              case Nowhere => !ok
              case At(n) => ok && good && n < |old(Rest())| && Rest() == old(Rest())[n + 1..]
    {
      hide *;
      ghost var s: seq<char>, i: nat := Rest(), 0;
      assert s[0..] == s && s[..0] == [];
      ok := GetCharOf(s, 0);
      i := 1;
      while ok && lch != '\n'
        invariant Valid() && !putback && ok == good
        invariant 0 < i <= |s| + 1 && '\n' !in s[..i - 1]
        invariant if ok then i <= |s| && Rest() == s[i..] && lch == s[i - 1] else i == |s| + 1
        decreases |s| + 1 - i
      {
        assert s[..i] == s[..i - 1] + [s[i - 1]];
        ok := GetCharOf(s, i);
        i := i + 1;
      }
      NewlineHere(s, i - 1);
    }

    /** `next`: the next token, blanks and comments skipped. */
    method Next() returns (r: Result<Token>)
      requires Valid()
      modifies this`pos, this`good, this`lch, this`putback, this`lnext
      ensures Valid()
      ensures match NextToken(old(Rest()))
              case Lexeme(t, first, rest) =>
                r == Ok(t) && lnext == t && Rest() == rest && good && (t != Slash ==> !putback && lch == first)
              case End => r == Ok(EoF) && lnext == EoF && Rest() == []
              case Failed(e) => r == Err(e)
    {
      hide *;
      while true
        invariant Valid() && NextToken(Rest()) == NextToken(old(Rest()))
        decreases |Rest()|
      {
        ghost var s := Rest();
        NextStep(s);
        var more := NextChar();
        if !more {
          lnext := EoF;
          return Ok(EoF);
        }
        if IsSpace(lch) {
          continue;
        }
        if lch != '/' && lch != '#' {
          var t := TokenOf(lch);
          if t.Ok? {
            lnext := t.value;
          }
          return t;
        }
        if lch == '/' {
          var ok := GetChar();
          if !ok {
            return Err(UnexpectedEnd);
          }
          if lch == '*' {
            AfterComment(Rest());
            ok := SkipBlock();
            if !ok {
              return Err(UnexpectedEnd);
            }
            continue;
          }
          if lch != '/' {
            PutBack();
            lnext := Slash;
            return Ok(Slash);
          }
        }
        AfterComment(Rest());
        var ok := SkipLine();
        if !ok {
          return Err(UnexpectedEnd);
        }
      }
    }

    /** `get_string`: the string whose opening quote was just read. */
    method GetString() returns (r: Result<string>)
      requires Valid()
      modifies this`pos, this`good, this`lch, this`putback, this`lnext
      ensures Valid()
      ensures match StringAt(old(Rest()), if old(lnext) == SingleQuote then '\'' else '"')
              case Text(v, rest) => r == Ok(v) && Rest() == rest
              case BadText(e) => r == Err(e)
    {
      hide *;
      var quote := if lnext == SingleQuote then '\'' else '"';
      var value := "";
      NothingPrepended(StringAt(Rest(), quote));
      while true
        invariant Valid() && Prepend(value, StringAt(Rest(), quote)) == StringAt(old(Rest()), quote)
        decreases |Rest()|
      {
        ghost var s := Rest();
        StringStep(value, s, quote);
        var ok := GetChar();
        if !ok {
          return Err(UnexpectedEnd);
        }
        match lch {
          case '\'' | '"' =>
            if lch == quote {
              return Ok(value);
            }
            value := value + [lch];
          case '\n' =>
            return Err(UnexpectedEndOfLine);
          case '\\' =>
            ok := GetChar();
            if !ok {
              return Err(UnexpectedEnd);
            }
            Tail(s, 1);
            match lch {
              case '"' | '\\' => value := value + [lch];
              case '\n' =>
              case 'n' => value := value + "\n";
              case 't' => value := value + "\t";
              case c => return Err(SyntaxError);
            }
          case c =>
            value := value + [lch];
        }
      }
    }

    lemma CurrentAndRest()
      requires Valid() && good && !putback
      ensures Current() == [lch] + Rest()
    {
    }

    lemma NothingInHand()
      requires Valid() && !good
      ensures Current() == []
    {
    }

    /** A run of digits. */
    method AppendDigits(number: string) returns (longer: string)
      requires Valid() && good && !putback && 0 < pos && IsDigit(lch)
      modifies this`pos, this`good, this`lch, this`putback
      ensures Valid() && !putback && (good ==> 0 < pos)
      ensures var n := DigitRun(old(Current()));
              longer == number + old(Current())[..n] && Current() == old(Current())[n..]
    {
      hide *;
      ghost var s, i := Current(), 0;
      assert s[0..] == s && s[..0] == [];
      CurrentAndRest();
      longer := number;
      var more := true;
      while more && IsDigit(lch)
        invariant Valid() && !putback && more == good && i <= |s|
        invariant Current() == s[i..] && longer == number + s[..i] && forall k :: 0 <= k < i ==> IsDigit(s[k])
        invariant if more then 0 < pos && i < |s| && lch == s[i] && Rest() == s[i + 1..] else i == |s|
        decreases |s| - i
      {
        assert s[..i + 1] == s[..i] + [s[i]];
        longer := longer + [lch];
        more := NextChar();
        i := i + 1;
        if more {
          CurrentAndRest();
          Tail(s, i);
        } else {
          NothingInHand();
          assert i == |s|;
        }
      }
      DigitRunIs(s, i);
    }

    /** Part of a text is in a sink, the character after it in hand. */
    ghost predicate Reading(number: string, text: seq<char>)
      reads this`pos, this`good, this`lch, this`putback
    {
      Valid() && !putback && (good ==> 0 < pos) && text == number + Current()
    }

    lemma InHand(number: string, text: seq<char>)
      requires Reading(number, text)
      ensures Valid() && !putback && (good ==> 0 < pos)
      ensures |number| <= |text| && number == text[..|number|] && good == (|number| < |text|)
      ensures Current() == text[|number|..]
      ensures good ==> lch == text[|number|]
    {
    }

    /** The character in hand appended, and the next one taken. */
    method Append(number: string, ghost text: seq<char>) returns (longer: string, ok: bool)
      requires good && Reading(number, text)
      modifies this`pos, this`good, this`lch, this`putback, this`lnext
      ensures Valid() && Reading(longer, text) && ok == good && |longer| == |number| + 1
    {
      CurrentAndRest();
      longer := number + [lch];
      ok := GetChar();
      assert text == longer + Current();
    }

    /** At least one digit. */
    method GetDigits(number: string, ghost text: seq<char>) returns (r: Result<string>)
      requires good && Reading(number, text)
      modifies this`pos, this`good, this`lch, this`putback
      ensures |number| <= |text|
      ensures match DigitsAt(text, |number|)
              case Ok(n) => r.Ok? && Reading(r.value, text) && |r.value| == n
              case Err(e) => r == Err(e) && Valid()
    {
      CurrentAndRest();
      if !IsDigit(lch) {
        return Err(SyntaxError);
      }
      ghost var run := Current();
      assert text[|number|..] == run;
      var longer := AppendDigits(number);
      Regroup(number, run, DigitRun(run));
      return Ok(longer);
    }

    method GetWhole(ghost text: seq<char>) returns (r: Result<string>)
      requires good && Reading("", text)
      modifies this`pos, this`good, this`lch, this`putback, this`lnext
      ensures match WholeAt(text)
              case Ok(n) => r.Ok? && Reading(r.value, text) && |r.value| == n
              case Err(e) => r == Err(e) && Valid()
    {
      hide Reading, DigitsAt;
      var number, ok := "", true;
      InHand(number, text);
      if lch == '-' {
        number, ok := Append(number, text);
        InHand(number, text);
        if !ok {
          return Err(UnexpectedEnd);
        }
      }
      if lch == '0' {
        number, ok := Append(number, text);
        InHand(number, text);
        if ok && IsDigit(lch) {
          return Err(SyntaxError);
        }
        return Ok(number);
      }
      WholeByDigits(text, |number|);
      r := GetDigits(number, text);
    }

    method GetFraction(number: string, ghost text: seq<char>) returns (r: Result<string>)
      requires good && Reading(number, text)
      modifies this`pos, this`good, this`lch, this`putback, this`lnext
      ensures |number| <= |text|
      ensures match FractionAt(text, |number|)
              case Ok(n) => r.Ok? && Reading(r.value, text) && |r.value| == n
              case Err(e) => r == Err(e) && Valid()
    {
      hide Reading, DigitsAt;
      InHand(number, text);
      if lch != '.' {
        return Ok(number);
      }
      var longer, ok := Append(number, text);
      InHand(longer, text);
      if !ok {
        NoDigits(text);
        return Err(UnexpectedEnd);
      }
      r := GetDigits(longer, text);
    }

    method GetExponent(number: string, ghost text: seq<char>) returns (r: Result<string>)
      requires good && Reading(number, text)
      modifies this`pos, this`good, this`lch, this`putback, this`lnext
      ensures |number| <= |text|
      ensures match ExponentAt(text, |number|)
              case Ok(n) => r.Ok? && Reading(r.value, text) && |r.value| == n
              case Err(e) => r == Err(e) && Valid()
    {
      hide Reading, DigitsAt;
      InHand(number, text);
      if lch != 'e' && lch != 'E' {
        return Ok(number);
      }
      var longer, ok := Append(number, text);
      InHand(longer, text);
      NoDigits(text);
      if !ok {
        return Err(UnexpectedEnd);
      }
      if lch == '-' || lch == '+' {
        longer, ok := Append(longer, text);
        InHand(longer, text);
        if !ok {
          return Err(UnexpectedEnd);
        }
      }
      r := GetDigits(longer, text);
    }

    /** `get_number`: the number whose first character is in hand. */
    method GetNumber() returns (r: Result<string>)
      requires Valid() && good && !putback && 0 < pos
      modifies this`pos, this`good, this`lch, this`putback, this`lnext
      ensures Valid()
      ensures match NumberAt(old(Current()))
              case Ok(n) => r == Ok(old(Current())[..n]) && Rest() == old(Current())[n..] && putback
              case Err(e) => r == Err(e)
    {
      hide *;
      ghost var text := Current();
      StartReading(text);
      r := GetWhole(text);
      StagesOf(text);
      if r.Ok? && good {
        r := GetFraction(r.value, text);
        if r.Ok? && good {
          r := GetExponent(r.value, text);
        }
      }
      if r.Ok? {
        InHand(r.value, text);
        NothingAfter(text);
        PutBack();
      }
    }

    lemma StartReading(text: seq<char>)
      requires Valid() && !putback && (good ==> 0 < pos) && text == Current()
      ensures Reading("", text)
    {
    }
  }

  lemma StagesOf(s: seq<char>)
    ensures NumberAt(s) == match WholeAt(s)
                           case Err(e) => Err(e)
                           case Ok(b) => (match FractionAt(s, b)
                                          case Err(e) => Err(e)
                                          case Ok(c) => ExponentAt(s, c))
  {
    hide WholeAt, FractionAt, ExponentAt;
  }

  lemma Regroup(a: seq<char>, b: seq<char>, n: nat)
    requires n <= |b|
    ensures a + b == a + b[..n] + b[n..]
  {
  }

  lemma WholeByDigits(s: seq<char>, a: nat)
    requires a < |s| && s[a] != '0' && a == (if s[0] == '-' then 1 else 0)
    ensures WholeAt(s) == DigitsAt(s, a)
  {
  }

  lemma NoDigits(s: seq<char>)
    ensures DigitsAt(s, |s|) == Err(UnexpectedEnd)
  {
  }

  lemma NothingAfter(s: seq<char>)
    ensures FractionAt(s, |s|) == ExponentAt(s, |s|) == Ok(|s|)
  {
  }

  lemma Tail(s: seq<char>, i: nat)
    requires i < |s|
    ensures s[i..][0] == s[i] && s[i..][1..] == s[i + 1..]
  {
  }

  ghost predicate OpenUntil(s: seq<char>, n: nat) {
    forall k: nat :: k < n ==> !ClosesAt(s, k)
  }

  lemma NewlineHere(s: seq<char>, i: nat)
    requires i <= |s| && '\n' !in s[..i] && (i < |s| ==> s[i] == '\n')
    ensures FirstNewline(s) == if i < |s| then At(i) else Nowhere
  {
    hide FirstNewline;
    if i < |s| {
      FirstNewlineIs(s[..i], s[i + 1..]);
      assert s == s[..i] + "\n" + s[i + 1..];
    } else {
      assert s[..i] == s;
    }
  }

  /** One step of the scan. */
  lemma NextStep(s: seq<char>)
    ensures s == [] ==> NextToken(s) == End
    ensures s != [] && IsSpace(s[0]) ==> NextToken(s) == NextToken(s[1..]) && s[0] != '/' && s[0] != '#'
    ensures s != [] && !IsSpace(s[0]) && s[0] != '/' && s[0] != '#' ==>
              (match TokenOf(s[0])
               case Ok(t) => NextToken(s) == Lexeme(t, s[0], s[1..]) && t != Slash
               case Err(e) => NextToken(s) == Failed(e))
    ensures s != [] && s[0] == '#' ==> !IsSpace(s[0]) && NextToken(s) == AfterLine(s[1..])
    ensures s != [] && s[0] == '/' ==>
              && !IsSpace(s[0])
              && NextToken(s) == if |s| == 1 then Failed(UnexpectedEnd)
                                 else if s[1] == '*' then AfterBlock(s[2..])
                                 else if s[1] == '/' then AfterLine(s[2..])
                                 else Lexeme(Slash, '/', s[1..])
  {
    hide AfterBlock, AfterLine, TokenOf, IsSpace;
    MarksAreNotSpaces();
    if s != [] {
      NoSlashToken(s[0]);
    }
  }

  lemma MarksAreNotSpaces()
    ensures !IsSpace('/') && !IsSpace('#')
  {
  }

  lemma NoSlashToken(c: char)
    ensures TokenOf(c) != Ok(Slash)
  {
  }

  lemma AfterComment(s: seq<char>)
    ensures AfterLine(s) == match FirstNewline(s) case At(n) => NextToken(s[n + 1..]) case Nowhere => Failed(UnexpectedEnd)
    ensures AfterBlock(s) == match FirstClose(s) case At(n) => NextToken(s[n + 2..]) case Nowhere => Failed(UnexpectedEnd)
  {
    hide NextToken, FirstClose, FirstNewline;
  }

  lemma NothingPrepended(t: Text)
    ensures Prepend("", t) == t
  {
    if t.Text? {
      assert "" + t.value == t.value;
    }
  }

  lemma PrependTwice(v: string, w: string, t: Text)
    ensures Prepend(v, Prepend(w, t)) == Prepend(v + w, t)
  {
    if t.Text? {
      assert v + (w + t.value) == v + w + t.value;
    }
  }

  lemma DigitRunIs(s: seq<char>, n: nat)
    requires n <= |s| && (forall i :: 0 <= i < n ==> IsDigit(s[i])) && (n < |s| ==> !IsDigit(s[n]))
    ensures DigitRun(s) == n
  {
  }

  /** One step in a string, some of it already read. */
  lemma StringStep(v: string, s: seq<char>, quote: char)
    requires quote == '"' || quote == '\''
    ensures s == [] ==> Prepend(v, StringAt(s, quote)) == BadText(UnexpectedEnd)
    ensures s != [] && s[0] == quote ==> Prepend(v, StringAt(s, quote)) == Text(v, s[1..])
    ensures s != [] && s[0] == '\n' ==> Prepend(v, StringAt(s, quote)) == BadText(UnexpectedEndOfLine)
    ensures s != [] && s[0] != quote && s[0] != '\n' && s[0] != '\\' ==>
              Prepend(v, StringAt(s, quote)) == Prepend(v + [s[0]], StringAt(s[1..], quote))
    ensures s != [] && s[0] == '\\' ==>
              Prepend(v, StringAt(s, quote))
              == if |s| == 1 then BadText(UnexpectedEnd)
                 else match s[1]
                   case '"' => Prepend(v + "\"", StringAt(s[2..], quote))
                   case '\\' => Prepend(v + "\\", StringAt(s[2..], quote))
                   case '\n' => Prepend(v, StringAt(s[2..], quote))
                   case 'n' => Prepend(v + "\n", StringAt(s[2..], quote))
                   case 't' => Prepend(v + "\t", StringAt(s[2..], quote))
                   case c => BadText(SyntaxError)
  {
    hide Prepend;
    if s != [] {
      PrependTwice(v, [s[0]], StringAt(s[1..], quote));
      if |s| > 1 {
        var t := StringAt(s[2..], quote);
        PrependTwice(v, "\"", t);
        PrependTwice(v, "\\", t);
        PrependTwice(v, "\n", t);
        PrependTwice(v, "\t", t);
      }
    }
    PrependToEnds(v, s);
  }

  lemma PrependToEnds(v: string, s: seq<char>)
    ensures forall e :: Prepend(v, BadText(e)) == BadText(e)
    ensures s != [] ==> Prepend(v, Text("", s[1..])) == Text(v, s[1..])
  {
    assert v + "" == v;
  }

  lemma NothingOpened(s: seq<char>)
    ensures OpenUntil(s, 0)
  {
  }

  lemma NotStar(s: seq<char>, i: nat)
    requires i < |s| && s[i] != '*' && OpenUntil(s, i)
    ensures OpenUntil(s, i + 1)
  {
  }

  lemma StarStar(s: seq<char>, i: nat)
    requires i + 1 < |s| && s[i + 1] == '*' && OpenUntil(s, i)
    ensures OpenUntil(s, i + 1)
  {
  }

  lemma NoClose(s: seq<char>, n: nat)
    requires OpenUntil(s, n) && |s| <= n + 1
    ensures FirstClose(s) == Nowhere
  {
  }

  /** After a star, a slash closes, at the first place if none was closed before, and anything else does not. */
  lemma CloseHere(s: seq<char>, i: nat)
    requires i + 1 < |s| && s[i] == '*' && s[i + 1] != '*' && OpenUntil(s, i)
    ensures if s[i + 1] == '/' then FirstClose(s) == At(i) else OpenUntil(s, i + 2)
  {
    assert ClosesAt(s, i) == (s[i + 1] == '/');
    assert !ClosesAt(s, i + 1);
  }
}
