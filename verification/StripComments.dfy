/** The comment stripper of `icd-source.py`: comments become a space, string literals stay. */
module StripComments {
  import opened Shapes

  datatype Token = Literal(text: string) | Comment(text: string) | Plain(c: char)

  /** Index of the quote that closes the literal, counted from j; past the end when none does. */
  function QuoteAt(text: string, j: nat): (k: nat)
    requires j <= |text| + 1
    ensures k >= j && (k < |text| ==> text[k] == '"') && k <= |text| + 1
    decreases |text| + 2 - j
  {
    if j >= |text| then j
    else if text[j] == '\\' then QuoteAt(text, j + 2)
    else if text[j] == '"' then j
    else QuoteAt(text, j + 1)
  }

  // text.find from j of the two characters that close a comment, with the length for "not found".
  function CloseAt(text: string, j: nat): (k: nat)
    ensures k <= |text| || k == j
    ensures k < |text| ==> k >= j && k + 2 <= |text| && text[k] == '*' && text[k + 1] == '/'
    decreases |text| - j
  {
    if j + 2 > |text| then |text|
    else if text[j] == '*' && text[j + 1] == '/' then j
    else CloseAt(text, j + 1)
  }

  function NewlineAt(text: string, j: nat): (k: nat)
    requires j <= |text|
    ensures j <= k <= |text|
    decreases |text| - j
  {
    if j == |text| || text[j] == '\n' then j else NewlineAt(text, j + 1)
  }

  predicate Starts(text: string, a: char, b: char) {
    |text| >= 2 && text[0] == a && text[1] == b
  }

  function First(text: string): (t: Token)
    requires text != ""
  {
    if text[0] == '"' then
      var j := QuoteAt(text, 1);
      Literal(if j < |text| then text[..j + 1] else text)
    else if Starts(text, '/', '*') then
      var end := CloseAt(text, 2);
      Comment(if end < |text| then text[..end + 2] else text)
    else if Starts(text, '/', '/') then
      Comment(text[..NewlineAt(text, 2)])
    else
      Plain(text[0])
  }

  function Source(t: Token): string {
    match t case Literal(s) => s case Comment(s) => s case Plain(c) => [c]
  }

  /** What the stripper writes for a token. */
  function Written(t: Token): string {
    match t case Literal(s) => s case Comment(_) => " " case Plain(c) => [c]
  }

  lemma FirstIsPrefix(text: string)
    requires text != ""
    ensures 0 < |Source(First(text))| <= |text| && Source(First(text)) == text[..|Source(First(text))|]
  {
    assert text[..|text|] == text;
  }

  function After(text: string): string
    requires text != ""
  {
    FirstIsPrefix(text);
    text[|Source(First(text))|..]
  }

  function Lex(text: string): seq<Token>
    decreases |text|
  {
    if text == "" then [] else
    FirstIsPrefix(text);
    [First(text)] + Lex(After(text))
  }

  function Strip(text: string): string
    decreases |text|
  {
    if text == "" then "" else
    FirstIsPrefix(text);
    Written(First(text)) + Strip(After(text))
  }

  /** The inner loop: from an opening quote to the index of the closing one. */
  method EndOfLiteral(text: string, i: nat) returns (j: nat)
    requires i < |text|
    ensures j - i == QuoteAt(text[i..], 1)
  {
    ghost var rest := text[i..];
    j := i + 1;
    while j < |text|
      invariant i < j <= |text| + 1
      invariant QuoteAt(rest, j - i) == QuoteAt(rest, 1)
      decreases |text| + 1 - j
    {
      assert rest[j - i] == text[j];
      if text[j] == '\\' {
        j := j + 2;
        continue;
      }
      if text[j] == '"' {
        break;
      }
      j := j + 1;
    }
  }

  lemma StripStep(rest: string, n: nat)
    requires rest != "" && n == |Source(First(rest))|
    ensures 0 < n <= |rest| && Source(First(rest)) == rest[..n]
    ensures Strip(rest) == Written(First(rest)) + Strip(rest[n..])
  {
    hide First, Source, Written;
    FirstIsPrefix(rest);
  }

  /** One turn of the outer loop takes the first token of what is left. */
  lemma Turn(text: string, i: nat, out: string)
    requires i < |text| && Strip(text) == out + Strip(text[i..])
    ensures var t := First(text[i..]);
      && i + |Source(t)| <= |text|
      && Source(t) == text[i..i + |Source(t)|]
      && Strip(text) == out + Written(t) + Strip(text[i + |Source(t)|..])
  {
    hide First, Source, Written, Strip;
    var rest := text[i..];
    var n := |Source(First(rest))|;
    StripStep(rest, n);
    assert rest[n..] == text[i + n..] && rest[..n] == text[i..i + n];
  }

  /** How far the first token reaches, and what is written for it, case by case. */
  lemma FirstFacts(rest: string)
    requires rest != ""
    ensures var t := First(rest); var n := |Source(t)|;
      if rest[0] == '"' then
        var j := QuoteAt(rest, 1);
        n == (if j < |rest| then j + 1 else |rest|) && Written(t) == Source(t)
      else if Starts(rest, '/', '*') then
        var end := CloseAt(rest, 2);
        n == (if end < |rest| then end + 2 else |rest|) && Written(t) == " "
      else if Starts(rest, '/', '/') then n == NewlineAt(rest, 2) && Written(t) == " "
      else n == 1 && Written(t) == [rest[0]]
  {
    hide QuoteAt, CloseAt, NewlineAt;
  }

  method StripComments(text: string) returns (out: string)
    ensures out == Strip(text)
  {
    hide Strip, QuoteAt, CloseAt, NewlineAt, First, Source, Written;
    out := "";
    var i := 0;
    assert text[0..] == text && "" + Strip(text) == Strip(text);
    while i < |text|
      invariant i <= |text| && Strip(text) == out + Strip(text[i..])
      decreases |text| - i
    {
      Turn(text, i, out);
      FirstFacts(text[i..]);
      ghost var rest := text[i..];
      if text[i] == '"' {
        var j := EndOfLiteral(text, i);
        var next := if j < |text| then j + 1 else |text|;
        out := out + text[i..next];
        i := next;
      } else if Starts(text[i..], '/', '*') {
        var end := CloseAt(text[i..], 2);
        i := if end < |text[i..]| then i + end + 2 else |text|;
        out := out + " ";
      } else if Starts(text[i..], '/', '/') {
        i := i + NewlineAt(text[i..], 2);
        out := out + " ";
      } else {
        out := out + [text[i]];
        i := i + 1;
      }
    }
    StripNothing();
    assert text[i..] == "" && out + "" == out;
  }

  lemma StripNothing()
    ensures Strip("") == ""
  {
  }

  // ---------- stripping only turns comments into spaces ----------

  function Render(tokens: seq<Token>): string {
    if tokens == [] then "" else Written(tokens[0]) + Render(tokens[1..])
  }

  function Unlex(tokens: seq<Token>): string {
    if tokens == [] then "" else Source(tokens[0]) + Unlex(tokens[1..])
  }

  function Blanked(tokens: seq<Token>): (b: seq<Token>)
    ensures |b| == |tokens|
  {
    seq(|tokens|, i requires 0 <= i < |tokens| => if tokens[i].Comment? then Plain(' ') else tokens[i])
  }

  function Literals(tokens: seq<Token>): seq<string> {
    if tokens == [] then [] else (if tokens[0].Literal? then [tokens[0].text] else []) + Literals(tokens[1..])
  }

  /** The tokens make up the text: nothing is lost between them. */
  lemma {:induction false} TokensCover(text: string)
    ensures Unlex(Lex(text)) == text && Render(Lex(text)) == Strip(text)
    decreases |text|
  {
    if text != "" {
      FirstIsPrefix(text);
      TokensCover(After(text));
      assert text == Source(First(text)) + After(text);
    }
  }

  // ---------- the tokens, as a grammar ----------

  /** The two characters that close a comment stand at k. */
  predicate ClosesAt(s: string, k: int) { 0 <= k < |s| - 1 && s[k] == '*' && s[k + 1] == '/' }

  predicate BlockComment(s: string) {
    |s| >= 4 && Starts(s, '/', '*') && ClosesAt(s, |s| - 2) && forall k :: 2 <= k < |s| - 2 ==> !ClosesAt(s, k)
  }

  predicate OpenComment(s: string) {
    Starts(s, '/', '*') && forall k :: 2 <= k < |s| ==> !ClosesAt(s, k)
  }

  predicate LineComment(s: string) { Starts(s, '/', '/') && '\n' !in s[2..] }

  function Quoting(body: seq<QuotedChar>): string { "\"" + ShowQuoted(body) }

  ghost predicate ClosedLiteral(s: string) {
    exists body :: GoodBody(body) && s == Quoting(body) + "\""
  }

  ghost predicate OpenLiteral(s: string) {
    exists body :: GoodBody(body) && (s == Quoting(body) || s == Quoting(body) + "\\")
  }

  /** What a token may be in front of `tail`; only at the end of the text may it stay open. */
  ghost predicate Stands(t: Token, tail: string) {
    match t
    case Literal(s) => ClosedLiteral(s) || (tail == "" && OpenLiteral(s))
    case Comment(s) =>
      || BlockComment(s)
      || (tail == "" && OpenComment(s) && |s| >= 2)
      || (LineComment(s) && (tail == "" || tail[0] == '\n'))
    case Plain(c) => c != '"' && !(c == '/' && tail != "" && (tail[0] == '*' || tail[0] == '/'))
  }

  /** The scan passes over the characters of a literal to the quote behind them. */
  lemma {:induction false} QuoteIsAt(text: string, j: nat, body: seq<QuotedChar>, end: string)
    requires j <= |text| && GoodBody(body) && text[j..] == ShowQuoted(body) + end
    requires end == "" || end == "\\" || end[0] == '"'
    ensures end != "" && end[0] == '"' ==> QuoteAt(text, j) == j + |ShowQuoted(body)|
    ensures end == "" || end == "\\" ==> QuoteAt(text, j) >= |text|
    decreases |body|
  {
    var rest := text[j..];
    if body == [] {
      assert rest == end;
      assert end != "" ==> text[j] == end[0];
    } else {
      var n := QuoteOver(text, j, body, end);
      hide QuoteAt, GoodBody, ShowQuoted;
      QuoteIsAt(text, j + n, body[1..], end);
    }
  }

  lemma QuoteOver(text: string, j: nat, body: seq<QuotedChar>, end: string) returns (n: nat)
    requires j <= |text| && body != [] && GoodBody(body) && text[j..] == ShowQuoted(body) + end
    ensures 1 <= n && j + n <= |text| && QuoteAt(text, j) == QuoteAt(text, j + n)
    ensures text[j + n..] == ShowQuoted(body[1..]) + end && GoodBody(body[1..])
    ensures |ShowQuoted(body)| == n + |ShowQuoted(body[1..])|
  {
    var q, more := body[0], ShowQuoted(body[1..]);
    var c := match q case Raw(x) => [x] case Escaped(x) => ['\\', x];
    assert GoodBody(body[1..]) && (q.Raw? ==> q.c != '"' && q.c != '\\');
    assert ShowQuoted(body) == c + more;
    hide *;
    n := |c|;
    TakeFront(text, j, c, more, end);
    QuoteStep(text, j);
  }

  lemma TakeFront(text: string, j: nat, a: string, b: string, end: string)
    requires j <= |text| && text[j..] == a + b + end
    ensures j + |a| <= |text| && text[j + |a|..] == b + end && (a != "" ==> text[j] == a[0])
  {
    var rest := text[j..];
    assert rest == a + (b + end);
    assert rest[|a|..] == b + end && text[j + |a|..] == rest[|a|..];
    assert a != "" ==> rest[0] == a[0] && text[j] == rest[0];
  }

  lemma QuoteStep(text: string, j: nat)
    requires j < |text|
    ensures text[j] == '\\' ==> QuoteAt(text, j) == QuoteAt(text, j + 2)
    ensures text[j] != '\\' && text[j] != '"' ==> QuoteAt(text, j) == QuoteAt(text, j + 1)
  {
  }

  /** What the scan passed over is the characters of a literal. */
  lemma {:induction false} QuotePassed(text: string, j: nat) returns (body: seq<QuotedChar>)
    requires j <= |text|
    ensures GoodBody(body)
    ensures var k := QuoteAt(text, j);
      if k < |text| then text[j..k] == ShowQuoted(body)
      else text[j..] == ShowQuoted(body) || text[j..] == ShowQuoted(body) + "\\"
    decreases |text| - j
  {
    if j == |text| || text[j] == '"' {
      body := [];
    } else if text[j] == '\\' {
      if j + 1 == |text| {
        body := [];
        assert text[j..] == ShowQuoted(body) + "\\";
      } else {
        var more := QuotePassed(text, j + 2);
        assert QuoteAt(text, j) == QuoteAt(text, j + 2);
        hide *;
        ShowOne(Escaped(text[j + 1]));
        body := QuotedCons(text, j, j + 2, Escaped(text[j + 1]), more);
      }
    } else {
      var more := QuotePassed(text, j + 1);
      assert QuoteAt(text, j) == QuoteAt(text, j + 1);
      hide *;
      ShowOne(Raw(text[j]));
      body := QuotedCons(text, j, j + 1, Raw(text[j]), more);
    }
  }

  lemma ShowOne(q: QuotedChar)
    ensures ShowQuoted([q]) == match q case Raw(c) => [c] case Escaped(c) => ['\\', c]
    ensures GoodBody([q]) <==> (q.Raw? ==> q.c != '"' && q.c != '\\')
  {
    assert [q][1..] == [];
  }

  lemma QuotedCons(text: string, i: nat, j: nat, q: QuotedChar, more: seq<QuotedChar>) returns (body: seq<QuotedChar>)
    requires i <= j <= |text| && GoodBody([q]) && GoodBody(more) && text[i..j] == ShowQuoted([q])
    ensures body == [q] + more && GoodBody(body)
    ensures forall k :: j <= k <= |text| && text[j..k] == ShowQuoted(more) ==> text[i..k] == ShowQuoted(body)
    ensures text[j..] == ShowQuoted(more) ==> text[i..] == ShowQuoted(body)
    ensures text[j..] == ShowQuoted(more) + "\\" ==> text[i..] == ShowQuoted(body) + "\\"
  {
    body := [q] + more;
    assert [q][1..] == [] && body[1..] == more;
    assert ShowQuoted(body) == ShowQuoted([q]) + ShowQuoted(more);
    assert text[i..] == text[i..j] + text[j..];
    forall k | j <= k <= |text| && text[j..k] == ShowQuoted(more) ensures text[i..k] == ShowQuoted(body) {
      assert text[i..k] == text[i..j] + text[j..k];
    }
  }

  lemma {:induction false} CloseIsAt(text: string, j: nat)
    requires j <= |text|
    ensures var k := CloseAt(text, j);
      && j <= k <= |text|
      && (k < |text| ==> ClosesAt(text, k))
      && forall i :: j <= i < k ==> !ClosesAt(text, i)
    decreases |text| - j
  {
    if j + 2 <= |text| {
      CloseIsAt(text, j + 1);
    }
  }

  lemma {:induction false} NewlineIsAt(text: string, j: nat)
    requires j <= |text|
    ensures var k := NewlineAt(text, j);
      '\n' !in text[j..k] && (k < |text| ==> text[k] == '\n')
    decreases |text| - j
  {
    if j < |text| && text[j] != '\n' {
      NewlineIsAt(text, j + 1);
      assert text[j..NewlineAt(text, j)] == [text[j]] + text[j + 1..NewlineAt(text, j)];
    }
  }

  /** The first token of a text stands in front of what follows it. */
  lemma FirstStands(text: string)
    requires text != ""
    ensures Stands(First(text), After(text))
  {
    FirstIsPrefix(text);
    if text[0] == '"' {
      LiteralStands(text);
    } else if Starts(text, '/', '*') {
      CloseIsAt(text, 2);
      var end := CloseAt(text, 2);
      var s := Source(First(text));
      forall k | 2 <= k < |s| ensures ClosesAt(s, k) ==> ClosesAt(text, k) {
      }
    } else if Starts(text, '/', '/') {
      NewlineIsAt(text, 2);
      assert text[..NewlineAt(text, 2)][2..] == text[2..NewlineAt(text, 2)];
    }
  }

  lemma LiteralStands(text: string)
    requires text != "" && text[0] == '"'
    ensures Stands(First(text), After(text))
  {
    var body := QuotePassed(text, 1);
    var k := QuoteAt(text, 1);
    hide ShowQuoted, GoodBody;
    if k < |text| {
      var s := text[..k + 1];
      assert s == "\"" + text[1..k] + "\"" == Quoting(body) + "\"";
      assert ClosedLiteral(s);
    } else {
      assert text == "\"" + text[1..];
      assert text == Quoting(body) || text == Quoting(body) + "\\";
      assert OpenLiteral(text);
    }
  }

  /** A token that stands in front of `tail` is the first token of the two together. */
  lemma StandingIsFirst(t: Token, tail: string)
    requires Stands(t, tail)
    ensures Source(t) != "" && First(Source(t) + tail) == t && After(Source(t) + tail) == tail
  {
    var s := Source(t);
    var text := s + tail;
    assert s != "" ==> text[0] == s[0];
    match t
    case Literal(_) =>
      LiteralIsFirst(s, tail);
    case Comment(_) =>
      CommentIsFirst(s, tail);
    case Plain(c) =>
      assert text[1..] == tail;
  }

  lemma LiteralIsFirst(s: string, tail: string)
    requires ClosedLiteral(s) || (tail == "" && OpenLiteral(s))
    ensures s != "" && First(s + tail) == Literal(s) && After(s + tail) == tail
  {
    var text := s + tail;
    if ClosedLiteral(s) {
      var body :| GoodBody(body) && s == Quoting(body) + "\"";
      assert text[1..] == ShowQuoted(body) + ("\"" + tail);
      QuoteIsAt(text, 1, body, "\"" + tail);
      assert text[..|s|] == s && text[|s|..] == tail;
    } else {
      var body :| GoodBody(body) && (s == Quoting(body) || s == Quoting(body) + "\\");
      assert text == s;
      QuoteIsAt(text, 1, body, if s == Quoting(body) then "" else "\\");
    }
  }

  lemma CommentIsFirst(s: string, tail: string)
    requires Stands(Comment(s), tail)
    ensures s != "" && First(s + tail) == Comment(s) && After(s + tail) == tail
  {
    var text := s + tail;
    assert text[..|s|] == s && text[|s|..] == tail;
    assert text[0] == s[0] && text[1] == s[1];
    if LineComment(s) {
      NewlineIsAt(text, 2);
      var k := NewlineAt(text, 2);
      assert forall i :: 2 <= i < |s| ==> text[i] == s[2..][i - 2];
      assert forall i :: 2 <= i < k ==> text[2..k][i - 2] == text[i];
    } else {
      CloseIsAt(text, 2);
      forall k | 2 <= k < |s| - 1 ensures ClosesAt(text, k) <==> ClosesAt(s, k) {
      }
      assert BlockComment(s) ==> ClosesAt(text, |s| - 2) && CloseAt(text, 2) == |s| - 2;
    }
  }

  ghost predicate AllStand(ts: seq<Token>) {
    ts == [] || (Stands(ts[0], Unlex(ts[1..])) && AllStand(ts[1..]))
  }

  /** The tokens of a text are the only ones that make it up and stand one behind the other. */
  lemma {:induction false} LexExact(text: string, ts: seq<Token>)
    ensures Lex(text) == ts <==> Unlex(ts) == text && AllStand(ts)
    decreases |text|
  {
    hide Stands, First;
    TokensCover(text);
    if text != "" {
      FirstIsPrefix(text);
      FirstStands(text);
      var rest := Lex(text)[1..];
      assert rest == Lex(After(text));
      LexExact(After(text), rest);
    }
    if Unlex(ts) == text && AllStand(ts) && ts != [] {
      StandingIsFirst(ts[0], Unlex(ts[1..]));
      LexExact(Unlex(ts[1..]), ts[1..]);
      assert ts == [ts[0]] + ts[1..];
    }
  }

  lemma {:induction false} QuoteLocal(text: string, other: string, j: nat)
    requires j <= |text| + 1 && QuoteAt(text, j) < |text|
    requires |other| > QuoteAt(text, j) && other[..QuoteAt(text, j) + 1] == text[..QuoteAt(text, j) + 1]
    ensures QuoteAt(other, j) == QuoteAt(text, j)
    decreases |text| + 2 - j
  {
    assert forall k :: 0 <= k <= QuoteAt(text, j) ==> other[..QuoteAt(text, j) + 1][k] == other[k];
    assert forall k :: 0 <= k <= QuoteAt(text, j) ==> text[..QuoteAt(text, j) + 1][k] == text[k];
    if text[j] == '\\' {
      QuoteLocal(text, other, j + 2);
    } else if text[j] != '"' {
      QuoteLocal(text, other, j + 1);
    }
  }

  /** A closed literal is read alike whatever follows it. */
  lemma ClosedLiteralStays(text: string, tail: string)
    requires text != "" && text[0] == '"' && QuoteAt(text, 1) < |text|
    ensures var lit := Source(First(text)); First(lit + tail) == First(text) && After(lit + tail) == tail
  {
    var lit := text[..QuoteAt(text, 1) + 1];
    assert (lit + tail)[..|lit|] == lit;
    QuoteLocal(text, lit + tail, 1);
  }

  /** A slash that starts no comment still starts none once the rest is stripped. */
  lemma StripKeepsFirst(text: string)
    requires text != "" && text[0] != '/'
    ensures Strip(text) != "" && Strip(text)[0] == text[0]
  {
    FirstIsPrefix(text);
    match First(text) case Literal(s) => assert s[0] == text[0]; case Comment(_) => case Plain(_) =>
  }

  lemma PlainStays(text: string)
    requires text != "" && First(text).Plain?
    ensures var s := [text[0]] + Strip(text[1..]); First(s) == First(text) && After(s) == Strip(text[1..])
  {
    var s := [text[0]] + Strip(text[1..]);
    if text[0] == '/' && |text| > 1 {
      if text[1] != '/' {
        StripKeepsFirst(text[1..]);
      }
    }
    assert First(s) == Plain(text[0]);
    assert s[1..] == Strip(text[1..]);
  }

  lemma FirstOfStripped(text: string)
    requires text != ""
    ensures Strip(text) != ""
    ensures First(Strip(text)) == (if First(text).Comment? then Plain(' ') else First(text))
    ensures After(Strip(text)) == Strip(After(text))
  {
    FirstIsPrefix(text);
    match First(text)
    case Comment(_) =>
      assert Strip(text) == " " + Strip(After(text));
      assert (" " + Strip(After(text)))[1..] == Strip(After(text));
    case Plain(_) =>
      PlainStays(text);
    case Literal(lit) =>
      if QuoteAt(text, 1) < |text| {
        ClosedLiteralStays(text, Strip(After(text)));
      } else {
        assert After(text) == "" && Strip(text) == text + "";
        assert text + "" == text;
      }
  }

  /** Stripping and lexing again sees the same tokens, with a space for every comment. */
  lemma {:induction false} StripBlanksComments(text: string)
    ensures Lex(Strip(text)) == Blanked(Lex(text))
    decreases |text|
  {
    if text != "" {
      FirstIsPrefix(text);
      FirstOfStripped(text);
      StripBlanksComments(After(text));
      BlankedCons(First(text), Lex(After(text)));
    }
  }

  lemma BlankedCons(t: Token, rest: seq<Token>)
    ensures Blanked([t] + rest) == [if t.Comment? then Plain(' ') else t] + Blanked(rest)
  {
  }

  lemma {:induction false} LiteralsOfBlanked(tokens: seq<Token>)
    ensures Literals(Blanked(tokens)) == Literals(tokens) && Render(Blanked(tokens)) == Render(tokens)
  {
    if tokens != [] {
      assert tokens == [tokens[0]] + tokens[1..];
      BlankedCons(tokens[0], tokens[1..]);
      LiteralsOfBlanked(tokens[1..]);
      assert Blanked(tokens)[1..] == Blanked(tokens[1..]);
    }
  }

  /** No comment survives, every string literal does in place and in order, and a second pass changes nothing. */
  lemma StripIsClean(text: string)
    ensures forall i :: 0 <= i < |Lex(Strip(text))| ==> !Lex(Strip(text))[i].Comment?
    ensures Literals(Lex(Strip(text))) == Literals(Lex(text))
    ensures Strip(Strip(text)) == Strip(text)
  {
    StripBlanksComments(text);
    LiteralsOfBlanked(Lex(text));
    TokensCover(Strip(text));
    TokensCover(text);
  }
}
