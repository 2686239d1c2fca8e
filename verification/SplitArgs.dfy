/** The comma splitter of `icd-source.py`. */
module SplitArgs {
  import opened Basics
  import opened Shapes

  // ---------- str.strip ----------

  /** The characters `str.strip` removes. */
  predicate IsBlank(c: char) {
    '\t' <= c <= '\r' || '\U{1C}' <= c <= ' ' || c == '\U{85}' || c == '\U{A0}' || c == '\U{1680}'
    || '\U{2000}' <= c <= '\U{200A}' || c == '\U{2028}' || c == '\U{2029}' || c == '\U{202F}' || c == '\U{205F}'
    || c == '\U{3000}'
  }

  /** The characters for which `str.isspace` is true. */
  const WHITE_SPACE :=
    "\t\n\U{B}\U{C}\r\U{1C}\U{1D}\U{1E}\U{1F} \U{85}\U{A0}\U{1680}\U{2000}\U{2001}\U{2002}\U{2003}\U{2004}"
    + "\U{2005}\U{2006}\U{2007}\U{2008}\U{2009}\U{200A}\U{2028}\U{2029}\U{202F}\U{205F}\U{3000}"

  lemma BlankExact(c: char)
    ensures IsBlank(c) <==> c in WHITE_SPACE
  {
  }

  function TrimLeft(s: string): string { if s != "" && IsBlank(s[0]) then TrimLeft(s[1..]) else s }

  function TrimRight(s: string): string {
    if s != "" && IsBlank(s[|s| - 1]) then TrimRight(s[..|s| - 1]) else s
  }

  function Strip(s: string): string { TrimRight(TrimLeft(s)) }

  predicate Trimmed(s: string) { s != "" ==> !IsBlank(s[0]) && !IsBlank(s[|s| - 1]) }

  lemma {:induction false} TrimLeftTrims(s: string)
    ensures var t := TrimLeft(s); (t != "" ==> !IsBlank(t[0])) && |t| <= |s| && t == s[|s| - |t|..]
    ensures forall i :: 0 <= i < |s| - |TrimLeft(s)| ==> IsBlank(s[i])
  {
    if s != "" && IsBlank(s[0]) {
      TrimLeftTrims(s[1..]);
    }
  }

  lemma {:induction false} TrimRightTrims(s: string)
    requires s != "" ==> !IsBlank(s[0])
    ensures var t := TrimRight(s); Trimmed(t) && |t| <= |s| && t == s[..|t|]
    ensures AllBlank(s[|TrimRight(s)|..])
  {
    if s != "" && IsBlank(s[|s| - 1]) {
      var front, t := s[..|s| - 1], TrimRight(s);
      TrimRightTrims(front);
      assert s[|t|..] == front[|t|..] + [s[|s| - 1]];
    }
  }

  predicate AllBlank(s: string) { forall i :: 0 <= i < |s| ==> IsBlank(s[i]) }

  /** Only white space goes, at both ends, and none stays there. */
  lemma StripTrims(s: string)
    ensures Trimmed(Strip(s))
    ensures exists left, right :: s == left + Strip(s) + right && AllBlank(left) && AllBlank(right)
  {
    hide Trimmed, TrimLeft, TrimRight;
    TrimLeftTrims(s);
    var t := TrimLeft(s);
    TrimRightTrims(t);
    var left, right := s[..|s| - |t|], t[|Strip(s)|..];
    assert t == Strip(s) + right;
    assert s == left + Strip(s) + right;
  }

  lemma StripKeeps(s: string)
    requires Trimmed(s)
    ensures Strip(s) == s && Strip([' '] + s) == s
  {
    assert ([' '] + s)[1..] == s;
    assert TrimLeft([' '] + s) == TrimLeft(s) == s;
  }

  // ---------- one character of the lexer ----------

  datatype Mode = Mode(depth: int, inString: bool)

  const TOP := Mode(0, false)

  predicate IsOpener(c: char) { c == '(' || c == '[' || c == '{' }
  predicate IsCloser(c: char) { c == ')' || c == ']' || c == '}' }

  /** How a character other than a backslash in a string changes the mode. */
  function Next(m: Mode, c: char): Mode {
    if m.inString then (if c == '"' then m.(inString := false) else m)
    else if c == '"' then m.(inString := true)
    else if IsOpener(c) then m.(depth := m.depth + 1)
    else if IsCloser(c) then m.(depth := m.depth - 1)
    else m
  }

  predicate Escapes(m: Mode, c: char) { m.inString && c == '\\' }

  predicate Separates(m: Mode, c: char) { !m.inString && c == ',' && m.depth == 0 }

  /** The raw pieces, and the mode at the end; None is the IndexError of a trailing backslash. */
  datatype Cut = Cut(pieces: seq<string>, mode: Mode)

  function Prefixed(s: string, c: Option<Cut>): Option<Cut> {
    match c
    case None => None
    case Some(cut) =>
      if cut.pieces == [] then c else Some(Cut([s + cut.pieces[0]] + cut.pieces[1..], cut.mode))
  }

  function Scan(text: string, m: Mode): (r: Option<Cut>)
    ensures r.Some? ==> |r.value.pieces| > 0
    decreases |text|
  {
    if text == "" then Some(Cut([""], m))
    else if Escapes(m, text[0]) then
      if |text| < 2 then None else Prefixed(text[..2], Scan(text[2..], m))
    else if Separates(m, text[0]) then
      match Scan(text[1..], m)
      case None => None
      case Some(cut) => Some(Cut([""] + cut.pieces, cut.mode))
    else
      Prefixed(text[..1], Scan(text[1..], Next(m, text[0])))
  }

  /** Every piece stripped, the last one only if anything is in it. */
  function Finish(pieces: seq<string>): seq<string>
    requires |pieces| > 0
  {
    if |pieces| == 1 then (if pieces[0] == "" then [] else [Strip(pieces[0])])
    else [Strip(pieces[0])] + Finish(pieces[1..])
  }

  function Arguments(text: string): Option<seq<string>> {
    match Scan(text, TOP)
    case None => None
    case Some(cut) => Some(Finish(cut.pieces))
  }

  /** The result of going on from `current` with the rest of the text. */
  function Rest(parts: seq<string>, current: string, text: string, m: Mode): Option<seq<string>> {
    match Prefixed(current, Scan(text, m))
    case None => None
    case Some(cut) => if cut.pieces == [] then None else Some(parts + Finish(cut.pieces))
  }

  lemma RestEscape(parts: seq<string>, current: string, text: string, m: Mode)
    requires text != "" && Escapes(m, text[0])
    ensures Rest(parts, current, text, m)
         == if |text| < 2 then None else Rest(parts, current + [text[0]] + [text[1]], text[2..], m)
  {
    hide Finish;
    if |text| >= 2 {
      assert text[..2] == [text[0]] + [text[1]];
      Twice(current, text[..2], Scan(text[2..], m));
      assert current + text[..2] == current + [text[0]] + [text[1]];
    }
  }

  lemma Twice(a: string, b: string, c: Option<Cut>)
    ensures Prefixed(a, Prefixed(b, c)) == Prefixed(a + b, c)
  {
    if c.Some? && c.value.pieces != [] {
      var p := c.value.pieces;
      assert a + (b + p[0]) == a + b + p[0];
      assert ([b + p[0]] + p[1..])[1..] == p[1..];
    }
  }

  lemma RestComma(parts: seq<string>, current: string, text: string, m: Mode)
    requires text != "" && Separates(m, text[0])
    ensures Rest(parts, current, text, m) == Rest(parts + [Strip(current)], "", text[1..], m)
  {
    hide Strip;
    var c := Scan(text[1..], m);
    if c.Some? {
      var p := c.value.pieces;
      assert current + "" == current && "" + p[0] == p[0];
      assert ([""] + p)[1..] == p && [p[0]] + p[1..] == p;
      assert ([current] + p)[1..] == p;
      assert Finish([current] + p) == [Strip(current)] + Finish(p);
      assert parts + ([Strip(current)] + Finish(p)) == parts + [Strip(current)] + Finish(p);
    }
  }

  lemma RestOther(parts: seq<string>, current: string, text: string, m: Mode)
    requires text != "" && !Escapes(m, text[0]) && !Separates(m, text[0])
    ensures Rest(parts, current, text, m) == Rest(parts, current + [text[0]], text[1..], Next(m, text[0]))
  {
    hide Finish;
    Twice(current, text[..1], Scan(text[1..], Next(m, text[0])));
    assert text[..1] == [text[0]];
  }

  lemma RestEnd(parts: seq<string>, current: string, m: Mode)
    ensures Rest(parts, current, "", m) == Some(if current == "" then parts else parts + [Strip(current)])
  {
    hide Strip;
    assert current + "" == current;
    assert [""][1..] == [] && [current] + [] == [current];
    assert parts + [] == parts;
  }

  method Split(text: string) returns (r: Option<seq<string>>)
    ensures r == Arguments(text)
  {
    hide Scan, Rest, Strip;
    var parts: seq<string>, depth, inString, current := [], 0, false, "";
    var i := 0;
    RestStart(text);
    assert text[0..] == text;
    while i < |text|
      invariant i <= |text|
      invariant Rest(parts, current, text[i..], Mode(depth, inString)) == Arguments(text)
      decreases |text| - i
    {
      ghost var m, rest := Mode(depth, inString), text[i..];
      var ch := text[i];
      if inString {
        if ch == '\\' {
          RestEscape(parts, current, rest, m);
          if i + 1 >= |text| {
            return None;
          }
          current := current + [ch] + [text[i + 1]];
          i := i + 2;
          assert text[i..] == rest[2..];
          continue;
        }
        RestOther(parts, current, rest, m);
        current := current + [ch];
        if ch == '"' {
          inString := false;
        }
      } else if ch == '"' {
        RestOther(parts, current, rest, m);
        inString := true;
        current := current + [ch];
      } else if IsOpener(ch) {
        RestOther(parts, current, rest, m);
        depth := depth + 1;
        current := current + [ch];
      } else if IsCloser(ch) {
        RestOther(parts, current, rest, m);
        depth := depth - 1;
        current := current + [ch];
      } else if ch == ',' && depth == 0 {
        RestComma(parts, current, rest, m);
        parts := parts + [Strip(current)];
        current := "";
      } else {
        RestOther(parts, current, rest, m);
        current := current + [ch];
      }
      i := i + 1;
      assert text[i..] == rest[1..];
    }
    assert text[i..] == "";
    RestEnd(parts, current, Mode(depth, inString));
    if current != "" {
      parts := parts + [Strip(current)];
    }
    return Some(parts);
  }

  lemma RestStart(text: string)
    ensures Rest([], "", text, TOP) == Arguments(text)
  {
    var c := Scan(text, TOP);
    if c.Some? {
      var p := c.value.pieces;
      assert "" + p[0] == p[0] && [p[0]] + p[1..] == p;
      assert [] + Finish(p) == Finish(p);
    }
  }

  // ---------- nothing is lost, and joining is undone ----------

  lemma JoinHead(a: string, p: seq<string>, sep: string)
    requires |p| > 0
    ensures Join([a + p[0]] + p[1..], sep) == a + Join(p, sep)
    ensures Join([""] + p, sep) == sep + Join(p, sep)
  {
    assert ([a + p[0]] + p[1..])[1..] == p[1..];
    assert ([""] + p)[1..] == p;
  }

  /** The raw pieces with commas between them are the text. */
  lemma {:induction false} PiecesCover(text: string, m: Mode)
    requires Scan(text, m).Some?
    ensures Join(Scan(text, m).value.pieces, ",") == text
    decreases |text|
  {
    hide Join;
    if text == "" {
      JoinOne("");
    } else if Escapes(m, text[0]) {
      PiecesCover(text[2..], m);
      JoinHead(text[..2], Scan(text[2..], m).value.pieces, ",");
    } else if Separates(m, text[0]) {
      PiecesCover(text[1..], m);
      JoinHead("", Scan(text[1..], m).value.pieces, ",");
      assert text == "," + text[1..];
    } else {
      PiecesCover(text[1..], Next(m, text[0]));
      JoinHead(text[..1], Scan(text[1..], Next(m, text[0])).value.pieces, ",");
    }
  }

  lemma JoinOne(s: string)
    ensures Join([s], ",") == s
  {
  }

  /** Scanned from the top it is one piece, and the scanner is back at the top after it. */
  predicate IsArgument(a: string) {
    a != "" && Trimmed(a) && Scan(a, TOP) == Some(Cut([a], TOP))
  }

  /** Scanning a text that yields one piece, then whatever follows it. */
  lemma {:induction false} ScanAppend(a: string, tail: string, m: Mode)
    requires Scan(a, m).Some? && |Scan(a, m).value.pieces| == 1
    ensures Scan(a + tail, m) == Prefixed(a, Scan(tail, Scan(a, m).value.mode))
    decreases |a|
  {
    hide Escapes, Separates, Next;
    var t := a + tail;
    if a == "" {
      assert t == tail;
      PrefixNothing(Scan(tail, m));
    } else {
      var escapes := Escapes(m, a[0]);
      var k, n := if escapes then 2 else 1, if escapes then m else Next(m, a[0]);
      assert t[k..] == a[k..] + tail && t[..k] == a[..k];
      assert Scan(a, m) == Prefixed(a[..k], Scan(a[k..], n)) && Scan(t, m) == Prefixed(a[..k], Scan(t[k..], n));
      hide Scan;
      ScanAppend(a[k..], tail, n);
      Twice(a[..k], a[k..], Scan(tail, Scan(a, m).value.mode));
      assert a[..k] + a[k..] == a;
    }
  }

  lemma PrefixNothing(c: Option<Cut>)
    ensures Prefixed("", c) == c
  {
    if c.Some? && c.value.pieces != [] {
      var p := c.value.pieces;
      assert "" + p[0] == p[0] && [p[0]] + p[1..] == p;
    }
  }

  predicate AllArguments(args: seq<string>) {
    forall i :: 0 <= i < |args| ==> IsArgument(args[i])
  }

  /** The pieces of a joined list: all after the first begin with the space of the separator. */
  function Spaced(args: seq<string>): (p: seq<string>)
    ensures |p| == |args|
  {
    seq(|args|, i requires 0 <= i < |args| => [' '] + args[i])
  }

  lemma SpaceFirst(text: string)
    ensures Scan([' '] + text, TOP) == Prefixed(" ", Scan(text, TOP))
  {
    assert ([' '] + text)[1..] == text && ([' '] + text)[..1] == " ";
  }

  lemma {:induction false} ScanJoined(args: seq<string>)
    requires args != [] && AllArguments(args)
    ensures Scan(Join(args, ", "), TOP) == Some(Cut([args[0]] + Spaced(args[1..]), TOP))
  {
    hide Scan, Trimmed;
    if |args| == 1 {
      assert [args[0]] + Spaced(args[1..]) == [args[0]];
    } else {
      var rest := args[1..];
      var tail := Join(rest, ", ");
      ScanJoined(rest);
      ScanAppend(args[0], ", " + tail, TOP);
      CommaFirst([' '] + tail);
      SpaceFirst(tail);
      assert ", " + tail == [','] + ([' '] + tail);
      assert args[0] + ", " + tail == args[0] + (", " + tail);
      assert " " + rest[0] == [' '] + rest[0];
      assert Spaced(rest) == [[' '] + rest[0]] + Spaced(rest[1..]);
      assert ([rest[0]] + Spaced(rest[1..]))[1..] == Spaced(rest[1..]);
      assert args[0] + "" == args[0];
      assert ([""] + Spaced(rest))[1..] == Spaced(rest);
    }
  }

  lemma CommaFirst(text: string)
    ensures Scan([','] + text, TOP)
         == match Scan(text, TOP) case None => None case Some(cut) => Some(Cut([""] + cut.pieces, cut.mode))
  {
    assert ([','] + text)[1..] == text;
  }

  lemma {:induction false} FinishSpaced(args: seq<string>)
    requires args != [] && AllArguments(args)
    ensures Finish(Spaced(args)) == args
  {
    hide Strip, Scan, Trimmed;
    StripKeeps(args[0]);
    if |args| > 1 {
      FinishSpaced(args[1..]);
      assert Spaced(args)[1..] == Spaced(args[1..]);
    }
  }

  lemma FinishJoined(args: seq<string>)
    requires args != [] && AllArguments(args)
    ensures Finish([args[0]] + Spaced(args[1..])) == args
  {
    hide Strip, Scan, Trimmed;
    StripKeeps(args[0]);
    var p := [args[0]] + Spaced(args[1..]);
    if |args| > 1 {
      FinishSpaced(args[1..]);
      assert p[1..] == Spaced(args[1..]);
      assert [args[0]] + args[1..] == args;
    } else {
      assert p == [args[0]] == args;
    }
  }

  /** Joining well-formed arguments with comma and space and splitting gives them back. */
  lemma SplitUndoesJoin(args: seq<string>)
    requires AllArguments(args)
    ensures Arguments(Join(args, ", ")) == Some(args)
  {
    if args != [] {
      hide Finish, Scan, Join, IsArgument;
      ScanJoined(args);
      FinishJoined(args);
    }
  }

  // ---------- balanced arguments, as trees ----------

  const OPENERS := "([{"
  const CLOSERS := ")]}"
  const COMMA := ","

  predicate OnePiece(s: string, from: Mode, to: Mode) {
    Scan(s, from) == Some(Cut([s], to))
  }

  lemma OnePieceAppend(a: string, b: string, m: Mode, n: Mode, o: Mode)
    requires OnePiece(a, m, n) && OnePiece(b, n, o)
    ensures OnePiece(a + b, m, o)
  {
    hide Scan;
    ScanAppend(a, b, m);
    assert [a + b] + [b][1..] == [a + b];
  }

  lemma OneChar(c: char, m: Mode)
    requires !Escapes(m, c) && !Separates(m, c)
    ensures OnePiece([c], m, Next(m, c))
  {
    assert [c][1..] == "" && [c][..1] == [c];
    assert [c] + "" == [c] && [[c]] + [""][1..] == [[c]];
  }

  lemma OneEscape(c: char, m: Mode)
    requires m.inString
    ensures OnePiece(['\\', c], m, m)
  {
    assert ['\\', c][2..] == "" && ['\\', c][..2] == ['\\', c];
    assert ['\\', c] + "" == ['\\', c] && [['\\', c]] + [""][1..] == [['\\', c]];
  }

  lemma EmptyIsOnePiece(m: Mode)
    ensures OnePiece("", m, m)
  {
  }

  /** A piece from each comma to the next, and the scanner is at the top at every comma. */
  predicate Pieces(ps: seq<string>, m: Mode, end: Mode) {
    && ps != []
    && if |ps| == 1 then OnePiece(ps[0], m, end) else OnePiece(ps[0], m, TOP) && Pieces(ps[1..], TOP, end)
  }

  lemma PiecesPrefixed(a: string, ps: seq<string>, m: Mode, n: Mode, end: Mode)
    requires OnePiece(a, m, n) && Pieces(ps, n, end)
    ensures Pieces([a + ps[0]] + ps[1..], m, end)
  {
    hide OnePiece;
    OnePieceAppend(a, ps[0], m, n, if |ps| == 1 then end else TOP);
    assert ([a + ps[0]] + ps[1..])[1..] == ps[1..];
  }

  lemma {:induction false} ScanPieces(text: string, m: Mode)
    requires Scan(text, m).Some?
    ensures Pieces(Scan(text, m).value.pieces, m, Scan(text, m).value.mode)
    decreases |text|
  {
    hide OnePiece;
    if text == "" {
      EmptyIsOnePiece(m);
    } else if Escapes(m, text[0]) {
      ScanPieces(text[2..], m);
      var cut := Scan(text[2..], m).value;
      assert text[..2] == ['\\', text[1]];
      OneEscape(text[1], m);
      PiecesPrefixed(text[..2], cut.pieces, m, m, cut.mode);
    } else if Separates(m, text[0]) {
      ScanPieces(text[1..], m);
      EmptyIsOnePiece(TOP);
      var p := Scan(text[1..], m).value.pieces;
      assert m == TOP && ([""] + p)[1..] == p;
    } else {
      var n := Next(m, text[0]);
      ScanPieces(text[1..], n);
      var cut := Scan(text[1..], n).value;
      assert text[..1] == [text[0]];
      OneChar(text[0], m);
      PiecesPrefixed(text[..1], cut.pieces, m, n, cut.mode);
    }
  }

  /** There is no other way to cut a text at commas into such pieces than the scanner's. */
  lemma {:induction false} ScanExact(text: string, m: Mode, ps: seq<string>, end: Mode)
    ensures Scan(text, m) == Some(Cut(ps, end)) <==> Join(ps, ",") == text && Pieces(ps, m, end)
    decreases |ps|
  {
    hide Scan;
    if Scan(text, m) == Some(Cut(ps, end)) {
      PiecesCover(text, m);
      ScanPieces(text, m);
    }
    if |ps| == 1 {
      assert [ps[0]] == ps;
    } else if Join(ps, ",") == text && Pieces(ps, m, end) {
      ScanExact(Join(ps[1..], ","), TOP, ps[1..], end);
      ScanPrefix(ps[0], ps[1..], m, end);
      assert [ps[0]] + ps[1..] == ps;
    }
  }

  lemma ScanPrefix(first: string, rest: seq<string>, m: Mode, end: Mode)
    requires OnePiece(first, m, TOP) && Scan(Join(rest, ","), TOP) == Some(Cut(rest, end))
    ensures Scan(first + "," + Join(rest, ","), m) == Some(Cut([first] + rest, end))
  {
    hide Scan, Join;
    var tail := Join(rest, ",");
    assert first + "," + tail == first + ([','] + tail);
    ScanAppend(first, [','] + tail, m);
    CommaFirst(tail);
    assert first + "" == first && ([""] + rest)[1..] == rest;
  }

  lemma {:induction false} FinishExact(ps: seq<string>)
    requires ps != []
    ensures var n := if ps[|ps| - 1] == "" then |ps| - 1 else |ps|;
      Finish(ps) == seq(n, i requires 0 <= i < n => Strip(ps[i]))
  {
    hide Strip;
    if |ps| > 1 {
      FinishExact(ps[1..]);
    }
  }

  /** The result is the stripped pieces of the only cut, without the last if nothing is in it. */
  lemma ArgumentsExact(ps: seq<string>, end: Mode)
    requires Pieces(ps, TOP, end)
    ensures var n := if ps[|ps| - 1] == "" then |ps| - 1 else |ps|;
      Arguments(Join(ps, ",")) == Some(seq(n, i requires 0 <= i < n => Strip(ps[i])))
  {
    hide Scan, Strip, Pieces, Finish;
    ScanExact(Join(ps, ","), TOP, ps, end);
    FinishExact(ps);
  }

  lemma {:induction false} QuotedIsOnePiece(body: seq<QuotedChar>, m: Mode)
    requires GoodBody(body) && m.inString
    ensures OnePiece(ShowQuoted(body), m, m)
  {
    hide Scan;
    if body == [] {
      EmptyIsOnePiece(m);
    } else {
      QuotedIsOnePiece(body[1..], m);
      match body[0] {
        case Raw(c) =>
          OneChar(c, m);
          OnePieceAppend([c], ShowQuoted(body[1..]), m, m, m);
        case Escaped(c) =>
          OneEscape(c, m);
          OnePieceAppend(['\\', c], ShowQuoted(body[1..]), m, m, m);
      }
    }
  }

  /** A well-formed tree is one piece wherever it stands: at the top without commas, deeper with any. */
  lemma {:induction false} ShapeIsOnePiece(t: Shape, depth: nat)
    requires WellFormed(t, OPENERS, CLOSERS, if depth == 0 then COMMA else "")
    ensures OnePiece(Show(t), Mode(depth, false), Mode(depth, false))
  {
    hide Scan, OnePiece;
    var m := Mode(depth, false);
    match t
    case Empty =>
      EmptyIsOnePiece(m);
    case Char(c, rest) =>
      ShapeIsOnePiece(rest, depth);
      OneChar(c, m);
      OnePieceAppend([c], Show(rest), m, m, m);
    case Quoted(body, rest) =>
      var n := Mode(depth, true);
      ShapeIsOnePiece(rest, depth);
      QuotedIsOnePiece(body, n);
      OneChar('"', m);
      OneChar('"', n);
      OnePieceAppend("\"", ShowQuoted(body), m, n, n);
      OnePieceAppend("\"" + ShowQuoted(body), "\"", m, n, m);
      OnePieceAppend("\"" + ShowQuoted(body) + "\"", Show(rest), m, m, m);
    case Group(open, inner, close, rest) =>
      var n := Mode(depth + 1, false);
      ShapeIsOnePiece(inner, depth + 1);
      ShapeIsOnePiece(rest, depth);
      OneChar(open, m);
      OneChar(close, n);
      OnePieceAppend([open], Show(inner), m, n, n);
      OnePieceAppend([open] + Show(inner), [close], m, n, m);
      OnePieceAppend([open] + Show(inner) + [close], Show(rest), m, m, m);
  }

  predicate GoodArgument(t: Shape) {
    WellFormed(t, OPENERS, CLOSERS, COMMA) && Show(t) != "" && Trimmed(Show(t))
  }

  function ShowAll(ts: seq<Shape>): (args: seq<string>)
    ensures |args| == |ts|
  {
    seq(|ts|, i requires 0 <= i < |ts| => Show(ts[i]))
  }

  /**
    Non-empty trimmed arguments, balanced and without a comma at the top outside strings,
    come back from their comma-space join.
   */
  lemma SplitUndoesJoinOfShapes(ts: seq<Shape>)
    requires forall i :: 0 <= i < |ts| ==> GoodArgument(ts[i])
    ensures Arguments(Join(ShowAll(ts), ", ")) == Some(ShowAll(ts))
  {
    hide Arguments, WellFormed, Scan, Trimmed;
    forall i | 0 <= i < |ts| ensures IsArgument(ShowAll(ts)[i]) {
      ShapeIsOnePiece(ts[i], 0);
    }
    SplitUndoesJoin(ShowAll(ts));
  }
}
