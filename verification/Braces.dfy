/** The brace matcher of `icd-source.py` and the loop that lists the blocks of an initializer. */
module Braces {
  import opened Basics
  import opened Shapes

  const OPENER := '{'
  const CLOSER := '}'

  /** The text inside the braces, and where the search goes on. */
  datatype Block = Block(body: string, end: nat)

  datatype Mode = Mode(depth: nat, inString: bool)

  /** text.index(opener, start), with the length for the ValueError. */
  function OpenAt(text: string, start: nat): (k: nat)
    ensures k >= start
    ensures k < |text| ==> text[k] == OPENER && forall i :: start <= i < k ==> text[i] != OPENER
    ensures k >= |text| ==> forall i :: start <= i < |text| ==> text[i] != OPENER
    decreases |text| - start
  {
    if start >= |text| || text[start] == OPENER then start else OpenAt(text, start + 1)
  }

  function Next(m: Mode, c: char): Mode
    requires m.depth > 0
  {
    if m.inString then (if c == '"' then m.(inString := false) else m)
    else if c == '"' then m.(inString := true)
    else if c == OPENER then m.(depth := m.depth + 1)
    else if c == CLOSER then m.(depth := m.depth - 1)
    else m
  }

  datatype Stop = Stop(at: nat, depth: nat)

  /** Where the scan stops: at depth zero or at the end of the text, which an escape can overrun by one. */
  function StopAt(text: string, i: nat, m: Mode): (s: Stop)
    requires i <= |text| + 1
    ensures i <= s.at <= |text| + 1
    decreases |text| + 1 - i
  {
    if i >= |text| || m.depth == 0 then Stop(i, m.depth)
    else if m.inString && text[i] == '\\' then StopAt(text, i + 2, m)
    else StopAt(text, i + 1, Next(m, text[i]))
  }

  /** text[begin + 1 : i - 1]; both bounds are in range except that i can pass the end by one. */
  function Body(text: string, begin: nat, i: nat): string
    requires begin < |text| && begin < i <= |text| + 1
  {
    if begin + 1 <= i - 1 then text[begin + 1..i - 1] else ""
  }

  function Balanced(text: string, start: nat): (r: Option<Block>)
    ensures r.Some? ==> start < r.value.end <= |text| + 1
  {
    var begin := OpenAt(text, start);
    if begin >= |text| then None else
    var i := StopAt(text, begin + 1, Mode(1, false)).at;
    Some(Block(Body(text, begin, i), i))
  }

  method FindBalanced(text: string, start: nat) returns (r: Option<Block>)
    ensures r == Balanced(text, start)
  {
    var begin := OpenAt(text, start);
    if begin >= |text| {
      return None;
    }
    var depth, i, inString := 1, begin + 1, false;
    while i < |text| && depth > 0
      invariant begin < i <= |text| + 1 && 0 <= depth
      invariant StopAt(text, i, Mode(depth, inString)) == StopAt(text, begin + 1, Mode(1, false))
      decreases |text| + 1 - i
    {
      var ch := text[i];
      if inString {
        if ch == '\\' {
          i := i + 2;
          continue;
        }
        if ch == '"' {
          inString := false;
        }
      } else if ch == '"' {
        inString := true;
      } else if ch == OPENER {
        depth := depth + 1;
      } else if ch == CLOSER {
        depth := depth - 1;
      }
      i := i + 1;
    }
    return Some(Block(Body(text, begin, i), i));
  }

  function Blocks(text: string, position: nat): seq<string>
    decreases |text| + 1 - position
  {
    match Balanced(text, position)
    case None => []
    case Some(block) => [block.body] + Blocks(text, block.end)
  }

  /** The loop ends when no opener is left: every block moves the position forward. */
  method ListBlocks(text: string) returns (blocks: seq<string>)
    ensures blocks == Blocks(text, 0)
  {
    blocks := [];
    var position := 0;
    while true
      invariant position <= |text| + 1
      invariant blocks + Blocks(text, position) == Blocks(text, 0)
      decreases |text| + 1 - position
    {
      var r := FindBalanced(text, position);
      if r.None? {
        break;
      }
      assert blocks + ([r.value.body] + Blocks(text, r.value.end)) == blocks + [r.value.body] + Blocks(text, r.value.end);
      blocks := blocks + [r.value.body];
      position := r.value.end;
    }
  }

  // ---------- balanced bodies ----------

  /** From index i in mode m the scan walks over `part` and goes on after it in mode n. */
  predicate Walks(text: string, i: nat, part: string, m: Mode, n: Mode) {
    && i + |part| <= |text|
    && text[i..i + |part|] == part
    && StopAt(text, i, m) == StopAt(text, i + |part|, n)
  }

  lemma WalksAppend(text: string, i: nat, a: string, b: string, m: Mode, n: Mode, o: Mode)
    requires Walks(text, i, a, m, n) && Walks(text, i + |a|, b, n, o)
    ensures Walks(text, i, a + b, m, o)
  {
    assert text[i..i + |a + b|] == text[i..i + |a|] + text[i + |a|..i + |a| + |b|];
  }

  lemma WalksOne(text: string, i: nat, m: Mode)
    requires i < |text| && m.depth > 0 && !(m.inString && text[i] == '\\')
    ensures Walks(text, i, [text[i]], m, Next(m, text[i]))
  {
  }

  lemma {:induction false} WalksQuoted(text: string, i: nat, body: seq<QuotedChar>, m: Mode)
    requires GoodBody(body) && m.inString && m.depth > 0
    requires i + |ShowQuoted(body)| <= |text| && text[i..i + |ShowQuoted(body)|] == ShowQuoted(body)
    ensures Walks(text, i, ShowQuoted(body), m, m)
    decreases |body|
  {
    if body != [] {
      var rest := ShowQuoted(body[1..]);
      var n := |ShowQuoted(body)| - |rest|;
      assert ShowQuoted(body)[n..] == rest;
      assert text[i + n..i + n + |rest|] == text[i..i + |ShowQuoted(body)|][n..];
      WalksQuoted(text, i + n, body[1..], m);
      assert text[i] == text[i..i + |ShowQuoted(body)|][0];
    }
  }

  /** An opening character, something walked over, and the character that undoes the opening. */
  lemma WalksEnclosed(text: string, i: nat, open: char, s: string, close: char, m: Mode, n: Mode)
    requires i + |s| + 2 <= |text| && text[i..i + |s| + 2] == [open] + s + [close]
    requires m.depth > 0 && n.depth > 0 && !m.inString && close != '\\'
    requires Next(m, open) == n && Next(n, close) == m && Walks(text, i + 1, s, n, n)
    ensures Walks(text, i, [open] + s + [close], m, m)
  {
    hide Walks, StopAt, Next;
    Part(text, i, [open] + s, [close]);
    Part(text, i, [open], s);
    WalksOne(text, i, m);
    WalksOne(text, i + 1 + |s|, n);
    WalksAppend(text, i, [open], s, m, n, n);
    WalksAppend(text, i, [open] + s, [close], m, n, m);
  }

  /** A well-formed tree between braces leaves the depth as it was, whatever stands around it. */
  lemma {:induction false} WalksShape(text: string, i: nat, t: Shape, depth: nat)
    requires WellFormed(t, [OPENER], [CLOSER], "") && depth > 0
    requires i + |Show(t)| <= |text| && text[i..i + |Show(t)|] == Show(t)
    ensures Walks(text, i, Show(t), Mode(depth, false), Mode(depth, false))
    decreases t
  {
    hide Walks, StopAt;
    var m := Mode(depth, false);
    match t
    case Empty =>
      WalksNothing(text, i, m);
    case Char(c, rest) =>
      Part(text, i, [c], Show(rest));
      WalksOne(text, i, m);
      WalksShape(text, i + 1, rest, depth);
      WalksAppend(text, i, [c], Show(rest), m, m, m);
    case Quoted(body, rest) =>
      WalksLiteral(text, i, body, rest, depth);
    case Group(open, inner, close, rest) =>
      WalksGroup(text, i, open, inner, close, rest, depth);
  }

  lemma {:induction false} WalksLiteral(text: string, i: nat, body: seq<QuotedChar>, rest: Shape, depth: nat)
    requires GoodBody(body) && WellFormed(rest, [OPENER], [CLOSER], "") && depth > 0
    requires var s := "\"" + ShowQuoted(body) + "\"" + Show(rest); i + |s| <= |text| && text[i..i + |s|] == s
    ensures Walks(text, i, "\"" + ShowQuoted(body) + "\"" + Show(rest), Mode(depth, false), Mode(depth, false))
    decreases Quoted(body, rest), 0
  {
    hide Walks, StopAt, Show, WellFormed, ShowQuoted;
    var q, m := ShowQuoted(body), Mode(depth, false);
    var all := ['"'] + q + ['"'];
    Part(text, i, all, Show(rest));
    Part(text, i, ['"'] + q, ['"']);
    Part(text, i, ['"'], q);
    WalksQuoted(text, i + 1, body, Mode(depth, true));
    WalksEnclosed(text, i, '"', q, '"', m, Mode(depth, true));
    WalksShape(text, i + |all|, rest, depth);
    WalksAppend(text, i, all, Show(rest), m, m, m);
  }

  lemma {:induction false} WalksGroup(text: string, i: nat, open: char, inner: Shape, close: char, rest: Shape, depth: nat)
    requires open == OPENER && close == CLOSER && depth > 0
    requires WellFormed(inner, [OPENER], [CLOSER], "") && WellFormed(rest, [OPENER], [CLOSER], "")
    requires var s := [open] + Show(inner) + [close] + Show(rest); i + |s| <= |text| && text[i..i + |s|] == s
    ensures Walks(text, i, [open] + Show(inner) + [close] + Show(rest), Mode(depth, false), Mode(depth, false))
    decreases Group(open, inner, close, rest), 0
  {
    hide Walks, StopAt, Show, WellFormed, Next;
    var s, m, n := Show(inner), Mode(depth, false), Mode(depth + 1, false);
    var all := [open] + s + [close];
    GroupParts(text, i, open, s, close, Show(rest));
    OpensAndCloses(depth);
    WalksShape(text, i + 1, inner, depth + 1);
    WalksEnclosed(text, i, open, s, close, m, n);
    WalksShape(text, i + |all|, rest, depth);
    WalksAppend(text, i, all, Show(rest), m, m, m);
  }

  lemma OpensAndCloses(depth: nat)
    requires depth > 0
    ensures Next(Mode(depth, false), OPENER) == Mode(depth + 1, false) && Next(Mode(depth + 1, false), CLOSER) == Mode(depth, false)
  {
  }

  lemma GroupParts(text: string, i: nat, open: char, s: string, close: char, tail: string)
    requires var g := [open] + s + [close] + tail; i + |g| <= |text| && text[i..i + |g|] == g
    ensures i + |s| + 2 + |tail| <= |text|
    ensures text[i..i + |s| + 2] == [open] + s + [close] && text[i + 1..i + 1 + |s|] == s
    ensures text[i + |s| + 2..i + |s| + 2 + |tail|] == tail
  {
    Part(text, i, [open] + s + [close], tail);
    Part(text, i, [open] + s, [close]);
    Part(text, i, [open], s);
  }

  lemma WalksNothing(text: string, i: nat, m: Mode)
    requires i <= |text|
    ensures Walks(text, i, "", m, m)
  {
  }

  lemma Part(text: string, i: nat, a: string, b: string)
    requires i + |a + b| <= |text| && text[i..i + |a + b|] == a + b
    ensures text[i..i + |a|] == a && text[i + |a|..i + |a| + |b|] == b
    ensures a != "" ==> text[i] == a[0] && text[i + |a| - 1] == a[|a| - 1]
  {
    assert text[i..i + |a|] == text[i..i + |a + b|][..|a|];
    assert text[i + |a|..i + |a| + |b|] == text[i..i + |a + b|][|a|..];
    assert a != "" ==> text[i..i + |a|][0] == a[0] && text[i..i + |a|][|a| - 1] == a[|a| - 1];
  }

  /** A balanced body behind an opening brace: the scan stops just past its closing brace, at depth zero. */
  lemma StopsBehind(text: string, begin: nat, body: Shape, after: string)
    requires begin < |text| && text[begin + 1..] == Show(body) + [CLOSER] + after
    requires WellFormed(body, [OPENER], [CLOSER], "")
    ensures StopAt(text, begin + 1, Mode(1, false)) == Stop(begin + |Show(body)| + 2, 0)
    ensures Body(text, begin, begin + |Show(body)| + 2) == Show(body)
  {
    hide WellFormed, Show;
    var s, i := Show(body), begin + 1;
    assert text[i..][..|s|] == s && text[i..i + |s|] == text[i..][..|s|];
    assert text[i + |s|] == text[i..][|s|] == CLOSER;
    WalksShape(text, i, body, 1);
    assert StopAt(text, i + |s|, Mode(1, false)) == Stop(i + |s| + 1, 0);
  }

  /** The first block after `start` is found with exactly its body, and the end is just past its brace. */
  lemma FindsBlock(before: string, gap: string, body: Shape, after: string)
    requires OPENER !in gap && WellFormed(body, [OPENER], [CLOSER], "")
    ensures Balanced(before + gap + [OPENER] + Show(body) + [CLOSER] + after, |before|)
         == Some(Block(Show(body), |before| + |gap| + |Show(body)| + 2))
  {
    hide WellFormed, Show, StopAt, Body;
    var s := Show(body);
    var text := before + gap + [OPENER] + s + [CLOSER] + after;
    var begin := |before| + |gap|;
    assert forall i :: |before| <= i < begin ==> text[i] == gap[i - |before|];
    OpenIs(text, |before|, begin);
    assert text[begin + 1..] == s + [CLOSER] + after;
    StopsBehind(text, begin, body, after);
  }

  // ---------- a scan that comes back to depth zero has read a balanced body ----------

  /** What closes as many braces as there are trees: each tree and the brace behind it. */
  function Layers(ts: seq<Shape>): string {
    if ts == [] then "" else Show(ts[0]) + [CLOSER] + Layers(ts[1..])
  }

  predicate AllWellFormed(ts: seq<Shape>) {
    forall i :: 0 <= i < |ts| ==> WellFormed(ts[i], [OPENER], [CLOSER], "")
  }

  /** In a string the scan goes on to the quote that ends it. */
  lemma {:induction false} UnwindsQuoted(text: string, i: nat, m: Mode) returns (body: seq<QuotedChar>, j: nat)
    requires i <= |text| + 1 && m.depth > 0 && m.inString && StopAt(text, i, m).depth == 0
    ensures i <= j < |text| && GoodBody(body) && text[i..j] == ShowQuoted(body) && text[j] == '"'
    ensures StopAt(text, i, m) == StopAt(text, j + 1, m.(inString := false))
    decreases |text| + 1 - i
  {
    if text[i] == '"' {
      body, j := [], i;
    } else {
      var q := if text[i] == '\\' then Escaped(text[i + 1]) else Raw(text[i]);
      var n := if text[i] == '\\' then 2 else 1;
      var more;
      more, j := UnwindsQuoted(text, i + n, m);
      body := [q] + more;
      assert body[1..] == more && text[i..j] == text[i..i + n] + text[i + n..j];
    }
  }

  /** Something in front of the first tree, which it becomes part of. */
  lemma LayersFirst(a: string, t: Shape, more: seq<Shape>)
    requires more != [] && AllWellFormed(more) && WellFormed(t, [OPENER], [CLOSER], "") && Show(t) == a + Show(more[0])
    ensures Layers([t] + more[1..]) == a + Layers(more) && AllWellFormed([t] + more[1..])
  {
    hide Show, WellFormed;
    assert ([t] + more[1..])[1..] == more[1..];
    assert a + Show(more[0]) + [CLOSER] + Layers(more[1..]) == a + (Show(more[0]) + [CLOSER] + Layers(more[1..]));
  }

  /** A scan that comes back to depth zero has read one balanced text for every open brace. */
  lemma {:induction false} Unwinds(text: string, i: nat, m: Mode) returns (ts: seq<Shape>)
    requires i <= |text| && m.depth > 0 && !m.inString && StopAt(text, i, m).depth == 0
    ensures |ts| == m.depth && AllWellFormed(ts)
    ensures StopAt(text, i, m).at <= |text| && text[i..StopAt(text, i, m).at] == Layers(ts)
    decreases |text| - i
  {
    hide Layers, AllWellFormed;
    var c, k := text[i], StopAt(text, i, m).at;
    if c == '"' {
      var body, j := UnwindsQuoted(text, i + 1, m.(inString := true));
      var more := Unwinds(text, j + 1, m);
      ts := QuotedLayers(text, i, j, k, body, more);
    } else if c == OPENER {
      var more := Unwinds(text, i + 1, m.(depth := m.depth + 1));
      ts := OpenLayers(text, i, k, more);
    } else if c == CLOSER {
      var more: seq<Shape> := [];
      NoLayers();
      if m.depth > 1 {
        more := Unwinds(text, i + 1, m.(depth := m.depth - 1));
      }
      ts := CloseLayers(text, i, k, more);
    } else {
      var more := Unwinds(text, i + 1, m);
      ts := CharLayers(text, i, k, more);
    }
  }

  lemma QuotedLayers(text: string, i: nat, j: nat, k: nat, body: seq<QuotedChar>, more: seq<Shape>) returns (ts: seq<Shape>)
    requires i < j < k <= |text| && text[i] == '"' && text[j] == '"' && GoodBody(body) && text[i + 1..j] == ShowQuoted(body)
    requires more != [] && AllWellFormed(more) && text[j + 1..k] == Layers(more)
    ensures |ts| == |more| && AllWellFormed(ts) && text[i..k] == Layers(ts)
  {
    hide Layers;
    var t := Quoted(body, more[0]);
    ts := [t] + more[1..];
    LayersFirst("\"" + ShowQuoted(body) + "\"", t, more);
    assert text[i..k] == [text[i]] + text[i + 1..j] + [text[j]] + text[j + 1..k];
  }

  lemma OpenLayers(text: string, i: nat, k: nat, more: seq<Shape>) returns (ts: seq<Shape>)
    requires i < k <= |text| && text[i] == OPENER
    requires |more| >= 2 && AllWellFormed(more) && text[i + 1..k] == Layers(more)
    ensures |ts| == |more| - 1 && AllWellFormed(ts) && text[i..k] == Layers(ts)
  {
    var t, rest := Group(OPENER, more[0], CLOSER, more[1]), more[1..];
    ts := [t] + rest[1..];
    assert AllWellFormed(rest) && WellFormed(more[0], [OPENER], [CLOSER], "") && WellFormed(more[1], [OPENER], [CLOSER], "");
    LayersFirst([OPENER] + Show(more[0]) + [CLOSER], t, rest);
    hide Show, WellFormed;
    assert text[i..k] == [text[i]] + text[i + 1..k];
    assert Layers(more) == Show(more[0]) + [CLOSER] + Layers(rest);
  }

  lemma NoLayers()
    ensures Layers([]) == "" && AllWellFormed([])
  {
  }

  lemma CloseLayers(text: string, i: nat, k: nat, more: seq<Shape>) returns (ts: seq<Shape>)
    requires i < k <= |text| && text[i] == CLOSER
    requires AllWellFormed(more) && text[i + 1..k] == Layers(more)
    ensures |ts| == |more| + 1 && AllWellFormed(ts) && text[i..k] == Layers(ts)
  {
    ts := [Empty] + more;
    assert ts[1..] == more;
    assert text[i..k] == [text[i]] + text[i + 1..k];
  }

  lemma CharLayers(text: string, i: nat, k: nat, more: seq<Shape>) returns (ts: seq<Shape>)
    requires i < k <= |text| && text[i] != OPENER && text[i] != CLOSER && text[i] != '"'
    requires more != [] && AllWellFormed(more) && text[i + 1..k] == Layers(more)
    ensures |ts| == |more| && AllWellFormed(ts) && text[i..k] == Layers(ts)
  {
    hide Layers;
    var t := Char(text[i], more[0]);
    ts := [t] + more[1..];
    LayersFirst([text[i]], t, more);
    assert text[i..k] == [text[i]] + text[i + 1..k];
  }

  /**
    A block is complete, meaning that the scan stopped at depth zero, exactly when what stands
    behind its first brace is a balanced body and a closing brace; the body is then that body.
   */
  lemma BlockExact(text: string, start: nat, body: string)
    requires OpenAt(text, start) < |text|
    ensures var begin := OpenAt(text, start);
      StopAt(text, begin + 1, Mode(1, false)).depth == 0 && Balanced(text, start) == Some(Block(body, begin + |body| + 2))
      <==> exists t, after :: IsBlock(text, begin, t, after) && body == Show(t)
  {
    var begin := OpenAt(text, start);
    var stop := StopAt(text, begin + 1, Mode(1, false));
    assert Balanced(text, start) == Some(Block(Body(text, begin, stop.at), stop.at));
    hide *;
    if stop.depth == 0 {
      var t := CompleteBlock(text, begin);
    }
    if t, after :| IsBlock(text, begin, t, after) && body == Show(t) {
      BlockStops(text, begin, t, after);
    }
  }

  lemma BlockStops(text: string, begin: nat, t: Shape, after: string)
    requires IsBlock(text, begin, t, after)
    ensures begin < |text| && StopAt(text, begin + 1, Mode(1, false)) == Stop(begin + |Show(t)| + 2, 0)
    ensures Body(text, begin, begin + |Show(t)| + 2) == Show(t)
  {
    hide StopAt, Show, Body, WellFormed;
    StopsBehind(text, begin, t, after);
  }

  lemma CompleteBlock(text: string, begin: nat) returns (t: Shape)
    requires begin < |text| && StopAt(text, begin + 1, Mode(1, false)).depth == 0
    ensures var at := StopAt(text, begin + 1, Mode(1, false)).at;
      && at <= |text| && IsBlock(text, begin, t, text[at..])
      && Body(text, begin, at) == Show(t) && at == begin + |Show(t)| + 2
  {
    hide Show, WellFormed, StopAt;
    var at := StopAt(text, begin + 1, Mode(1, false)).at;
    var ts := Unwinds(text, begin + 1, Mode(1, false));
    t := ts[0];
    OneLayer(ts);
    assert text[begin + 1..at] == Show(t) + [CLOSER];
    WithoutLast(text, begin + 1, at, Show(t));
  }

  lemma WithoutLast(text: string, i: nat, at: nat, s: string)
    requires i <= at <= |text| && text[i..at] == s + [CLOSER]
    ensures at == i + |s| + 1 && text[i..at - 1] == s && text[i..] == s + [CLOSER] + text[at..]
  {
    assert text[i..] == text[i..at] + text[at..];
    assert |text[i..at]| == |s| + 1;
    assert text[i..at - 1] == text[i..at][..|s|];
  }

  lemma OneLayer(ts: seq<Shape>)
    requires |ts| == 1 && AllWellFormed(ts)
    ensures Layers(ts) == Show(ts[0]) + [CLOSER] && WellFormed(ts[0], [OPENER], [CLOSER], "")
  {
    hide Show, WellFormed;
    assert ts[1..] == [];
  }

  predicate IsBlock(text: string, begin: nat, t: Shape, after: string) {
    && begin < |text|
    && text[begin + 1..] == Show(t) + [CLOSER] + after
    && WellFormed(t, [OPENER], [CLOSER], "")
  }

  /** An unfinished block: everything behind its brace but the last character, or all of it when an escape ends the text. */
  lemma UnfinishedBlock(text: string, start: nat)
    requires OpenAt(text, start) < |text| && StopAt(text, OpenAt(text, start) + 1, Mode(1, false)).depth > 0
    ensures var begin, stop := OpenAt(text, start), StopAt(text, OpenAt(text, start) + 1, Mode(1, false));
      && stop.at >= |text|
      && Balanced(text, start) == Some(Block(if stop.at > |text| then text[begin + 1..]
                                             else if begin + 1 < |text| then text[begin + 1..|text| - 1] else "", stop.at))
  {
    StopsAtEnd(text, OpenAt(text, start) + 1, Mode(1, false));
    hide StopAt;
    assert text[OpenAt(text, start) + 1..|text|] == text[OpenAt(text, start) + 1..];
  }

  lemma {:induction false} StopsAtEnd(text: string, i: nat, m: Mode)
    requires i <= |text| + 1 && StopAt(text, i, m).depth > 0
    ensures StopAt(text, i, m).at >= |text|
    decreases |text| + 1 - i
  {
    if i < |text| && m.depth > 0 {
      if m.inString && text[i] == '\\' {
        StopsAtEnd(text, i + 2, m);
      } else {
        StopsAtEnd(text, i + 1, Next(m, text[i]));
      }
    }
  }

  lemma {:induction false} OpenIs(text: string, start: nat, k: nat)
    requires start <= k < |text| && text[k] == OPENER && forall i :: start <= i < k ==> text[i] != OPENER
    ensures OpenAt(text, start) == k
  {
  }

  /** One block of an initializer and what stands before it. */
  datatype Item = Item(gap: string, body: Shape)

  predicate GoodItems(items: seq<Item>) {
    forall i :: 0 <= i < |items| ==> OPENER !in items[i].gap && WellFormed(items[i].body, [OPENER], [CLOSER], "")
  }

  function ShowItems(items: seq<Item>): string {
    if items == [] then "" else
    items[0].gap + [OPENER] + Show(items[0].body) + [CLOSER] + ShowItems(items[1..])
  }

  function Bodies(items: seq<Item>): (b: seq<string>)
    ensures |b| == |items|
  {
    seq(|items|, i requires 0 <= i < |items| => Show(items[i].body))
  }

  function ShowItem(item: Item): string {
    item.gap + [OPENER] + Show(item.body) + [CLOSER]
  }

  lemma ListsOne(before: string, item: Item, after: string)
    requires OPENER !in item.gap && WellFormed(item.body, [OPENER], [CLOSER], "")
    ensures var text := before + ShowItem(item) + after;
      Blocks(text, |before|) == [Show(item.body)] + Blocks(text, |before + ShowItem(item)|)
  {
    hide WellFormed, Show, OpenAt, Balanced;
    FindsBlock(before, item.gap, item.body, after);
    assert before + ShowItem(item) + after == before + item.gap + [OPENER] + Show(item.body) + [CLOSER] + after;
  }

  lemma {:induction false} ListsFrom(before: string, items: seq<Item>, tail: string)
    requires GoodItems(items) && OPENER !in tail
    ensures Blocks(before + ShowItems(items) + tail, |before|) == Bodies(items)
    decreases |items|
  {
    hide WellFormed, Show, ShowItem, Blocks;
    if items == [] {
      assert before + ShowItems(items) + tail == before + tail;
      NoBlock(before, tail);
    } else {
      var head, others := ShowItem(items[0]), items[1..];
      ShowItemsCons(items);
      ListsOne(before, items[0], ShowItems(others) + tail);
      assert before + ShowItems(items) + tail == before + head + (ShowItems(others) + tail);
      ListsFrom(before + head, others, tail);
      assert before + head + ShowItems(others) + tail == before + head + (ShowItems(others) + tail);
      assert Bodies(items) == [Show(items[0].body)] + Bodies(others);
    }
  }

  lemma ShowItemsCons(items: seq<Item>)
    requires items != []
    ensures ShowItems(items) == ShowItem(items[0]) + ShowItems(items[1..])
  {
  }

  lemma NoBlock(before: string, tail: string)
    requires OPENER !in tail
    ensures Balanced(before + tail, |before|) == None && Blocks(before + tail, |before|) == []
  {
    var text := before + tail;
    assert forall i :: |before| <= i < |text| ==> text[i] == tail[i - |before|];
  }

  /** Every block of a sequence is listed, complete and in order. */
  lemma ListsAllBlocks(items: seq<Item>, tail: string)
    requires GoodItems(items) && OPENER !in tail
    ensures Blocks(ShowItems(items) + tail, 0) == Bodies(items)
  {
    hide ShowItems, Blocks, Bodies, GoodItems;
    ListsFrom("", items, tail);
    assert "" + ShowItems(items) + tail == ShowItems(items) + tail;
  }
}
