/**
  Source text as a tree: plain characters, string literals with escapes, and bracketed
  groups. It says what "balanced" means without running a scanner.
 */
module Shapes {

  datatype QuotedChar = Raw(c: char) | Escaped(c: char)

  datatype Shape =
    | Empty
    | Char(c: char, rest: Shape)
    | Quoted(body: seq<QuotedChar>, rest: Shape)
    | Group(open: char, inner: Shape, close: char, rest: Shape)

  function ShowQuoted(body: seq<QuotedChar>): string {
    if body == [] then "" else
    (match body[0] case Raw(c) => [c] case Escaped(c) => ['\\', c]) + ShowQuoted(body[1..])
  }

  function Show(t: Shape): string {
    match t
    case Empty => ""
    case Char(c, rest) => [c] + Show(rest)
    case Quoted(body, rest) => "\"" + ShowQuoted(body) + "\"" + Show(rest)
    case Group(open, inner, close, rest) => [open] + Show(inner) + [close] + Show(rest)
  }

  predicate GoodBody(body: seq<QuotedChar>) {
    forall i :: 0 <= i < |body| ==> body[i].Raw? ==> body[i].c != '"' && body[i].c != '\\'
  }

  /** Brackets only as groups, quotes only around literals, and at the top no separator. */
  predicate WellFormed(t: Shape, openers: string, closers: string, separators: string) {
    match t
    case Empty => true
    case Char(c, rest) =>
      c != '"' && c !in openers && c !in closers && c !in separators && WellFormed(rest, openers, closers, separators)
    case Quoted(body, rest) => GoodBody(body) && WellFormed(rest, openers, closers, separators)
    case Group(open, inner, close, rest) =>
      open in openers && close in closers
      && WellFormed(inner, openers, closers, "") && WellFormed(rest, openers, closers, separators)
  }
}
