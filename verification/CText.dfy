/** Terminated C text: splitting into pieces, and `strtoul` with base 0 (section 7.22.1.4 of ISO C11). */
module CText {
  import opened Basics

  /** A string without the terminator; reading one past its end gives the terminator. */
  type CString = s: string | '\0' !in s witness ""

  function At(s: string, i: nat): char { if i < |s| then s[i] else '\0' }

  // ---------- pieces ----------

  function Find(s: string, sep: char): (k: nat)
    ensures k <= |s| && sep !in s[..k]
    ensures k < |s| ==> s[k] == sep
  {
    if s == [] || s[0] == sep then 0 else
    var k := 1 + Find(s[1..], sep);
    assert s[..k] == [s[0]] + s[1..][..k - 1];
    k
  }

  function Split(s: string, sep: char): (pieces: seq<string>)
    ensures |pieces| > 0
    decreases |s|
  {
    var k := Find(s, sep);
    if k == |s| then [s] else [s[..k]] + Split(s[k + 1..], sep)
  }

  function NonEmpty(pieces: seq<string>): seq<string> {
    if pieces == [] then [] else (if pieces[0] == "" then [] else [pieces[0]]) + NonEmpty(pieces[1..])
  }

  /** The words between the spaces. */
  function Words(s: string): seq<string> { NonEmpty(Split(s, ' ')) }

  predicate IsWord(w: string) { w != "" && ' ' !in w }

  lemma FindIs(s: string, sep: char, k: nat)
    requires k <= |s| && sep !in s[..k] && (k < |s| ==> s[k] == sep)
    ensures Find(s, sep) == k
  {
  }

  lemma SplitFirst(a: string, rest: string, sep: char)
    requires sep !in a
    ensures Split(a, sep) == [a]
    ensures Split(a + [sep] + rest, sep) == [a] + Split(rest, sep)
  {
    FindIs(a, sep, |a|);
    var s := a + [sep] + rest;
    assert s[..|a|] == a && s[|a| + 1..] == rest;
    FindIs(s, sep, |a|);
  }

  lemma SpaceBefore(s: string)
    ensures Words([' '] + s) == Words(s)
  {
    SplitFirst("", s, ' ');
    assert "" + [' '] + s == [' '] + s;
    assert ([""] + Split(s, ' '))[1..] == Split(s, ' ');
  }

  lemma WordBefore(w: string, rest: string)
    requires IsWord(w)
    ensures Words(w) == [w]
    ensures Words(w + [' '] + rest) == [w] + Words(rest)
  {
    SplitFirst(w, rest, ' ');
    assert ([w] + Split(rest, ' '))[1..] == Split(rest, ' ');
    assert NonEmpty([w]) == [w] + NonEmpty([]);
  }

  /** Joining words and taking the text apart again gives them back. */
  lemma {:induction false} WordsOfJoin(words: seq<string>)
    requires forall i :: 0 <= i < |words| ==> IsWord(words[i])
    ensures Words(Join(words, " ")) == words
  {
    if |words| == 0 {
      SplitFirst("", "", ' ');
    } else if |words| == 1 {
      WordBefore(words[0], "");
    } else {
      WordsOfJoin(words[1..]);
      WordBefore(words[0], Join(words[1..], " "));
      assert words[0] + " " + Join(words[1..], " ") == words[0] + [' '] + Join(words[1..], " ");
    }
  }

  // ---------- digits ----------

  /** The value of a digit; 99 for a character that is none. */
  function DigitOf(c: char): nat {
    if '0' <= c <= '9' then (c - '0') as nat
    else if 'a' <= c <= 'f' then 10 + (c - 'a') as nat
    else if 'A' <= c <= 'F' then 10 + (c - 'A') as nat
    else 99
  }

  predicate IsDigit(c: char, base: nat) { DigitOf(c) < base }

  predicate AllDigits(s: string, base: nat) {
    forall i :: 0 <= i < |s| ==> IsDigit(s[i], base)
  }

  const LOWER := "0123456789abcdef"
  const UPPER := "0123456789ABCDEF"

  /** The digits of all bases up to 16 are these, each worth its place. */
  lemma DigitExact(c: char, d: nat)
    requires d < 16
    ensures DigitOf(c) == d <==> c == LOWER[d] || c == UPPER[d]
  {
  }

  function Horner(s: string, base: nat): nat {
    if s == [] then 0 else Horner(s[..|s| - 1], base) * base + DigitOf(s[|s| - 1])
  }

  /** A whole number as C writes it: hexadecimal after 0x, octal after 0, else decimal. */
  function Number(f: string): Option<nat> {
    if |f| >= 3 && f[0] == '0' && (f[1] == 'x' || f[1] == 'X') && AllDigits(f[2..], 16) then Some(Horner(f[2..], 16))
    else if f != "" && f[0] == '0' && AllDigits(f, 8) then Some(Horner(f, 8))
    else if f != "" && '1' <= f[0] <= '9' && AllDigits(f, 10) then Some(Horner(f, 10))
    else None
  }

  // ---------- strtoul(s + i, &end, 0) ----------

  predicate IsSpace(c: char) { c == ' ' || '\t' <= c <= '\r' }

  /** The white space of C. */
  lemma SpaceExact(c: char)
    ensures IsSpace(c) <==> c in " \t\n\U{B}\U{C}\r"
  {
  }

  function SkipSpaces(s: string, i: nat): (j: nat)
    requires i <= |s|
    ensures i <= j <= |s|
    ensures forall k :: i <= k < j ==> IsSpace(s[k])
    ensures j < |s| ==> !IsSpace(s[j])
    decreases |s| - i
  {
    if i < |s| && IsSpace(s[i]) then SkipSpaces(s, i + 1) else i
  }

  function RunEnd(s: string, i: nat, base: nat): (e: nat)
    requires i <= |s|
    ensures i <= e <= |s|
    ensures forall k :: i <= k < e ==> IsDigit(s[k], base)
    ensures e < |s| ==> !IsDigit(s[e], base)
    decreases |s| - i
  {
    if i < |s| && IsDigit(s[i], base) then RunEnd(s, i + 1, base) else i
  }

  datatype Converted = Converted(value: nat, end: nat, erange: bool)

  datatype Subject = Subject(start: nat, base: nat)

  /** Where the digits start, and their base. */
  function SubjectAt(s: string, i: nat): (r: Subject)
    requires i <= |s|
    ensures i <= r.start <= |s|
  {
    if At(s, i) == '0' && (At(s, i + 1) == 'x' || At(s, i + 1) == 'X') && IsDigit(At(s, i + 2), 16) then Subject(i + 2, 16)
    else if At(s, i) == '0' then Subject(i, 8)
    else Subject(i, 10)
  }

  function Strtoul(s: string, i: nat, ulongMax: nat): (r: Converted)
    requires i <= |s|
    ensures i <= r.end <= |s|
  {
    var sign := SkipSpaces(s, i);
    var first := if At(s, sign) == '+' || At(s, sign) == '-' then sign + 1 else sign;
    var subject := SubjectAt(s, first);
    var end := RunEnd(s, subject.start, subject.base);
    if end == subject.start then Converted(0, i, false) else
    var value := Horner(s[subject.start..end], subject.base);
    if value > ulongMax then Converted(ulongMax, end, true)
    else if At(s, sign) == '-' then Converted((ulongMax + 1 - value) % (ulongMax + 1), end, false)
    else Converted(value, end, false)
  }

  // ---------- strtoul against whole numbers ----------

  /** Neither a colon nor a space is a digit in any base. */
  lemma RunStops(s: string, i: nat, k: nat)
    requires i < k <= |s| && IsDigit(At(s, i), 10)
    requires k < |s| ==> s[k] == ':' || s[k] == ' '
    ensures SubjectAt(s, i).start < RunEnd(s, SubjectAt(s, i).start, SubjectAt(s, i).base) <= k
  {
  }

  lemma DigitsOnField(s: string, start: nat, k: nat, base: nat)
    requires start <= k <= |s| && RunEnd(s, start, base) <= k
    ensures RunEnd(s, start, base) == k <==> AllDigits(s[start..k], base)
  {
    var digits, e := s[start..k], RunEnd(s, start, base);
    if e == k {
      assert AllDigits(digits, base);
    } else {
      assert digits[e - start] == s[e];
    }
  }

  /** The run of digits fills the field exactly when the field is a whole number. */
  lemma NumberOnField(s: string, i: nat, k: nat)
    requires i < k <= |s| && IsDigit(At(s, i), 10)
    requires k < |s| ==> s[k] == ':' || s[k] == ' '
    ensures var r := SubjectAt(s, i);
      var e := RunEnd(s, r.start, r.base);
      && (Number(s[i..k]).Some? <==> e == k)
      && (Number(s[i..k]).Some? ==> r.start <= k && Number(s[i..k]).value == Horner(s[r.start..k], r.base))
  {
    var f, r := s[i..k], SubjectAt(s, i);
    RunStops(s, i, k);
    assert f[0] == s[i] && (|f| > 1 ==> f[1] == s[i + 1]) && (|f| > 2 ==> f[2] == s[i + 2]);
    hide Horner, RunEnd, Number;
    DigitsOnField(s, r.start, k, r.base);
    assert f[r.start - i..] == s[r.start..k];
    if r.base == 16 {
      HexField(f);
    } else {
      PlainField(f, r.base);
    }
  }

  lemma HexField(f: string)
    requires |f| >= 3 && f[0] == '0' && (f[1] == 'x' || f[1] == 'X')
    ensures Number(f) == if AllDigits(f[2..], 16) then Some(Horner(f[2..], 16)) else None
  {
    hide Horner;
    assert !IsDigit(f[1], 8) && !IsDigit(f[1], 10);
  }

  lemma PlainField(f: string, base: nat)
    requires f != "" && IsDigit(f[0], 10) && base == (if f[0] == '0' then 8 else 10)
    requires f[0] == '0' && |f| >= 3 && (f[1] == 'x' || f[1] == 'X') ==> !IsDigit(f[2], 16)
    ensures Number(f) == if AllDigits(f, base) then Some(Horner(f, base)) else None
  {
    hide Horner;
    if f[0] == '0' && |f| >= 3 && (f[1] == 'x' || f[1] == 'X') {
      assert f[2..][0] == f[2];
    }
  }

  /** On text that starts with a digit, the conversion stops inside the field or spells it out. */
  lemma StrtoulOnField(s: string, i: nat, k: nat, ulongMax: nat)
    requires i < k <= |s| && IsDigit(At(s, i), 10)
    requires k < |s| ==> s[k] == ':' || s[k] == ' '
    ensures i < Strtoul(s, i, ulongMax).end <= k
    ensures Number(s[i..k]).Some? <==> Strtoul(s, i, ulongMax).end == k
    ensures Number(s[i..k]).Some? ==>
      Strtoul(s, i, ulongMax) == if Number(s[i..k]).value > ulongMax then Converted(ulongMax, k, true)
                                 else Converted(Number(s[i..k]).value, k, false)
  {
    hide Horner, Number;
    assert SkipSpaces(s, i) == i;
    RunStops(s, i, k);
    NumberOnField(s, i, k);
  }

  // ---------- strtoul against any field ----------

  predicate Blank(s: string) {
    forall i :: 0 <= i < |s| ==> IsSpace(s[i])
  }

  /** White space, a sign, a whole number: too large a number gives ULONG_MAX, a minus wraps around. */
  function FieldValue(f: string, ulongMax: nat): Option<nat> { SignedValue(f[SkipSpaces(f, 0)..], ulongMax) }

  function SignedValue(u: string, ulongMax: nat): Option<nat> {
    var signed := u != "" && (u[0] == '+' || u[0] == '-');
    match Number(if signed then u[1..] else u)
    case None => None
    case Some(n) =>
      if n > ulongMax then Some(ulongMax)
      else if signed && u[0] == '-' then Some((ulongMax + 1 - n) % (ulongMax + 1))
      else Some(n)
  }

  lemma {:induction false} SkipIs(s: string, i: nat, j: nat)
    requires i <= j <= |s| && (j < |s| ==> !IsSpace(s[j])) && forall k :: i <= k < j ==> IsSpace(s[k])
    ensures SkipSpaces(s, i) == j
    decreases j - i
  {
    if i < j {
      SkipIs(s, i + 1, j);
    }
  }

  lemma NoNumber(field: string)
    requires field == "" || !IsDigit(field[0], 10)
    ensures Number(field).None?
  {
  }

  /** Nothing is converted where no digit stands. */
  lemma NothingConverted(s: string, i: nat)
    requires i <= |s| && !IsDigit(At(s, i), 10)
    ensures SubjectAt(s, i) == Subject(i, 10) && RunEnd(s, i, 10) == i
  {
  }

  /** Where the conversion of a field finds its sign and its first digit. */
  lemma FieldStart(s: string, i: nat, k: nat)
    requires i <= k <= |s| && (k < |s| ==> s[k] == ' ' && !Blank(s[i..k]))
    ensures var f := s[i..k]; var sign := SkipSpaces(s, i);
      && sign == i + SkipSpaces(f, 0) && sign <= k && f[SkipSpaces(f, 0)..] == s[sign..k]
      && (sign == k ==> At(s, sign) == ' ' || sign == |s|)
  {
    var f := s[i..k];
    var j := SkipSpaces(f, 0);
    assert forall m :: i <= m < i + j ==> s[m] == f[m - i];
    assert i + j < k ==> s[i + j] == f[j];
    SkipIs(s, i, i + j);
  }

  /** The conversion of a whole field up to a space or the end of the text, whatever the field holds. */
  lemma StrtoulExact(s: string, i: nat, k: nat, ulongMax: nat)
    requires i <= k <= |s| && (k < |s| ==> s[k] == ' ' && !Blank(s[i..k])) && '\0' !in s
    ensures var r := Strtoul(s, i, ulongMax);
      match FieldValue(s[i..k], ulongMax)
      case None => r.end == i || r.end < k
      case Some(v) => i < r.end == k && r.value == v
  {
    hide SkipSpaces, SubjectAt, RunEnd, Horner, Number, Blank;
    FieldStart(s, i, k);
    var sign := SkipSpaces(s, i);
    var first := if At(s, sign) == '+' || At(s, sign) == '-' then sign + 1 else sign;
    var g := s[first..k];
    assert first > sign ==> g == s[sign..k][1..];
    if IsDigit(At(s, first), 10) {
      assert first < k;
      RunStops(s, first, k);
      NumberOnField(s, first, k);
    } else {
      assert g != "" ==> g[0] == At(s, first);
      NoNumber(g);
      NothingConverted(s, first);
    }
  }

  /** White space and a plus in front of a number make no difference, and a minus wraps its value around. */
  lemma SignedField(white: string, g: string, n: nat, ulongMax: nat)
    requires Blank(white) && Number(g) == Some(n)
    ensures FieldValue(white + g, ulongMax) == Some(if n > ulongMax then ulongMax else n)
    ensures FieldValue(white + "+" + g, ulongMax) == Some(if n > ulongMax then ulongMax else n)
    ensures FieldValue(white + "-" + g, ulongMax) == Some(if n > ulongMax then ulongMax else if n == 0 then 0 else ulongMax + 1 - n)
  {
    NumberStarts(g);
    hide Number, SkipSpaces, SignedValue;
    AfterWhite(white, g);
    AfterWhite(white, "+" + g);
    AfterWhite(white, "-" + g);
    Associative(white, "+", g);
    Associative(white, "-", g);
    SignsRead(g, n, ulongMax);
  }

  lemma AfterWhite(white: string, u: string)
    requires Blank(white) && u != "" && !IsSpace(u[0])
    ensures (white + u)[SkipSpaces(white + u, 0)..] == u
  {
    hide SkipSpaces;
    SkipIs(white + u, 0, |white|);
    assert (white + u)[|white|..] == u;
  }

  lemma SignsRead(g: string, n: nat, ulongMax: nat)
    requires Number(g) == Some(n)
    ensures SignedValue(g, ulongMax) == SignedValue("+" + g, ulongMax) == Some(if n > ulongMax then ulongMax else n)
    ensures SignedValue("-" + g, ulongMax) == Some(if n > ulongMax then ulongMax else if n == 0 then 0 else ulongMax + 1 - n)
  {
    NumberStarts(g);
    hide Number;
    assert ("+" + g)[1..] == g && ("-" + g)[1..] == g;
    if n <= ulongMax {
      Wrapped(n, ulongMax + 1);
    }
  }

  lemma NumberStarts(g: string)
    requires Number(g).Some?
    ensures g != "" && '0' <= g[0] <= '9'
  {
  }

  lemma Wrapped(n: nat, m: nat)
    requires n < m
    ensures (m - n) % m == if n == 0 then 0 else m - n
  {
    if n == 0 {
      Quotient(m, 1, m, 0);
    } else {
      Quotient(m - n, 0, m, m - n);
    }
  }
}
