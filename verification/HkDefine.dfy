/**
  The three ways a report definition travels: words parsed where they are typed
  (`cmd_hk_define`), words joined into one text for another node (`define_remote`,
  `command_hk_define`), and the line printed by `hk-report.py`.
 */
module HkDefine {
  import opened Basics
  import opened CText
  import opened HkEntries

  datatype Definition = Definition(retrievalClass: nat, entries: seq<Entry>)

  const CLASS_PREFIX := "class="

  // ---------- local words ----------

  predicate AllEntries(b: Build, words: seq<string>) {
    forall i :: 0 <= i < |words| ==> EntryOf(b, words[i]).Some?
  }

  function EntriesHere(b: Build, words: seq<string>): (entries: seq<Entry>)
    requires AllEntries(b, words)
    ensures |entries| == |words|
  {
    seq(|words|, i requires 0 <= i < |words| => EntryOf(b, words[i]).value)
  }

  function ListHere(b: Build, retrievalClass: nat, words: seq<string>, max: nat): Option<Definition> {
    if 1 <= |words| <= max && AllEntries(b, words) then Some(Definition(retrievalClass, EntriesHere(b, words))) else None
  }

  /** What the words after the report number define when they are parsed one by one. */
  function LocalOf(b: Build, words: seq<string>, max: nat): Option<Definition> {
    if words == [] then None
    else if !(CLASS_PREFIX <= words[0]) then ListHere(b, b.classDefault, words, max)
    else match ClassOf(b, words[0])
      case Rejected(_) => None
      case Accepted(c, rest) => if rest == "" then ListHere(b, c, words[1..], max) else None
  }

  method LocalDefine(b: Build, words: seq<CString>, entries: array<Entry>, max: nat)
    returns (code: int, retrievalClass: nat, count: nat)
    requires b.Valid() && words != [] && max <= entries.Length
    modifies entries
    ensures code == 0 <==> LocalOf(b, words, max).Some?
    ensures code == 0 ==> count <= max && LocalOf(b, words, max) == Some(Definition(retrievalClass, entries[..count]))
  {
    hide EntryOf, ClassOf;
    var first := 0;
    retrievalClass, count := b.classDefault, 0;
    if CLASS_PREFIX <= words[0] {
      var result, text, parsed := ParseClass(b, words[0]);
      if result != 0 || text != "" {
        RejectedIsNegative(b, words[0]);
        return if result != 0 then result else -EINVAL, retrievalClass, count;
      }
      retrievalClass, first := parsed, 1;
    }
    if |words| <= first {
      return -EINVAL, retrievalClass, count;
    }
    count := |words| - first;
    if count > max {
      return -E2BIG, retrievalClass, count;
    }
    code := ParseEach(b, words[first..], entries);
  }

  lemma RejectedIsNegative(b: Build, text: string)
    ensures ClassOf(b, text).Rejected? ==> ClassOf(b, text).code < 0
  {
  }

  method ParseEach(b: Build, words: seq<CString>, entries: array<Entry>) returns (code: int)
    requires b.Valid() && |words| <= entries.Length
    modifies entries
    ensures code == if AllEntries(b, words) then 0 else -EINVAL
    ensures code == 0 ==> entries[..|words|] == EntriesHere(b, words)
  {
    hide EntryOf;
    ghost var before := entries[..];
    for i := 0 to |words|
      invariant Filled(b, entries[..], words[..i], before)
    {
      var result := ParseEntry(b, words[i], entries, i);
      if result != 0 {
        return result;
      }
      assert words[..i + 1] == words[..i] + [words[i]];
    }
    assert words[..|words|] == words;
    FilledIsHere(b, entries[..], words, before);
    code := 0;
  }

  lemma FilledIsHere(b: Build, entries: seq<Entry>, words: seq<string>, before: seq<Entry>)
    requires Filled(b, entries, words, before)
    ensures AllEntries(b, words) && entries[..|words|] == EntriesHere(b, words)
  {
    hide EntryOf;
  }

  // ---------- joined words ----------

  /** What the format `"%s%s"` appends: the separator is left out while nothing was written. */
  function Joined(words: seq<string>): string {
    if words == [] then "" else
    var used := Joined(words[..|words| - 1]);
    used + (if used == "" then "" else " ") + words[|words| - 1]
  }

  /** The bounded buffer of `define_remote`, of limit + 1 characters. */
  method JoinWords(words: seq<string>, limit: nat) returns (code: int, text: string)
    ensures code == if |Joined(words)| <= limit then 0 else -E2BIG
    ensures code == 0 ==> text == Joined(words)
  {
    text := "";
    for i := 0 to |words|
      invariant text == Joined(words[..i]) && |text| <= limit
    {
      assert words[..i + 1][..i] == words[..i];
      var written := (if |text| == 0 then "" else " ") + words[i];
      if |written| >= limit + 1 - |text| {
        JoinedGrows(words, i + 1);
        return -E2BIG, text;
      }
      assert text + written == Joined(words[..i + 1]);
      text := text + written;
    }
    assert words[..|words|] == words;
    code := 0;
  }

  lemma {:induction false} JoinedGrows(words: seq<string>, n: nat)
    requires n <= |words|
    ensures |Joined(words[..n])| <= |Joined(words)|
    decreases |words|
  {
    if n < |words| {
      var front := words[..|words| - 1];
      JoinedGrows(front, n);
      assert front[..n] == words[..n];
    } else {
      assert words[..n] == words;
    }
  }

  /** What the receiving node makes of the text. */
  function RemoteOf(b: Build, text: string, max: nat): Option<Definition> {
    match ClassOf(b, text)
    case Rejected(_) => None
    case Accepted(c, rest) =>
      match EntriesOf(b, rest, max)
      case None => None
      case Some(entries) => Some(Definition(c, entries))
  }

  method RemoteDefine(b: Build, text: CString, entries: array<Entry>, max: nat)
    returns (code: int, retrievalClass: nat, count: nat)
    requires b.Valid() && max <= entries.Length
    modifies entries
    ensures code == 0 <==> RemoteOf(b, text, max).Some?
    ensures code == 0 ==> count <= max && RemoteOf(b, text, max) == Some(Definition(retrievalClass, entries[..count]))
  {
    hide ClassOf, EntriesOf, CodeFrom, Filled, Words;
    var rest;
    code, rest, retrievalClass := ParseClass(b, text);
    RejectedIsNegative(b, text);
    count := 0;
    if code == 0 {
      var counter := new Counter(0);
      ghost var before := entries[..];
      code := ParseEntries(b, rest, entries, max, counter);
      CodeExact(b, rest, max);
      NoRoom(b, rest);
      count := counter.value;
      if code == 0 {
        FilledIsList(b, rest, max, entries[..], before);
      }
    }
  }

  lemma NoRoom(b: Build, text: string)
    ensures EntriesOf(b, text, 0).None?
  {
  }

  lemma FilledIsList(b: Build, text: string, max: nat, entries: seq<Entry>, before: seq<Entry>)
    requires EntriesOf(b, text, max).Some? && Filled(b, entries, Words(text), before)
    ensures |Words(text)| <= max && EntriesOf(b, text, max) == Some(entries[..|Words(text)|])
  {
    hide EntryOf, Words;
    assert EntriesOfWords(b, Words(text)) == entries[..|Words(text)|];
  }

  // ---------- the two routes agree ----------

  predicate AllWords(words: seq<string>) {
    forall i :: 0 <= i < |words| ==> IsWord(words[i]) && '\0' !in words[i]
  }

  predicate AllShort(words: seq<string>) {
    forall i :: 0 <= i < |words| ==> |words[i]| <= 23
  }

  lemma {:induction false} JoinedIsJoin(words: seq<string>)
    requires AllWords(words)
    ensures Joined(words) == Join(words, " ")
    ensures words != [] ==> Join(words, " ") != ""
  {
    hide Join;
    if words == [] {
      JoinNothing();
    } else {
      var n := |words| - 1;
      assert words == words[..n] + [words[n]];
      JoinedIsJoin(words[..n]);
      JoinSnoc(words[..n], words[n]);
      assert "" + words[n] == words[n] && "" + "" + words[n] == words[n];
    }
  }

  lemma JoinNothing()
    ensures Join([], " ") == ""
  {
  }

  lemma {:induction false} JoinSnoc(words: seq<string>, w: string)
    ensures Join(words + [w], " ") == if words == [] then w else Join(words, " ") + " " + w
  {
    if |words| > 1 {
      JoinSnoc(words[1..], w);
      assert (words + [w])[1..] == words[1..] + [w];
    } else if |words| == 1 {
      assert (words + [w])[1..] == [w];
    }
  }

  /** The list in the text is the list of the words, except that a word of 24 or more characters spoils it. */
  lemma ListsAgree(b: Build, c: nat, words: seq<string>, max: nat)
    requires AllWords(words)
    ensures (if AllShort(words) then ListHere(b, c, words, max) else None)
         == match EntriesOf(b, Join(words, " "), max) case None => None case Some(es) => Some(Definition(c, es))
  {
    hide EntryOf, Words;
    WordsOfJoin(words);
    if AllShort(words) && AllEntries(b, words) {
      assert EntriesHere(b, words) == EntriesOfWords(b, words);
    }
  }

  lemma JoinFirst(words: seq<string>)
    requires words != [] && AllWords(words)
    ensures Join(words, " ") == words[0] + (if |words| == 1 then "" else " " + Join(words[1..], " "))
  {
  }

  lemma PrefixOfFirst(w: string, tail: string)
    requires ' ' !in w && (tail == "" || tail[0] == ' ')
    ensures CLASS_PREFIX <= w + tail <==> CLASS_PREFIX <= w
  {
    assert |w| < |w + tail| ==> (w + tail)[|w|] == ' ';
    assert forall k :: 0 <= k < 6 ==> CLASS_PREFIX[k] != ' ';
  }

  lemma {:induction false} SkipLocal(w: string, tail: string, i: nat)
    requires i <= |w| && SkipSpaces(w, i) < |w|
    ensures SkipSpaces(w + tail, i) == SkipSpaces(w, i)
    decreases |w| - i
  {
    if i < |w| && IsSpace(w[i]) {
      SkipLocal(w, tail, i + 1);
    }
  }

  lemma {:induction false} RunLocal(w: string, tail: string, i: nat, base: nat)
    requires i <= |w| && base <= 16 && (tail == "" || tail[0] == ' ')
    ensures RunEnd(w + tail, i, base) == RunEnd(w, i, base)
    decreases |w| - i
  {
    if i < |w| && IsDigit(w[i], base) {
      RunLocal(w, tail, i + 1, base);
    }
  }

  lemma SubjectLocal(w: string, tail: string, i: nat)
    requires i <= |w| && (tail == "" || tail[0] == ' ')
    ensures SubjectAt(w + tail, i) == SubjectAt(w, i) && SubjectAt(w, i).start <= |w| && SubjectAt(w, i).base <= 16
  {
  }

  lemma DigitsLocal(w: string, tail: string, first: nat)
    requires first <= |w| && (tail == "" || tail[0] == ' ')
    ensures SubjectAt(w + tail, first) == SubjectAt(w, first) && SubjectAt(w, first).start <= |w|
    ensures var r := SubjectAt(w, first);
      var end := RunEnd(w, r.start, r.base);
      RunEnd(w + tail, r.start, r.base) == end && (w + tail)[r.start..end] == w[r.start..end]
  {
    SubjectLocal(w, tail, first);
    RunLocal(w, tail, SubjectAt(w, first).start, SubjectAt(w, first).base);
  }

  /** A conversion that finds something to convert before the separator never looks past it. */
  lemma StrtoulLocal(w: string, tail: string, i: nat, ulongMax: nat)
    requires i <= |w| && SkipSpaces(w, i) < |w| && (tail == "" || tail[0] == ' ')
    ensures Strtoul(w + tail, i, ulongMax) == Strtoul(w, i, ulongMax)
  {
    hide Horner, SubjectAt, RunEnd, SkipSpaces;
    SkipLocal(w, tail, i);
    var sign := SkipSpaces(w, i);
    assert At(w + tail, sign) == At(w, sign);
    DigitsLocal(w, tail, if At(w, sign) == '+' || At(w, sign) == '-' then sign + 1 else sign);
  }

  lemma NotBlank(s: string, i: nat)
    requires i <= |s|
    ensures SkipSpaces(s, i) < |s| <==> !Blank(s[i..])
  {
    var j := SkipSpaces(s, i);
    if j < |s| {
      assert s[i..][j - i] == s[j];
    } else {
      assert forall k :: 0 <= k < |s| - i ==> s[i..][k] == s[i + k];
    }
  }

  /** The class word is read alike alone and in front of the other words. */
  lemma ClassAgrees(b: Build, w: string, rest: string)
    requires IsWord(w) && '\0' !in w && CLASS_PREFIX <= w && !Blank(w[6..])
    requires rest == "" || rest[0] != ' '
    ensures var text := w + (if rest == "" then "" else " " + rest);
      match ClassOf(b, w)
      case Rejected(e) => ClassOf(b, text) == Rejected(e)
      case Accepted(c, r) => r == "" && ClassOf(b, text) == Accepted(c, rest)
  {
    hide Strtoul;
    var tail := if rest == "" then "" else " " + rest;
    var text := w + tail;
    NotBlank(w, 6);
    StrtoulLocal(w, tail, 6, b.ulongMax);
    PrefixOfFirst(w, tail);
    var end := Strtoul(w, 6, b.ulongMax).end;
    if end == |w| {
      assert SkipBlanks(w, end) == end;
      if rest != "" {
        assert SkipBlanks(text, end) == SkipBlanks(text, end + 1) == end + 1;
      }
      assert text[|text| - |rest|..] == rest;
    } else {
      assert text[end] == w[end] && w[end] != ' ';
    }
  }

  /** The words that are to be entries. */
  function EntryWords(words: seq<string>): seq<string> {
    if words != [] && CLASS_PREFIX <= words[0] then words[1..] else words
  }

  /** class= and nothing behind it but white space. */
  predicate BlankClass(w: string) { CLASS_PREFIX <= w && Blank(w[6..]) }

  /** The joined route: nothing is sent when the text is too long for the buffer. */
  function SentOf(b: Build, words: seq<string>, limit: nat, max: nat): Option<Definition> {
    if |Joined(words)| <= limit then RemoteOf(b, Joined(words), max) else None
  }

  /** `define_remote` here and `command_hk_define` there. */
  method SendDefine(b: Build, words: seq<CString>, limit: nat, entries: array<Entry>, max: nat)
    returns (code: int, retrievalClass: nat, count: nat)
    requires b.Valid() && max <= entries.Length
    modifies entries
    ensures code == 0 <==> SentOf(b, words, limit, max).Some?
    ensures code == 0 ==> count <= max && SentOf(b, words, limit, max) == Some(Definition(retrievalClass, entries[..count]))
  {
    hide RemoteOf;
    var text;
    code, text := JoinWords(words, limit);
    retrievalClass, count := b.classDefault, 0;
    if code == 0 {
      JoinedIsText(words);
      code, retrievalClass, count := RemoteDefine(b, text, entries, max);
    }
  }

  lemma {:induction false} JoinedIsText(words: seq<CString>)
    ensures '\0' !in Joined(words)
  {
    if words != [] {
      JoinedIsText(words[..|words| - 1]);
    }
  }

  /** Without a blank class word the text says what the words say, as long as every entry word is short. */
  lemma UnlessBlank(b: Build, words: seq<string>, max: nat)
    requires words != [] && AllWords(words) && !BlankClass(words[0])
    ensures RemoteOf(b, Joined(words), max) == if AllShort(EntryWords(words)) then LocalOf(b, words, max) else None
  {
    hide EntriesOf, ClassOf, ListHere, Words;
    JoinedIsJoin(words);
    JoinFirst(words);
    var w, rest := words[0], Join(words[1..], " ");
    assert AllWords(words[1..]);
    if CLASS_PREFIX <= w {
      JoinedIsJoin(words[1..]);
      if |words| > 1 {
        JoinFirst(words[1..]);
      }
      ClassAgrees(b, w, rest);
      AgreeAfterClass(b, w, words, max);
    } else {
      PrefixOfFirst(w, Join(words, " ")[|w|..]);
      AgreeWithoutClass(b, Join(words, " "), words, max);
    }
  }

  lemma AgreeAfterClass(b: Build, w: string, words: seq<string>, max: nat)
    requires words != [] && words[0] == w && CLASS_PREFIX <= w && AllWords(words)
    requires match ClassOf(b, w)
      case Rejected(e) => ClassOf(b, Join(words, " ")) == Rejected(e)
      case Accepted(c, r) => r == "" && ClassOf(b, Join(words, " ")) == Accepted(c, Join(words[1..], " "))
    ensures RemoteOf(b, Join(words, " "), max) == if AllShort(words[1..]) then LocalOf(b, words, max) else None
  {
    hide ClassOf, EntriesOf, ListHere, AllShort;
    match ClassOf(b, w)
    case Rejected(_) =>
    case Accepted(c, _) => ListsAgree(b, c, words[1..], max);
  }

  lemma AgreeWithoutClass(b: Build, text: string, words: seq<string>, max: nat)
    requires words != [] && !(CLASS_PREFIX <= words[0]) && !(CLASS_PREFIX <= text)
    requires AllWords(words) && text == Join(words, " ")
    ensures RemoteOf(b, text, max) == if AllShort(words) then LocalOf(b, words, max) else None
  {
    hide EntriesOf, ListHere, AllShort;
    ListsAgree(b, b.classDefault, words, max);
  }

  // ---------- a blank class word takes its number from the next word ----------

  lemma {:induction false} RunBehind(p: string, u: string, j: nat, base: nat)
    requires j <= |u|
    ensures RunEnd(p + u, |p| + j, base) == |p| + RunEnd(u, j, base)
    decreases |u| - j
  {
    if j < |u| && IsDigit(u[j], base) {
      RunBehind(p, u, j + 1, base);
    }
  }

  lemma {:induction false} BlanksBehind(p: string, u: string, j: nat)
    requires j <= |u|
    ensures SkipBlanks(p + u, |p| + j) == |p| + SkipBlanks(u, j)
    decreases |u| - j
  {
    if j < |u| && u[j] == ' ' {
      BlanksBehind(p, u, j + 1);
    }
  }

  lemma SubjectBehind(p: string, u: string, j: nat)
    requires j <= |u|
    ensures SubjectAt(p + u, |p| + j) == SubjectAt(u, j).(start := |p| + SubjectAt(u, j).start)
    ensures j <= SubjectAt(u, j).start <= |u|
  {
  }

  lemma SpacesBehind(p: string, u: string, i: nat)
    requires i <= |p| && Blank(p[i..])
    ensures SkipSpaces(p + u, i) == |p| + SkipSpaces(u, 0)
  {
    hide SkipSpaces;
    var s, j := p + u, SkipSpaces(u, 0);
    assert forall k :: i <= k < |p| ==> s[k] == p[i..][k - i];
    assert forall k :: |p| <= k < |s| ==> s[k] == u[k - |p|];
    SkipIs(s, i, |p| + j);
  }

  lemma AtBehind(p: string, u: string, j: nat)
    ensures At(p + u, |p| + j) == At(u, j)
  {
  }

  lemma DigitsBehind(p: string, u: string, j: nat)
    requires j <= |u|
    ensures var r := SubjectAt(u, j);
      var end := RunEnd(u, r.start, r.base);
      && SubjectAt(p + u, |p| + j) == r.(start := |p| + r.start)
      && RunEnd(p + u, |p| + r.start, r.base) == |p| + end
      && (p + u)[|p| + r.start..|p| + end] == u[r.start..end]
  {
    hide SubjectAt, RunEnd;
    SubjectBehind(p, u, j);
    RunBehind(p, u, SubjectAt(u, j).start, SubjectAt(u, j).base);
  }

  /** White space in front of a number makes no difference to its conversion. */
  lemma StrtoulBehind(p: string, u: string, i: nat, ulongMax: nat)
    requires i <= |p| && Blank(p[i..])
    ensures var r := Strtoul(u, 0, ulongMax);
      Strtoul(p + u, i, ulongMax) == if r.end == 0 then Converted(0, i, false) else r.(end := |p| + r.end)
  {
    hide SkipSpaces, SubjectAt, RunEnd, Horner, At, Blank;
    var j := SkipSpaces(u, 0);
    SpacesBehind(p, u, i);
    AtBehind(p, u, j);
    SignInside(u, j);
    DigitsBehind(p, u, if At(u, j) == '+' || At(u, j) == '-' then j + 1 else j);
  }

  lemma SignInside(u: string, j: nat)
    requires j <= |u|
    ensures At(u, j) == '+' || At(u, j) == '-' ==> j + 1 <= |u|
  {
  }

  /** Behind class= only the text after the white space counts. */
  lemma ClassBehind(b: Build, p: string, q: string, u: string)
    requires BlankClass(p) && BlankClass(q)
    ensures ClassOf(b, p + u) == ClassOf(b, q + u)
  {
    ClassBehindOne(b, p, u);
    ClassBehindOne(b, q, u);
  }

  lemma ClassBehindOne(b: Build, p: string, u: string)
    requires BlankClass(p)
    ensures var r := Strtoul(u, 0, b.ulongMax);
      ClassOf(b, p + u) ==
        if r.end == 0 || (At(u, r.end) != ' ' && At(u, r.end) != '\0') then Rejected(-EINVAL)
        else if r.value > CLASS_MAX then Rejected(-ERANGE)
        else Accepted(r.value, u[SkipBlanks(u, r.end)..])
  {
    hide Strtoul, Blank;
    var r := Strtoul(u, 0, b.ulongMax);
    assert CLASS_PREFIX <= p + u;
    StrtoulBehind(p, u, 6, b.ulongMax);
    BlanksBehind(p, u, r.end);
    assert At(p + u, |p| + r.end) == At(u, r.end);
    assert (p + u)[|p| + SkipBlanks(u, r.end)..] == u[SkipBlanks(u, r.end)..];
  }

  /** The first two words as the receiver reads them. */
  function MergeFirst(words: seq<string>): (m: seq<string>)
    requires |words| >= 2
    ensures |m| == |words| - 1
  {
    [CLASS_PREFIX + words[1]] + words[2..]
  }

  /** Blank class words at the front are one class word with the next that is not blank. */
  function Merged(words: seq<string>): seq<string>
    decreases |words|
  {
    if |words| >= 2 && BlankClass(words[0]) then Merged(MergeFirst(words)) else words
  }

  lemma MergeFirstWords(words: seq<string>)
    requires |words| >= 2 && AllWords(words)
    ensures AllWords(MergeFirst(words))
  {
    var m := MergeFirst(words);
    assert '\0' !in CLASS_PREFIX && ' ' !in CLASS_PREFIX;
    forall i | 0 <= i < |m| ensures IsWord(m[i]) && '\0' !in m[i] {
      assert i > 0 ==> m[i] == words[i + 1];
    }
  }

  /** What follows the first word in the joined text, without the space. */
  function Behind(words: seq<string>): string
    requires |words| >= 2
  {
    words[1] + (if |words| == 2 then "" else " " + Join(words[2..], " "))
  }

  lemma JoinedFromSecond(words: seq<string>)
    requires |words| >= 2 && AllWords(words)
    ensures Joined(words) == words[0] + " " + Behind(words)
    ensures Joined(MergeFirst(words)) == CLASS_PREFIX + Behind(words)
  {
    MergeFirstWords(words);
    hide Joined, Join, AllWords, MergeFirst;
    JoinedIsJoin(words);
    JoinedIsJoin(MergeFirst(words));
    JoinSecond(words);
    JoinMerged(words);
  }

  lemma JoinSecond(words: seq<string>)
    requires |words| >= 2 && AllWords(words)
    ensures Join(words, " ") == words[0] + " " + Behind(words)
  {
    var rest := words[1..];
    assert AllWords(rest) && rest[1..] == words[2..];
    hide Join, AllWords;
    JoinFirst(words);
    JoinFirst(rest);
    assert Join(rest, " ") == Behind(words);
    hide *;
    Associative(words[0], " ", Behind(words));
  }

  lemma JoinMerged(words: seq<string>)
    requires |words| >= 2 && AllWords(MergeFirst(words))
    ensures Join(MergeFirst(words), " ") == CLASS_PREFIX + Behind(words)
  {
    hide Join, AllWords;
    var m := MergeFirst(words);
    JoinFirst(m);
    assert m[1..] == words[2..];
  }

  lemma BlankMerges(b: Build, words: seq<string>, max: nat)
    requires |words| >= 2 && AllWords(words) && BlankClass(words[0])
    ensures RemoteOf(b, Joined(words), max) == RemoteOf(b, Joined(MergeFirst(words)), max)
  {
    hide ClassOf, EntriesOf, BlankClass, Joined, MergeFirst, Behind;
    JoinedFromSecond(words);
    StillBlank(words[0]);
    ClassBehind(b, words[0] + " ", CLASS_PREFIX, Behind(words));
  }

  lemma StillBlank(w: string)
    requires BlankClass(w)
    ensures BlankClass(w + " ") && BlankClass(CLASS_PREFIX)
  {
    assert (w + " ")[6..] == w[6..] + " " && CLASS_PREFIX[6..] == "";
  }

  lemma BlankAlone(b: Build, w: string)
    requires BlankClass(w)
    ensures ClassOf(b, w) == Rejected(-EINVAL)
  {
    ClassBehindOne(b, w, "");
    assert w + "" == w;
  }

  /**
    The joined route, for every list of non-empty words without spaces: it is the local route
    on the merged words, and it fails when the text or an entry word is too long.
   */
  lemma {:induction false} RoutesExact(b: Build, words: seq<string>, limit: nat, max: nat)
    requires words != [] && AllWords(words)
    ensures SentOf(b, words, limit, max)
         == if |Joined(words)| <= limit && AllShort(EntryWords(Merged(words))) then LocalOf(b, Merged(words), max) else None
  {
    hide RemoteOf, LocalOf, AllShort;
    MergedExact(b, words, max);
  }

  lemma {:induction false} MergedExact(b: Build, words: seq<string>, max: nat)
    requires words != [] && AllWords(words)
    ensures RemoteOf(b, Joined(words), max)
         == if AllShort(EntryWords(Merged(words))) then LocalOf(b, Merged(words), max) else None
    decreases |words|
  {
    hide RemoteOf, LocalOf, AllShort, EntryWords, BlankClass;
    if !BlankClass(words[0]) {
      UnlessBlank(b, words, max);
    } else if |words| == 1 {
      OneBlank(b, words[0], max);
      assert words == [words[0]];
    } else {
      BlankMerges(b, words, max);
      MergeFirstWords(words);
      MergedExact(b, MergeFirst(words), max);
    }
  }

  lemma OneBlank(b: Build, w: string, max: nat)
    requires BlankClass(w) && AllWords([w])
    ensures RemoteOf(b, Joined([w]), max) == None && LocalOf(b, [w], max) == None
  {
    hide ClassOf;
    BlankAlone(b, w);
    JoinedIsJoin([w]);
  }

  /**
    Local and remote definitions agree, with the same acceptance, class and entries, exactly
    when the local one fails too or both lengths are within their limits.
   */
  lemma RoutesAgree(b: Build, words: seq<string>, limit: nat, max: nat)
    requires words != [] && AllWords(words) && !BlankClass(words[0])
    ensures SentOf(b, words, limit, max) == LocalOf(b, words, max)
       <==> LocalOf(b, words, max).None? || (|Joined(words)| <= limit && AllShort(EntryWords(words)))
  {
    hide LocalOf, AllShort, EntryWords, RemoteOf, Joined, BlankClass;
    RoutesExact(b, words, limit, max);
  }

  // ---------- where the routes part ----------

  lemma OneDigit(s: string, c: char)
    requires s == [c] && '0' <= c <= '9'
    ensures c < '8' || c != '0' ==> Number(s) == Some(DigitOf(c))
  {
    assert Horner(s, 10) == Horner("", 10) * 10 + DigitOf(c);
    assert Horner(s, 8) == Horner("", 8) * 8 + DigitOf(c);
  }

  /** A word of two numbers, the second of them zero. */
  lemma FieldAndZero(b: Build, f: string, n: nat)
    requires Number(f) == Some(n) && n <= UINT8_MAX && ':' !in f
    ensures EntryOf(b, f + ":0") == Some(Entry(b.nodeLocal, b.paramId(n, 0)))
  {
    OneDigit("0", '0');
    hide Number, EntryOf, Split;
    SplitFirst(f, "0", ':');
    SplitFirst("0", "", ':');
    assert f + [':'] + "0" == f + ":0";
    TwoFields(b, f + ":0", f, "0", n, 0);
  }

  lemma OneEntry(b: Build, c: nat, word: string, e: Entry, max: nat)
    requires EntryOf(b, word) == Some(e) && max >= 1
    ensures ListHere(b, c, [word], max) == Some(Definition(c, [e]))
  {
    hide EntryOf;
    assert EntriesHere(b, [word]) == [e];
  }

  /** With nothing after the equals sign, the joined text takes the class from the next word. */
  lemma BlankClassParts(b: Build, w: string, limit: nat, max: nat)
    requires IsWord(w) && '\0' !in w && BlankClass(w) && limit >= |w| + 6 && max >= 1 && b.Valid()
    ensures LocalOf(b, [w, "5", "1:0"], max).None?
    ensures SentOf(b, [w, "5", "1:0"], limit, max) == Some(Definition(5, [Entry(b.nodeLocal, b.paramId(1, 0))]))
  {
    hide ClassOf, EntryOf, ListHere, Joined, Blank;
    var words := [w, "5", "1:0"];
    assert CLASS_PREFIX + "5" == "class=5" && words[2..] == ["1:0"];
    assert MergeFirst(words) == ["class=5", "1:0"];
    ThreeWords(w);
    BlankAlone(b, w);
    RoutesExact(b, words, limit, max);
    ClassFive(b);
    assert Merged(words) == Merged(["class=5", "1:0"]) == ["class=5", "1:0"];
    OneDigit("1", '1');
    FieldAndZero(b, "1", 1);
    assert "1" + ":0" == "1:0" && ["class=5", "1:0"][1..] == ["1:0"];
    OneEntry(b, 5, "1:0", Entry(b.nodeLocal, b.paramId(1, 0)), max);
  }

  lemma ThreeWords(w: string)
    ensures |Joined([w, "5", "1:0"])| <= |w| + 6
  {
    assert [w, "5", "1:0"][..2] == [w, "5"] && [w, "5"][..1] == [w] && [w][..0] == [];
    assert Joined([w]) == w;
  }

  lemma ClassFive(b: Build)
    requires b.Valid()
    ensures !BlankClass("class=5") && ClassOf(b, "class=5") == Accepted(5, "")
  {
    hide ClassOf;
    OneDigit("5", '5');
    assert "class=" + "5" + "" + "" == "class=5";
    assert "class=5"[6..] == "5" && "5"[0] == '5';
    ClassIsNumber(b, "5", "", "");
  }

  /** Following words that the joined route carries. */
  predicate Carried(w: string, rest: seq<string>, limit: nat) {
    AllWords(rest) && AllShort(rest) && |Joined([w] + rest)| <= limit
  }

  /**
    Of the class words exactly those with something after the equals sign are safe: for them
    the two routes agree whatever carried words follow, for the others some split them.
   */
  lemma ClassWordExact(b: Build, w: string, limit: nat, max: nat)
    requires IsWord(w) && '\0' !in w && CLASS_PREFIX <= w && limit >= |w| + 6 && max >= 1 && b.Valid()
    ensures !Blank(w[6..]) <==>
      forall rest: seq<string> :: Carried(w, rest, limit) ==> SentOf(b, [w] + rest, limit, max) == LocalOf(b, [w] + rest, max)
  {
    hide SentOf, LocalOf, Joined, Blank, AllShort, AllWords;
    if Blank(w[6..]) {
      BlankIsCarried(w, limit);
      BlankClassParts(b, w, limit, max);
      assert [w] + ["5", "1:0"] == [w, "5", "1:0"];
    } else {
      forall rest: seq<string> | Carried(w, rest, limit)
        ensures SentOf(b, [w] + rest, limit, max) == LocalOf(b, [w] + rest, max)
      {
        FrontOfWords(w, rest);
        RoutesAgree(b, [w] + rest, limit, max);
      }
    }
  }

  lemma BlankIsCarried(w: string, limit: nat)
    requires limit >= |w| + 6
    ensures Carried(w, ["5", "1:0"], limit)
  {
    hide Joined;
    ThreeWords(w);
    assert [w] + ["5", "1:0"] == [w, "5", "1:0"];
  }

  lemma FrontOfWords(w: string, rest: seq<string>)
    requires IsWord(w) && '\0' !in w && CLASS_PREFIX <= w && AllWords(rest)
    ensures AllWords([w] + rest) && EntryWords([w] + rest) == rest
  {
    assert ([w] + rest)[1..] == rest;
  }

  function Padding(n: nat): (s: string)
    ensures |s| == n
  {
    seq(n, _ => '0')
  }

  lemma {:induction false} PaddingIsZero(n: nat)
    ensures Horner(Padding(n), 8) == 0
  {
    if n > 0 {
      assert Padding(n)[..n - 1] == Padding(n - 1);
      PaddingIsZero(n - 1);
    }
  }

  lemma PaddedOne(n: nat)
    requires n >= 1
    ensures Number(Padding(n) + "1") == Some(1)
  {
    var s := Padding(n) + "1";
    PaddingIsZero(n);
    assert s[..|s| - 1] == Padding(n);
    assert AllDigits(s, 8);
  }

  lemma LongWord(n: nat)
    requires n >= 21
    ensures var word := Padding(n) + "1:0";
      AllWords([word]) && !(CLASS_PREFIX <= word) && Merged([word]) == [word] && !AllShort([word])
  {
    var word := Padding(n) + "1:0";
    var words := [word];
    assert word[0] == '0' && CLASS_PREFIX[0] == 'c';
    assert IsWord(word) && '\0' !in word && |words[0]| >= TOKEN_SIZE;
    assert AllWords(words) && !AllShort(words);
  }

  /** A good entry word of 24 or more characters is taken where it is typed and refused where it arrives. */
  lemma LongWordParts(b: Build, n: nat, limit: nat, max: nat)
    requires n >= 21 && max >= 1
    ensures var word := Padding(n) + "1:0";
      && LocalOf(b, [word], max) == Some(Definition(b.classDefault, [Entry(b.nodeLocal, b.paramId(1, 0))]))
      && SentOf(b, [word], limit, max) == None
  {
    hide EntryOf, ListHere, Joined, RemoteOf, Number;
    var word := Padding(n) + "1:0";
    PaddedOne(n);
    FieldAndZero(b, Padding(n) + "1", 1);
    assert Padding(n) + "1" + ":0" == word && word[0] == '0';
    OneEntry(b, b.classDefault, word, Entry(b.nodeLocal, b.paramId(1, 0)), max);
    LongWord(n);
    RoutesExact(b, [word], limit, max);
  }

  function Copies(n: nat): (words: seq<string>)
    ensures |words| == n
  {
    seq(n, _ => "1:0")
  }

  lemma {:induction false} JoinedCopies(n: nat)
    ensures |Joined(Copies(n))| == if n == 0 then 0 else 4 * n - 1
  {
    if n > 0 {
      assert Copies(n)[..n - 1] == Copies(n - 1);
      JoinedCopies(n - 1);
    }
  }

  /** A list of good short words that fill more than the text limit is taken here and not sent. */
  lemma LongTextParts(b: Build, n: nat, limit: nat, max: nat)
    requires 1 <= n <= max && 4 * n - 1 > limit
    ensures LocalOf(b, Copies(n), max).Some? && SentOf(b, Copies(n), limit, max) == None
  {
    hide EntryOf, Joined, RemoteOf;
    OneDigit("1", '1');
    FieldAndZero(b, "1", 1);
    assert "1" + ":0" == "1:0";
    JoinedCopies(n);
  }

  // ---------- the line that hk-report.py prints ----------

  datatype ReportEntry = ReportEntry(table: nat, offset: nat)

  function DigitChar(d: nat): (c: char)
    requires d < 16
    ensures DigitOf(c) == d && c != ' ' && c != ':'
    ensures c == '0' <==> d == 0
  {
    if d < 10 then '0' + d as char else 'a' + (d - 10) as char
  }

  /** A number in base 10 or 16 without leading zeros. */
  function Numeral(n: nat, base: nat): (s: string)
    requires 2 <= base <= 16
    ensures s != ""
  {
    if n < base then [DigitChar(n)] else Numeral(n / base, base) + [DigitChar(n % base)]
  }

  /** f"{offset:02x}" */
  function TwoHex(n: nat): string {
    if n < 16 then "0" + Numeral(n, 16) else Numeral(n, 16)
  }

  function PrintEntry(e: ReportEntry): string {
    Numeral(e.table, 10) + ":0x" + TwoHex(e.offset)
  }

  function PrintAll(es: seq<ReportEntry>): (words: seq<string>)
    ensures |words| == |es|
  {
    seq(|es|, i requires 0 <= i < |es| => PrintEntry(es[i]))
  }

  /** The entry list of the printed `hk define` line. */
  function DefineText(es: seq<ReportEntry>): string { Join(PrintAll(es), " ") }

  predicate Fits(b: Build, e: ReportEntry) { e.table <= UINT8_MAX && e.offset <= UINT16_MAX && e.offset <= b.offsetMax }

  lemma HornerSnoc(s: string, c: char, base: nat)
    ensures Horner(s + [c], base) == Horner(s, base) * base + DigitOf(c)
  {
    assert (s + [c])[..|s|] == s;
  }

  lemma NumeralReads(n: nat, base: nat)
    requires 2 <= base <= 16
    ensures Horner(Numeral(n, base), base) == n && AllDigits(Numeral(n, base), base)
    ensures ' ' !in Numeral(n, base) && ':' !in Numeral(n, base)
    ensures n > 0 ==> Numeral(n, base)[0] != '0'
  {
    NumeralValue(n, base);
    NumeralText(n, base);
  }

  lemma {:induction false} NumeralValue(n: nat, base: nat)
    requires 2 <= base <= 16
    ensures Horner(Numeral(n, base), base) == n
  {
    hide Horner, DigitChar, DigitOf;
    if n < base {
      HornerSnoc("", DigitChar(n), base);
      assert "" + [DigitChar(n)] == [DigitChar(n)];
      HornerEmpty(base);
    } else {
      NumeralValue(n / base, base);
      HornerSnoc(Numeral(n / base, base), DigitChar(n % base), base);
      QuotientPositive(n, base);
    }
  }

  lemma {:induction false} NumeralText(n: nat, base: nat)
    requires 2 <= base <= 16
    ensures AllDigits(Numeral(n, base), base) && ' ' !in Numeral(n, base) && ':' !in Numeral(n, base)
    ensures n > 0 ==> Numeral(n, base)[0] != '0'
  {
    hide DigitChar, DigitOf;
    if n >= base {
      NumeralText(n / base, base);
      QuotientPositive(n, base);
    }
  }

  lemma QuotientPositive(n: nat, base: nat)
    requires 2 <= base <= n
    ensures n / base > 0 && n / base * base + n % base == n
  {
  }

  lemma HornerEmpty(base: nat)
    ensures Horner("", base) * base == 0
  {
  }

  lemma DecimalIsNumber(n: nat)
    ensures Number(Numeral(n, 10)) == Some(n)
  {
    NumeralReads(n, 10);
    var s := Numeral(n, 10);
    assert n == 0 ==> s == "0";
    assert '1' <= s[0] <= '9' || s == "0" by {
      assert IsDigit(s[0], 10);
    }
    if n == 0 {
      assert Horner("0", 8) == Horner("", 8) * 8;
    }
  }

  lemma HexIsNumber(n: nat)
    ensures Number("0x" + TwoHex(n)) == Some(n)
    ensures ' ' !in TwoHex(n) && ':' !in TwoHex(n)
  {
    NumeralReads(n, 16);
    var s := "0x" + TwoHex(n);
    assert s[2..] == TwoHex(n);
    if n < 16 {
      PaddedHorner(Numeral(n, 16)[0]);
    }
  }

  lemma PaddedHorner(c: char)
    ensures Horner("0" + [c], 16) == Horner([c], 16) == DigitOf(c)
  {
    assert ("0" + [c])[..1] == "0";
    assert Horner("0", 16) == Horner("", 16) * 16;
    assert Horner([c], 16) == Horner("", 16) * 16 + DigitOf(c);
  }

  lemma TwoFields(b: Build, text: string, f: string, g: string, x: nat, y: nat)
    requires Split(text, ':') == [f, g] && Number(f) == Some(x) && Number(g) == Some(y)
    ensures EntryOf(b, text)
         == if x <= UINT8_MAX && y <= UINT16_MAX && y <= b.offsetMax then Some(Entry(b.nodeLocal, b.paramId(x, y))) else None
  {
    hide Split, Number;
  }

  lemma PrintedFields(e: ReportEntry)
    ensures Split(PrintEntry(e), ':') == [Numeral(e.table, 10), "0x" + TwoHex(e.offset)] && IsWord(PrintEntry(e))
  {
    var table, offset := Numeral(e.table, 10), "0x" + TwoHex(e.offset);
    assert PrintEntry(e) == table + [':'] + offset by {
      hide Numeral, TwoHex;
    }
    hide *;
    TableText(e.table);
    OffsetText(e.offset);
    PairOfFields(table, offset);
  }

  lemma TableText(n: nat)
    ensures Numeral(n, 10) != "" && ':' !in Numeral(n, 10) && ' ' !in Numeral(n, 10)
  {
    hide Numeral, Horner;
    NumeralReads(n, 10);
  }

  lemma OffsetText(n: nat)
    ensures ':' !in "0x" + TwoHex(n) && ' ' !in "0x" + TwoHex(n)
  {
    hide TwoHex, Number;
    HexIsNumber(n);
  }

  lemma PairOfFields(a: string, b: string)
    requires a != "" && ':' !in a && ':' !in b && ' ' !in a && ' ' !in b
    ensures Split(a + [':'] + b, ':') == [a, b] && IsWord(a + [':'] + b)
  {
    hide Split;
    SplitFirst(a, b, ':');
    SplitFirst(b, "", ':');
  }

  lemma PrintedEntryReads(b: Build, e: ReportEntry)
    ensures IsWord(PrintEntry(e))
    ensures EntryOf(b, PrintEntry(e))
         == if Fits(b, e) then Some(Entry(b.nodeLocal, b.paramId(e.table, e.offset))) else None
    ensures Fits(b, e) ==> |PrintEntry(e)| < TOKEN_SIZE
  {
    hide Number, Numeral, TwoHex, Split, PrintEntry, EntryOf;
    PrintedFields(e);
    DecimalIsNumber(e.table);
    HexIsNumber(e.offset);
    TwoFields(b, PrintEntry(e), Numeral(e.table, 10), "0x" + TwoHex(e.offset), e.table, e.offset);
    if Fits(b, e) {
      ShortNumerals(b, e);
    }
  }

  /** An octal numeral behind its zero. */
  lemma OctalIsNumber(n: nat)
    ensures Number("0" + Numeral(n, 8)) == Some(n)
  {
    NumeralReads(n, 8);
    hide Numeral, Horner;
    LeadingZero(Numeral(n, 8), 8);
    OctalText(Numeral(n, 8));
  }

  lemma OctalText(s: string)
    requires AllDigits(s, 8)
    ensures Number("0" + s) == Some(Horner("0" + s, 8))
  {
    hide Horner;
    var f := "0" + s;
    assert forall i :: 1 <= i < |f| ==> f[i] == s[i - 1];
    assert AllDigits(f, 8);
    assert |s| > 0 ==> IsDigit(s[0], 8);
  }

  /** Hexadecimal in capitals: the prefix makes no difference. */
  lemma CapitalPrefix(s: string)
    ensures Number("0X" + s) == Number("0x" + s)
  {
    hide Horner;
    assert ("0X" + s)[2..] == s && ("0x" + s)[2..] == s;
    assert !IsDigit('X', 8) && !IsDigit('x', 8);
    assert ("0X" + s)[1] == 'X' && ("0x" + s)[1] == 'x';
  }

  lemma {:induction false} LeadingZero(s: string, base: nat)
    ensures Horner("0" + s, base) == Horner(s, base)
  {
    if s == "" {
      assert ("0")[..0] == "";
      HornerSnoc("", '0', base);
      assert "" + ['0'] == "0" && "0" + s == "0";
    } else {
      LeadingZero(s[..|s| - 1], base);
      assert ("0" + s)[..|s|] == "0" + s[..|s| - 1];
    }
  }

  /** node:table:offset in decimal is read as those three exactly when each is in range. */
  lemma ThreeFieldsRead(b: Build, node: nat, table: nat, offset: nat)
    ensures EntryOf(b, Numeral(node, 10) + ":" + Numeral(table, 10) + ":" + Numeral(offset, 10)) ==
      if node <= 65535 && table <= 255 && offset <= 65535 && offset <= b.offsetMax then Some(Entry(node, b.paramId(table, offset)))
      else None
  {
    var x, y, z := Numeral(node, 10), Numeral(table, 10), Numeral(offset, 10);
    TableText(node);
    TableText(table);
    TableText(offset);
    DecimalIsNumber(node);
    DecimalIsNumber(table);
    DecimalIsNumber(offset);
    hide *;
    SplitThree(x, y, z);
    ThreeFields(b, x + ":" + y + ":" + z, x, y, z, node, table, offset);
  }

  lemma SplitThree(x: string, y: string, z: string)
    requires ':' !in x && ':' !in y && ':' !in z
    ensures Split(x + ":" + y + ":" + z, ':') == [x] + ([y] + [z])
  {
    hide Split;
    SplitFirst(z, "", ':');
    SplitFirst(y, z, ':');
    SplitFirst(x, y + [':'] + z, ':');
    assert x + ":" + y + ":" + z == x + [':'] + (y + [':'] + z);
  }

  lemma ThreeFields(b: Build, text: string, x: string, y: string, z: string, node: nat, table: nat, offset: nat)
    requires Split(text, ':') == [x] + ([y] + [z])
    requires Number(x) == Some(node) && Number(y) == Some(table) && Number(z) == Some(offset)
    ensures EntryOf(b, text) ==
      if node <= 65535 && table <= 255 && offset <= 65535 && offset <= b.offsetMax then Some(Entry(node, b.paramId(table, offset)))
      else None
  {
    hide Split, Number;
    var fields := [x, y, z];
    assert Split(text, ':') == fields;
    assert AllNumbers(fields) <==> node <= 65535 && table <= 65535 && offset <= 65535 by {
      assert fields[0] == x && fields[1] == y && fields[2] == z;
    }
  }

  lemma OneDigitMore(n: nat, base: nat, k: nat)
    requires 2 <= base <= 16 && (n < base || |Numeral(n / base, base)| <= k)
    ensures |Numeral(n, base)| <= k + 1
  {
  }

  lemma ShortNumerals(b: Build, e: ReportEntry)
    requires Fits(b, e)
    ensures |PrintEntry(e)| <= 11
  {
    hide Numeral;
    OneDigitMore(e.table / 10 / 10, 10, 0);
    OneDigitMore(e.table / 10, 10, 1);
    OneDigitMore(e.table, 10, 2);
    OneDigitMore(e.offset / 16 / 16 / 16, 16, 0);
    OneDigitMore(e.offset / 16 / 16, 16, 1);
    OneDigitMore(e.offset / 16, 16, 2);
    OneDigitMore(e.offset, 16, 3);
  }

  /** The printed list is read back exactly when it holds 1..max entries that all fit. */
  lemma PrintedReadsBack(b: Build, es: seq<ReportEntry>, max: nat)
    ensures EntriesOf(b, DefineText(es), max).Some? <==> 1 <= |es| <= max && forall i :: 0 <= i < |es| ==> Fits(b, es[i])
    ensures EntriesOf(b, DefineText(es), max).Some? ==>
      EntriesOf(b, DefineText(es), max).value
      == seq(|es|, i requires 0 <= i < |es| => Entry(b.nodeLocal, b.paramId(es[i].table, es[i].offset)))
  {
    hide EntryOf, PrintEntry, Words;
    var words := PrintAll(es);
    forall i | 0 <= i < |es| ensures IsWord(words[i]) && GoodWord(b, words[i]) == Fits(b, es[i])
      && (Fits(b, es[i]) ==> EntryOf(b, words[i]).value == Entry(b.nodeLocal, b.paramId(es[i].table, es[i].offset)))
    {
      PrintedEntryReads(b, es[i]);
    }
    WordsOfJoin(words);
    assert GoodWords(b, words) <==> forall i :: 0 <= i < |es| ==> Fits(b, es[i]);
    if GoodWords(b, words) {
      assert EntriesOfWords(b, words)
          == seq(|es|, i requires 0 <= i < |es| => Entry(b.nodeLocal, b.paramId(es[i].table, es[i].offset)));
    }
  }

  /** Typed at the shell, where the printed words take the local route, the same lists are accepted. */
  lemma PrintedLocally(b: Build, es: seq<ReportEntry>, max: nat)
    requires es != []
    ensures LocalOf(b, PrintAll(es), max) ==
      if |es| <= max && forall i :: 0 <= i < |es| ==> Fits(b, es[i]) then
        Some(Definition(b.classDefault,
                        seq(|es|, i requires 0 <= i < |es| => Entry(b.nodeLocal, b.paramId(es[i].table, es[i].offset)))))
      else None
  {
    PrintedIsNoClass(es[0]);
    PrintedEntries(b, es);
    hide PrintAll, EntryOf, EntriesHere, AllEntries, PrintEntry;
    assert PrintAll(es)[0] == PrintEntry(es[0]) by { PrintedAt(es, 0); }
  }

  lemma PrintedAt(es: seq<ReportEntry>, i: nat)
    requires i < |es|
    ensures PrintAll(es)[i] == PrintEntry(es[i])
  {
  }

  lemma PrintedEntries(b: Build, es: seq<ReportEntry>)
    ensures AllEntries(b, PrintAll(es)) <==> forall i :: 0 <= i < |es| ==> Fits(b, es[i])
    ensures AllEntries(b, PrintAll(es)) ==>
      EntriesHere(b, PrintAll(es))
      == seq(|es|, i requires 0 <= i < |es| => Entry(b.nodeLocal, b.paramId(es[i].table, es[i].offset)))
  {
    hide EntryOf, PrintEntry, Fits;
    var words := PrintAll(es);
    forall i | 0 <= i < |es| ensures EntryOf(b, words[i])
      == if Fits(b, es[i]) then Some(Entry(b.nodeLocal, b.paramId(es[i].table, es[i].offset))) else None
    {
      PrintedEntryReads(b, es[i]);
    }
  }

  lemma PrintedIsNoClass(e: ReportEntry)
    ensures !(CLASS_PREFIX <= PrintEntry(e))
  {
    hide Numeral, Horner;
    NumeralReads(e.table, 10);
    TableText(e.table);
    assert PrintEntry(e)[0] == Numeral(e.table, 10)[0] && IsDigit(Numeral(e.table, 10)[0], 10);
    assert CLASS_PREFIX[0] == 'c';
  }

  // ---------- a class below zero ----------

  /**
    A minus wraps around like any unsigned number: exactly zero and the seven numbers up to
    ULONG_MAX are classes behind it.
   */
  lemma NegativeClassExact(b: Build, g: string, n: nat)
    requires b.Valid() && Number(g) == Some(n) && ' ' !in g && '\0' !in g
    ensures ClassOf(b, "class=" + ("-" + g)) ==
      if n == 0 then Accepted(0, "")
      else if b.ulongMax - 7 < n <= b.ulongMax then Accepted(b.ulongMax + 1 - n, "")
      else Rejected(-ERANGE)
  {
    hide Number, FieldValue, ClassOf;
    SignedField("", g, n, b.ulongMax);
    assert "" + "-" + g == "-" + g;
    ClassAlone(b, "-" + g);
  }

  /** Each of the classes 1 to 7 has such a number, in decimal. */
  lemma NegativeClass(b: Build, c: nat)
    requires b.Valid() && 1 <= c <= CLASS_MAX
    ensures ClassOf(b, "class=-" + Numeral(b.ulongMax + 1 - c, 10)) == Accepted(c, "")
  {
    var n := b.ulongMax + 1 - c;
    hide Numeral, Number, ClassOf;
    DecimalIsNumber(n);
    NumeralWord(n);
    NegativeClassExact(b, Numeral(n, 10), n);
    Associative("class=", "-", Numeral(n, 10));
    assert "class=" + "-" == "class=-";
  }

  lemma {:induction false} NumeralWord(n: nat)
    ensures ' ' !in Numeral(n, 10) && '\0' !in Numeral(n, 10)
  {
    hide DigitChar;
    NumeralReads(n, 10);
    assert forall c: char :: IsDigit(c, 10) ==> c != '\0';
  }
}
