/** The housekeeping entry parser of `hk_entries.c`. */
module HkEntries {
  import opened Basics
  import opened CText

  const EINVAL := 22
  const E2BIG := 7
  const ERANGE := 34

  const UINT16_MAX := 65535
  const UINT8_MAX := 255
  const TOKEN_SIZE := 24
  const CLASS_MAX := 7

  /**
    What the build decides: the width of unsigned long, KFSW_HK_NODE_LOCAL,
    KFSW_PARAM_OFFSET_MAX, KFSW_HK_CLASS_DEFAULT and KFSW_PARAM_ID.
   */
  datatype Build = Build(ulongMax: nat, nodeLocal: nat, offsetMax: nat, classDefault: nat, paramId: (nat, nat) -> nat) {
    predicate Valid() { ulongMax >= 0xFFFF_FFFF }
  }

  datatype Entry = Entry(node: nat, paramId: nat)

  // ---------- what the parser accepts ----------

  predicate AllNumbers(fields: seq<string>) {
    forall i :: 0 <= i < |fields| ==> Number(fields[i]).Some? && Number(fields[i]).value <= UINT16_MAX
  }

  /** [node:]table:offset, each a whole C number that fits its field. */
  function EntryOf(b: Build, text: string): Option<Entry> {
    var fields := Split(text, ':');
    var n := |fields|;
    if !(2 <= n <= 3) || !AllNumbers(fields) then None
    else if Number(fields[n - 2]).value > UINT8_MAX || Number(fields[n - 1]).value > b.offsetMax then None
    else
      Some(Entry(if n == 2 then b.nodeLocal else Number(fields[0]).value,
                 b.paramId(Number(fields[n - 2]).value, Number(fields[n - 1]).value)))
  }

  predicate GoodWord(b: Build, w: string) { |w| < TOKEN_SIZE && EntryOf(b, w).Some? }

  predicate GoodWords(b: Build, words: seq<string>) {
    forall i :: 0 <= i < |words| ==> GoodWord(b, words[i])
  }

  function EntriesOfWords(b: Build, words: seq<string>): (entries: seq<Entry>)
    requires GoodWords(b, words)
    ensures |entries| == |words|
  {
    seq(|words|, i requires 0 <= i < |words| => EntryOf(b, words[i]).value)
  }

  /** The entries of a list, when there are 1..max of them and each is good. */
  function EntriesOf(b: Build, text: string, max: nat): Option<seq<Entry>> {
    var words := Words(text);
    if 1 <= |words| <= max && GoodWords(b, words) then Some(EntriesOfWords(b, words)) else None
  }

  datatype ClassResult = Rejected(code: int) | Accepted(retrievalClass: nat, rest: string)

  /** An optional leading class=N, and the text after it without its leading spaces. */
  function ClassOf(b: Build, text: string): ClassResult {
    if !("class=" <= text) then Accepted(b.classDefault, text) else
    var number := Strtoul(text, 6, b.ulongMax);
    if number.end == 6 || (At(text, number.end) != ' ' && At(text, number.end) != '\0') then Rejected(-EINVAL)
    else if number.value > CLASS_MAX then Rejected(-ERANGE)
    else Accepted(number.value, text[SkipBlanks(text, number.end)..])
  }

  function SkipBlanks(s: string, i: nat): (j: nat)
    requires i <= |s|
    ensures i <= j <= |s|
    decreases |s| - i
  {
    if i < |s| && s[i] == ' ' then SkipBlanks(s, i + 1) else i
  }

  // ---------- the parsers of the source ----------

  /** Where the field that starts at `cursor` ends. */
  function FieldEnd(text: string, cursor: nat): (k: nat)
    requires cursor <= |text|
    ensures cursor <= k <= |text| && (k < |text| ==> text[k] == ':')
  {
    cursor + Find(text[cursor..], ':')
  }

  lemma SplitAt(rest: string)
    ensures var k := Find(rest, ':');
      Split(rest, ':') == [rest[..k]] + (if k == |rest| then [] else Split(rest[k + 1..], ':'))
  {
    if Find(rest, ':') == |rest| {
      assert rest[..|rest|] == rest;
    }
  }

  lemma FieldAt(text: string, cursor: nat, fields: seq<string>)
    requires cursor <= |text| && Split(text, ':') == fields + Split(text[cursor..], ':')
    ensures var k := FieldEnd(text, cursor);
      Split(text, ':') == fields + [text[cursor..k]] + (if k == |text| then [] else Split(text[k + 1..], ':'))
  {
    hide Split, Find;
    var k, rest := FieldEnd(text, cursor), text[cursor..];
    assert k - cursor == Find(rest, ':');
    SplitAt(rest);
    hide *;
    Onward(text, cursor, k);
    Associative(fields, [text[cursor..k]], if k == |text| then [] else Split(text[k + 1..], ':'));
  }

  lemma Onward(text: string, i: nat, k: nat)
    requires i <= k <= |text|
    ensures text[i..][..k - i] == text[i..k] && (k < |text| ==> text[i..][k - i + 1..] == text[k + 1..])
  {
  }

  /** Up to three fields, each a 16-bit number. */
  predicate Fields(text: string) {
    |Split(text, ':')| <= 3 && AllNumbers(Split(text, ':'))
  }

  lemma BadField(text: string, i: nat)
    requires i < |Split(text, ':')|
    requires Number(Split(text, ':')[i]).None? || Number(Split(text, ':')[i]).value > UINT16_MAX || i == 3
    ensures !Fields(text)
  {
  }

  lemma GoodFields(text: string, parts: seq<nat>)
    requires |parts| <= 3 && AreValues(Split(text, ':'), parts)
    ensures Fields(text)
  {
    hide Split, Number;
  }

  lemma NoFields(b: Build, text: string)
    requires !Fields(text)
    ensures EntryOf(b, text).None?
  {
  }

  /** What the conversion at `cursor` says about the field there. */
  lemma ConvertField(b: Build, text: string, cursor: nat, k: nat, field: string)
    requires b.Valid() && cursor <= |text| && k == FieldEnd(text, cursor) && field == text[cursor..k]
    ensures !IsDigit(At(text, cursor), 10) ==> Number(field).None?
    ensures IsDigit(At(text, cursor), 10) ==>
      var r := Strtoul(text, cursor, b.ulongMax);
      && cursor < r.end <= k
      && (At(text, r.end) == ':' <==> r.end == k < |text|)
      && (Number(field).Some? <==> r.end == k)
      && (Number(field).Some? ==> (Number(field).value <= UINT16_MAX <==> !r.erange && r.value <= UINT16_MAX))
      && (Number(field).Some? && Number(field).value <= UINT16_MAX ==> Number(field).value == r.value)
  {
    hide Strtoul, Number;
    if IsDigit(At(text, cursor), 10) {
      StrtoulOnField(text, cursor, k, b.ulongMax);
      var end := Strtoul(text, cursor, b.ulongMax).end;
      if end < k {
        assert field[end - cursor] == text[end] && field == text[cursor..][..k - cursor];
      }
    } else {
      NoNumber(field);
    }
  }

  /** The field at `cursor` is the next piece of the text. */
  lemma NextField(text: string, cursor: nat, fields: seq<string>)
    requires cursor <= |text| && Split(text, ':') == fields + Split(text[cursor..], ':')
    ensures |Split(text, ':')| > |fields|
    ensures var k := FieldEnd(text, cursor);
      && Split(text, ':')[|fields|] == text[cursor..k]
      && (k == |text| ==> Split(text, ':') == fields + [text[cursor..k]])
      && (k < |text| ==> Split(text, ':') == fields + [text[cursor..k]] + Split(text[k + 1..], ':'))
  {
    FieldAt(text, cursor, fields);
    hide Split, FieldEnd;
  }

  /** With every field read, what is left is the choice between two and three of them. */
  lemma EntryFromParts(b: Build, text: string, fields: seq<string>, parts: seq<nat>)
    requires Split(text, ':') == fields && |parts| <= 3 && AreValues(fields, parts)
    ensures var n := |parts|;
      EntryOf(b, text)
      == if n < 2 || parts[n - 2] > UINT8_MAX || parts[n - 1] > b.offsetMax then None
         else if n == 2 then Some(Entry(b.nodeLocal, b.paramId(parts[0], parts[1])))
         else Some(Entry(parts[0], b.paramId(parts[1], parts[2])))
  {
  }

  /** The fields are whole 16-bit numbers, and these are their values. */
  predicate AreValues(fields: seq<string>, parts: seq<nat>) {
    |fields| == |parts| && forall i :: 0 <= i < |parts| ==> Number(fields[i]) == Some(parts[i]) && parts[i] <= UINT16_MAX
  }

  lemma NoValues()
    ensures AreValues([], [])
  {
  }

  lemma OneMoreValue(fields: seq<string>, parts: seq<nat>, field: string, value: nat)
    ensures AreValues(fields, parts) ==> |fields| == |parts|
    ensures AreValues(fields, parts) && Number(field) == Some(value) && value <= UINT16_MAX ==>
      AreValues(fields + [field], parts + [value])
  {
  }

  /** The loop over the fields. */
  method ReadFields(b: Build, text: CString) returns (ok: bool, parts: seq<nat>)
    requires b.Valid()
    ensures ok <==> Fields(text)
    ensures ok ==> |parts| <= 3 && AreValues(Split(text, ':'), parts)
  {
    hide Split, Number, Strtoul, FieldEnd, IsDigit, Fields, AreValues, Find;
    parts := [];
    var cursor := 0;
    ghost var fields: seq<string> := [];
    NoValues();
    assert text[0..] == text && [] + Split(text, ':') == Split(text, ':');
    while true
      invariant |parts| <= 3 && cursor <= |text|
      invariant AreValues(fields, parts) && |fields| == |parts| && Split(text, ':') == fields + Split(text[cursor..], ':')
      decreases |text| - cursor
    {
      ghost var k := FieldEnd(text, cursor);
      NextField(text, cursor, fields);
      ConvertField(b, text, cursor, k, text[cursor..k]);
      if |parts| == 3 || !IsDigit(At(text, cursor), 10) {
        BadField(text, |parts|);
        return false, parts;
      }
      var number := Strtoul(text, cursor, b.ulongMax);
      OneMoreValue(fields, parts, text[cursor..k], number.value);
      parts := parts + [number.value];
      if number.erange || number.value > UINT16_MAX {
        BadField(text, |parts| - 1);
        return false, parts;
      }
      fields := fields + [text[cursor..k]];
      cursor := number.end;
      if At(text, cursor) != ':' {
        break;
      }
      cursor := cursor + 1;
    }
    if cursor != |text| {
      BadField(text, |parts| - 1);
      return false, parts;
    }
    GoodFields(text, parts);
    ok := true;
  }

  /** `entries[slot]` is the destination; it is written only on success. */
  method ParseEntry(b: Build, text: CString, entries: array<Entry>, slot: nat) returns (code: int)
    requires b.Valid() && slot < entries.Length
    modifies entries
    ensures code == if EntryOf(b, text).Some? then 0 else -EINVAL
    ensures entries[..] == if code == 0 then old(entries[..])[slot := EntryOf(b, text).value] else old(entries[..])
  {
    hide EntryOf;
    var ok, parts := ReadFields(b, text);
    if !ok {
      NoFields(b, text);
      return -EINVAL;
    }
    EntryFromParts(b, text, Split(text, ':'), parts);
    var count := |parts|;
    if count < 2 || parts[count - 2] > UINT8_MAX || parts[count - 1] > b.offsetMax {
      return -EINVAL;
    }
    if count == 2 {
      entries[slot] := Entry(b.nodeLocal, b.paramId(parts[0], parts[1]));
    } else {
      entries[slot] := Entry(parts[0], b.paramId(parts[1], parts[2]));
    }
    return 0;
  }

  /** The `size_t *count` of the caller. */
  class Counter {
    var value: nat

    constructor (value: nat)
      ensures this.value == value
    {
      this.value := value;
    }
  }

  lemma NextWord(text: string, cursor: nat, length: nat)
    requires 0 < length <= |text| - cursor && IsWord(text[cursor..cursor + length])
    requires At(text, cursor + length) == ' ' || cursor + length == |text|
    ensures Words(text[cursor..]) == [text[cursor..cursor + length]] + Words(text[cursor + length..])
  {
    hide Words, IsWord;
    var w, rest := text[cursor..cursor + length], text[cursor + length..];
    assert text[cursor..] == w + rest;
    if rest == "" {
      WordBefore(w, "");
      NoWords();
      assert w + rest == w;
    } else {
      WordBefore(w, rest[1..]);
      SpaceBefore(rest[1..]);
      assert rest == [' '] + rest[1..];
      assert w + rest == w + [' '] + rest[1..];
    }
  }

  lemma NoWords()
    ensures Words("") == []
  {
    SplitFirst("", "", ' ');
  }

  /** A list fails at its first bad word, or at the word for which there is no more room. */
  function CodeFrom(b: Build, words: seq<string>, max: nat, i: nat): int
    requires i <= |words|
    decreases |words| - i
  {
    if i == |words| then (if i == 0 then -EINVAL else 0)
    else if |words[i]| >= TOKEN_SIZE then -EINVAL
    else if i == max then -E2BIG
    else if EntryOf(b, words[i]).None? then -EINVAL
    else CodeFrom(b, words, max, i + 1)
  }

  lemma {:induction false} CodeFromExact(b: Build, words: seq<string>, max: nat, i: nat)
    requires i <= |words| && i <= max && GoodWords(b, words[..i])
    ensures CodeFrom(b, words, max, i) == 0 <==> 1 <= |words| <= max && GoodWords(b, words)
    ensures CodeFrom(b, words, max, i) == -E2BIG <==>
      |words| > max && GoodWords(b, words[..max]) && |words[max]| < TOKEN_SIZE
    decreases |words| - i
  {
    hide EntryOf;
    if i == |words| {
      assert words[..i] == words;
    } else if GoodWord(b, words[i]) && i < max {
      assert words[..i + 1] == words[..i] + [words[i]];
      CodeFromExact(b, words, max, i + 1);
    } else if i < max < |words| {
      assert words[..max][i] == words[i];
    }
  }

  /**
    The code says which list it was: 0 exactly for 1..max good words, -E2BIG exactly when
    max good words are followed by one more that fits the token.
   */
  lemma CodeExact(b: Build, text: string, max: nat)
    ensures max > 0 ==> (CodeFrom(b, Words(text), max, 0) == 0 <==> EntriesOf(b, text, max).Some?)
    ensures CodeFrom(b, Words(text), max, 0) == -7 <==>
      |Words(text)| > max && GoodWords(b, Words(text)[..max]) && |Words(text)[max]| <= 23
  {
    hide EntryOf, Words;
    CodeFromExact(b, Words(text), max, 0);
  }

  predicate Filled(b: Build, entries: seq<Entry>, words: seq<string>, before: seq<Entry>) {
    && |words| <= |entries| == |before|
    && (forall i :: 0 <= i < |words| ==> EntryOf(b, words[i]) == Some(entries[i]))
    && (forall i :: |words| <= i < |entries| ==> entries[i] == before[i])
  }

  /** The word at the cursor is the next of the text. */
  lemma TakeWord(text: string, words: seq<string>, cursor: nat, length: nat)
    requires 0 < length <= |text| - cursor && IsWord(text[cursor..cursor + length])
    requires At(text, cursor + length) == ' ' || cursor + length == |text|
    requires Words(text) == words + Words(text[cursor..])
    ensures |words| < |Words(text)| && Words(text)[|words|] == text[cursor..cursor + length]
    ensures Words(text) == words + [text[cursor..cursor + length]] + Words(text[cursor + length..])
  {
    hide *;
    NextWord(text, cursor, length);
    Associative(words, [text[cursor..cursor + length]], Words(text[cursor + length..]));
  }

  lemma NothingFilled(b: Build, entries: seq<Entry>)
    ensures Filled(b, entries, [], entries)
  {
  }

  lemma OneMoreFilled(b: Build, entries: seq<Entry>, words: seq<string>, token: string, before: seq<Entry>)
    requires Filled(b, entries, words, before) && |words| < |entries| && EntryOf(b, token).Some?
    ensures Filled(b, entries[|words| := EntryOf(b, token).value], words + [token], before)
  {
    hide EntryOf;
  }

  /** The word at index i decides, or the words behind it do. */
  lemma CodeStep(b: Build, words: seq<string>, max: nat, i: nat)
    requires i < |words|
    ensures CodeFrom(b, words, max, i) ==
      if |words[i]| >= TOKEN_SIZE then -EINVAL
      else if i == max then -E2BIG
      else if EntryOf(b, words[i]).None? then -EINVAL
      else CodeFrom(b, words, max, i + 1)
  {
  }

  lemma CodeEnd(b: Build, words: seq<string>, max: nat)
    ensures CodeFrom(b, words, max, |words|) == if words == [] then -EINVAL else 0
  {
  }

  /** `*count` is written only on success, and entries beyond the words stay as they were. */
  method ParseEntries(b: Build, text: CString, entries: array<Entry>, max: nat, count: Counter) returns (code: int)
    requires b.Valid() && max <= entries.Length
    modifies entries, count
    ensures code == if max == 0 then -EINVAL else CodeFrom(b, Words(text), max, 0)
    ensures code == 0 ==> count.value == |Words(text)| && Filled(b, entries[..], Words(text), old(entries[..]))
    ensures code != 0 ==> count.value == old(count.value)
  {
    hide Words, EntryOf, IsWord, CodeFrom, Filled, Find, Split, NonEmpty;
    if max == 0 {
      return -EINVAL;
    }
    NothingFilled(b, entries[..]);
    var cursor, parsed := 0, 0;
    ghost var words: seq<string> := [];
    assert text[0..] == text && [] + Words(text) == Words(text);
    while cursor < |text|
      invariant cursor <= |text| && parsed == |words| <= max
      invariant Words(text) == words + Words(text[cursor..])
      invariant CodeFrom(b, Words(text), max, 0) == CodeFrom(b, Words(text), max, parsed)
      invariant Filled(b, entries[..], words, old(entries[..]))
      invariant count.value == old(count.value)
      decreases |text| - cursor
    {
      cursor := SkipTo(text, cursor);
      if cursor == |text| {
        break;
      }
      var length := WordLength(text, cursor);
      var token: CString := text[cursor..cursor + length];
      TakeWord(text, words, cursor, length);
      CodeStep(b, Words(text), max, parsed);
      ghost var now := entries[..];
      if length >= TOKEN_SIZE {
        return -EINVAL;
      }
      if parsed == max {
        return -E2BIG;
      }
      var parse := ParseEntry(b, token, entries, parsed);
      if parse != 0 {
        return -EINVAL;
      }
      OneMoreFilled(b, now, words, token, old(entries[..]));
      words := words + [token];
      parsed := parsed + 1;
      cursor := cursor + length;
    }
    NoWords();
    assert text[cursor..] == "" && words + [] == words;
    CodeEnd(b, words, max);
    if parsed == 0 {
      return -EINVAL;
    }
    count.value := parsed;
    return 0;
  }

  method SkipTo(text: CString, from: nat) returns (cursor: nat)
    requires from <= |text|
    ensures from <= cursor <= |text| && At(text, cursor) != ' '
    ensures Words(text[cursor..]) == Words(text[from..])
  {
    hide Words;
    cursor := from;
    while At(text, cursor) == ' '
      invariant from <= cursor <= |text|
      invariant Words(text[cursor..]) == Words(text[from..])
      decreases |text| - cursor
    {
      SpaceBefore(text[cursor + 1..]);
      assert text[cursor..] == [' '] + text[cursor + 1..];
      cursor := cursor + 1;
    }
  }

  method WordLength(text: CString, cursor: nat) returns (length: nat)
    requires cursor < |text| && text[cursor] != ' '
    ensures 0 < length <= |text| - cursor && IsWord(text[cursor..cursor + length])
    ensures At(text, cursor + length) == ' ' || cursor + length == |text|
  {
    length := 0;
    while At(text, cursor + length) != '\0' && At(text, cursor + length) != ' '
      invariant length <= |text| - cursor && ' ' !in text[cursor..cursor + length]
      decreases |text| - cursor - length
    {
      length := length + 1;
    }
  }

  /** On success `rest` is the text the caller goes on with; on failure its pointer stays. */
  method ParseClass(b: Build, text: CString) returns (code: int, rest: CString, retrievalClass: nat)
    ensures match ClassOf(b, text)
      case Accepted(c, r) => code == 0 && rest == r && retrievalClass == c
      case Rejected(e) => code == e && rest == text && retrievalClass == b.classDefault
  {
    rest, retrievalClass := text, b.classDefault;
    if !("class=" <= text) {
      return 0, rest, retrievalClass;
    }
    var number := Strtoul(text, 6, b.ulongMax);
    if number.end == 6 || (At(text, number.end) != ' ' && At(text, number.end) != '\0') {
      return -EINVAL, rest, retrievalClass;
    }
    if number.value > CLASS_MAX {
      return -ERANGE, rest, retrievalClass;
    }
    retrievalClass := number.value;
    var end := number.end;
    while At(text, end) == ' '
      invariant number.end <= end <= |text|
      invariant SkipBlanks(text, end) == SkipBlanks(text, number.end)
      decreases |text| - end
    {
      end := end + 1;
    }
    rest := text[end..];
    code := 0;
  }

  // ---------- which class a text names ----------

  lemma {:induction false} SkipBlanksIs(s: string, i: nat, j: nat)
    requires i <= j <= |s| && (j < |s| ==> s[j] != ' ') && forall k :: i <= k < j ==> s[k] == ' '
    ensures SkipBlanks(s, i) == j
    decreases j - i
  {
    if i < j {
      SkipBlanksIs(s, i + 1, j);
    }
  }

  predicate AllSpaces(s: string) {
    forall i :: 0 <= i < |s| ==> s[i] == ' '
  }

  /**
    The field behind the equals sign, up to the next space, is taken as strtoul takes it and
    never in part; the rest begins behind the spaces.
   */
  lemma ClassExact(b: Build, f: string, gap: string, rest: string)
    requires ' ' !in f && AllSpaces(gap) && '\0' !in f + gap + rest
    requires (rest == "" || rest[0] != ' ') && (gap == "" ==> rest == "") && (gap == "" || !Blank(f))
    ensures ClassOf(b, "class=" + f + gap + rest) ==
      match FieldValue(f, b.ulongMax)
      case None => Rejected(-EINVAL)
      case Some(v) => if v > CLASS_MAX then Rejected(-ERANGE) else Accepted(v, rest)
  {
    var text, k := "class=" + f + gap + rest, 6 + |f|;
    ClassText(f, gap, rest);
    hide FieldValue, Strtoul, Blank, SkipBlanks, ClassOf;
    StrtoulExact(text, 6, k, b.ulongMax);
    ClassOfField(b, text, k, FieldValue(f, b.ulongMax));
  }

  lemma ClassOfField(b: Build, text: string, k: nat, value: Option<nat>)
    requires "class=" <= text && 6 <= k <= |text| && (At(text, k) == ' ' || At(text, k) == '\0')
    requires forall i :: 6 <= i < k ==> At(text, i) != ' ' && At(text, i) != '\0'
    requires var r := Strtoul(text, 6, b.ulongMax);
      match value case None => r.end == 6 || r.end < k case Some(v) => 6 < r.end == k && r.value == v
    ensures ClassOf(b, text) ==
      match value
      case None => Rejected(-EINVAL)
      case Some(v) => if v > CLASS_MAX then Rejected(-ERANGE) else Accepted(v, text[SkipBlanks(text, k)..])
  {
    hide Strtoul, SkipBlanks;
  }

  /** The pieces of such a text. */
  lemma ClassText(f: string, gap: string, rest: string)
    requires ' ' !in f && AllSpaces(gap) && '\0' !in f + gap + rest
    requires (rest == "" || rest[0] != ' ') && (gap == "" ==> rest == "")
    ensures var text := "class=" + f + gap + rest;
      var k := 6 + |f|;
      && "class=" <= text && text[6..k] == f && '\0' !in text
      && (if k < |text| then gap != "" && text[k] == ' ' else At(text, k) == '\0')
      && (forall i :: 6 <= i < k ==> At(text, i) != ' ' && At(text, i) != '\0')
      && SkipBlanks(text, k) == k + |gap| && text[k + |gap|..] == rest
  {
    var text, k := "class=" + f + gap + rest, 6 + |f|;
    assert forall i :: 6 <= i < k ==> text[i] == f[i - 6] && text[i] in f + gap + rest;
    assert forall i :: k <= i < k + |gap| ==> text[i] == gap[i - k];
    assert k + |gap| < |text| ==> text[k + |gap|] == rest[0];
    SkipBlanksIs(text, k, k + |gap|);
  }

  /** Without class= there is the default, and the whole text is left. */
  lemma NoClass(b: Build, text: string)
    requires |text| < 6 || text[..6] != "class="
    ensures ClassOf(b, text) == Accepted(b.classDefault, text)
  {
  }

  /** A class word alone. */
  lemma ClassAlone(b: Build, f: string)
    requires ' ' !in f && '\0' !in f
    ensures ClassOf(b, "class=" + f) ==
      match FieldValue(f, b.ulongMax)
      case None => Rejected(-EINVAL)
      case Some(v) => if v > CLASS_MAX then Rejected(-ERANGE) else Accepted(v, "")
  {
    hide ClassOf, FieldValue;
    ClassExact(b, f, "", "");
    assert "class=" + f + "" + "" == "class=" + f && f + "" + "" == f;
  }

  lemma {:induction false} DigitFirst(f: string, ulongMax: nat)
    requires f != "" && IsDigit(f[0], 10)
    ensures FieldValue(f, ulongMax)
         == match Number(f) case None => None case Some(n) => Some(if n > ulongMax then ulongMax else n)
  {
    hide Number;
    assert SkipSpaces(f, 0) == 0 && f[0..] == f;
  }

  /** class=N means class N for every number up to 7 in any base, and nothing else that starts with a digit means one. */
  lemma ClassIsNumber(b: Build, f: string, gap: string, rest: string)
    requires b.Valid() && f != "" && IsDigit(f[0], 10)
    requires ' ' !in f && AllSpaces(gap) && '\0' !in f + gap + rest
    requires (rest == "" || rest[0] != ' ') && (gap == "" ==> rest == "")
    ensures ClassOf(b, "class=" + f + gap + rest) ==
      match Number(f)
      case None => Rejected(-22)
      case Some(n) => if n <= 7 then Accepted(n, rest) else Rejected(-34)
  {
    hide FieldValue, Number, ClassOf;
    assert !IsSpace(f[0]);
    DigitFirst(f, b.ulongMax);
    ClassExact(b, f, gap, rest);
  }
}
