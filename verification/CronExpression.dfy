/** The cron matcher of src/daemon.c: numbers, atoms, fields and whole schedules.
    The methods follow the C pointer scans and the NUL-writing edits of the local
    buffers; the functions say which texts match which times. */
module CronExpression {
  import opened Text
  import opened Wrappers

  // ----- numbers: strtol and parse_cron_int

  predicate IsDigit(c: char) {
    '0' <= c <= '9'
  }

  /** isspace in the C locale. */
  predicate IsSpace(c: char) {
    c == ' ' || '\t' <= c <= '\r'
  }

  function SkipSpaces(s: string): string {
    if s != [] && IsSpace(s[0]) then SkipSpaces(s[1..]) else s
  }

  function DigitCount(s: string): (n: nat)
    ensures n <= |s|
  {
    if s != [] && IsDigit(s[0]) then 1 + DigitCount(s[1..]) else 0
  }

  function Decimal(digits: string): nat {
    if digits == [] then 0
    else Decimal(digits[..|digits| - 1]) * 10 +
         if IsDigit(digits[|digits| - 1]) then digits[|digits| - 1] as int - '0' as int else 0
  }

  /** strtol in base 10: the value and the unread rest, or None when nothing converts. */
  function Strtol(s: string): Option<(int, string)> {
    var t := SkipSpaces(s);
    var negative := t != [] && t[0] == '-';
    var u := if t != [] && (t[0] == '-' || t[0] == '+') then t[1..] else t;
    var n := DigitCount(u);
    if n == 0 then None
    else
      var magnitude: int := Decimal(u[..n]);
      Some((if negative then -magnitude else magnitude, u[n..]))
  }

  /** A value beyond `long` saturates in C; it is out of 0..999 either way. */
  function ParseCronInt(s: string): Option<nat> {
    match Strtol(s)
    case None => None
    case Some((value, rest)) => if rest == [] && 0 <= value <= 999 then Some(value) else None
  }

  // ----- which texts match

  /** The step behind the slash: 0 when there is no slash, None when it is malformed. */
  function StepOf(atom: string): Option<nat> {
    var slash := IndexOf(atom, '/');
    if slash == |atom| then Some(0)
    else
      match ParseCronInt(atom[slash + 1..])
      case None => None
      case Some(step) => if step > 0 then Some(step) else None
  }

  predicate HeadMatches(head: string, step: nat, value: int) {
    var dash := IndexOf(head, '-');
    if head == "*" then step > 0 ==> value % step == 0
    else if 0 < dash < |head| then
      var lo, hi := ParseCronInt(head[..dash]), ParseCronInt(head[dash + 1..]);
      && lo.Some? && hi.Some? && lo.value <= value <= hi.value
      && (step > 0 ==> (value - lo.value) % step == 0)
    else ParseCronInt(head) == Some(value)
  }

  predicate AtomAccepts(atom: string, value: int) {
    var step := StepOf(atom);
    0 < |atom| < 32 && step.Some? && HeadMatches(atom[..IndexOf(atom, '/')], step.value, value)
  }

  predicate FieldAccepts(field: string, value: int) {
    SomeAccepts(Split(field, ','), value)
  }

  predicate SomeAccepts(atoms: seq<string>, value: int) {
    exists j :: 0 <= j < |atoms| && AtomAccepts(atoms[j], value)
  }

  /** The non-empty runs of characters between spaces. */
  function Words(s: string): seq<string> {
    if s == [] then []
    else if s[0] == ' ' then Words(s[1..])
    else
      var n := IndexOf(s, ' ');
      [s[..n]] + Words(s[n..])
  }

  /** struct tm: `mon` counts from zero. */
  datatype Time = Time(min: int, hour: int, mday: int, mon: int, wday: int)

  predicate ScheduleAccepts(schedule: string, t: Time) {
    var w := Words(schedule);
    && |schedule| < 128
    && |w| >= 5
    && FieldAccepts(w[0], t.min)
    && FieldAccepts(w[1], t.hour)
    && FieldAccepts(w[2], t.mday)
    && FieldAccepts(w[3], t.mon + 1)
    && FieldAccepts(w[4], t.wday)
  }

  // ----- the C code

  /** The C string that starts at `from` in a buffer is `text`. */
  ghost predicate HoldsText(buffer: seq<char>, from: nat, text: string) {
    && from + |text| < |buffer|
    && Lacks(text, NUL)
    && (forall k :: 0 <= k < |text| ==> buffer[from + k] == text[k])
    && buffer[from + |text|] == NUL
  }

  lemma HeldText(buffer: seq<char>, from: nat, text: string)
    requires HoldsText(buffer, from, text)
    ensures CStr(buffer[from..]) == text
  {
    assert buffer[from..][..|text|] == text;
    CStrIs(buffer[from..], text);
  }

  /** strchr on a buffer, as an index or -1. */
  method Strchr(buffer: array<char>, c: char, ghost text: string) returns (at: int)
    requires HoldsText(buffer[..], 0, text) && c != NUL
    ensures at == (if IndexOf(text, c) < |text| then IndexOf(text, c) else -1)
  {
    hide IndexOf;
    assert forall k :: 0 <= k < |text| ==> buffer[k] == buffer[..][k] == text[k];
    var i := 0;
    while buffer[i] != NUL
      invariant 0 <= i <= |text|
      invariant forall k :: 0 <= k < i ==> text[k] != c
      decreases |text| - i
    {
      if buffer[i] == c {
        IndexOfIs(text, c, i);
        return i;
      }
      i := i + 1;
    }
    IndexOfIs(text, c, i);
    return -1;
  }

  /** What is left in a buffer after a NUL is written over position `at` of its text. */
  lemma CutText(before: seq<char>, after: seq<char>, from: nat, text: string, at: nat)
    requires HoldsText(before, from, text) && at < |text| && after == before[from + at := NUL]
    ensures HoldsText(after, from, text[..at])
    ensures HoldsText(after, from + at + 1, text[at + 1..])
  {
  }

  method AtomMatches(atom: string, value: int) returns (matches: bool)
    requires Lacks(atom, NUL)
    ensures matches == AtomAccepts(atom, value)
  {
    hide ParseCronInt;
    hide IndexOf;
    var len := |atom|;
    if len == 0 { return false; }
    var buf := new char[32];
    if len >= buf.Length { return false; }
    forall i | 0 <= i < len { buf[i] := atom[i]; }
    buf[len] := NUL;
    assert HoldsText(buf[..], 0, atom);

    ghost var before := buf[..];
    var slash := Strchr(buf, '/', atom);
    var step := 0;
    ghost var head := atom[..IndexOf(atom, '/')];
    if slash >= 0 {
      buf[slash] := NUL;
      CutText(before, buf[..], 0, atom, slash);
      HeldText(buf[..], slash + 1, atom[slash + 1..]);
      assert buf[..][slash + 1..] == buf[slash + 1..];
      var parsed := ParseCronInt(CStr(buf[slash + 1..]));
      if parsed.None? || parsed.value <= 0 { return false; }
      step := parsed.value;
    } else {
      assert head == atom;
    }
    assert HoldsText(buf[..], 0, head) && StepOf(atom) == Some(step);
    matches := HeadOfBufferMatches(buf, head, step, value);
  }

  lemma HoldsStar(buffer: seq<char>, head: string)
    requires HoldsText(buffer, 0, head) && |buffer| >= 2
    ensures buffer[0] == '*' && buffer[1] == NUL <==> head == "*"
  {
    assert |head| > 0 ==> buffer[0 + 0] == head[0];
    assert |head| > 1 ==> buffer[0 + 1] == head[1];
  }

  /** The two numbers around a dash, cut apart in the buffer. */
  method RangeEnds(buf: array<char>, ghost head: string, dash: nat) returns (lo: Option<int>, hi: Option<int>)
    requires HoldsText(buf[..], 0, head) && dash < |head|
    modifies buf
    ensures lo == ParseCronInt(head[..dash]) && hi == ParseCronInt(head[dash + 1..])
  {
    hide ParseCronInt;
    ghost var before := buf[..];
    buf[dash] := NUL;
    CutText(before, buf[..], 0, head, dash);
    hide HoldsText;
    HeldText(buf[..], 0, head[..dash]);
    HeldText(buf[..], dash + 1, head[dash + 1..]);
    assert buf[..][dash + 1..] == buf[dash + 1..];
    assert buf[..][0..] == buf[..];
    lo, hi := ParseCronInt(CStr(buf[..])), ParseCronInt(CStr(buf[dash + 1..]));
  }

  /** The part of cron_atom_matches after the slash has been cut off. */
  method HeadOfBufferMatches(buf: array<char>, ghost head: string, step: nat, value: int) returns (matches: bool)
    requires buf.Length == 32 && HoldsText(buf[..], 0, head)
    modifies buf
    ensures matches == HeadMatches(head, step, value)
  {
    hide ParseCronInt, IndexOf, HoldsText;
    var dash := Strchr(buf, '-', head);
    HoldsStar(buf[..], head);
    if buf[0] == '*' && buf[1] == NUL {
      return if step > 0 then value % step == 0 else true;
    }
    if dash > 0 {
      var lo, hi := RangeEnds(buf, head, dash);
      if lo.None? || hi.None? { return false; }
      if value < lo.value || value > hi.value { return false; }
      return if step > 0 then (value - lo.value) % step == 0 else true;
    }
    HeldText(buf[..], 0, head);
    assert buf[..][0..] == buf[..];
    var exact := ParseCronInt(CStr(buf[..]));
    return exact.Some? && exact.value == value;
  }

  lemma SomeAcceptsConcat(a: seq<string>, b: seq<string>, value: int)
    ensures SomeAccepts(a + b, value) == (SomeAccepts(a, value) || SomeAccepts(b, value))
  {
    hide AtomAccepts;
    var c := a + b;
    assert forall j :: 0 <= j < |a| ==> c[j] == a[j];
    assert forall j :: 0 <= j < |b| ==> c[|a| + j] == b[j];
    assert forall j :: |a| <= j < |c| ==> c[j] == b[j - |a|];
  }

  /** One turn of the field loop: the first atom decides, or the text after the comma does. */
  lemma FieldPeel(field: string, value: int)
    ensures var n := IndexOf(field, ',');
            FieldAccepts(field, value) ==
            (AtomAccepts(field[..n], value) || (n < |field| && FieldAccepts(field[n + 1..], value)))
  {
    hide AtomAccepts;
    hide IndexOf;
    var n := IndexOf(field, ',');
    if n == |field| {
      assert field[..n] == field && Split(field, ',') == [field];
      assert FieldAccepts(field, value) == AtomAccepts([field][0], value);
    } else {
      var rest := Split(field[n + 1..], ',');
      assert Split(field, ',') == [field[..n]] + rest;
      SomeAcceptsConcat([field[..n]], rest, value);
      assert SomeAccepts([field[..n]], value) == AtomAccepts([field[..n]][0], value);
    }
  }

  lemma EmptyFieldRejects(value: int)
    ensures !FieldAccepts("", value)
  {
    assert Split("", ',') == [""];
  }

  method FieldMatches(field: string, value: int) returns (matches: bool)
    requires Lacks(field, NUL)
    ensures matches == FieldAccepts(field, value)
  {
    hide AtomAccepts;
    hide FieldAccepts;
    hide IndexOf;
    if field == "*" {
      StarAccepts(value);
      return true;
    }
    var p := 0;
    assert field[0..] == field;
    while p < |field|
      invariant 0 <= p <= |field|
      invariant FieldAccepts(field, value) == FieldAccepts(field[p..], value)
      decreases |field| - p
    {
      ghost var rest := field[p..];
      var start := p;
      while p < |field| && field[p] != ','
        invariant start <= p <= |field|
        invariant forall k :: start <= k < p ==> field[k] != ','
      {
        p := p + 1;
      }
      IndexOfIs(rest, ',', p - start);
      FieldPeel(rest, value);
      assert rest[..p - start] == field[start..p];
      var accepted := AtomMatches(field[start..p], value);
      if accepted { return true; }
      if p < |field| {
        assert rest[p - start + 1..] == field[p + 1..];
        p := p + 1;
      } else {
        assert field[p..] == "";
        EmptyFieldRejects(value);
      }
    }
    assert field[p..] == "";
    EmptyFieldRejects(value);
    return false;
  }

  lemma StarAccepts(value: int)
    ensures FieldAccepts("*", value)
  {
    assert Split("*", ',') == ["*"];
    assert AtomAccepts(Split("*", ',')[0], value);
  }

  /** From position tok on the buffer still holds the schedule. */
  ghost predicate HoldsRest(buffer: seq<char>, schedule: string, tok: nat) {
    && tok <= |schedule| < |buffer| && Lacks(schedule, NUL) && buffer[|schedule|] == NUL
    && forall k :: tok <= k < |schedule| ==> buffer[k] == schedule[k]
  }

  lemma RestAt(buffer: seq<char>, schedule: string, tok: nat, k: nat)
    requires HoldsRest(buffer, schedule, tok) && tok <= k <= |schedule|
    ensures HoldsRest(buffer, schedule, k) && buffer[k] == if k < |schedule| then schedule[k] else NUL
    ensures k < |schedule| ==> schedule[k] != NUL
  {
  }

  /** The loop that passes over the blanks in front of a word. */
  method SkipBlanks(buf: array<char>, from: nat, ghost schedule: string) returns (tok: nat)
    requires from <= |schedule| < buf.Length && HoldsRest(buf[..], schedule, from)
    ensures from <= tok <= |schedule| && HoldsRest(buf[..], schedule, tok)
    ensures Words(schedule[tok..]) == Words(schedule[from..])
    ensures tok < |schedule| ==> schedule[tok] != ' '
  {
    hide Words, HoldsRest;
    tok := from;
    RestAt(buf[..], schedule, tok, tok);
    while buf[tok] == ' '
      invariant from <= tok <= |schedule| < buf.Length && HoldsRest(buf[..], schedule, tok)
      invariant Words(schedule[tok..]) == Words(schedule[from..])
      decreases |schedule| - tok
    {
      RestAt(buf[..], schedule, tok, tok);
      WordsSkip(schedule, tok);
      RestAt(buf[..], schedule, tok, tok + 1);
      tok := tok + 1;
    }
    RestAt(buf[..], schedule, tok, tok);
  }

  /** The loop that passes over a word, up to the next blank or the NUL. */
  method ScanWord(buf: array<char>, start: nat, ghost schedule: string) returns (tok: nat)
    requires HoldsRest(buf[..], schedule, start) && start < |schedule| && schedule[start] != ' '
    ensures start < tok <= |schedule| && HoldsRest(buf[..], schedule, tok)
    ensures forall k :: start <= k < tok ==> schedule[k] != ' '
    ensures tok < |schedule| ==> schedule[tok] == ' '
  {
    hide HoldsRest;
    tok := start;
    RestAt(buf[..], schedule, tok, tok);
    while buf[tok] != NUL && buf[tok] != ' '
      invariant start <= tok <= |schedule| < buf.Length && HoldsRest(buf[..], schedule, tok)
      invariant forall k :: start <= k < tok ==> schedule[k] != ' '
      decreases |schedule| - tok
    {
      RestAt(buf[..], schedule, tok, tok);
      RestAt(buf[..], schedule, tok, tok + 1);
      tok := tok + 1;
    }
    RestAt(buf[..], schedule, tok, tok);
    RestAt(buf[..], schedule, start, start);
  }

  /** One turn of the tokenising loop: the next word, closed with a NUL; none when only blanks are left. */
  method CutField(buf: array<char>, from: nat, schedule: string, ghost fields: seq<nat>, ghost words: seq<string>)
    returns (start: nat, tok: nat, found: bool)
    requires from <= |schedule| < buf.Length && HoldsRest(buf[..], schedule, from)
    requires WordsLeft(words, |fields|, schedule, from) && AllHeld(buf[..], fields, words, from, |schedule|)
    modifies buf
    ensures tok <= |schedule| && HoldsRest(buf[..], schedule, tok)
    ensures found ==> WordsLeft(words, |fields| + 1, schedule, tok) &&
                      AllHeld(buf[..], fields + [start], words, tok, |schedule|)
    ensures !found ==> tok == |schedule| && WordsLeft(words, |fields|, schedule, tok) &&
                       AllHeld(buf[..], fields, words, tok, |schedule|)
  {
    hide HoldsText, AllHeld, HoldsRest, Lacks, WordsLeft, IndexOf, Words;
    start := SkipBlanks(buf, from, schedule);
    tok := start;
    LeftAfterBlanks(words, |fields|, schedule, from, start);
    HeldLater(buf[..], fields, words, from, start, |schedule|);
    RestAt(buf[..], schedule, start, start);
    if buf[tok] == NUL { return start, tok, false; }
    tok := ScanWord(buf, start, schedule);
    LeftAfterWord(words, |fields|, schedule, start, tok);
    RestAt(buf[..], schedule, tok, tok);
    ghost var was := buf[..];
    if buf[tok] != NUL {
      buf[tok] := NUL;
      assert buf[..] == was[tok := NUL];
      WordsSkip(schedule, tok);
      LeftAfterBlanks(words, |fields| + 1, schedule, tok, tok + 1);
      RestAfterCut(was, schedule, tok);
      tok := tok + 1;
    }
    NextHeld(was, buf[..], fields, words, schedule, start, tok);
    return start, tok, true;
  }

  /** The tokenising loop: cuts the first five words out of the buffer in place. */
  method CutFields(buf: array<char>, schedule: string) returns (fields: seq<nat>)
    requires HoldsText(buf[..], 0, schedule)
    modifies buf
    ensures |fields| == if |Words(schedule)| < 5 then |Words(schedule)| else 5
    ensures forall j :: 0 <= j < |fields| ==> HoldsText(buf[..], fields[j], Words(schedule)[j])
  {
    hide Words;
    ghost var words := Words(schedule);
    fields := [];
    var tok := 0;
    assert schedule[0..] == schedule;
    NoneHeld(buf[..], words, |schedule|);
    assert HoldsRest(buf[..], schedule, 0) && WordsLeft(words, 0, schedule, 0);
    hide HoldsText, AllHeld, HoldsRest, Lacks, WordsLeft;
    RestAt(buf[..], schedule, 0, 0);
    while |fields| < 5 && buf[tok] != NUL
      invariant |fields| <= 5 && 0 <= tok <= |schedule| < buf.Length
      invariant WordsLeft(words, |fields|, schedule, tok) && HoldsRest(buf[..], schedule, tok)
      invariant AllHeld(buf[..], fields, words, tok, |schedule|)
      decreases 5 - |fields|
    {
      var start, next, found := CutField(buf, tok, schedule, fields, words);
      tok := next;
      if !found { break; }
      fields := fields + [start];
    }
    RestAt(buf[..], schedule, tok, tok);
    HeldFields(buf[..], fields, words, tok, |schedule|);
    LeftAtEnd(words, |fields|, schedule, tok);
  }

  /** The words still to come after the first n. */
  ghost predicate WordsLeft(words: seq<string>, n: nat, schedule: string, tok: nat) {
    n <= |words| && tok <= |schedule| && words[n..] == Words(schedule[tok..])
  }

  lemma LeftAfterBlanks(words: seq<string>, n: nat, schedule: string, tok: nat, tok': nat)
    requires WordsLeft(words, n, schedule, tok) && tok' <= |schedule|
    requires Words(schedule[tok'..]) == Words(schedule[tok..])
    ensures WordsLeft(words, n, schedule, tok')
  {
  }

  lemma LeftAfterWord(words: seq<string>, n: nat, schedule: string, start: nat, tok: nat)
    requires WordsLeft(words, n, schedule, start) && start < tok <= |schedule|
    requires (forall k :: start <= k < tok ==> schedule[k] != ' ') && (tok < |schedule| ==> schedule[tok] == ' ')
    ensures n < |words| && words[n] == schedule[start..tok] && WordsLeft(words, n + 1, schedule, tok)
  {
    hide Words;
    WordsTake(schedule, start, tok);
    assert words[n] == words[n..][0] && words[n + 1..] == words[n..][1..];
  }

  lemma LeftAtEnd(words: seq<string>, n: nat, schedule: string, tok: nat)
    requires WordsLeft(words, n, schedule, tok)
    ensures n <= |words| && (tok == |schedule| ==> n == |words|)
  {
  }

  lemma RestAfterCut(was: seq<char>, schedule: string, tok: nat)
    requires HoldsRest(was, schedule, tok) && tok < |schedule|
    ensures HoldsRest(was[tok := NUL], schedule, tok + 1)
  {
  }

  method ScheduleMatches(schedule: string, t: Time) returns (matches: bool)
    requires Lacks(schedule, NUL)
    ensures matches == ScheduleAccepts(schedule, t)
  {
    hide FieldAccepts;
    hide Words;
    hide CStr;
    var buf := new char[128];
    var slen := |schedule|;
    if slen >= buf.Length { return false; }
    forall i | 0 <= i < slen { buf[i] := schedule[i]; }
    buf[slen] := NUL;
    var fields := CutFields(buf, schedule);
    if |fields| < 5 { return false; }
    ghost var words := Words(schedule);
    forall j | 0 <= j < 5 ensures CStr(buf[fields[j]..]) == words[j] && Lacks(words[j], NUL) {
      HeldText(buf[..], fields[j], words[j]);
      assert buf[..][fields[j]..] == buf[fields[j]..];
    }
    var min := FieldMatches(CStr(buf[fields[0]..]), t.min);
    var hour := FieldMatches(CStr(buf[fields[1]..]), t.hour);
    var mday := FieldMatches(CStr(buf[fields[2]..]), t.mday);
    var mon := FieldMatches(CStr(buf[fields[3]..]), t.mon + 1);
    var wday := FieldMatches(CStr(buf[fields[4]..]), t.wday);
    return min && hour && mday && mon && wday;
  }

  /** A finished word: its closing NUL lies before the scan position, or ends the buffer. */
  ghost predicate HoldsWord(buffer: seq<char>, from: nat, word: string, tok: nat, slen: nat) {
    HoldsText(buffer, from, word) && (from + |word| < tok || from + |word| == tok == slen)
  }

  ghost predicate AllHeld(buffer: seq<char>, fields: seq<nat>, words: seq<string>, tok: nat, slen: nat) {
    |fields| <= |words| &&
    forall j :: 0 <= j < |fields| ==> HoldsWord(buffer, fields[j], words[j], tok, slen)
  }

  lemma NoneHeld(buffer: seq<char>, words: seq<string>, slen: nat)
    ensures AllHeld(buffer, [], words, 0, slen)
  {
  }

  lemma HeldFields(buffer: seq<char>, fields: seq<nat>, words: seq<string>, tok: nat, slen: nat)
    requires AllHeld(buffer, fields, words, tok, slen)
    ensures |fields| <= |words| && forall j :: 0 <= j < |fields| ==> HoldsText(buffer, fields[j], words[j])
  {
  }

  /** A scan position that moves on keeps the finished words finished. */
  lemma HeldLater(buffer: seq<char>, fields: seq<nat>, words: seq<string>, tok: nat, tok': nat, slen: nat)
    requires AllHeld(buffer, fields, words, tok, slen) && tok <= tok' <= slen
    ensures AllHeld(buffer, fields, words, tok', slen)
  {
  }

  /** Cutting one more word out leaves the finished ones alone. */
  lemma NextHeld(was: seq<char>, now: seq<char>, fields: seq<nat>, words: seq<string>, schedule: string,
                 start: nat, tok: nat)
    requires HoldsRest(was, schedule, start) && start < tok <= |schedule|
    requires AllHeld(was, fields, words, start, |schedule|) && |fields| < |words|
    requires if now == was then tok == |schedule| && words[|fields|] == schedule[start..tok]
             else now == was[tok - 1 := NUL] && words[|fields|] == schedule[start..tok - 1]
    ensures AllHeld(now, fields + [start], words, tok, |schedule|)
  {
    var word := words[|fields|];
    assert HoldsText(now, start, word);
    forall j | 0 <= j < |fields| ensures HoldsWord(now, fields[j], words[j], tok, |schedule|) {
      assert HoldsWord(was, fields[j], words[j], start, |schedule|);
    }
  }

  lemma WordsSkip(s: string, at: nat)
    requires at < |s| && s[at] == ' '
    ensures Words(s[at..]) == Words(s[at + 1..])
  {
    assert s[at..][1..] == s[at + 1..];
  }

  lemma WordsTake(s: string, from: nat, to: nat)
    requires from < to <= |s| && (forall k :: from <= k < to ==> s[k] != ' ') && (to < |s| ==> s[to] == ' ')
    ensures Words(s[from..]) == [s[from..to]] + Words(s[to..])
  {
    var rest := s[from..];
    IndexOfIs(rest, ' ', to - from);
    assert rest[..to - from] == s[from..to] && rest[to - from..] == s[to..];
  }
}
