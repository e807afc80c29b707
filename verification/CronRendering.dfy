/** What a schedule means, independently of its text, and the proof that the matcher
    of CronExpression computes exactly that meaning on every rendering of it. */
module CronRendering {
  import opened Text
  import opened Wrappers
  import opened CronExpression

  datatype Item =
    | Every
    | EveryStep(step: nat)
    | Exact(n: nat)
    | Span(lo: nat, hi: nat)
    | SpanStep(lo: nat, hi: nat, step: nat)

  predicate WellFormedItem(item: Item) {
    match item
    case Every => true
    case EveryStep(s) => 1 <= s <= 999
    case Exact(n) => n <= 999
    case Span(lo, hi) => lo <= 999 && hi <= 999
    case SpanStep(lo, hi, s) => lo <= 999 && hi <= 999 && 1 <= s <= 999
  }

  /** The set of values an item denotes, as a predicate. */
  predicate Means(item: Item, value: int) {
    match item
    case Every => true
    case EveryStep(s) => s > 0 && value % s == 0
    case Exact(n) => value == n
    case Span(lo, hi) => lo <= value <= hi
    case SpanStep(lo, hi, s) => s > 0 && lo <= value <= hi && (value - lo) % s == 0
  }

  /** A non-empty comma list of items: the union of what they denote. */
  predicate FieldMeans(items: seq<Item>, value: int) {
    exists j :: 0 <= j < |items| && Means(items[j], value)
  }

  predicate ScheduleMeans(fields: seq<seq<Item>>, t: Time)
    requires |fields| == 5
  {
    && FieldMeans(fields[0], t.min)
    && FieldMeans(fields[1], t.hour)
    && FieldMeans(fields[2], t.mday)
    && FieldMeans(fields[3], t.mon + 1)
    && FieldMeans(fields[4], t.wday)
  }

  // ----- rendering

  function Digits(n: nat): (s: string)
    ensures |s| >= 1 && forall k :: 0 <= k < |s| ==> IsDigit(s[k])
  {
    var last := ['0' + (n % 10) as char];
    if n < 10 then last else Digits(n / 10) + last
  }

  function ItemText(item: Item): string {
    match item
    case Every => "*"
    case EveryStep(s) => "*" + "/" + Digits(s)
    case Exact(n) => Digits(n)
    case Span(lo, hi) => Digits(lo) + "-" + Digits(hi)
    case SpanStep(lo, hi, s) => Digits(lo) + "-" + Digits(hi) + "/" + Digits(s)
  }

  function ItemTexts(items: seq<Item>): (texts: seq<string>)
    ensures |texts| == |items|
    ensures forall j :: 0 <= j < |items| ==> texts[j] == ItemText(items[j])
  {
    if items == [] then [] else [ItemText(items[0])] + ItemTexts(items[1..])
  }

  function FieldText(items: seq<Item>): string
    requires items != []
  {
    Join(ItemTexts(items), ',')
  }

  function Spaces(n: nat): (s: string)
    ensures |s| == n && forall k :: 0 <= k < n ==> s[k] == ' '
  {
    if n == 0 then "" else " " + Spaces(n - 1)
  }

  /** Fields separated by runs of spaces, gaps[k] of them before field k, then a tail. */
  function ScheduleText(fields: seq<seq<Item>>, gaps: seq<nat>, tail: string): string
    requires |fields| == |gaps|
    requires forall k :: 0 <= k < |fields| ==> fields[k] != []
  {
    if fields == [] then tail
    else Spaces(gaps[0]) + (FieldText(fields[0]) + ScheduleText(fields[1..], gaps[1..], tail))
  }

  // ----- numbers read back

  lemma {:induction false} DecimalDigits(n: nat)
    ensures Decimal(Digits(n)) == n
    ensures n <= 999 ==> |Digits(n)| <= 3
  {
    var s := Digits(n);
    if n >= 10 {
      DecimalDigits(n / 10);
      assert s[..|s| - 1] == Digits(n / 10);
      if n <= 99 {
        assert Digits(n / 10) == ['0' + (n / 10) as char];
      } else if n <= 999 {
        assert Digits(n / 10) == Digits(n / 100) + ['0' + (n / 10 % 10) as char];
      }
    } else {
      assert s[..0] == "";
    }
  }

  lemma {:induction false} DigitCountAll(s: string)
    requires forall k :: 0 <= k < |s| ==> IsDigit(s[k])
    ensures DigitCount(s) == |s|
  {
    if s != [] { DigitCountAll(s[1..]); }
  }

  lemma ParseDigits(n: nat)
    requires n <= 999
    ensures ParseCronInt(Digits(n)) == Some(n)
  {
    var s := Digits(n);
    DecimalDigits(n);
    DigitCountAll(s);
    assert IsDigit(s[0]) && s[..|s|] == s && s[|s|..] == [];
    assert SkipSpaces(s) == s;
  }

  lemma DigitsLack(n: nat)
    ensures Lacks(Digits(n), '/') && Lacks(Digits(n), '-') && Lacks(Digits(n), ',')
    ensures Lacks(Digits(n), ' ') && Lacks(Digits(n), NUL) && Digits(n) != "*"
  {
    assert IsDigit(Digits(n)[0]);
  }

  // ----- one item

  /** The head of an item's text matches what the item means, given the step behind it. */
  lemma StarHead(step: nat, value: int)
    ensures HeadMatches("*", step, value) == (step > 0 ==> value % step == 0)
  {
  }

  lemma ExactHead(n: nat, value: int)
    requires n <= 999
    ensures HeadMatches(Digits(n), 0, value) == (value == n)
  {
    hide Digits, ParseCronInt;
    DigitsLack(n);
    IndexOfIs(Digits(n), '-', |Digits(n)|);
    ParseDigits(n);
  }

  lemma SpanHead(lo: nat, hi: nat, step: nat, value: int)
    requires lo <= 999 && hi <= 999
    ensures HeadMatches(Digits(lo) + "-" + Digits(hi), step, value) ==
            (lo <= value <= hi && (step > 0 ==> (value - lo) % step == 0))
  {
    hide Digits, ParseCronInt;
    var head := Digits(lo) + "-" + Digits(hi);
    DigitsLack(lo);
    IndexOfAfter(Digits(lo), '-', Digits(hi));
    assert IndexOf(head, '-') == |Digits(lo)|;
    assert head[..|Digits(lo)|] == Digits(lo) && head[|Digits(lo)| + 1..] == Digits(hi);
    ParseDigits(lo);
    ParseDigits(hi);
  }

  /** An atom with a well-formed step is its head matched under that step. */
  lemma SteppedAtom(head: string, step: nat, value: int)
    requires Lacks(head, '/') && |head| <= 7 && 1 <= step <= 999
    ensures AtomAccepts(head + "/" + Digits(step), value) == HeadMatches(head, step, value)
  {
    hide Digits, ParseCronInt, HeadMatches;
    var atom := head + "/" + Digits(step);
    IndexOfAfter(head, '/', Digits(step));
    assert IndexOf(atom, '/') == |head|;
    assert atom[..|head|] == head && atom[|head| + 1..] == Digits(step);
    ParseDigits(step);
    DecimalDigits(step);
  }

  lemma PlainAtom(head: string, value: int)
    requires Lacks(head, '/') && 1 <= |head| <= 7
    ensures AtomAccepts(head, value) == HeadMatches(head, 0, value)
  {
    hide HeadMatches;
    IndexOfIs(head, '/', |head|);
    assert head[..|head|] == head;
  }

  /** The characters of an item are digits, stars, dashes and slashes. */
  lemma ItemTextIsWord(item: Item)
    ensures Lacks(ItemText(item), ',') && Lacks(ItemText(item), ' ') && Lacks(ItemText(item), NUL)
    ensures ItemText(item) != ""
  {
    hide Digits;
    match item
    case Every =>
    case EveryStep(s) => DigitsLack(s);
    case Exact(n) => DigitsLack(n);
    case Span(lo, hi) => DigitsLack(lo); DigitsLack(hi);
    case SpanStep(lo, hi, s) => DigitsLack(lo); DigitsLack(hi); DigitsLack(s);
  }

  lemma ItemMeaning(item: Item, value: int)
    requires WellFormedItem(item)
    ensures AtomAccepts(ItemText(item), value) == Means(item, value)
  {
    hide Digits, AtomAccepts, HeadMatches;
    match item
    case Every =>
      PlainAtom("*", value);
      StarHead(0, value);
    case EveryStep(s) =>
      SteppedAtom("*", s, value);
      StarHead(s, value);
    case Exact(n) =>
      DigitsLack(n);
      DecimalDigits(n);
      PlainAtom(Digits(n), value);
      ExactHead(n, value);
    case Span(lo, hi) =>
      SpanLacksSlash(lo, hi);
      PlainAtom(Digits(lo) + "-" + Digits(hi), value);
      SpanHead(lo, hi, 0, value);
    case SpanStep(lo, hi, s) =>
      SpanLacksSlash(lo, hi);
      SteppedAtom(Digits(lo) + "-" + Digits(hi), s, value);
      SpanHead(lo, hi, s, value);
  }

  lemma SpanLacksSlash(lo: nat, hi: nat)
    requires lo <= 999 && hi <= 999
    ensures var head := Digits(lo) + "-" + Digits(hi); Lacks(head, '/') && |head| <= 7
  {
    DigitsLack(lo);
    DigitsLack(hi);
    DecimalDigits(lo);
    DecimalDigits(hi);
  }

  // ----- one field

  predicate WellFormedField(items: seq<Item>) {
    items != [] && forall j :: 0 <= j < |items| ==> WellFormedItem(items[j])
  }

  /** The matcher on a rendered field decides the union of the items' sets. */
  lemma FieldMeaning(items: seq<Item>, value: int)
    requires WellFormedField(items)
    ensures FieldAccepts(FieldText(items), value) == FieldMeans(items, value)
  {
    hide AtomAccepts, Split, Join, ItemTexts, Means, ItemText;
    var texts := ItemTexts(items);
    forall j | 0 <= j < |items|
      ensures Lacks(texts[j], ',') && AtomAccepts(texts[j], value) == Means(items[j], value)
    {
      ItemTextIsWord(items[j]);
      ItemMeaning(items[j], value);
    }
    SplitJoin(texts, ',');
  }

  /** For arbitrary field texts, a comma is a disjunction. */
  lemma CommaIsDisjunction(f: string, g: string, value: int)
    ensures FieldAccepts(f + "," + g, value) == (FieldAccepts(f, value) || FieldAccepts(g, value))
  {
    hide AtomAccepts, Split;
    SplitConcat(f, g, ',');
    SomeAcceptsConcat(Split(f, ','), Split(g, ','), value);
  }

  lemma {:induction false} JoinLacks(texts: seq<string>, sep: char, c: char)
    requires |texts| >= 1 && c != sep
    requires forall j :: 0 <= j < |texts| ==> texts[j] != "" && Lacks(texts[j], c)
    ensures Lacks(Join(texts, sep), c) && Join(texts, sep) != ""
  {
    if |texts| > 1 { JoinLacks(texts[1..], sep, c); }
  }

  lemma FieldTextIsWord(items: seq<Item>)
    requires WellFormedField(items)
    ensures Lacks(FieldText(items), ' ') && Lacks(FieldText(items), NUL) && FieldText(items) != ""
  {
    hide ItemText, Join;
    var texts := ItemTexts(items);
    forall j | 0 <= j < |items| ensures Lacks(texts[j], ' ') && Lacks(texts[j], NUL) && texts[j] != "" {
      ItemTextIsWord(items[j]);
    }
    JoinLacks(texts, ',', ' ');
    JoinLacks(texts, ',', NUL);
  }

  // ----- a whole schedule

  predicate WellFormedSchedule(fields: seq<seq<Item>>, gaps: seq<nat>) {
    && |fields| == |gaps|
    && (forall k :: 0 <= k < |fields| ==> WellFormedField(fields[k]))
    && (forall k :: 1 <= k < |gaps| ==> gaps[k] >= 1)
  }

  lemma {:induction false} WordsAfterSpaces(n: nat, s: string)
    ensures Words(Spaces(n) + s) == Words(s)
  {
    if n == 0 {
      assert Spaces(0) + s == s;
    } else {
      var t := Spaces(n) + s;
      assert t[0..] == t && t[1..] == Spaces(n - 1) + s;
      WordsSkip(t, 0);
      WordsAfterSpaces(n - 1, s);
    }
  }

  lemma WordThenRest(word: string, rest: string)
    requires word != "" && Lacks(word, ' ') && (rest == "" || rest[0] == ' ')
    ensures Words(word + rest) == [word] + Words(rest)
  {
    var t := word + rest;
    assert t[0..] == t && t[0..|word|] == word && t[|word|..] == rest;
    WordsTake(t, 0, |word|);
  }

  function FieldTexts(fields: seq<seq<Item>>): (texts: seq<string>)
    requires forall k :: 0 <= k < |fields| ==> fields[k] != []
    ensures |texts| == |fields|
    ensures forall k :: 0 <= k < |fields| ==> texts[k] == FieldText(fields[k])
  {
    if fields == [] then [] else [FieldText(fields[0])] + FieldTexts(fields[1..])
  }

  /** The words of a rendered schedule are its rendered fields, then those of the tail. */
  lemma {:induction false} WordsOfSchedule(fields: seq<seq<Item>>, gaps: seq<nat>, tail: string)
    requires WellFormedSchedule(fields, gaps) && (tail == "" || tail[0] == ' ')
    ensures Words(ScheduleText(fields, gaps, tail)) == FieldTexts(fields) + Words(tail)
  {
    hide Words, FieldText, Spaces;
    if fields != [] {
      var word, rest := FieldText(fields[0]), ScheduleText(fields[1..], gaps[1..], tail);
      assert forall k :: 0 <= k < |gaps[1..]| ==> gaps[1..][k] == gaps[k + 1];
      assert rest == "" || rest[0] == ' ' by {
        if |fields| > 1 { assert rest[0] == Spaces(gaps[1])[0]; }
      }
      FieldTextIsWord(fields[0]);
      WordsAfterSpaces(gaps[0], word + rest);
      WordThenRest(word, rest);
      WordsOfSchedule(fields[1..], gaps[1..], tail);
      Reassociate([word], FieldTexts(fields[1..]), Words(tail));
    }
  }

  /** Main result: a rendered schedule, with any spacing and any further words behind
      the fifth, matches exactly the times its five fields all contain. */
  lemma ScheduleMeaning(fields: seq<seq<Item>>, gaps: seq<nat>, tail: string, t: Time)
    requires |fields| == 5 && WellFormedSchedule(fields, gaps) && (tail == "" || tail[0] == ' ')
    ensures ScheduleAccepts(ScheduleText(fields, gaps, tail), t) ==
            (|ScheduleText(fields, gaps, tail)| < 128 && ScheduleMeans(fields, t))
  {
    hide Words, FieldText, FieldAccepts, FieldMeans, ScheduleText;
    WordsOfSchedule(fields, gaps, tail);
    FieldMeaning(fields[0], t.min);
    FieldMeaning(fields[1], t.hour);
    FieldMeaning(fields[2], t.mday);
    FieldMeaning(fields[3], t.mon + 1);
    FieldMeaning(fields[4], t.wday);
  }

  /** A slash behind a single number is checked but not used. */
  lemma StepOnExactIsIgnored(n: nat, step: nat, value: int)
    requires n <= 999 && 1 <= step <= 999
    ensures AtomAccepts(Digits(n) + "/" + Digits(step), value) == (value == n)
  {
    hide Digits, AtomAccepts, ParseCronInt;
    DigitsLack(n);
    DecimalDigits(n);
    SteppedAtom(Digits(n), step, value);
    IndexOfIs(Digits(n), '-', |Digits(n)|);
    ParseDigits(n);
  }

  // ----- texts that are no atoms

  /** The reader takes a number's digits exactly up to 999. */
  lemma ParseDigitsIff(n: nat)
    ensures ParseCronInt(Digits(n)) == if n <= 999 then Some(n) else None
  {
    var s := Digits(n);
    DecimalDigits(n);
    DigitCountAll(s);
    assert IsDigit(s[0]) && s[..|s|] == s && s[|s|..] == [];
    assert SkipSpaces(s) == s;
  }

  /** Characters that strtol knows in a number. */
  predicate Numeric(c: char) {
    '0' <= c <= '9' || c == '+' || c == '-' || c in " \t\n\r" || c == '\U{000B}' || c == '\U{000C}'
  }

  lemma {:induction false} SpacesAreNumeric(s: string)
    ensures var t := SkipSpaces(s);
            |t| <= |s| && t == s[|s| - |t|..] && forall k :: 0 <= k < |s| - |t| ==> Numeric(s[k])
  {
    if s != [] && IsSpace(s[0]) { SpacesAreNumeric(s[1..]); }
  }

  lemma {:induction false} CountedAreDigits(s: string)
    ensures forall k :: 0 <= k < DigitCount(s) ==> IsDigit(s[k])
  {
    if s != [] && IsDigit(s[0]) { CountedAreDigits(s[1..]); }
  }

  /** A text with any other character is no number. */
  lemma OtherCharacterIsNoNumber(s: string, k: nat)
    requires k < |s| && !Numeric(s[k])
    ensures ParseCronInt(s).None?
  {
    hide Decimal;
    SpacesAreNumeric(s);
    var t := SkipSpaces(s);
    var signed := t != [] && (t[0] == '-' || t[0] == '+');
    var u := if signed then t[1..] else t;
    var from := |s| - |u|;
    assert u == s[from..];
    assert signed ==> t[0] == s[from - 1];
    assert forall j :: 0 <= j < from ==> Numeric(s[j]);
    CountedAreDigits(u);
    assert u[k - from] == s[k] && DigitCount(u) < |u|;
  }

  /** So an atom with any character but those, `/` and `*` matches nothing, whatever stands around
      it, and one with a `*` only when the star stands alone before the slash. */
  lemma OtherCharacterIsNoAtom(atom: string, k: nat, value: int)
    requires k < |atom| && !Numeric(atom[k]) && atom[k] != '/'
    requires atom[k] == '*' ==> !(k == 0 && (|atom| == 1 || atom[1] == '/'))
    ensures !AtomAccepts(atom, value)
  {
    hide ParseCronInt, IndexOf;
    var slash := IndexOf(atom, '/');
    if k > slash {
      OtherCharacterIsNoNumber(atom[slash + 1..], k - slash - 1);
    } else {
      var head := atom[..slash];
      var dash := IndexOf(head, '-');
      OtherCharacterIsNoNumber(head, k);
      if k < dash && dash < |head| { OtherCharacterIsNoNumber(head[..dash], k); }
      if dash < k { OtherCharacterIsNoNumber(head[dash + 1..], k - dash - 1); }
    }
  }

  /** Names are no atoms, nor are numbers over 999, a step of zero, and the number -5. */
  lemma NoAtoms(n: nat, value: int)
    requires 999 < n <= 99999
    ensures !AtomAccepts("MON", value) && !AtomAccepts(Digits(n), value)
    ensures !AtomAccepts("*/0", value) && !AtomAccepts("-5", value) && !AtomAccepts("", value)
  {
    OtherCharacterIsNoAtom("MON", 0, value);
    OverIsNoAtom(n, value);
    ZeroStepIsNoAtom(value);
    NegativeIsNoAtom(value);
  }

  lemma OverIsNoAtom(n: nat, value: int)
    requires n > 999
    ensures !AtomAccepts(Digits(n), value)
  {
    hide Digits, ParseCronInt;
    DigitsLack(n);
    IndexOfIs(Digits(n), '/', |Digits(n)|);
    IndexOfIs(Digits(n), '-', |Digits(n)|);
    assert Digits(n)[..|Digits(n)|] == Digits(n);
    ParseDigitsIff(n);
  }

  lemma ZeroStepIsNoAtom(value: int)
    ensures !AtomAccepts("*/0", value)
  {
    hide ParseCronInt;
    IndexOfIs("*/0", '/', 1);
    assert "*/0"[2..] == "0" == Digits(0);
    ParseDigitsIff(0);
  }

  lemma NegativeIsNoAtom(value: int)
    ensures !AtomAccepts("-5", value)
  {
    IndexOfIs("-5", '/', 2);
    IndexOfIs("-5", '-', 0);
    assert "-5"[..2] == "-5" && "-5"[1..] == "5";
    assert "5" == Digits(5);
    DecimalDigits(5);
    DigitCountAll("5");
    assert "5"[..1] == "5";
  }

  /** A dash at the front makes no range: `-0` is the number zero. */
  lemma MinusZeroIsZero(value: int)
    ensures AtomAccepts("-0", value) <==> value == 0
  {
    hide ParseCronInt;
    IndexOfIs("-0", '/', 2);
    IndexOfIs("-0", '-', 0);
    assert "-0"[..2] == "-0";
    SignedNumber("", '-', "0");
    assert "" + (['-'] + "0") == "-0";
    ZerosAreZero("0");
  }

  lemma {:induction false} ZerosAreZero(s: string)
    requires forall k :: 0 <= k < |s| ==> s[k] == '0'
    ensures Decimal(s) == 0
    decreases |s|
  {
    if s != [] { ZerosAreZero(s[..|s| - 1]); }
  }

  /** An atom of 31 zeros is the number 0, one of 32 does not fit the buffer. */
  lemma AtomLength(zeros: string)
    requires forall k :: 0 <= k < |zeros| ==> zeros[k] == '0'
    ensures AtomAccepts(zeros, 0) <==> 1 <= |zeros| <= 31
  {
    IndexOfIs(zeros, '/', |zeros|);
    IndexOfIs(zeros, '-', |zeros|);
    assert zeros[..|zeros|] == zeros;
    ZerosAreZero(zeros);
    DigitCountAll(zeros);
    if zeros != "" {
      assert zeros[0] == '0' && SkipSpaces(zeros) == zeros;
      assert zeros[|zeros|..] == "";
    }
  }

  ghost predicate AllDigits(s: string) {
    s != "" && forall k :: 0 <= k < |s| ==> '0' <= s[k] <= '9'
  }

  ghost predicate AllWhite(s: string) {
    forall k :: 0 <= k < |s| ==>
      s[k] == ' ' || s[k] == '\t' || s[k] == '\n' || s[k] == '\U{000B}' || s[k] == '\U{000C}' || s[k] == '\r'
  }

  /** A number may have white space in front of it and leading zeros. */
  lemma SpelledNumber(white: string, digits: string)
    requires AllWhite(white) && AllDigits(digits)
    ensures ParseCronInt(white + digits) == if Decimal(digits) <= 999 then Some(Decimal(digits)) else None
  {
    hide Decimal;
    SkipsWhite(white, digits);
    DigitCountAll(digits);
    assert digits[..|digits|] == digits && digits[|digits|..] == "";
  }

  /** A plus in front of the digits changes nothing, and a minus is for zero only. */
  lemma SignedNumber(white: string, sign: char, digits: string)
    requires AllWhite(white) && AllDigits(digits) && (sign == '+' || sign == '-')
    ensures var n := Decimal(digits);
            ParseCronInt(white + ([sign] + digits)) ==
            if n == 0 || (sign == '+' && n <= 999) then Some(n) else None
  {
    hide Decimal;
    var t := [sign] + digits;
    SkipsWhite(white, t);
    DigitCountAll(digits);
    assert t[1..] == digits;
    assert digits[..|digits|] == digits && digits[|digits|..] == "";
  }

  lemma {:induction false} SkipsWhite(white: string, t: string)
    requires forall k :: 0 <= k < |white| ==> IsSpace(white[k])
    requires t != "" && !IsSpace(t[0])
    ensures SkipSpaces(white + t) == t
  {
    if white == "" {
      assert white + t == t;
    } else {
      assert (white + t)[1..] == white[1..] + t;
      SkipsWhite(white[1..], t);
    }
  }
}
