/** Character-level vocabulary shared by the string-handling modules.
    A C string is a `string` without a NUL; a C buffer is a `seq<char>` (or an
    `array<char>`) whose text ends at its first NUL. */
module Text {

  const NUL: char := '\0'

  ghost predicate Lacks(s: seq<char>, c: char) {
    forall k :: 0 <= k < |s| ==> s[k] != c
  }

  /** The text held by a buffer: everything before its first NUL. */
  function CStr(buffer: seq<char>): (text: string)
    ensures |text| <= |buffer| && text == buffer[..|text|]
    ensures Lacks(text, NUL)
    ensures |text| < |buffer| ==> buffer[|text|] == NUL
  {
    if buffer == [] || buffer[0] == NUL then [] else [buffer[0]] + CStr(buffer[1..])
  }

  lemma CStrIs(buffer: seq<char>, text: string)
    requires |text| < |buffer| && text == buffer[..|text|] && Lacks(text, NUL) && buffer[|text|] == NUL
    ensures CStr(buffer) == text
  {
    assert forall k :: 0 <= k < |text| ==> buffer[k] == text[k];
    assert forall k :: 0 <= k < |CStr(buffer)| ==> buffer[k] == CStr(buffer)[k];
  }

  /** strchr: the first position of `c`, or the length when absent. */
  function IndexOf(s: string, c: char): (i: nat)
    ensures i <= |s| && (forall k :: 0 <= k < i ==> s[k] != c)
    ensures i < |s| ==> s[i] == c
  {
    if s == [] || s[0] == c then 0 else 1 + IndexOf(s[1..], c)
  }

  lemma IndexOfIs(s: string, c: char, i: nat)
    requires i <= |s| && (forall k :: 0 <= k < i ==> s[k] != c) && (i < |s| ==> s[i] == c)
    ensures IndexOf(s, c) == i
  {
  }

  lemma IndexOfAfter(a: string, c: char, b: string)
    requires Lacks(a, c)
    ensures IndexOf(a + [c] + b, c) == |a|
  {
    var s := a + [c] + b;
    assert s[|a|] == c && forall k :: 0 <= k < |a| ==> s[k] == a[k];
  }

  /** The pieces of `s` between separators; always at least one piece. */
  function Split(s: string, sep: char): (pieces: seq<string>)
    ensures |pieces| >= 1
    ensures forall j :: 0 <= j < |pieces| ==> Lacks(pieces[j], sep)
  {
    var i := IndexOf(s, sep);
    if i == |s| then [s] else [s[..i]] + Split(s[i + 1..], sep)
  }

  /** The pieces put back together with one separator between neighbours. */
  function Join(pieces: seq<string>, sep: char): string
    requires |pieces| >= 1
  {
    if |pieces| == 1 then pieces[0] else pieces[0] + [sep] + Join(pieces[1..], sep)
  }

  lemma SplitUnfold(s: string, sep: char)
    ensures var i := IndexOf(s, sep);
            Split(s, sep) == if i == |s| then [s] else [s[..i]] + Split(s[i + 1..], sep)
  {
    hide IndexOf;
  }

  lemma JoinUnfold(first: string, rest: seq<string>, sep: char)
    ensures Join([first] + rest, sep) == if rest == [] then first else first + [sep] + Join(rest, sep)
  {
    assert ([first] + rest)[1..] == rest;
  }

  lemma {:induction false} JoinSplit(s: string, sep: char)
    ensures Join(Split(s, sep), sep) == s
  {
    hide Split, Join, IndexOf;
    var i := IndexOf(s, sep);
    SplitUnfold(s, sep);
    if i == |s| {
      JoinUnfold(s, [], sep);
      assert [s] + [] == [s];
    } else {
      JoinSplit(s[i + 1..], sep);
      JoinUnfold(s[..i], Split(s[i + 1..], sep), sep);
      assert s == s[..i] + [sep] + s[i + 1..];
    }
  }

  /** Peeling the first piece off a text. */
  lemma SplitFirst(a: string, sep: char, b: string)
    requires Lacks(a, sep)
    ensures Split(a + [sep] + b, sep) == [a] + Split(b, sep)
  {
    hide Split, IndexOf;
    var s := a + [sep] + b;
    IndexOfAfter(a, sep, b);
    SplitUnfold(s, sep);
    assert s[..|a|] == a && s[|a| + 1..] == b;
  }

  lemma {:induction false} SplitJoin(pieces: seq<string>, sep: char)
    requires |pieces| >= 1
    requires forall j :: 0 <= j < |pieces| ==> Lacks(pieces[j], sep)
    ensures Split(Join(pieces, sep), sep) == pieces
  {
    hide Split, Join;
    var first, rest := pieces[0], pieces[1..];
    assert pieces == [first] + rest;
    JoinUnfold(first, rest, sep);
    if rest == [] {
      SplitUnfold(first, sep);
    } else {
      SplitFirst(first, sep, Join(rest, sep));
      SplitJoin(rest, sep);
    }
  }

  lemma Reassociate<T>(a: seq<T>, b: seq<T>, c: seq<T>)
    ensures a + (b + c) == a + b + c
  {
  }

  /** Splitting a text around one of its separators splits both sides. */
  lemma {:induction false} SplitConcat(a: string, b: string, sep: char)
    ensures Split(a + [sep] + b, sep) == Split(a, sep) + Split(b, sep)
  {
    hide Split, IndexOf;
    var i := IndexOf(a, sep);
    SplitUnfold(a, sep);
    if i == |a| {
      SplitFirst(a, sep, b);
    } else {
      var first, rest := a[..i], a[i + 1..];
      SplitConcat(rest, b, sep);
      SplitFirst(first, sep, rest + [sep] + b);
      Regroup(first, sep, rest, b);
      assert a == first + [sep] + rest;
      Reassociate([first], Split(rest, sep), Split(b, sep));
    }
  }

  lemma Regroup(first: string, sep: char, rest: string, b: string)
    ensures first + [sep] + (rest + [sep] + b) == first + [sep] + rest + [sep] + b
  {
  }
}
