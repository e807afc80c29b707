/** Dotted paths of src/config_mutator.c: trimming, splitting in a buffer, the allow list. */
module ConfigPath {
  import opened Text
  import opened Wrappers

  predicate IsBlank(c: char) {
    c == ' ' || c == '\t'
  }

  function TrimLeft(s: string): string {
    if s != "" && IsBlank(s[0]) then TrimLeft(s[1..]) else s
  }

  function TrimRight(s: string): string {
    if s != "" && IsBlank(s[|s| - 1]) then TrimRight(s[..|s| - 1]) else s
  }

  function Trim(s: string): string {
    TrimRight(TrimLeft(s))
  }

  lemma {:induction false} TrimLeftIs(s: string, n: nat)
    requires n <= |s| && (forall k :: 0 <= k < n ==> IsBlank(s[k])) && (n < |s| ==> !IsBlank(s[n]))
    ensures TrimLeft(s) == s[n..]
  {
    if n > 0 { TrimLeftIs(s[1..], n - 1); }
  }

  lemma {:induction false} TrimRightIs(s: string, n: nat)
    requires n <= |s| && (forall k :: n <= k < |s| ==> IsBlank(s[k])) && (n > 0 ==> !IsBlank(s[n - 1]))
    ensures TrimRight(s) == s[..n]
    decreases |s|
  {
    if n < |s| {
      TrimRightIs(s[..|s| - 1], n);
      assert s[..|s| - 1][..n] == s[..n];
    } else {
      assert s[..n] == s;
    }
  }

  method TrimPath(path: string) returns (trimmed: string)
    ensures trimmed == Trim(path)
  {
    hide TrimLeft, TrimRight;
    var start := 0;
    while start < |path| && IsBlank(path[start])
      invariant 0 <= start <= |path| && forall k :: 0 <= k < start ==> IsBlank(path[k])
    {
      start := start + 1;
    }
    TrimLeftIs(path, start);
    var rest := path[start..];
    var plen := |rest|;
    while plen > 0 && IsBlank(rest[plen - 1])
      invariant 0 <= plen <= |rest| && forall k :: plen <= k < |rest| ==> IsBlank(rest[k])
    {
      plen := plen - 1;
    }
    TrimRightIs(rest, plen);
    return rest[..plen];
  }

  ghost predicate AllNonEmpty(pieces: seq<string>) {
    forall j :: 0 <= j < |pieces| ==> pieces[j] != ""
  }

  function NonEmpty(pieces: seq<string>): (r: seq<string>)
    ensures |r| <= |pieces|
  {
    if pieces == [] then []
    else (if pieces[0] == "" then [] else [pieces[0]]) + NonEmpty(pieces[1..])
  }

  lemma {:induction false} NonEmptyIsAllIff(pieces: seq<string>)
    ensures |NonEmpty(pieces)| == |pieces| <==> AllNonEmpty(pieces)
    ensures AllNonEmpty(pieces) ==> NonEmpty(pieces) == pieces
  {
    if pieces != [] { NonEmptyIsAllIff(pieces[1..]); }
  }

  /** The buffer of split_path after its first loop: every dot has become a NUL. */
  ghost predicate DotsCut(buf: seq<char>, text: string, n: nat) {
    && |buf| == |text| + 1 && n <= |text|
    && (forall i :: 0 <= i < |text| ==> buf[i] == if i < n && text[i] == '.' then NUL else text[i])
    && buf[|text|] == NUL
  }

  /** Counting and cutting: one more segment than dots. */
  method CutDots(buf: array<char>, plen: nat, ghost text: string) returns (count: nat)
    requires |text| == plen && DotsCut(buf[..], text, 0)
    modifies buf
    ensures DotsCut(buf[..], text, plen)
    ensures count == |Split(text, '.')|
  {
    hide Split;
    count := 1;
    assert text[0..] == text;
    var i := 0;
    ghost var from := 0;   // where the current segment began
    while i < plen
      invariant 0 <= from <= i <= plen && DotsCut(buf[..], text, i)
      invariant forall k :: from <= k < i ==> text[k] != '.'
      invariant count + |Split(text[from..], '.')| == 1 + |Split(text, '.')|
    {
      ghost var before := buf[..];
      assert buf[i] == before[i] == text[i];
      CutNext(before, text, i);
      if buf[i] == '.' {
        SplitStep(text, from, i);
        buf[i] := NUL;
        assert buf[..] == before[i := NUL];
        count := count + 1;
        from := i + 1;
      }
      i := i + 1;
    }
    SplitLast(text, from);
  }

  lemma CutNext(buf: seq<char>, text: string, i: nat)
    requires i < |text| && DotsCut(buf, text, i)
    ensures DotsCut(if text[i] == '.' then buf[i := NUL] else buf, text, i + 1)
  {
  }

  lemma SplitStep(text: string, from: nat, dot: nat)
    requires from <= dot < |text| && text[dot] == '.' && forall k :: from <= k < dot ==> text[k] != '.'
    ensures Split(text[from..], '.') == [text[from..dot]] + Split(text[dot + 1..], '.')
  {
    SplitFirst(text[from..dot], '.', text[dot + 1..]);
    assert text[from..] == text[from..dot] + "." + text[dot + 1..];
  }

  lemma SplitLast(text: string, from: nat)
    requires from <= |text| && forall k :: from <= k < |text| ==> text[k] != '.'
    ensures Split(text[from..], '.') == [text[from..]]
  {
    IndexOfIs(text[from..], '.', |text| - from);
  }

  /** Where the text of a segment that begins at `from` ends. */
  lemma SegmentText(buf: seq<char>, text: string, from: nat, to: nat)
    requires DotsCut(buf, text, |text|) && Lacks(text, NUL) && from <= to <= |text| && buf[to] == NUL
    requires forall k :: from <= k < to ==> buf[k] != NUL
    ensures CStr(buf[from..]) == text[from..to]
  {
    assert buf[from..][..to - from] == text[from..to];
    CStrIs(buf[from..], text[from..to]);
  }

  /** The second loop: collects the starts of the non-empty segments. */
  method CollectTokens(buf: array<char>, plen: nat, count: nat, ghost text: string) returns (tokens: seq<string>)
    requires |text| == plen > 0 && Lacks(text, NUL) && DotsCut(buf[..], text, plen)
    requires count == |Split(text, '.')|
    ensures tokens == NonEmpty(Split(text, '.'))
  {
    hide Split, NonEmpty, CStr;
    ghost var pieces, j := Split(text, '.'), 0;
    tokens := [];
    var p := 0;
    assert text[0..] == text && pieces[0..] == pieces && tokens + NonEmpty(pieces) == NonEmpty(pieces);
    while p < plen
      invariant 0 <= p <= plen + 1 && 0 <= j <= |pieces| && |tokens| <= j
      invariant p <= plen ==> pieces[j..] == Split(text[p..], '.')
      invariant p > plen ==> pieces[j..] == []
      invariant tokens + NonEmpty(pieces[j..]) == NonEmpty(pieces)
      decreases plen + 1 - p
    {
      var start := p;
      if buf[p] != NUL {
        if |tokens| >= count { break; }
        while buf[p] != NUL
          invariant start <= p <= plen && forall k :: start <= k < p ==> buf[k] != NUL
          decreases plen - p
        {
          p := p + 1;
        }
        SegmentText(buf[..], text, start, p);
        assert buf[..][start..] == buf[start..];
        tokens := tokens + [CStr(buf[start..])];
      }
      assert forall k :: start <= k < p ==> text[k] != '.';
      NextPiece(pieces, j, text, start, p);
      j := j + 1;
      p := p + 1;
    }
    if p <= plen {
      assert text[p..] == "";
      SplitLast(text, p);
      LastPieceEmpty();
    } else {
      NoPieces();
    }
  }

  lemma NoPieces()
    ensures NonEmpty([]) == []
  {
  }

  lemma LastPieceEmpty()
    ensures NonEmpty([""]) == []
  {
  }

  /** Stepping over the segment text[start..p] and the separator behind it. */
  lemma NextPiece(pieces: seq<string>, j: nat, text: string, start: nat, p: nat)
    requires j <= |pieces| && start <= p <= |text| && pieces[j..] == Split(text[start..], '.')
    requires forall k :: start <= k < p ==> text[k] != '.'
    requires p < |text| ==> text[p] == '.'
    ensures j < |pieces|
    ensures p < |text| ==> pieces[j + 1..] == Split(text[p + 1..], '.')
    ensures p == |text| ==> pieces[j + 1..] == []
    ensures NonEmpty(pieces[j..]) == (if start == p then [] else [text[start..p]]) + NonEmpty(pieces[j + 1..])
  {
    hide Split, NonEmpty;
    if p < |text| {
      SplitStep(text, start, p);
    } else {
      SplitLast(text, start);
      assert text[start..p] == text[start..];
    }
    assert pieces[j..] == [text[start..p]] + pieces[j + 1..];
    NonEmptyStep(text[start..p], pieces[j + 1..]);
  }

  lemma NonEmptyStep(first: string, rest: seq<string>)
    ensures NonEmpty([first] + rest) == (if first == "" then [] else [first]) + NonEmpty(rest)
  {
    assert ([first] + rest)[1..] == rest;
  }

  /** split_path: None stands for SC_ERR_INVALID_ARGUMENT. */
  method SplitPath(path: string) returns (tokens: Option<seq<string>>)
    requires Lacks(path, NUL)
    ensures tokens.Some? <==> Trim(path) != "" && AllNonEmpty(Split(Trim(path), '.'))
    ensures tokens.Some? ==> tokens.value == Split(Trim(path), '.')
  {
    hide Split, NonEmpty, Trim;
    var trimmed := TrimPath(path);
    TrimLacks(path, NUL);
    var plen := |trimmed|;
    if plen == 0 { return None; }
    var buf := new char[plen + 1];
    forall i | 0 <= i < plen { buf[i] := trimmed[i]; }
    buf[plen] := NUL;
    var count := CutDots(buf, plen, trimmed);
    var found := CollectTokens(buf, plen, count, trimmed);
    NonEmptyIsAllIff(Split(trimmed, '.'));
    if |found| != count { return None; }
    return Some(found);
  }

  lemma {:induction false} TrimLeftLacks(s: string, c: char)
    requires Lacks(s, c)
    ensures Lacks(TrimLeft(s), c)
  {
    if s != "" && IsBlank(s[0]) { TrimLeftLacks(s[1..], c); }
  }

  lemma {:induction false} TrimRightLacks(s: string, c: char)
    requires Lacks(s, c)
    ensures Lacks(TrimRight(s), c)
    decreases |s|
  {
    if s != "" && IsBlank(s[|s| - 1]) { TrimRightLacks(s[..|s| - 1], c); }
  }

  lemma TrimLacks(s: string, c: char)
    requires Lacks(s, c)
    ensures Lacks(Trim(s), c)
  {
    TrimLeftLacks(s, c);
    TrimRightLacks(TrimLeft(s), c);
  }

  /** The tokens of an accepted path, joined with dots, are the trimmed path again. */
  lemma TokensJoin(path: string)
    ensures Join(Split(Trim(path), '.'), '.') == Trim(path)
  {
    JoinSplit(Trim(path), '.');
  }

  /** Any non-empty dot-free tokens, joined and padded with blanks, are split into themselves. */
  lemma JoinedTokensSplit(tokens: seq<string>, left: string, right: string)
    requires |tokens| >= 1 && AllNonEmpty(tokens)
    requires forall j :: 0 <= j < |tokens| ==> Lacks(tokens[j], '.') && Lacks(tokens[j], ' ') && Lacks(tokens[j], '\t')
    requires (forall k :: 0 <= k < |left| ==> IsBlank(left[k])) && (forall k :: 0 <= k < |right| ==> IsBlank(right[k]))
    ensures Split(Trim(left + Join(tokens, '.') + right), '.') == tokens
  {
    JoinHasNoBlank(tokens);
    TrimPadded(left, Join(tokens, '.'), right);
    SplitJoin(tokens, '.');
  }

  lemma TrimPadded(left: string, text: string, right: string)
    requires text != "" && forall k :: 0 <= k < |text| ==> !IsBlank(text[k])
    requires (forall k :: 0 <= k < |left| ==> IsBlank(left[k])) && (forall k :: 0 <= k < |right| ==> IsBlank(right[k]))
    ensures Trim(left + text + right) == text
  {
    hide TrimLeft, TrimRight;
    var padded := left + text + right;
    assert padded[|left|] == text[0];
    TrimLeftIs(padded, |left|);
    assert padded[|left|..] == text + right;
    TrimRightIs(text + right, |text|);
    assert (text + right)[..|text|] == text;
  }

  lemma {:induction false} JoinHasNoBlank(tokens: seq<string>)
    requires |tokens| >= 1 && AllNonEmpty(tokens)
    requires forall j :: 0 <= j < |tokens| ==> Lacks(tokens[j], ' ') && Lacks(tokens[j], '\t')
    ensures var text := Join(tokens, '.');
            text != "" && forall k :: 0 <= k < |text| ==> !IsBlank(text[k])
  {
    if |tokens| > 1 { JoinHasNoBlank(tokens[1..]); }
  }

  // ----- the allow list

  const ALLOWED_EXACT: seq<string> := [
    "default_temperature", "reasoning_effort", "memory.backend",
    "memory.profile", "memory.auto_save", "gateway.host",
    "gateway.port", "tunnel.provider", "agents.defaults.model.primary"
  ]

  const ALLOWED_PREFIX: seq<string> := [
    "agent.", "autonomy.", "browser.", "channels.", "diagnostics.", "http_request.",
    "memory.", "models.providers.", "runtime.", "scheduler.", "security.", "session.",
    "tools."
  ]

  predicate IsAllowed(path: string) {
    path in ALLOWED_EXACT || exists i :: 0 <= i < |ALLOWED_PREFIX| && ALLOWED_PREFIX[i] <= path
  }

  method IsAllowedPath(path: string) returns (allowed: bool)
    ensures allowed == IsAllowed(path)
  {
    if path == "" {
      assert forall i :: 0 <= i < |ALLOWED_EXACT| ==> |ALLOWED_EXACT[i]| > 0;
      assert forall i :: 0 <= i < |ALLOWED_PREFIX| ==> |ALLOWED_PREFIX[i]| > 0;
      return false;
    }
    var i := 0;
    while i < |ALLOWED_EXACT|
      invariant 0 <= i <= |ALLOWED_EXACT| && forall k :: 0 <= k < i ==> ALLOWED_EXACT[k] != path
    {
      if path == ALLOWED_EXACT[i] { return true; }
      i := i + 1;
    }
    i := 0;
    while i < |ALLOWED_PREFIX|
      invariant 0 <= i <= |ALLOWED_PREFIX| && forall k :: 0 <= k < i ==> !(ALLOWED_PREFIX[k] <= path)
    {
      if ALLOWED_PREFIX[i] <= path { return true; }
      i := i + 1;
    }
    return false;
  }

  /** Spaces and tabs are trimmed, a newline is not. */
  lemma TrimsSpacesAndTabs()
    ensures Trim(" \tx\t ") == "x" && Trim("\nx") == "\nx"
  {
    TrimLeftIs(" \tx\t ", 2);
    assert " \tx\t "[2..] == "x\t ";
    TrimRightIs("x\t ", 1);
    assert "x\t "[..1] == "x";
    TrimLeftIs("\nx", 0);
    assert "\nx"[0..] == "\nx";
    TrimRightIs("\nx", 2);
    assert "\nx"[..2] == "\nx";
  }

  /** An entry of the exact list allows itself and nothing below it, an entry of the other list
      everything below it and not itself. */
  lemma AllowedExamples()
    ensures IsAllowed("gateway.host") && IsAllowed("tools.x")
    ensures !IsAllowed("gateway.host.x") && !IsAllowed("gateway") && !IsAllowed("tools")
  {
    assert ALLOWED_EXACT[5] == "gateway.host";
    assert ALLOWED_PREFIX[|ALLOWED_PREFIX| - 1] == "tools." <= "tools.x";
    assert forall i :: 0 <= i < |ALLOWED_PREFIX| ==> |ALLOWED_PREFIX[i]| > 0 && ALLOWED_PREFIX[i][0] != 'g';
    assert "gateway.host.x"[0] == 'g';
    NotAllowed("gateway.host.x");
    NotAllowed("gateway");
    NotAllowed("tools");
  }

  lemma NotAllowed(path: string)
    requires forall i :: 0 <= i < |ALLOWED_EXACT| ==> ALLOWED_EXACT[i] != path
    requires forall i :: 0 <= i < |ALLOWED_PREFIX| ==> !(ALLOWED_PREFIX[i] <= path)
    ensures !IsAllowed(path)
  {
  }
}
