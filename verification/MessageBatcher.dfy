/** The batching loop of sc_service_run in src/daemon.c: consecutive messages of one
    sender are joined into a prompt, in a buffer of fixed size. */
module MessageBatcher {
  import opened Text

  datatype Message = Message(sessionKey: string, content: string)

  /** One prompt: the sender, the text, the first and last message in it, and where the scan went on. */
  datatype Batch = Batch(key: string, text: string, start: nat, last: nat, next: nat)

  const COMBINED_SIZE := 4096

  /** The non-empty contents, in order. */
  function Contents(msgs: seq<Message>): (c: seq<string>)
    ensures forall j :: 0 <= j < |c| ==> c[j] != ""
  {
    if msgs == [] then []
    else (if msgs[0].content == "" then [] else [msgs[0].content]) + Contents(msgs[1..])
  }

  function JoinLines(contents: seq<string>): string {
    if contents == [] then "" else Join(contents, '\n')
  }

  lemma {:induction false} ContentsConcat(a: seq<Message>, b: seq<Message>)
    ensures Contents(a + b) == Contents(a) + Contents(b)
  {
    if a == [] {
      assert a + b == b;
    } else {
      assert (a + b)[0] == a[0] && (a + b)[1..] == a[1..] + b;
      ContentsConcat(a[1..], b);
    }
  }

  lemma ContentsStep(msgs: seq<Message>, from: nat, m: nat)
    requires from <= m < |msgs|
    ensures var before := Contents(msgs[from..m]);
            Contents(msgs[from..m + 1]) == if msgs[m].content == "" then before else before + [msgs[m].content]
  {
    assert msgs[from..m + 1] == msgs[from..m] + [msgs[m]];
    ContentsConcat(msgs[from..m], [msgs[m]]);
    assert Contents([msgs[m]]) == if msgs[m].content == "" then [] else [msgs[m].content];
  }

  lemma {:induction false} JoinMore(pieces: seq<string>, piece: string, sep: char)
    requires |pieces| >= 1
    ensures Join(pieces + [piece], sep) == Join(pieces, sep) + [sep] + piece
  {
    if |pieces| > 1 {
      assert (pieces + [piece])[1..] == pieces[1..] + [piece];
      JoinMore(pieces[1..], piece, sep);
    } else {
      assert (pieces + [piece])[1..] == [piece];
    }
  }

  lemma {:induction false} JoinIsNotEmpty(pieces: seq<string>, sep: char)
    requires |pieces| >= 1 && pieces[0] != ""
    ensures Join(pieces, sep) != ""
  {
  }

  lemma NothingGathered()
    ensures Contents([]) == [] && JoinLines(Contents([])) == ""
  {
  }

  lemma AddLine(before: seq<string>, content: string)
    requires before != [] ==> before[0] != ""
    ensures JoinLines(before) == "" <==> before == []
    ensures JoinLines(before + [content]) == if before == [] then content else JoinLines(before) + "\n" + content
  {
    if before != [] {
      JoinMore(before, content, '\n');
      JoinIsNotEmpty(before, '\n');
    } else {
      assert before + [content] == [content];
    }
  }

  /** The test of the inner loop, on the length gathered so far. */
  predicate Fits(gathered: nat, content: string) {
    gathered + |content| + 2 < COMBINED_SIZE
  }

  /** Too long for the buffer even on its own. */
  predicate Oversized(msg: Message) {
    !Fits(0, msg.content)
  }

  /** What a batch promises about the messages it was made from. */
  ghost predicate IsBatch(msgs: seq<Message>, b: Batch) {
    && b.start <= b.last < b.next <= |msgs|
    && (forall k :: b.start <= k < b.next ==> msgs[k].sessionKey == b.key)
    && b.text == JoinLines(Contents(msgs[b.start..b.next])) && b.text != ""
    && |b.text| + 1 < COMBINED_SIZE
    // saving the messages start..last later on saves the very same contents, and none that is empty at the end
    && msgs[b.last].content != ""
    && Contents(msgs[b.start..b.last + 1]) == Contents(msgs[b.start..b.next])
    // it stopped at the end, at another sender, or at a message that does not fit
    && (b.next == |msgs| || msgs[b.next].sessionKey != b.key || !Fits(|b.text|, msgs[b.next].content))
  }

  /** The separating newline and the memcpy. */
  method AppendLine(combined: array<char>, len: nat, content: string) returns (len': nat)
    requires combined.Length == COMBINED_SIZE && len + |content| + 2 < COMBINED_SIZE
    modifies combined
    ensures len' + 1 < COMBINED_SIZE
    ensures combined[..len'] == (if len == 0 then content else old(combined[..len]) + "\n" + content)
  {
    len' := len;
    if len > 0 {
      combined[len'] := '\n';
      len' := len' + 1;
    }
    forall k | 0 <= k < |content| { combined[len' + k] := content[k]; }
    len' := len' + |content|;
  }

  /** The messages start..m have gone into the text, the last non-empty one being `last`. */
  ghost predicate Gathered(msgs: seq<Message>, start: nat, m: nat, last: nat, text: string) {
    && start < |msgs| && start <= last && start <= m <= |msgs| && (m > start ==> last < m)
    && (forall k :: start <= k < m ==> msgs[k].sessionKey == msgs[start].sessionKey && !Oversized(msgs[k]))
    && text == JoinLines(Contents(msgs[start..m])) && |text| + 1 < COMBINED_SIZE
    && (m > start ==>
          text != "" && msgs[last].content != "" && Contents(msgs[start..last + 1]) == Contents(msgs[start..m]))
  }

  lemma GatherNothing(msgs: seq<Message>, start: nat)
    requires start < |msgs|
    ensures Gathered(msgs, start, start, start, "")
  {
    assert msgs[start..start] == [];
    NothingGathered();
  }

  lemma GatherEmpty(msgs: seq<Message>, start: nat, m: nat, last: nat, text: string)
    requires Gathered(msgs, start, m, last, text) && start < m < |msgs|
    requires msgs[m].content == "" && msgs[m].sessionKey == msgs[start].sessionKey
    ensures Gathered(msgs, start, m + 1, last, text)
  {
    hide Contents, JoinLines;
    ContentsStep(msgs, start, m);
  }

  lemma GatherOne(msgs: seq<Message>, start: nat, m: nat, last: nat, text: string)
    requires Gathered(msgs, start, m, last, text) && m < |msgs|
    requires msgs[m].content != "" && Fits(|text|, msgs[m].content) && msgs[m].sessionKey == msgs[start].sessionKey
    ensures var content := msgs[m].content;
            Gathered(msgs, start, m + 1, m, if text == "" then content else text + "\n" + content)
  {
    hide Contents, JoinLines;
    ContentsStep(msgs, start, m);
    ContentsStartNonEmpty(msgs[start..m]);
    AddLine(Contents(msgs[start..m]), msgs[m].content);
  }

  lemma ContentsStartNonEmpty(msgs: seq<Message>)
    ensures Contents(msgs) != [] ==> Contents(msgs)[0] != ""
  {
  }

  lemma GatherDone(msgs: seq<Message>, start: nat, m: nat, last: nat, text: string)
    requires Gathered(msgs, start, m, last, text) && msgs[start].content != ""
    requires m == |msgs| || msgs[m].sessionKey != msgs[start].sessionKey || !Fits(|text|, msgs[m].content)
    ensures m > start ==> IsBatch(msgs, Batch(msgs[start].sessionKey, text, start, last, m))
    ensures m == start ==> text == "" && Oversized(msgs[start])
    ensures forall k :: start <= k < m ==> !Oversized(msgs[k])
  {
    if m == start {
      assert msgs[start..start] == [];
      NothingGathered();
    }
  }

  /** The inner loop. A gathered text of length 0 means the first message alone did not fit. */
  method GatherBatch(msgs: seq<Message>, start: nat, combined: array<char>) returns (b: Batch)
    requires start < |msgs| && msgs[start].content != "" && combined.Length == COMBINED_SIZE
    modifies combined
    ensures b.start == start && b.key == msgs[start].sessionKey
    ensures !Oversized(msgs[start]) ==> IsBatch(msgs, b) && b.text != ""
    ensures Oversized(msgs[start]) ==> b.text == "" && b.next == start
    ensures forall k :: start <= k < b.next ==> !Oversized(msgs[k])
  {
    hide Contents, JoinLines;
    var key := msgs[start].sessionKey;
    var m, last, len := start, start, 0;
    ghost var text := "";
    GatherNothing(msgs, start);
    hide Gathered;
    while m < |msgs| && msgs[m].sessionKey == key
      invariant start <= m <= |msgs| && Gathered(msgs, start, m, last, text)
      invariant len == |text| && len + 1 < COMBINED_SIZE && combined[..len] == text
      decreases |msgs| - m
    {
      var content := msgs[m].content;
      if content == "" {
        GatherEmpty(msgs, start, m, last, text);
        m := m + 1;
        continue;
      }
      if len + |content| + 2 >= combined.Length { break; }
      GatherOne(msgs, start, m, last, text);
      len := AppendLine(combined, len, content);
      text := if text == "" then content else text + "\n" + content;
      last := m;
      m := m + 1;
    }
    GatherDone(msgs, start, m, last, text);
    b := Batch(key, combined[..len], start, last, m);
  }

  lemma BatchAdvances(msgs: seq<Message>, b: Batch)
    requires IsBatch(msgs, b)
    ensures b.start < b.next <= |msgs|
  {
  }

  /** The contents of all batches one after the other. */
  ghost function BatchedContents(msgs: seq<Message>, batches: seq<Batch>): seq<string>
    requires AreBatches(msgs, batches)
  {
    if batches == [] then []
    else
      var last := batches[|batches| - 1];
      assert IsBatch(msgs, last);
      BatchedContents(msgs, batches[..|batches| - 1]) + Contents(msgs[last.start..last.next])
  }

  ghost predicate AreBatches(msgs: seq<Message>, batches: seq<Batch>) {
    forall i :: 0 <= i < |batches| ==> IsBatch(msgs, batches[i])
  }

  /** The outer loop. An oversized message is gathered into an empty text and left where it is;
      the C loop then repeats that turn unchanged for ever, and this one reports `stuck`. */
  method BatchMessages(msgs: seq<Message>) returns (batches: seq<Batch>, m: nat, stuck: bool)
    ensures m <= |msgs| && AreBatches(msgs, batches)
    ensures BatchedContents(msgs, batches) == Contents(msgs[..m])
    ensures forall k :: 0 <= k < m ==> !Oversized(msgs[k])
    ensures if stuck then m < |msgs| && Oversized(msgs[m]) else m == |msgs|
    ensures !stuck <==> forall k :: 0 <= k < |msgs| ==> !Oversized(msgs[k])
    ensures !stuck ==> BatchedContents(msgs, batches) == Contents(msgs)
  {
    hide Contents, IsBatch;
    batches, m, stuck := [], 0, false;
    NothingGathered();
    var combined := new char[COMBINED_SIZE];
    assert msgs[..0] == [];
    while m < |msgs| && !stuck
      invariant m <= |msgs| && AreBatches(msgs, batches)
      invariant BatchedContents(msgs, batches) == Contents(msgs[..m])
      invariant forall k :: 0 <= k < m ==> !Oversized(msgs[k])
      invariant stuck ==> m < |msgs| && Oversized(msgs[m])
      decreases |msgs| - m, !stuck
    {
      if msgs[m].content == "" {
        ContentsStep(msgs, 0, m);
        assert msgs[0..m] == msgs[..m] && msgs[0..m + 1] == msgs[..m + 1];
        m := m + 1;
        continue;
      }
      var b := GatherBatch(msgs, m, combined);
      if b.text == "" {
        stuck := true;
      } else {
        BatchAdvances(msgs, b);
        assert msgs[..b.next] == msgs[..m] + msgs[m..b.next];
        ContentsConcat(msgs[..m], msgs[m..b.next]);
        assert (batches + [b])[..|batches|] == batches;
        batches := batches + [b];
        m := b.next;
      }
    }
    assert msgs[..|msgs|] == msgs;
  }

  /** A prompt of one-line messages can be read back into the messages it was made from. */
  lemma BatchTextSplits(msgs: seq<Message>, b: Batch)
    requires IsBatch(msgs, b)
    requires forall k :: b.start <= k < b.next ==> Lacks(msgs[k].content, '\n')
    ensures Split(b.text, '\n') == Contents(msgs[b.start..b.next])
  {
    var pieces := Contents(msgs[b.start..b.next]);
    ContentsLack(msgs[b.start..b.next], '\n');
    SplitJoin(pieces, '\n');
  }

  lemma {:induction false} ContentsLack(msgs: seq<Message>, c: char)
    requires forall k :: 0 <= k < |msgs| ==> Lacks(msgs[k].content, c)
    ensures forall j :: 0 <= j < |Contents(msgs)| ==> Lacks(Contents(msgs)[j], c)
  {
    if msgs != [] { ContentsLack(msgs[1..], c); }
  }

  /** The bound is exact: a message is oversized from 4094 characters on. */
  lemma OversizedFrom(msg: Message)
    ensures Oversized(msg) <==> |msg.content| >= 4094
  {
  }

  /** One message of 4094 characters already keeps the loop at its first turn. */
  method LongMessageIsStuck(key: string) returns (m: nat, stuck: bool)
    ensures stuck && m == 0
  {
    var msg := Message(key, seq(4094, _ => 'x'));
    OversizedFrom(msg);
    var batches;
    batches, m, stuck := BatchMessages([msg]);
    assert Oversized([msg][0]);
  }

  /** A batch's text has at most 4094 bytes, and the batch ends before a message of its own sender
      only when text, newline and message have 4095 or more. */
  lemma StopsOnlyWhenFull(msgs: seq<Message>, b: Batch)
    requires IsBatch(msgs, b)
    ensures |b.text| <= 4094
    ensures b.next < |msgs| && msgs[b.next].sessionKey == b.key ==> |b.text| + 1 + |msgs[b.next].content| >= 4095
  {
  }

  /** The contents, piece by piece: one message gives its text unless that is empty, and lists
      give theirs one after the other. */
  lemma ContentsByMessage(a: seq<Message>, msg: Message, b: seq<Message>)
    ensures Contents([]) == []
    ensures Contents(a + [msg] + b) ==
            Contents(a) + (if msg.content == "" then [] else [msg.content]) + Contents(b)
  {
    ContentsConcat(a + [msg], b);
    ContentsConcat(a, [msg]);
    assert Contents([msg]) == if msg.content == "" then [] else [msg.content];
  }
}
