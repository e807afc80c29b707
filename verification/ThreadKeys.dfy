/** Thread session keys of src/agent_routing.c: "base:thread:id" and back. */
module ThreadKeys {
  import opened Wrappers

  const MARKER := ":thread:"

  ghost predicate OccursAt(s: string, i: nat) {
    i + |MARKER| <= |s| && s[i..i + |MARKER|] == MARKER
  }

  /** strstr for the marker, from position p on: an index or -1. */
  function FindMarker(s: string, p: nat): (at: int)
    requires p <= |s|
    ensures at == -1 ==> forall i: nat :: i >= p ==> !OccursAt(s, i)
    ensures at != -1 ==> p <= at && OccursAt(s, at) && forall i: nat :: p <= i < at ==> !OccursAt(s, i)
    decreases |s| - p
  {
    if p + |MARKER| > |s| then -1
    else if s[p..p + |MARKER|] == MARKER then p
    else FindMarker(s, p + 1)
  }

  function ThreadKey(base: string, thread: Option<string>): string {
    base + MARKER + if thread.Some? then thread.value else ""
  }

  /** The pointer loop: it ends on the last occurrence, overlapping ones included. */
  method ResolveThreadParent(key: string) returns (prefixLen: Option<nat>)
    ensures prefixLen.None? ==> forall i: nat :: !OccursAt(key, i)
    ensures prefixLen.Some? ==> IsLastMarker(key, prefixLen.value)
  {
    var last := FindMarker(key, 0);
    var p := FindMarker(key, 0);
    while p != -1
      invariant -1 <= p && (last == -1 ==> p == -1)
      invariant last != -1 ==> last >= 0 && OccursAt(key, last)
      invariant p != -1 ==> OccursAt(key, p) && last <= p && forall i: nat :: i < p && OccursAt(key, i) ==> i <= last
      invariant p == -1 ==> forall i: nat :: OccursAt(key, i) ==> i <= last
      decreases if p == -1 then 0 else |key| - p
    {
      last := p;
      p := p + 1;
      p := FindMarker(key, p);
    }
    if last == -1 { return None; }
    return Some(last);
  }

  ghost predicate IsLastMarker(key: string, at: nat) {
    OccursAt(key, at) && forall i: nat :: OccursAt(key, i) ==> i <= at
  }

  /** An occurrence behind the marker lies wholly in the thread id. */
  lemma OccursInThreadId(base: string, tid: string, i: nat)
    ensures var key := ThreadKey(base, Some(tid));
            OccursAt(key, |base| + 8 + i) <==> OccursAt(tid, i)
  {
    var key := ThreadKey(base, Some(tid));
    assert key[|base| + 8..] == tid;
    if i + 8 <= |tid| {
      assert key[|base| + 8 + i..|base| + 16 + i] == tid[i..i + 8];
    }
  }

  /** An occurrence that shares the marker's last colon. */
  lemma OccursOnLastColon(base: string, tid: string)
    ensures var key := ThreadKey(base, Some(tid));
            OccursAt(key, |base| + 7) <==> "thread:" <= tid
  {
    var key := ThreadKey(base, Some(tid));
    var n := |base|;
    if 7 <= |tid| {
      assert key[n + 7..n + 15] == ":" + tid[..7];
      assert MARKER == ":" + "thread:";
      assert (":" + tid[..7])[1..] == tid[..7] && (":" + "thread:")[1..] == "thread:";
    }
  }

  /** The marker's only border is its colon: two occurrences are at least seven apart. */
  lemma OccurrencesAreSevenApart(key: string, n: nat, i: nat)
    requires OccursAt(key, n) && OccursAt(key, i) && n < i
    ensures i >= n + 7
  {
    assert key[i] == key[i..i + 8][0] == MARKER[0];
    assert i < n + 8 ==> key[i] == key[n..n + 8][i - n] == MARKER[i - n];
  }

  /** Main result: the parent of a thread key is its base exactly when the thread id neither
      contains the marker nor completes one begun by the marker's own last colon. */
  lemma ThreadParentIsBase(base: string, tid: string)
    ensures IsLastMarker(ThreadKey(base, Some(tid)), |base|)
            <==> (forall i: nat :: !OccursAt(tid, i)) && !("thread:" <= tid)
  {
    var key := ThreadKey(base, Some(tid));
    var n := |base|;
    assert key[n..n + 8] == MARKER;
    OccursOnLastColon(base, tid);
    forall i: nat ensures OccursAt(key, n + 8 + i) <==> OccursAt(tid, i) {
      OccursInThreadId(base, tid, i);
    }
    forall i: nat | OccursAt(key, i) && i > n
      ensures i == n + 7 || (i >= n + 8 && OccursAt(tid, i - n - 8))
    {
      OccurrencesAreSevenApart(key, n, i);
      if i >= n + 8 { OccursInThreadId(base, tid, i - n - 8); }
    }
  }

  /** Nesting: a second thread key's parent is the first, so parents peel off one at a time. */
  lemma NestedThreadParent(base: string, outer: string, inner: string)
    requires (forall i: nat :: !OccursAt(inner, i)) && !("thread:" <= inner)
    ensures var first := ThreadKey(base, Some(outer));
            var second := ThreadKey(first, Some(inner));
            IsLastMarker(second, |first|) && second[..|first|] == first
  {
    ThreadParentIsBase(ThreadKey(base, Some(outer)), inner);
  }

  /** The key's parts, and the missing thread id. */
  lemma ThreadKeyText(base: string, tid: string)
    ensures ThreadKey(base, Some(tid)) == base + ":thread:" + tid && ThreadKey(base, None) == base + ":thread:"
  {
  }
}
