/** resolveRefs of design-tokens/build.ts: "{path}" references in a token map are
    replaced in place, pass after pass, until a pass changes nothing. */
module TokenResolver {
  import opened Wrappers

  datatype Value = Number(n: real) | Str(s: string)

  type TokenMap = map<string, Value>

  /** The name in a text that is one pair of braces around a non-empty name, and nothing else. */
  function ReferenceIn(v: Value): Option<string> {
    match v
    case Number(_) => None
    case Str(s) =>
      if |s| >= 3 && s[0] == '{' && s[|s| - 1] == '}' && '}' !in s[1..|s| - 1]
      then Some(s[1..|s| - 1]) else None
  }

  /** The key a value refers to, when the map defines it; a dangling reference is not live. */
  function Target(m: TokenMap, v: Value): (t: Option<string>)
    ensures t.Some? ==> t.value in m
  {
    var ref := ReferenceIn(v);
    if ref.Some? && ref.value in m then ref else None
  }

  // ----- the meaning of a value: follow references to the end of the chain

  function Hop(m: TokenMap, v: Value): Value {
    var t := Target(m, v);
    if t.Some? then m[t.value] else v
  }

  function Hops(m: TokenMap, v: Value, n: nat): Value
    decreases n
  {
    if n == 0 then v else Hops(m, Hop(m, v), n - 1)
  }

  /** The chain from v is over after at most n references. */
  ghost predicate EndsWithin(m: TokenMap, v: Value, n: nat) {
    Target(m, Hops(m, v, n)).None?
  }

  ghost predicate Ends(m: TokenMap, v: Value) {
    exists n: nat :: EndsWithin(m, v, n)
  }

  ghost predicate AllEnd(m: TokenMap) {
    forall k :: k in m ==> Ends(m, m[k])
  }

  ghost function Meaning(m: TokenMap, v: Value): Value
    requires Ends(m, v)
  {
    var n: nat :| EndsWithin(m, v, n);
    Hops(m, v, n)
  }

  lemma {:induction false} HopsSum(m: TokenMap, v: Value, a: nat, b: nat)
    ensures Hops(m, v, a + b) == Hops(m, Hops(m, v, a), b)
    decreases a
  {
    if a > 0 { HopsSum(m, Hop(m, v), a - 1, b); }
  }

  lemma {:induction false} HopsStay(m: TokenMap, v: Value, n: nat)
    requires Target(m, v).None?
    ensures Hops(m, v, n) == v
  {
    if n > 0 { HopsStay(m, v, n - 1); }
  }

  lemma EndsLater(m: TokenMap, v: Value, n: nat, n': nat)
    requires EndsWithin(m, v, n) && n <= n'
    ensures EndsWithin(m, v, n') && Hops(m, v, n') == Hops(m, v, n)
  {
    HopsSum(m, v, n, n' - n);
    HopsStay(m, Hops(m, v, n), n' - n);
  }

  /** Any sufficient number of hops gives the meaning. */
  lemma MeaningIs(m: TokenMap, v: Value, n: nat)
    requires EndsWithin(m, v, n)
    ensures Meaning(m, v) == Hops(m, v, n)
  {
    var n': nat :| EndsWithin(m, v, n') && Meaning(m, v) == Hops(m, v, n');
    EndsLater(m, v, n, n + n');
    EndsLater(m, v, n', n + n');
  }

  // ----- what a pass does

  /** Key k now holds a value at least one hop further along its old chain. */
  ghost predicate Advanced(m: TokenMap, m': TokenMap, k: string)
    requires k in m && k in m'
  {
    exists j: nat :: j >= 1 && m'[k] == Hops(m, m[k], j)
  }

  ghost predicate IsPass(m: TokenMap, m': TokenMap) {
    m'.Keys == m.Keys && forall k :: k in m ==> Advanced(m, m', k)
  }

  ghost predicate SomeLive(m: TokenMap) {
    exists k :: k in m && Target(m, m[k]).Some?
  }

  /** Targets depend on the keys alone. */
  lemma SameTargets(m: TokenMap, m': TokenMap, v: Value)
    requires m.Keys == m'.Keys
    ensures Target(m, v) == Target(m', v)
  {
  }

  /** A pass halves every chain, whatever the order it went in. */
  lemma {:induction false} PassHalves(m: TokenMap, m': TokenMap, k: string, n: nat)
    requires IsPass(m, m') && k in m && EndsWithin(m, m[k], 2 * n + 1)
    ensures EndsWithin(m', m'[k], n)
    decreases n
  {
    var u := m'[k];
    assert Advanced(m, m', k);
    var j: nat :| j >= 1 && u == Hops(m, m[k], j);
    EndsLater(m, m[k], 2 * n + 1, 2 * n + j);
    HopsSum(m, m[k], j, 2 * n);
    assert EndsWithin(m, u, 2 * n);
    SameTargets(m, m', u);
    assert Hops(m, u, 0) == u;
    var t := Target(m, u);
    if t.None? {
      HopsStay(m', u, n);
    } else {
      assert EndsWithin(m, m[t.value], 2 * (n - 1) + 1);
      PassHalves(m, m', t.value, n - 1);
    }
  }

  /** Chains that end after a pass already ended before it. */
  lemma {:induction false} PassReflectsEnding(m: TokenMap, m': TokenMap, v: Value, n: nat)
    requires IsPass(m, m') && EndsWithin(m', v, n)
    ensures Ends(m, v)
    decreases n
  {
    SameTargets(m, m', v);
    assert Hops(m', v, 0) == v;
    var t := Target(m, v);
    if t.None? {
      assert EndsWithin(m, v, 0);
    } else {
      PassReflectsEnding(m, m', m'[t.value], n - 1);
      assert Advanced(m, m', t.value);
      var j: nat :| j >= 1 && m'[t.value] == Hops(m, m[t.value], j);
      var r: nat :| EndsWithin(m, m'[t.value], r);
      HopsSum(m, m[t.value], j, r);
      assert EndsWithin(m, v, j + r + 1);
    }
  }

  /** A pass keeps the meaning of every value whose chain ends. */
  lemma {:induction false} PassKeepsMeaning(m: TokenMap, m': TokenMap, v: Value, n: nat)
    requires IsPass(m, m') && EndsWithin(m, v, n)
    ensures Ends(m', v) && Meaning(m', v) == Meaning(m, v)
    decreases n
  {
    SameTargets(m, m', v);
    MeaningIs(m, v, n);
    assert Hops(m, v, 0) == v;
    var t := Target(m, v);
    if t.None? {
      HopsStay(m, v, n);
      assert EndsWithin(m', v, 0);
      MeaningIs(m', v, 0);
    } else {
      var w := m'[t.value];
      assert Advanced(m, m', t.value);
      var j: nat :| j >= 1 && w == Hops(m, m[t.value], j);
      HopsSum(m, m[t.value], j, n - 1);
      EndsLater(m, m[t.value], n - 1, n - 1 + j);
      assert EndsWithin(m, w, n - 1);
      PassKeepsMeaning(m, m', w, n - 1);
      MeaningIs(m, w, n - 1);
      var r: nat :| EndsWithin(m', w, r);
      MeaningIs(m', w, r);
      assert EndsWithin(m', v, r + 1);
      MeaningIs(m', v, r + 1);
    }
  }

  lemma PassKeepsKeyMeaning(m: TokenMap, m': TokenMap, k: string)
    requires IsPass(m, m') && k in m && Ends(m, m[k])
    ensures Ends(m', m'[k]) && Meaning(m', m'[k]) == Meaning(m, m[k])
  {
    var n: nat :| EndsWithin(m, m[k], n);
    assert Advanced(m, m', k);
    var j: nat :| j >= 1 && m'[k] == Hops(m, m[k], j);
    EndsLater(m, m[k], n, j + n);
    HopsSum(m, m[k], j, n);
    assert EndsWithin(m, m'[k], n);
    PassKeepsMeaning(m, m', m'[k], n);
    MeaningIs(m, m'[k], n);
    MeaningIs(m, m[k], j + n);
  }

  // ----- when the loop stops

  lemma PassReflectsKeyEnding(m: TokenMap, m': TokenMap, k: string)
    requires IsPass(m, m') && k in m && Ends(m', m'[k])
    ensures Ends(m, m[k])
  {
    var n: nat :| EndsWithin(m', m'[k], n);
    PassReflectsEnding(m, m', m'[k], n);
    assert Advanced(m, m', k);
    var j: nat :| j >= 1 && m'[k] == Hops(m, m[k], j);
    var r: nat :| EndsWithin(m, m'[k], r);
    HopsSum(m, m[k], j, r);
    assert EndsWithin(m, m[k], j + r);
  }

  lemma EndlessIsLive(m: TokenMap)
    requires !AllEnd(m)
    ensures SomeLive(m)
  {
    var k :| k in m && !Ends(m, m[k]);
    assert Hops(m, m[k], 0) == m[k];
    assert !EndsWithin(m, m[k], 0);
  }

  /** Once a chain does not end, no pass makes it end. */
  lemma PassKeepsEndless(m: TokenMap, m': TokenMap)
    requires IsPass(m, m') && !AllEnd(m)
    ensures !AllEnd(m')
  {
    var k :| k in m && !Ends(m, m[k]);
    if Ends(m', m'[k]) { PassReflectsKeyEnding(m, m', k); }
  }

  /** The loop runs through `maps`: each pass leads to the next map, and it goes on
      exactly as long as the pass found a live reference. */
  ghost predicate IsRun(maps: seq<TokenMap>) {
    forall i :: 0 <= i < |maps| - 1 ==> SomeLive(maps[i]) && IsPass(maps[i], maps[i + 1])
  }

  function Pow2(n: nat): (p: nat)
    ensures p >= 1
  {
    if n == 0 then 1 else 2 * Pow2(n - 1)
  }

  ghost predicate Within(m: TokenMap, d: nat) {
    forall k :: k in m ==> EndsWithin(m, m[k], d)
  }

  lemma PassHalvesAll(m: TokenMap, m': TokenMap, d: nat)
    requires IsPass(m, m') && Within(m, 2 * d + 1)
    ensures Within(m', d)
  {
    forall k | k in m' ensures EndsWithin(m', m'[k], d) { PassHalves(m, m', k, d); }
  }

  lemma LiveIsNotOver(m: TokenMap)
    requires SomeLive(m)
    ensures !Within(m, 0)
  {
    var k :| k in m && Target(m, m[k]).Some?;
    assert Hops(m, m[k], 0) == m[k] && !EndsWithin(m, m[k], 0);
  }

  /** If every chain is shorter than 2^n, a run has at most n + 1 maps: the loop makes at
      most n + 1 passes, the last of which changes nothing. */
  lemma {:induction false} LogarithmicallyManyPasses(maps: seq<TokenMap>, n: nat)
    requires IsRun(maps) && |maps| > 0 && Within(maps[0], Pow2(n) - 1)
    ensures |maps| <= n + 1
    decreases n
  {
    hide IsPass, Within, SomeLive;
    if |maps| > 1 {
      LiveIsNotOver(maps[0]);
      PassHalvesAll(maps[0], maps[1], Pow2(n - 1) - 1);
      LogarithmicallyManyPasses(maps[1..], n - 1);
    }
  }

  /** The other direction: with a chain that never ends, every map of every run still
      has a live reference, so the loop never stops. */
  lemma {:induction false} NeverStops(maps: seq<TokenMap>, i: nat)
    requires IsRun(maps) && i < |maps| && !AllEnd(maps[0])
    ensures !AllEnd(maps[i]) && SomeLive(maps[i])
  {
    if i > 0 {
      NeverStops(maps, i - 1);
      PassKeepsEndless(maps[i - 1], maps[i]);
    }
    EndlessIsLive(maps[i]);
  }

  /** The condition in graph terms: following references from k comes back to k. */
  ghost predicate OnCycle(m: TokenMap, k: string, n: nat)
    requires k in m
  {
    Target(m, Hops(m, m[k], n)) == Some(k)
  }

  ghost predicate Acyclic(m: TokenMap) {
    forall k, n: nat :: k in m ==> !OnCycle(m, k, n)
  }

  /** All chains end exactly when the reference graph has no cycle. */
  lemma AllEndIffAcyclic(m: TokenMap)
    ensures AllEnd(m) <==> Acyclic(m)
  {
    if AllEnd(m) {
      forall k, n: nat | k in m ensures !OnCycle(m, k, n) {
        if OnCycle(m, k, n) {
          var r: nat :| EndsWithin(m, m[k], r);
          CycleNeverEnds(m, k, n, r);
          assert false;
        }
      }
    }
    if !AllEnd(m) {
      var k :| k in m && !Ends(m, m[k]);
      var c, n := EndlessHasCycle(m, k);
      assert OnCycle(m, c, n);
    }
  }

  /** In graph terms: with a cycle among the references every map of every run still has a
      live reference, so every pass reports a change. */
  lemma CyclesNeverStop(maps: seq<TokenMap>, i: nat)
    requires IsRun(maps) && i < |maps| && !Acyclic(maps[0])
    ensures SomeLive(maps[i]) && !Acyclic(maps[i])
  {
    AllEndIffAcyclic(maps[0]);
    AllEndIffAcyclic(maps[i]);
    NeverStops(maps, i);
  }

  /** A key that refers to itself: the loop passes over the same map for ever. */
  lemma SelfReferenceNeverStops(maps: seq<TokenMap>, i: nat)
    requires IsRun(maps) && i < |maps| && maps[0] == map["a" := Str("{a}")]
    ensures SomeLive(maps[i]) && !Acyclic(maps[i])
  {
    var m := maps[0];
    assert ReferenceIn(Str("{a}")) == Some("a") by { assert "{a}"[1..2] == "a"; }
    assert Hops(m, m["a"], 0) == m["a"];
    assert OnCycle(m, "a", 0);
    CyclesNeverStop(maps, i);
  }

  lemma {:induction false} CycleNeverEnds(m: TokenMap, k: string, n: nat, r: nat)
    requires k in m && OnCycle(m, k, n)
    ensures !EndsWithin(m, m[k], r)
    decreases r
  {
    if r <= n {
      if EndsWithin(m, m[k], r) { EndsLater(m, m[k], r, n); }
    } else {
      CycleNeverEnds(m, k, n, r - n - 1);
      HopsSum(m, m[k], n + 1, r - n - 1);
      HopsSum(m, m[k], n, 1);
      assert Hops(m, Hops(m, m[k], n), 1) == Hop(m, Hops(m, m[k], n));
    }
  }

  /** The keys visited from k, one per hop. */
  ghost function Visit(m: TokenMap, k: string, i: nat): (t: string)
    requires k in m && !Ends(m, m[k])
    ensures t in m
  {
    assert !EndsWithin(m, m[k], i);
    Target(m, Hops(m, m[k], i)).value
  }

  lemma EndlessHasCycle(m: TokenMap, k: string) returns (c: string, n: nat)
    requires k in m && !Ends(m, m[k])
    ensures c in m && OnCycle(m, c, n)
  {
    var visited := seq(|m| + 1, i requires 0 <= i => Visit(m, k, i));
    var a, b := Pigeonhole(visited, m.Keys);
    assert !EndsWithin(m, m[k], a) && !EndsWithin(m, m[k], b);
    c, n := visited[a], b - a - 1;
    HopsSum(m, m[k], a, 1);
    assert Hops(m, Hops(m, m[k], a), 1) == Hop(m, Hops(m, m[k], a)) == m[c];
    HopsSum(m, m[k], a + 1, n);
  }

  lemma {:induction false} Pigeonhole<T>(s: seq<T>, holes: set<T>) returns (a: nat, b: nat)
    requires |s| > |holes| && forall i :: 0 <= i < |s| ==> s[i] in holes
    ensures a < b < |s| && s[a] == s[b]
    decreases |s|
  {
    var last := |s| - 1;
    if i :| 0 <= i < last && s[i] == s[last] {
      a, b := i, last;
    } else {
      a, b := Pigeonhole(s[..last], holes - {s[last]});
    }
  }

  // ----- the code

  /** An enumeration of the map's keys, as Object.entries gives it. */
  ghost predicate IsOrder(order: seq<string>, m: TokenMap) {
    && (forall i :: 0 <= i < |order| ==> order[i] in m)
    && (forall k :: k in m ==> k in order)
    && (forall i, j :: 0 <= i < j < |order| ==> order[i] != order[j])
  }

  /** The inner loop: one pass over the entries, reading the map being changed. */
  method Pass(entries: TokenMap, order: seq<string>) returns (resolved: TokenMap, changed: bool)
    requires IsOrder(order, entries)
    ensures IsPass(entries, resolved)
    ensures changed == SomeLive(entries)
    ensures !changed ==> resolved == entries
  {
    hide Advanced, Target;
    resolved, changed := entries, false;
    ghost var m := entries;
    var i := 0;
    while i < |order|
      invariant 0 <= i <= |order| && resolved.Keys == m.Keys
      invariant forall j :: 0 <= j < i ==> Advanced(m, resolved, order[j])
      invariant forall j :: i <= j < |order| ==> resolved[order[j]] == m[order[j]]
      invariant changed == exists j :: 0 <= j < i && Target(m, m[order[j]]).Some?
      invariant !changed ==> resolved == m
    {
      var key := order[i];
      var val := entries[key];
      var ref := ReferenceIn(val);
      ghost var before := resolved;
      TargetIs(m, resolved, val);
      if ref.Some? && ref.value in resolved {
        var target := resolved[ref.value];
        StepAdvances(m, resolved, key, ref.value, order, i);
        resolved := resolved[key := target];
        changed := true;
      } else {
        OverAdvances(m, resolved, key);
      }
      forall j | 0 <= j < i ensures Advanced(m, resolved, order[j]) {
        AdvancedSame(m, before, resolved, order[j]);
      }
      i := i + 1;
    }
    forall k | k in m ensures Advanced(m, resolved, k) {
      var j :| 0 <= j < |order| && order[j] == k;
    }
    SomeLiveByOrder(m, order);
  }

  lemma TargetIs(m: TokenMap, now: TokenMap, v: Value)
    requires now.Keys == m.Keys
    ensures var ref := ReferenceIn(v);
            Target(m, v) == if ref.Some? && ref.value in now then ref else None
  {
  }

  lemma OverAdvances(m: TokenMap, now: TokenMap, key: string)
    requires key in m && key in now && now[key] == m[key] && Target(m, m[key]).None?
    ensures Advanced(m, now, key)
  {
    HopsStay(m, m[key], 1);
  }

  lemma AdvancedSame(m: TokenMap, before: TokenMap, now: TokenMap, k: string)
    requires k in m && k in before && k in now && Advanced(m, before, k) && now[k] == before[k]
    ensures Advanced(m, now, k)
  {
  }

  lemma SomeLiveByOrder(m: TokenMap, order: seq<string>)
    requires IsOrder(order, m)
    ensures SomeLive(m) <==> exists j :: 0 <= j < |order| && Target(m, m[order[j]]).Some?
  {
    hide Target;
    if k :| k in m && Target(m, m[k]).Some? {
      var j :| 0 <= j < |order| && order[j] == k;
    }
  }

  lemma StepAdvances(m: TokenMap, now: TokenMap, key: string, t: string, order: seq<string>, i: nat)
    requires IsOrder(order, m) && i < |order| && key == order[i] && now.Keys == m.Keys
    requires forall j :: 0 <= j < i ==> Advanced(m, now, order[j])
    requires forall j :: i <= j < |order| ==> now[order[j]] == m[order[j]]
    requires Target(m, m[key]) == Some(t)
    ensures Advanced(m, now[key := now[t]], key)
  {
    var p :| 0 <= p < |order| && order[p] == t;
    if p < i {
      assert Advanced(m, now, order[p]);
      var j: nat :| j >= 1 && now[t] == Hops(m, m[t], j);
      assert now[t] == Hops(m, m[key], j + 1);
    } else {
      assert Hops(m, m[t], 0) == m[t];
      assert now[t] == Hops(m, m[key], 1);
    }
  }

  /** One bound for all chains of a map. */
  lemma {:induction false} UniformBound(m: TokenMap, keys: set<string>) returns (d: nat)
    requires AllEnd(m) && keys <= m.Keys
    ensures forall k :: k in keys ==> EndsWithin(m, m[k], d)
    decreases keys
  {
    if keys == {} {
      d := 0;
    } else {
      var k :| k in keys;
      var n: nat :| EndsWithin(m, m[k], n);
      var d0 := UniformBound(m, keys - {k});
      d := d0 + n;
      forall k' | k' in keys ensures EndsWithin(m, m[k'], d) {
        if k' == k { EndsLater(m, m[k], n, d); } else { EndsLater(m, m[k'], d0, d); }
      }
    }
  }

  /** `now` has the keys of `tokens`, and each key still means what it meant there. */
  ghost predicate Faithful(tokens: TokenMap, now: TokenMap) {
    AllEnd(tokens) && now.Keys == tokens.Keys &&
    forall k :: k in tokens ==> Ends(now, now[k]) && Meaning(now, now[k]) == Meaning(tokens, tokens[k])
  }

  lemma KeyInvariant(m: TokenMap, m': TokenMap, k: string, d: nat)
    requires IsPass(m, m') && k in m && Ends(m, m[k]) && EndsWithin(m, m[k], d)
    ensures EndsWithin(m', m'[k], d / 2)
    ensures Ends(m', m'[k]) && Meaning(m', m'[k]) == Meaning(m, m[k])
    ensures d == 0 ==> Target(m, m[k]).None?
  {
    hide IsPass;
    EndsLater(m, m[k], d, 2 * (d / 2) + 1);
    PassHalves(m, m', k, d / 2);
    PassKeepsKeyMeaning(m, m', k);
    assert Hops(m, m[k], 0) == m[k];
  }

  lemma PassInvariant(tokens: TokenMap, m: TokenMap, m': TokenMap, d: nat)
    requires Faithful(tokens, m) && Within(m, d) && IsPass(m, m')
    ensures Faithful(tokens, m') && Within(m', d / 2)
    ensures d == 0 ==> !SomeLive(m)
  {
    hide Ends, EndsWithin, Meaning;
    forall k | k in tokens
      ensures EndsWithin(m', m'[k], d / 2)
      ensures Ends(m', m'[k]) && Meaning(m', m'[k]) == Meaning(m, m[k])
      ensures d == 0 ==> Target(m, m[k]).None?
    {
      KeyInvariant(m, m', k, d);
    }
  }

  lemma FinishedIsMeaning(tokens: TokenMap, now: TokenMap)
    requires Faithful(tokens, now) && !SomeLive(now)
    ensures forall k :: k in tokens ==> now[k] == Meaning(tokens, tokens[k])
  {
    forall k | k in tokens ensures now[k] == Meaning(tokens, tokens[k]) {
      assert Hops(now, now[k], 0) == now[k];
      MeaningIs(now, now[k], 0);
    }
  }

  /** The outer loop. On an acyclic map it stops, and every key then holds the value its
      chain leads to; the enumeration order does not occur in the result. `run` records
      the map each pass started from. */
  method ResolveRefs(tokens: TokenMap, order: seq<string>) returns (resolved: TokenMap, ghost run: seq<TokenMap>)
    requires IsOrder(order, tokens) && Acyclic(tokens)
    ensures IsRun(run) && |run| > 0 && run[0] == tokens
    ensures AllEnd(tokens) && resolved.Keys == tokens.Keys
    ensures forall k :: k in tokens ==> resolved[k] == Meaning(tokens, tokens[k])
  {
    hide Acyclic, AllEnd, Within, Faithful, SomeLive;
    resolved := tokens;
    var changed := true;
    run := [];
    ghost var d := Start(tokens);
    while changed
      invariant changed ==> IsRun(run + [resolved])
      invariant IsRun(run) && (changed || |run| > 0) && (run + [resolved])[0] == tokens
      invariant resolved.Keys == tokens.Keys
      invariant Faithful(tokens, resolved) && Within(resolved, d)
      invariant !changed ==> !SomeLive(resolved)
      decreases d + if changed then 1 else 0
    {
      ghost var before := resolved;
      SameOrder(order, tokens, before);
      resolved, changed := Pass(resolved, order);
      PassInvariant(tokens, before, resolved, d);
      d := d / 2;
      run := run + [before];
    }
    FinishedIsMeaning(tokens, resolved);
  }

  lemma Start(tokens: TokenMap) returns (d: nat)
    requires Acyclic(tokens)
    ensures AllEnd(tokens) && Faithful(tokens, tokens) && Within(tokens, d)
  {
    AllEndIffAcyclic(tokens);
    d := UniformBound(tokens, tokens.Keys);
  }

  lemma SameOrder(order: seq<string>, m: TokenMap, m': TokenMap)
    requires IsOrder(order, m) && m'.Keys == m.Keys
    ensures IsOrder(order, m')
  {
    assert forall k :: k in m' <==> k in m.Keys;
  }

  // ----- what counts as a reference

  /** A value is a reference exactly when it is a name in braces, the name being non-empty and free
      of closing braces; dots and anything else may stand in it. */
  lemma ReferenceIff(v: Value, name: string)
    ensures ReferenceIn(v) == Some(name) <==> v == Str("{" + name + "}") && name != "" && '}' !in name
  {
    match v
    case Number(_) =>
    case Str(s) =>
      var t := "{" + name + "}";
      assert t[0] == '{' && t[|t| - 1] == '}' && t[1..|t| - 1] == name;
      if |s| >= 3 && s[0] == '{' && s[|s| - 1] == '}' {
        assert s == "{" + s[1..|s| - 1] + "}";
      }
  }

  /** A dotted reference to a colour is resolved to it. */
  method DottedReference() returns (resolved: TokenMap)
    ensures resolved == map["color.primary" := Str("#3366ff"), "color.blue" := Str("#3366ff")]
  {
    var tokens := map["color.primary" := Str("{color.blue}"), "color.blue" := Str("#3366ff")];
    assert "color.primary"[6] != "color.blue"[6];
    DottedChain(tokens);
    var order := ["color.primary", "color.blue"];
    assert IsOrder(order, tokens) by {
      assert order[0] == "color.primary" && order[1] == "color.blue";
    }
    ghost var run;
    resolved, run := ResolveRefs(tokens, order);
    assert resolved.Keys == tokens.Keys == {"color.primary", "color.blue"};
  }

  lemma DottedChain(tokens: TokenMap)
    requires tokens == map["color.primary" := Str("{color.blue}"), "color.blue" := Str("#3366ff")]
    requires "color.primary" != "color.blue"
    ensures Acyclic(tokens) && AllEnd(tokens)
    ensures Meaning(tokens, tokens["color.primary"]) == Str("#3366ff")
    ensures Meaning(tokens, tokens["color.blue"]) == Str("#3366ff")
  {
    var blue := Str("#3366ff");
    ReferenceIff(Str("{color.blue}"), "color.blue");
    var text := "{color.blue}";
    assert text[1..11] == "color.blue" && text == "{" + text[1..11] + "}";
    assert Target(tokens, blue).None? by { assert "#3366ff"[0] != '{'; }
    assert Hops(tokens, blue, 0) == blue;
    assert EndsWithin(tokens, blue, 0);
    MeaningIs(tokens, blue, 0);
    assert Hop(tokens, Str("{color.blue}")) == blue;
    assert Hops(tokens, Str("{color.blue}"), 1) == blue;
    assert EndsWithin(tokens, Str("{color.blue}"), 1);
    MeaningIs(tokens, Str("{color.blue}"), 1);
    AllEndIffAcyclic(tokens);
  }
}
