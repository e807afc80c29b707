/** JSON values as src/core/json.c keeps them (objects are pair lists), and reading, setting
    and removing at a path, with the laws that tie the three together. */
module ConfigTree {
  import opened Wrappers

  datatype Json =
    | Null
    | Bool(b: bool)
    | Number(n: real)
    | String(s: string)
    | Array(items: seq<Json>)
    | Object(pairs: seq<Pair>)

  datatype Pair = Pair(key: string, value: Json)

  const EMPTY := Object([])

  // ----- one object

  /** The first pair with the key. */
  function PairsGet(pairs: seq<Pair>, key: string): Option<Json> {
    if pairs == [] then None
    else if pairs[0].key == key then Some(pairs[0].value)
    else PairsGet(pairs[1..], key)
  }

  /** Replaces the value of the first pair with the key, or appends a pair. */
  function PairsSet(pairs: seq<Pair>, key: string, value: Json): (r: seq<Pair>)
    ensures |r| >= 1
  {
    if pairs == [] then [Pair(key, value)]
    else if pairs[0].key == key then [Pair(key, value)] + pairs[1..]
    else [pairs[0]] + PairsSet(pairs[1..], key, value)
  }

  function PairsIndex(pairs: seq<Pair>, key: string): (i: nat)
    ensures i <= |pairs|
    ensures forall k :: 0 <= k < i ==> pairs[k].key != key
    ensures i < |pairs| ==> pairs[i].key == key
  {
    if pairs == [] || pairs[0].key == key then 0 else 1 + PairsIndex(pairs[1..], key)
  }

  /** The last pair takes the place of the first one with the key. */
  function PairsRemove(pairs: seq<Pair>, key: string): seq<Pair> {
    var i := PairsIndex(pairs, key);
    if i == |pairs| then pairs
    else pairs[i := pairs[|pairs| - 1]][..|pairs| - 1]
  }

  /** sc_json_object_get: missing on anything that is not an object. */
  function Get(j: Json, key: string): Option<Json> {
    if j.Object? then PairsGet(j.pairs, key) else None
  }

  function Set(j: Json, key: string, value: Json): (r: Json)
    requires j.Object?
    ensures r.Object?
  {
    Object(PairsSet(j.pairs, key, value))
  }

  function Remove(j: Json, key: string): (r: Json)
    requires j.Object?
    ensures r.Object?
  {
    Object(PairsRemove(j.pairs, key))
  }

  ghost predicate DistinctKeys(pairs: seq<Pair>) {
    forall i, k :: 0 <= i < k < |pairs| ==> pairs[i].key != pairs[k].key
  }

  /** No object anywhere holds a key twice; the parser and all operations keep it so. */
  ghost predicate WellFormed(j: Json) {
    match j
    case Array(items) => forall i :: 0 <= i < |items| ==> WellFormed(items[i])
    case Object(pairs) => DistinctKeys(pairs) && forall i :: 0 <= i < |pairs| ==> WellFormed(pairs[i].value)
    case _ => true
  }

  lemma {:induction false} PairsGetIs(pairs: seq<Pair>, key: string)
    ensures var i := PairsIndex(pairs, key);
            PairsGet(pairs, key) == if i < |pairs| then Some(pairs[i].value) else None
  {
    if pairs != [] && pairs[0].key != key { PairsGetIs(pairs[1..], key); }
  }

  lemma PairsIndexIs(pairs: seq<Pair>, key: string, i: nat)
    requires DistinctKeys(pairs) && i < |pairs| && pairs[i].key == key
    ensures PairsIndex(pairs, key) == i
  {
  }

  lemma {:induction false} GetSet(pairs: seq<Pair>, key: string, value: Json, other: string)
    ensures PairsGet(PairsSet(pairs, key, value), other) ==
            if other == key then Some(value) else PairsGet(pairs, other)
  {
    if pairs != [] && pairs[0].key != key { GetSet(pairs[1..], key, value, other); }
  }

  lemma {:induction false} SetSet(pairs: seq<Pair>, key: string, v: Json, w: Json)
    ensures PairsSet(PairsSet(pairs, key, v), key, w) == PairsSet(pairs, key, w)
  {
    if pairs != [] && pairs[0].key != key { SetSet(pairs[1..], key, v, w); }
  }

  lemma {:induction false} SetGot(pairs: seq<Pair>, key: string)
    requires PairsGet(pairs, key).Some?
    ensures PairsSet(pairs, key, PairsGet(pairs, key).value) == pairs
  {
    if pairs[0].key != key { SetGot(pairs[1..], key); }
  }

  lemma {:induction false} SetIs(pairs: seq<Pair>, key: string, value: Json)
    ensures var i := PairsIndex(pairs, key);
            PairsSet(pairs, key, value) ==
            if i < |pairs| then pairs[i := Pair(key, value)] else pairs + [Pair(key, value)]
  {
    if pairs != [] && pairs[0].key != key {
      SetIs(pairs[1..], key, value);
      var i, rest := PairsIndex(pairs[1..], key), pairs[1..];
      assert [pairs[0]] + (rest + [Pair(key, value)]) == pairs + [Pair(key, value)];
      assert i < |rest| ==> [pairs[0]] + rest[i := Pair(key, value)] == pairs[i + 1 := Pair(key, value)];
    }
  }

  lemma GetRemove(pairs: seq<Pair>, key: string, other: string)
    requires DistinctKeys(pairs)
    ensures PairsGet(PairsRemove(pairs, key), other) == if other == key then None else PairsGet(pairs, other)
    ensures DistinctKeys(PairsRemove(pairs, key))
  {
    var i, r := PairsIndex(pairs, key), PairsRemove(pairs, key);
    PairsGetIs(pairs, other);
    PairsGetIs(r, other);
    if i < |pairs| {
      var n := |pairs| - 1;
      assert forall k :: 0 <= k < n ==> r[k] == if k == i then pairs[n] else pairs[k];
      var at := PairsIndex(pairs, other);
      if other != key && at < |pairs| {
        PairsIndexIs(r, other, if at == n then i else at);
      }
    }
  }

  lemma RemoveUndoesAppend(pairs: seq<Pair>, key: string, value: Json)
    requires PairsGet(pairs, key).None?
    ensures PairsRemove(PairsSet(pairs, key, value), key) == pairs
  {
    PairsGetIs(pairs, key);
    SetIs(pairs, key, value);
    var more := pairs + [Pair(key, value)];
    assert PairsIndex(more, key) == |pairs| by {
      assert forall k :: 0 <= k < |pairs| ==> more[k] == pairs[k];
    }
  }

  lemma {:induction false} GottenIsWellFormed(pairs: seq<Pair>, key: string)
    requires WellFormed(Object(pairs)) && PairsGet(pairs, key).Some?
    ensures WellFormed(PairsGet(pairs, key).value)
  {
    PairsGetIs(pairs, key);
  }

  lemma SetIsWellFormed(pairs: seq<Pair>, key: string, value: Json)
    requires WellFormed(Object(pairs)) && WellFormed(value)
    ensures WellFormed(Object(PairsSet(pairs, key, value)))
  {
    hide PairsSet, PairsIndex;
    SetIs(pairs, key, value);
    var i, r := PairsIndex(pairs, key), PairsSet(pairs, key, value);
    assert forall k :: 0 <= k < |r| ==> r[k] == if k == i then Pair(key, value) else pairs[k];
  }

  lemma RemoveIsWellFormed(pairs: seq<Pair>, key: string)
    requires WellFormed(Object(pairs))
    ensures WellFormed(Object(PairsRemove(pairs, key)))
  {
    GetRemove(pairs, key, key);
  }

  // ----- paths

  type Path = seq<string>

  /** value_at_path. */
  function At(root: Json, path: Path): Option<Json>
    decreases |path|
  {
    if path == [] then Some(root)
    else
      var child := Get(root, path[0]);
      if child.None? then None else At(child.value, path[1..])
  }

  /** Setting, creating the objects that are missing on the way; None when the way is blocked. */
  function SetAt(root: Json, path: Path, value: Json): Option<Json>
    requires path != []
    decreases |path|
  {
    if !root.Object? then None
    else if |path| == 1 then Some(Set(root, path[0], value))
    else
      var child := Get(root, path[0]);
      var below := SetAt(if child.Some? then child.value else EMPTY, path[1..], value);
      if below.None? then None else Some(Set(root, path[0], below.value))
  }

  function RemoveAt(root: Json, path: Path): Json
    requires path != []
    decreases |path|
  {
    if !root.Object? then root
    else if |path| == 1 then Remove(root, path[0])
    else
      var child := Get(root, path[0]);
      if child.None? then root else Set(root, path[0], RemoveAt(child.value, path[1..]))
  }

  /** Something other than an object stands on a proper prefix of the path. */
  ghost predicate Blocked(root: Json, path: Path) {
    exists i :: 0 <= i < |path| && At(root, path[..i]).Some? && !At(root, path[..i]).value.Object?
  }

  lemma BlockedBelow(root: Json, path: Path)
    requires path != [] && root.Object?
    ensures var child := Get(root, path[0]);
            Blocked(root, path) <==> |path| > 1 && child.Some? && Blocked(child.value, path[1..])
  {
    var child := Get(root, path[0]);
    assert path[..0] == [];
    assert forall i :: 1 <= i <= |path| ==> path[..i][0] == path[0] && path[..i][1..] == path[1..][..i - 1];
    if child.Some? && Blocked(child.value, path[1..]) {
      var i :| 0 <= i < |path[1..]| && At(child.value, path[1..][..i]).Some? &&
               !At(child.value, path[1..][..i]).value.Object?;
      assert path[..i + 1][1..] == path[1..][..i];
      assert At(root, path[..i + 1]) == At(child.value, path[1..][..i]);
    }
  }

  lemma NothingBlockedBelowEmpty(path: Path)
    ensures !Blocked(EMPTY, path)
  {
    forall i | 0 <= i < |path| ensures At(EMPTY, path[..i]).Some? ==> At(EMPTY, path[..i]).value.Object? {}
  }

  /** Setting fails exactly when the way is blocked. */
  lemma {:induction false} SetFailsIffBlocked(root: Json, path: Path, value: Json)
    requires path != []
    ensures SetAt(root, path, value).None? <==> Blocked(root, path)
    decreases |path|
  {
    if !root.Object? {
      assert At(root, path[..0]) == Some(root);
    } else {
      BlockedBelow(root, path);
      if |path| > 1 {
        var child := Get(root, path[0]);
        SetFailsIffBlocked(if child.Some? then child.value else EMPTY, path[1..], value);
        NothingBlockedBelowEmpty(path[1..]);
      }
    }
  }

  /** What was set is read back, and below it the new value is read. */
  lemma {:induction false} ReadSet(root: Json, path: Path, value: Json, rest: Path)
    requires path != [] && SetAt(root, path, value).Some?
    ensures At(SetAt(root, path, value).value, path + rest) == At(value, rest)
    decreases |path|
  {
    var root' := SetAt(root, path, value).value;
    assert (path + rest)[1..] == path[1..] + rest;
    if |path| == 1 {
      GetSet(root.pairs, path[0], value, path[0]);
      assert path[1..] + rest == rest;
    } else {
      var child := Get(root, path[0]);
      var below := if child.Some? then child.value else EMPTY;
      ReadSet(below, path[1..], value, rest);
      GetSet(root.pairs, path[0], SetAt(below, path[1..], value).value, path[0]);
    }
  }

  ghost predicate Apart(p: Path, q: Path) {
    !(p <= q) && !(q <= p)
  }

  lemma ApartBelow(p: Path, q: Path)
    requires Apart(p, q) && p[0] == q[0]
    ensures |p| > 1 && |q| > 1 && Apart(p[1..], q[1..])
  {
    assert p == [p[0]] + p[1..] && q == [q[0]] + q[1..];
    assert (p[1..] <= q[1..] ==> p <= q) && (q[1..] <= p[1..] ==> q <= p);
  }

  lemma {:induction false} ReadBelowEmpty(path: Path)
    requires path != []
    ensures At(EMPTY, path) == None
  {
  }

  /** Frame: a path that is neither a prefix nor an extension reads as before, even when
      objects had to be created. */
  lemma {:induction false} SetFrame(root: Json, path: Path, value: Json, q: Path)
    requires path != [] && SetAt(root, path, value).Some? && Apart(path, q)
    ensures At(SetAt(root, path, value).value, q) == At(root, q)
    decreases |path|
  {
    assert q != [];
    if |path| == 1 {
      assert q[0] != path[0] by { if q[0] == path[0] { ApartBelow(path, q); } }
      GetSet(root.pairs, path[0], value, q[0]);
    } else {
      var child := Get(root, path[0]);
      var below := if child.Some? then child.value else EMPTY;
      GetSet(root.pairs, path[0], SetAt(below, path[1..], value).value, q[0]);
      if q[0] == path[0] {
        ApartBelow(path, q);
        SetFrame(below, path[1..], value, q[1..]);
        ReadBelowEmpty(q[1..]);
      }
    }
  }

  /** A second set on the same path overrides the first. */
  lemma {:induction false} SetTwice(root: Json, path: Path, v: Json, w: Json)
    requires path != [] && SetAt(root, path, v).Some?
    ensures SetAt(SetAt(root, path, v).value, path, w) == SetAt(root, path, w)
    decreases |path|
  {
    if |path| == 1 {
      SetSet(root.pairs, path[0], v, w);
    } else {
      var child := Get(root, path[0]);
      var below := if child.Some? then child.value else EMPTY;
      var below' := SetAt(below, path[1..], v).value;
      GetSet(root.pairs, path[0], below', path[0]);
      SetTwice(below, path[1..], v, w);
      var w' := SetAt(below, path[1..], w);
      if w'.Some? { SetSet(root.pairs, path[0], below', w'.value); }
    }
  }

  /** Setting what is already there changes nothing. */
  lemma {:induction false} SetWhatIsThere(root: Json, path: Path)
    requires path != [] && At(root, path).Some?
    ensures SetAt(root, path, At(root, path).value) == Some(root)
    decreases |path|
  {
    SetGot(root.pairs, path[0]);
    if |path| > 1 { SetWhatIsThere(Get(root, path[0]).value, path[1..]); }
  }

  lemma {:induction false} SetKeepsWellFormed(root: Json, path: Path, value: Json)
    requires path != [] && WellFormed(root) && WellFormed(value) && SetAt(root, path, value).Some?
    ensures WellFormed(SetAt(root, path, value).value)
    decreases |path|
  {
    if |path| == 1 {
      SetIsWellFormed(root.pairs, path[0], value);
    } else {
      var child := Get(root, path[0]);
      if child.Some? { GottenIsWellFormed(root.pairs, path[0]); }
      var below := if child.Some? then child.value else EMPTY;
      SetKeepsWellFormed(below, path[1..], value);
      SetIsWellFormed(root.pairs, path[0], SetAt(below, path[1..], value).value);
    }
  }

  /** A removed path is missing, and with it everything below. */
  lemma {:induction false} ReadRemoved(root: Json, path: Path, rest: Path)
    requires path != [] && WellFormed(root)
    ensures At(RemoveAt(root, path), path + rest) == None
    ensures WellFormed(RemoveAt(root, path))
    decreases |path|
  {
    assert (path + rest)[1..] == path[1..] + rest;
    if root.Object? {
      if |path| == 1 {
        GetRemove(root.pairs, path[0], path[0]);
        RemoveIsWellFormed(root.pairs, path[0]);
      } else {
        var child := Get(root, path[0]);
        if child.Some? {
          GottenIsWellFormed(root.pairs, path[0]);
          ReadRemoved(child.value, path[1..], rest);
          GetSet(root.pairs, path[0], RemoveAt(child.value, path[1..]), path[0]);
          SetIsWellFormed(root.pairs, path[0], RemoveAt(child.value, path[1..]));
        }
      }
    }
  }

  /** Frame of a removal, although it may reorder the pairs of one object. */
  lemma {:induction false} RemoveFrame(root: Json, path: Path, q: Path)
    requires path != [] && WellFormed(root) && Apart(path, q)
    ensures At(RemoveAt(root, path), q) == At(root, q)
    decreases |path|
  {
    assert q != [];
    if root.Object? {
      if |path| == 1 {
        assert q[0] != path[0] by { if q[0] == path[0] { ApartBelow(path, q); } }
        GetRemove(root.pairs, path[0], q[0]);
      } else {
        var child := Get(root, path[0]);
        if child.Some? {
          GottenIsWellFormed(root.pairs, path[0]);
          GetSet(root.pairs, path[0], RemoveAt(child.value, path[1..]), q[0]);
          if q[0] == path[0] {
            ApartBelow(path, q);
            RemoveFrame(child.value, path[1..], q[1..]);
          }
        }
      }
    }
  }

  /** Removing a missing path changes nothing at all. */
  lemma {:induction false} RemoveMissing(root: Json, path: Path)
    requires path != [] && At(root, path).None?
    ensures RemoveAt(root, path) == root
    decreases |path|
  {
    if root.Object? {
      if |path| == 1 {
        PairsGetIs(root.pairs, path[0]);
        assert path[1..] == [];
      } else if Get(root, path[0]).Some? {
        RemoveMissing(Get(root, path[0]).value, path[1..]);
        SetGot(root.pairs, path[0]);
      }
    }
  }

  /** Removing a path just set gives the tree back, pair order included, when the path was
      missing and its parent was already there. */
  lemma {:induction false} RemoveUndoesSet(root: Json, path: Path, value: Json)
    requires path != [] && At(root, path).None? && At(root, path[..|path| - 1]).Some?
    requires SetAt(root, path, value).Some?
    ensures RemoveAt(SetAt(root, path, value).value, path) == root
    decreases |path|
  {
    if |path| == 1 {
      assert path[1..] == [];
      RemoveUndoesAppend(root.pairs, path[0], value);
    } else {
      assert path[..|path| - 1][0] == path[0] && path[..|path| - 1][1..] == path[1..][..|path[1..]| - 1];
      var child := Get(root, path[0]);
      RemoveUndoesSet(child.value, path[1..], value);
      var below := SetAt(child.value, path[1..], value).value;
      GetSet(root.pairs, path[0], below, path[0]);
      SetSet(root.pairs, path[0], below, child.value);
      SetGot(root.pairs, path[0]);
    }
  }

  // ----- the order of the pairs

  /** A set leaves the pairs in their order and puts a new one last. */
  lemma SetKeepsOrder(pairs: seq<Pair>, key: string, value: Json)
    requires DistinctKeys(pairs)
    ensures (forall k :: 0 <= k < |pairs| ==> pairs[k].key != key) ==>
              PairsSet(pairs, key, value) == pairs + [Pair(key, value)]
    ensures forall i :: 0 <= i < |pairs| && pairs[i].key == key ==>
              PairsSet(pairs, key, value) == pairs[i := Pair(key, value)]
  {
    hide PairsSet;
    SetIs(pairs, key, value);
    forall i | 0 <= i < |pairs| && pairs[i].key == key ensures PairsIndex(pairs, key) == i {
      PairsIndexIs(pairs, key, i);
    }
  }

  /** A removal puts the last pair in the place of the one removed. */
  lemma RemoveMovesLast(pairs: seq<Pair>, key: string, i: nat)
    requires DistinctKeys(pairs) && i < |pairs| && pairs[i].key == key
    ensures PairsRemove(pairs, key) ==
            if i == |pairs| - 1 then pairs[..i]
            else pairs[..i] + [pairs[|pairs| - 1]] + pairs[i + 1..|pairs| - 1]
  {
    PairsIndexIs(pairs, key, i);
  }
}
