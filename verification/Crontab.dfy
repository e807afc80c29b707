/** Loading and removing crontab entries (src/crontab.c), with the ownership of every string:
    a block can only be read or freed while it is allocated, so nothing is freed twice. */
module Crontab {
  import opened Wrappers

  type Ptr = nat

  /** The allocator: the text held by each allocated block. An allocation may fail. */
  class Heap {
    var live: map<Ptr, string>
    var next: Ptr

    ghost predicate Valid()
      reads this
    {
      forall p :: p in live ==> p < next
    }

    constructor ()
      ensures Valid() && live == map[]
    {
      live, next := map[], 0;
    }

    /** sc_strndup; `fails` says that memory has run out. */
    method Strndup(text: string, fails: bool) returns (p: Option<Ptr>)
      requires Valid()
      modifies this
      ensures Valid() && old(next) <= next
      ensures fails ==> p.None? && live == old(live)
      ensures !fails ==> p.Some? && old(next) <= p.value < next && live == old(live)[p.value := text]
    {
      if fails { return None; }
      p := Some(next);
      live := live[next := text];
      next := next + 1;
    }

    method Free(p: Ptr)
      requires Valid() && p in live
      modifies this
      ensures Valid() && next == old(next) && live == old(live) - {p}
    {
      live := live - {p};
    }
  }

  /** The struct: three owned strings, null when absent. */
  datatype Entry = Entry(id: Option<Ptr>, schedule: Option<Ptr>, command: Option<Ptr>, enabled: bool)

  const ZERO := Entry(None, None, None, false)

  /** What an entry says, apart from where its strings live. */
  datatype Row = Row(id: string, schedule: string, command: string, enabled: bool)

  function OwnedBy(e: Entry): set<Ptr> {
    (if e.id.Some? then {e.id.value} else {}) +
    (if e.schedule.Some? then {e.schedule.value} else {}) +
    (if e.command.Some? then {e.command.value} else {})
  }

  function OwnedByAll(es: seq<Entry>): set<Ptr> {
    set i, p | 0 <= i < |es| && p in OwnedBy(es[i]) :: p
  }

  /** The strings that are there are allocated and different. */
  ghost predicate Owned(e: Entry, live: map<Ptr, string>) {
    && OwnedBy(e) <= live.Keys
    && (e.id.Some? ==> e.id != e.schedule && e.id != e.command)
    && (e.schedule.Some? ==> e.schedule != e.command)
  }

  ghost predicate Complete(e: Entry, live: map<Ptr, string>) {
    e.id.Some? && e.schedule.Some? && e.command.Some? && Owned(e, live)
  }

  /** No string belongs to two entries. */
  ghost predicate Separate(es: seq<Entry>) {
    forall i, j :: 0 <= i < j < |es| ==> OwnedBy(es[i]) !! OwnedBy(es[j])
  }

  ghost predicate AllComplete(es: seq<Entry>, live: map<Ptr, string>) {
    Separate(es) && forall i :: 0 <= i < |es| ==> Complete(es[i], live)
  }

  function RowOf(e: Entry, live: map<Ptr, string>): Row
    requires Complete(e, live)
  {
    Row(live[e.id.value], live[e.schedule.value], live[e.command.value], e.enabled)
  }

  ghost predicate Holds(es: seq<Entry>, live: map<Ptr, string>, rows: seq<Row>) {
    AllComplete(es, live) && |rows| == |es| && forall i :: 0 <= i < |es| ==> RowOf(es[i], live) == rows[i]
  }

  /** free_entry: null strings are passed over. */
  method FreeEntry(heap: Heap, e: Entry)
    requires heap.Valid() && Owned(e, heap.live)
    modifies heap
    ensures heap.Valid() && heap.next == old(heap.next) && heap.live == old(heap.live) - OwnedBy(e)
  {
    if e.id.Some? { heap.Free(e.id.value); }
    if e.schedule.Some? { heap.Free(e.schedule.value); }
    if e.command.Some? { heap.Free(e.command.value); }
    assert heap.live == old(heap.live) - OwnedBy(e);
  }

  /** Entries that share no string with what is freed keep their rows. */
  lemma HoldsAfterFree(es: seq<Entry>, live: map<Ptr, string>, rows: seq<Row>, freed: set<Ptr>)
    requires Holds(es, live, rows) && OwnedByAll(es) !! freed
    ensures Holds(es, live - freed, rows)
  {
    forall i | 0 <= i < |es| ensures Complete(es[i], live - freed) && RowOf(es[i], live - freed) == rows[i] {
      assert forall p :: p in OwnedBy(es[i]) ==> p in OwnedByAll(es);
    }
  }

  function Without(rows: seq<Row>, id: string): (r: seq<Row>)
    ensures forall x :: x in r <==> x in rows && x.id != id
  {
    if rows == [] then []
    else if rows[|rows| - 1].id == id then Without(rows[..|rows| - 1], id)
    else Without(rows[..|rows| - 1], id) + [rows[|rows| - 1]]
  }

  /** The two-index loop: `kept` entries at the front, the rest from i on not yet looked at. */
  ghost predicate Compacting(entries: seq<Entry>, loaded: seq<Entry>, live: map<Ptr, string>, rows: seq<Row>,
                             id: string, i: nat, j: nat)
  {
    && j <= i <= |loaded| == |entries| == |rows|
    && entries[i..] == loaded[i..]
    && Holds(entries[..j], live, Without(rows[..i], id))
    && Holds(loaded[i..], live, rows[i..])
    && OwnedByAll(entries[..j]) !! OwnedByAll(loaded[i..])
  }

  lemma OwnedByAllSplit(es: seq<Entry>)
    requires es != []
    ensures OwnedByAll(es) == OwnedBy(es[0]) + OwnedByAll(es[1..])
  {
    assert forall k :: 0 <= k < |es[1..]| ==> es[1..][k] == es[k + 1];
    forall p | p in OwnedByAll(es) ensures p in OwnedBy(es[0]) + OwnedByAll(es[1..]) {
      var k :| 0 <= k < |es| && p in OwnedBy(es[k]);
      if k > 0 { assert p in OwnedBy(es[1..][k - 1]); }
    }
    forall p | p in OwnedByAll(es[1..]) ensures p in OwnedByAll(es) {
      var k :| 0 <= k < |es[1..]| && p in OwnedBy(es[1..][k]);
      assert p in OwnedBy(es[k + 1]);
    }
    assert forall p :: p in OwnedBy(es[0]) ==> p in OwnedByAll(es);
  }

  lemma OwnedByAllAppend(es: seq<Entry>, e: Entry)
    ensures OwnedByAll(es + [e]) == OwnedByAll(es) + OwnedBy(e)
  {
    var more := es + [e];
    forall p | p in OwnedByAll(more) ensures p in OwnedByAll(es) + OwnedBy(e) {
      var k :| 0 <= k < |more| && p in OwnedBy(more[k]);
      if k < |es| { assert p in OwnedBy(es[k]); }
    }
    forall p | p in OwnedByAll(es) ensures p in OwnedByAll(more) {
      var k :| 0 <= k < |es| && p in OwnedBy(es[k]);
      assert p in OwnedBy(more[k]);
    }
    assert more[|es|] == e;
    assert forall p :: p in OwnedBy(e) ==> p in OwnedBy(more[|es|]);
  }

  lemma HoldsTail(es: seq<Entry>, live: map<Ptr, string>, rows: seq<Row>)
    requires es != [] && Holds(es, live, rows)
    ensures Holds(es[1..], live, rows[1..])
    ensures Complete(es[0], live) && RowOf(es[0], live) == rows[0]
    ensures OwnedBy(es[0]) !! OwnedByAll(es[1..])
  {
    assert forall k :: 0 <= k < |es[1..]| ==> es[1..][k] == es[k + 1];
    forall p | p in OwnedByAll(es[1..]) ensures p !in OwnedBy(es[0]) {
      var k :| 0 <= k < |es[1..]| && p in OwnedBy(es[1..][k]);
      assert OwnedBy(es[0]) !! OwnedBy(es[k + 1]);
    }
  }

  lemma HoldsAppend(es: seq<Entry>, live: map<Ptr, string>, rows: seq<Row>, e: Entry)
    requires Holds(es, live, rows) && Complete(e, live) && OwnedByAll(es) !! OwnedBy(e)
    ensures Holds(es + [e], live, rows + [RowOf(e, live)])
  {
    forall k | 0 <= k < |es| ensures OwnedBy(es[k]) !! OwnedBy(e) {
      assert forall p :: p in OwnedBy(es[k]) ==> p in OwnedByAll(es);
    }
  }

  lemma WithoutStep(rows: seq<Row>, id: string, i: nat)
    requires i < |rows|
    ensures Without(rows[..i + 1], id) ==
            if rows[i].id == id then Without(rows[..i], id) else Without(rows[..i], id) + [rows[i]]
  {
    assert rows[..i + 1][..i] == rows[..i];
  }

  /** The first loop of sc_crontab_remove. Moves leave stale copies behind position j; they
      are never read again. `rest` is everything allocated besides the entries' strings. */
  method Compact(heap: Heap, entries: array<Entry>, count: nat, id: string, ghost rows: seq<Row>,
                 ghost rest: map<Ptr, string>) returns (j: nat)
    requires heap.Valid() && count <= entries.Length && Holds(entries[..count], heap.live, rows)
    requires heap.live - OwnedByAll(entries[..count]) == rest
    modifies heap, entries
    ensures heap.Valid() && j <= count && Holds(entries[..j], heap.live, Without(rows, id))
    ensures heap.live - OwnedByAll(entries[..j]) == rest
  {
    hide Holds, OwnedByAll, Without, Compacting;
    ghost var loaded := entries[..count];
    var i := 0;
    j := 0;
    StartCompacting(loaded, heap.live, rows, id);
    assert loaded[0..] == loaded && loaded[..0] == [];
    while i < count
      invariant heap.Valid() && 0 <= j <= i <= count
      invariant Compacting(entries[..count], loaded, heap.live, rows, id, i, j)
      invariant Accounted(entries[..count], loaded, heap.live, rest, i, j)
    {
      ghost var now := entries[..count];
      EntryAt(now, loaded, heap.live, rows, id, i, j);
      var e := entries[i];
      if heap.live[e.id.value] == id {
        DropEntry(now, loaded, heap.live, rows, id, i, j, rest);
        FreeEntry(heap, e);
        entries[i] := ZERO;
        assert entries[..count] == now[i := ZERO];
      } else {
        KeepEntry(now, loaded, heap.live, rows, id, i, j, rest);
        if j != i {
          entries[j] := entries[i];
        }
        j := j + 1;
        assert entries[..count] == now[j - 1 := e];
      }
      i := i + 1;
    }
    assert entries[..count][..j] == entries[..j];
    DoneCompacting(entries[..count], loaded, heap.live, rows, id, j, rest);
  }

  /** The strings allocated are those of the kept entries, those still to look at, and the rest. */
  ghost predicate Accounted(entries: seq<Entry>, loaded: seq<Entry>, live: map<Ptr, string>, rest: map<Ptr, string>,
                            i: nat, j: nat)
  {
    j <= |entries| && i <= |loaded| && live - OwnedByAll(entries[..j]) - OwnedByAll(loaded[i..]) == rest
  }

  lemma StartCompacting(loaded: seq<Entry>, live: map<Ptr, string>, rows: seq<Row>, id: string)
    requires Holds(loaded, live, rows)
    ensures Compacting(loaded, loaded, live, rows, id, 0, 0)
    ensures OwnedByAll([]) == {}
  {
    assert loaded[0..] == loaded && rows[0..] == rows && loaded[..0] == [] && rows[..0] == [];
  }

  lemma EntryAt(entries: seq<Entry>, loaded: seq<Entry>, live: map<Ptr, string>, rows: seq<Row>, id: string,
                i: nat, j: nat)
    requires Compacting(entries, loaded, live, rows, id, i, j) && i < |loaded|
    ensures |entries| == |loaded| == |rows| && entries[i] == loaded[i]
    ensures Complete(loaded[i], live) && live[loaded[i].id.value] == rows[i].id
  {
    assert entries[i] == entries[i..][0] == loaded[i..][0];
    HoldsTail(loaded[i..], live, rows[i..]);
  }

  lemma DropEntry(entries: seq<Entry>, loaded: seq<Entry>, live: map<Ptr, string>, rows: seq<Row>, id: string,
                  i: nat, j: nat, rest: map<Ptr, string>)
    requires Compacting(entries, loaded, live, rows, id, i, j) && i < |loaded| && rows[i].id == id
    requires Accounted(entries, loaded, live, rest, i, j)
    ensures var live' := live - OwnedBy(loaded[i]);
            && Compacting(entries[i := ZERO], loaded, live', rows, id, i + 1, j)
            && Accounted(entries[i := ZERO], loaded, live', rest, i + 1, j)
  {
    hide Holds, OwnedByAll, Without;
    HoldsTail(loaded[i..], live, rows[i..]);
    OwnedByAllSplit(loaded[i..]);
    assert loaded[i..][1..] == loaded[i + 1..] && rows[i..][1..] == rows[i + 1..];
    WithoutStep(rows, id, i);
    HoldsAfterFree(entries[..j], live, Without(rows[..i], id), OwnedBy(loaded[i]));
    HoldsAfterFree(loaded[i + 1..], live, rows[i + 1..], OwnedBy(loaded[i]));
    assert live - OwnedBy(loaded[i]) - OwnedByAll(entries[..j]) - OwnedByAll(loaded[i + 1..]) ==
           live - OwnedByAll(entries[..j]) - OwnedByAll(loaded[i..]);
    assert entries[i := ZERO][..j] == entries[..j];
    assert entries[i := ZERO][i + 1..] == entries[i..][1..];
  }

  lemma KeepEntry(entries: seq<Entry>, loaded: seq<Entry>, live: map<Ptr, string>, rows: seq<Row>, id: string,
                  i: nat, j: nat, rest: map<Ptr, string>)
    requires Compacting(entries, loaded, live, rows, id, i, j) && i < |loaded| && rows[i].id != id
    requires Accounted(entries, loaded, live, rest, i, j)
    ensures Compacting(entries[j := loaded[i]], loaded, live, rows, id, i + 1, j + 1)
    ensures Accounted(entries[j := loaded[i]], loaded, live, rest, i + 1, j + 1)
  {
    hide Holds, OwnedByAll, Without;
    HoldsTail(loaded[i..], live, rows[i..]);
    OwnedByAllSplit(loaded[i..]);
    OwnedByAllAppend(entries[..j], loaded[i]);
    assert loaded[i..][1..] == loaded[i + 1..] && rows[i..][1..] == rows[i + 1..];
    WithoutStep(rows, id, i);
    HoldsAppend(entries[..j], live, Without(rows[..i], id), loaded[i]);
    assert entries[j := loaded[i]][..j + 1] == entries[..j] + [loaded[i]];
    assert entries[j := loaded[i]][i + 1..] == entries[i..][1..];
    KeepAccounts(entries[..j], loaded, live, i);
  }

  lemma KeepAccounts(kept: seq<Entry>, loaded: seq<Entry>, live: map<Ptr, string>, i: nat)
    requires i < |loaded|
    ensures live - OwnedByAll(kept + [loaded[i]]) - OwnedByAll(loaded[i + 1..]) ==
            live - OwnedByAll(kept) - OwnedByAll(loaded[i..])
  {
    hide OwnedByAll;
    OwnedByAllAppend(kept, loaded[i]);
    OwnedByAllSplit(loaded[i..]);
    assert loaded[i..][1..] == loaded[i + 1..];
  }

  lemma DoneCompacting(entries: seq<Entry>, loaded: seq<Entry>, live: map<Ptr, string>, rows: seq<Row>, id: string,
                       j: nat, rest: map<Ptr, string>)
    requires Compacting(entries, loaded, live, rows, id, |loaded|, j)
    requires Accounted(entries, loaded, live, rest, |loaded|, j)
    ensures Holds(entries[..j], live, Without(rows, id)) && live - OwnedByAll(entries[..j]) == rest
  {
    assert rows[..|loaded|] == rows && loaded[|loaded|..] == [];
    assert live - OwnedByAll(entries[..j]) - {} == live - OwnedByAll(entries[..j]);
  }

  /** The loop that reads the entries for saving. */
  method RowsOf(heap: Heap, entries: array<Entry>, n: nat, ghost rows: seq<Row>) returns (saved: seq<Row>)
    requires n <= entries.Length && Holds(entries[..n], heap.live, rows)
    ensures saved == rows
  {
    saved := [];
    var i := 0;
    while i < n
      invariant 0 <= i <= n && saved == rows[..i]
    {
      assert entries[i] == entries[..n][i];
      saved := saved + [RowOf(entries[i], heap.live)];
      i := i + 1;
    }
  }

  /** The freeing loop behind the save. */
  method FreeEntries(heap: Heap, entries: array<Entry>, n: nat, ghost rows: seq<Row>, ghost rest: map<Ptr, string>)
    requires heap.Valid() && n <= entries.Length && Holds(entries[..n], heap.live, rows)
    requires heap.live - OwnedByAll(entries[..n]) == rest
    modifies heap
    ensures heap.Valid() && heap.live == rest
  {
    hide OwnedByAll;
    var i := 0;
    assert |rows| == n;
    assert entries[0..n] == entries[..n] && rows[0..] == rows;
    while i < n
      invariant heap.Valid() && 0 <= i <= n <= |rows|
      invariant Holds(entries[i..n], heap.live, rows[i..])
      invariant heap.live - OwnedByAll(entries[i..n]) == rest
    {
      ghost var es := entries[i..n];
      HoldsTail(es, heap.live, rows[i..]);
      OwnedByAllSplit(es);
      assert es[1..] == entries[i + 1..n] && rows[i..][1..] == rows[i + 1..];
      HoldsAfterFree(es[1..], heap.live, rows[i + 1..], OwnedBy(es[0]));
      FreeEntry(heap, entries[i]);
      i := i + 1;
    }
    assert entries[n..n] == [];
    NothingOwned(heap.live);
  }

  lemma NothingOwned(live: map<Ptr, string>)
    ensures live - OwnedByAll([]) == live
  {
    assert OwnedByAll([]) == {};
  }

  // ----- loading

  const MAX_ENTRIES := 256

  /** The rows of the parsed array that are objects with all three strings, among the first 256,
      and for which memory lasted; `fails(i, k)` says that string k of item i could not be copied. */
  function Loadable(items: seq<Option<Row>>, n: nat, fails: (nat, nat) -> bool): seq<Row>
    requires n <= |items|
  {
    if n == 0 then []
    else if items[n - 1].None? || fails(n - 1, 0) || fails(n - 1, 1) || fails(n - 1, 2)
    then Loadable(items, n - 1, fails)
    else Loadable(items, n - 1, fails) + [items[n - 1].value]
  }

  /** Three copies; any of them may fail. */
  method CopyRow(heap: Heap, row: Row, fails0: bool, fails1: bool, fails2: bool) returns (e: Entry)
    requires heap.Valid()
    modifies heap
    ensures heap.Valid() && Owned(e, heap.live)
    ensures OwnedBy(e) !! old(heap.live).Keys && heap.live - OwnedBy(e) == old(heap.live)
    ensures e.id.Some? == !fails0 && e.schedule.Some? == !fails1 && e.command.Some? == !fails2
    ensures !fails0 && !fails1 && !fails2 ==> RowOf(e, heap.live) == row
  {
    var id := heap.Strndup(row.id, fails0);
    var schedule := heap.Strndup(row.schedule, fails1);
    var command := heap.Strndup(row.command, fails2);
    e := Entry(id, schedule, command, row.enabled);
    assert heap.live - OwnedBy(e) == old(heap.live);
  }

  /** sc_crontab_load after parsing: the slot of an item whose copies failed is used again. */
  method Load(heap: Heap, items: seq<Option<Row>>, fails: (nat, nat) -> bool)
    returns (entries: array<Entry>, count: nat, ghost rows: seq<Row>)
    requires heap.Valid()
    modifies heap
    ensures heap.Valid() && fresh(entries) && count <= entries.Length
    ensures rows == Loadable(items, if |items| > MAX_ENTRIES then MAX_ENTRIES else |items|, fails)
    ensures Holds(entries[..count], heap.live, rows)
    ensures heap.live - OwnedByAll(entries[..count]) == old(heap.live)
  {
    hide Holds, OwnedByAll, OwnedBy, Owned, Loadable, RowOf;
    var n := if |items| > MAX_ENTRIES then MAX_ENTRIES else |items|;
    entries := new Entry[n](_ => ZERO);
    ghost var base := heap.live;
    count := 0;
    rows := [];
    var i := 0;
    LoadNothing(items, heap.live, fails);
    assert entries[..0] == [];
    while i < n
      invariant heap.Valid() && 0 <= count <= i <= n
      invariant rows == Loadable(items, i, fails)
      invariant Holds(entries[..count], heap.live, rows) && OwnedByAll(entries[..count]) <= heap.live.Keys
      invariant heap.live - OwnedByAll(entries[..count]) == base
    {
      ghost var kept, live := entries[..count], heap.live;
      if items[i].Some? {
        var row := items[i].value;
        var e := CopyRow(heap, row, fails(i, 0), fails(i, 1), fails(i, 2));
        entries[count] := e;
        assert entries[..count] == kept;
        CopiesAreNew(kept, live, heap.live, rows, e, base);
        if e.id.Some? && e.schedule.Some? && e.command.Some? {
          count := count + 1;
          assert entries[..count] == kept + [e];
          rows := rows + [row];
        } else {
          FreeEntry(heap, e);
        }
      }
      LoadStep(items, i, fails);
      i := i + 1;
    }
  }

  lemma LoadNothing(items: seq<Option<Row>>, live: map<Ptr, string>, fails: (nat, nat) -> bool)
    ensures Loadable(items, 0, fails) == [] && Holds([], live, [])
    ensures OwnedByAll([]) == {} && live - OwnedByAll([]) == live
  {
  }

  lemma LoadStep(items: seq<Option<Row>>, i: nat, fails: (nat, nat) -> bool)
    requires i < |items|
    ensures Loadable(items, i + 1, fails) ==
            if items[i].None? || fails(i, 0) || fails(i, 1) || fails(i, 2) then Loadable(items, i, fails)
            else Loadable(items, i, fails) + [items[i].value]
  {
  }

  /** Freshly copied strings are new to everything that was allocated before. */
  lemma CopiesAreNew(kept: seq<Entry>, live: map<Ptr, string>, live': map<Ptr, string>, rows: seq<Row>, e: Entry,
                     base: map<Ptr, string>)
    requires Holds(kept, live, rows) && OwnedByAll(kept) <= live.Keys && live - OwnedByAll(kept) == base
    requires OwnedBy(e) !! live.Keys && live' - OwnedBy(e) == live && Owned(e, live')
    ensures live' - OwnedBy(e) - OwnedByAll(kept) == base && OwnedByAll(kept) <= (live' - OwnedBy(e)).Keys
    ensures Complete(e, live') ==>
              && Holds(kept + [e], live', rows + [RowOf(e, live')])
              && OwnedByAll(kept + [e]) <= live'.Keys
              && live' - OwnedByAll(kept + [e]) == base
  {
    hide Holds, OwnedByAll;
    if Complete(e, live') {
      HoldsBefore(kept, live, live', rows);
      HoldsAppend(kept, live', rows, e);
      OwnedByAllAppend(kept, e);
    }
  }

  lemma HoldsBefore(kept: seq<Entry>, live: map<Ptr, string>, live': map<Ptr, string>, rows: seq<Row>)
    requires Holds(kept, live, rows) && forall p :: p in live ==> p in live' && live'[p] == live[p]
    ensures Holds(kept, live', rows)
  {
  }

  // ----- the whole call

  /** Main result: what is saved is the loaded rows without every row of that id, in order, and
      afterwards exactly the blocks are allocated that were before: each string loaded has been
      freed, and none twice, since freeing requires it to be allocated. */
  method RemoveFromCrontab(heap: Heap, items: seq<Option<Row>>, id: string, fails: (nat, nat) -> bool)
    returns (saved: seq<Row>)
    requires heap.Valid()
    modifies heap
    ensures heap.Valid() && heap.live == old(heap.live)
    ensures saved == Without(Loadable(items, if |items| > MAX_ENTRIES then MAX_ENTRIES else |items|, fails), id)
  {
    hide Holds, OwnedByAll, Loadable, Without;
    ghost var base := heap.live;
    var entries, count, rows := Load(heap, items, fails);
    var j := Compact(heap, entries, count, id, rows, base);
    saved := RowsOf(heap, entries, j, Without(rows, id));
    FreeEntries(heap, entries, j, Without(rows, id), base);
  }

  /** What is loaded: of the first 256 items those that are complete rows all of whose copies succeed. */
  lemma {:induction false} LoadedRows(items: seq<Option<Row>>, n: nat, fails: (nat, nat) -> bool, row: Row)
    requires n <= |items|
    ensures row in Loadable(items, n, fails) <==>
            exists i: nat :: i < n && items[i] == Some(row) && !(fails(i, 0) || fails(i, 1) || fails(i, 2))
  {
    if n > 0 {
      LoadedRows(items, n - 1, fails, row);
    }
  }

  /** When memory lasts and every item is a row, the rows loaded are the first 256, in order. */
  lemma {:induction false} AllRowsLoaded(rows: seq<Row>, items: seq<Option<Row>>, n: nat, fails: (nat, nat) -> bool)
    requires n <= |rows| == |items| && forall i :: 0 <= i < n ==> items[i] == Some(rows[i])
    requires forall i: nat, k: nat :: !fails(i, k)
    ensures Loadable(items, n, fails) == rows[..n]
  {
    if n > 0 {
      AllRowsLoaded(rows, items, n - 1, fails);
      assert rows[..n] == rows[..n - 1] + [rows[n - 1]];
    }
  }

  /** How many of a file's items are looked at. */
  lemma TwoHundredFiftySix()
    ensures MAX_ENTRIES == 256
  {
  }
}
