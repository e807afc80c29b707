/** The MCP process registry of src/mcp_registry.c, with its child processes: what is started
    is signalled and reaped exactly once. */
module McpRegistry {
  import opened Wrappers

  datatype Entry = Entry(name: string, command: string, args: string, running: bool, pid: int)

  datatype Code = Ok | InvalidArgument | NotFound | AlreadyExists | OutOfMemory | IoError

  const ENTRIES_MAX := 16
  const NAME_MAX := 63
  const CMD_MAX := 255
  const ARGS_MAX := 511

  /** The registry, the pids of the children forked so far, and those signalled and waited for. */
  datatype Registry = Registry(entries: seq<Entry>, started: seq<int>, reaped: seq<int>)

  function Find(entries: seq<Entry>, name: string): (i: nat)
    ensures i <= |entries| && (forall k :: 0 <= k < i ==> entries[k].name != name)
    ensures i < |entries| ==> entries[i].name == name
  {
    if entries == [] || entries[0].name == name then 0 else 1 + Find(entries[1..], name)
  }

  lemma FindIs(entries: seq<Entry>, name: string, i: nat)
    requires i <= |entries| && (forall k :: 0 <= k < i ==> entries[k].name != name)
    requires i < |entries| ==> entries[i].name == name
    ensures Find(entries, name) == i
  {
  }

  datatype Op =
    | Add(name: string, command: string, args: Option<string>)
    | Remove(name: string)
    | Start(name: string, fork: Option<int>)   // the child's pid, or None when fork fails
    | Stop(name: string)

  /** The entry with its process signalled, waited for and forgotten. */
  function Stopped(e: Entry): Entry {
    e.(running := false, pid := -1)
  }

  function StopAt(r: Registry, i: nat): Registry
    requires i < |r.entries|
  {
    var e := r.entries[i];
    r.(entries := r.entries[i := Stopped(e)],
       reaped := if e.running && e.pid > 0 then r.reaped + [e.pid] else r.reaped)
  }

  function RemoveAt(r: Registry, i: nat): Registry
    requires i < |r.entries|
  {
    r.(entries := r.entries[..i] + r.entries[i + 1..])
  }

  function Do(r: Registry, op: Op): Registry {
    match op
    case Add(name, command, args) =>
      if CodeOf(r, op) == Ok
      then r.(entries := r.entries + [Entry(name, command, if args.Some? then args.value else "", false, -1)])
      else r
    case Remove(name) =>
      var i := Find(r.entries, name);
      if i == |r.entries| then r else RemoveAt(StopAt(r, i), i)
    case Start(name, fork) =>
      var i := Find(r.entries, name);
      if i == |r.entries| || r.entries[i].running || fork.None? then r
      else r.(entries := r.entries[i := r.entries[i].(running := true, pid := fork.value)],
              started := r.started + [fork.value])
    case Stop(name) =>
      var i := Find(r.entries, name);
      if i == |r.entries| then r else StopAt(r, i)
  }

  function CodeOf(r: Registry, op: Op): Code {
    match op
    case Add(name, command, args) =>
      if Find(r.entries, name) < |r.entries| then AlreadyExists
      else if |r.entries| >= ENTRIES_MAX then OutOfMemory
      else if |name| > NAME_MAX || |command| > CMD_MAX || (args.Some? && |args.value| > ARGS_MAX) then InvalidArgument
      else Ok
    case Remove(name) => if Find(r.entries, name) == |r.entries| then NotFound else Ok
    case Start(name, fork) =>
      var i := Find(r.entries, name);
      if i == |r.entries| then NotFound else if !r.entries[i].running && fork.None? then IoError else Ok
    case Stop(name) => if Find(r.entries, name) == |r.entries| then NotFound else Ok
  }

  // ----- the invariant

  /** The pids of running entries. */
  function Children(entries: seq<Entry>): multiset<int> {
    if entries == [] then multiset{}
    else (if entries[0].running then multiset{entries[0].pid} else multiset{}) + Children(entries[1..])
  }

  ghost predicate RegistryOk(r: Registry) {
    && |r.entries| <= ENTRIES_MAX
    && (forall i, j :: 0 <= i < j < |r.entries| ==> r.entries[i].name != r.entries[j].name)
    && (forall i :: 0 <= i < |r.entries| ==>
          (r.entries[i].running <==> r.entries[i].pid > 0) && (!r.entries[i].running ==> r.entries[i].pid == -1))
    && multiset(r.started) == multiset(r.reaped) + Children(r.entries)
    && (forall p :: p in Children(r.entries) ==> Children(r.entries)[p] == 1)
  }

  /** fork returns a positive pid that no unreaped child has. */
  ghost predicate ValidOp(r: Registry, op: Op) {
    op.Start? && op.fork.Some? ==> op.fork.value > 0 && op.fork.value !in Children(r.entries)
  }

  function ChildOf(e: Entry): multiset<int> {
    if e.running then multiset{e.pid} else multiset{}
  }

  lemma {:induction false} ChildrenConcat(a: seq<Entry>, b: seq<Entry>)
    ensures Children(a + b) == Children(a) + Children(b)
  {
    if a == [] {
      assert a + b == b;
    } else {
      assert (a + b)[0] == a[0] && (a + b)[1..] == a[1..] + b;
      ChildrenConcat(a[1..], b);
    }
  }

  lemma ChildrenSplit(entries: seq<Entry>, i: nat)
    requires i < |entries|
    ensures Children(entries) == Children(entries[..i] + entries[i + 1..]) + ChildOf(entries[i])
  {
    var e := entries[i];
    assert entries == entries[..i] + ([e] + entries[i + 1..]);
    assert ([e] + entries[i + 1..])[1..] == entries[i + 1..];
    ChildrenConcat(entries[..i], [e] + entries[i + 1..]);
    ChildrenConcat(entries[..i], entries[i + 1..]);
  }

  lemma ChildrenUpdate(entries: seq<Entry>, i: nat, e: Entry)
    requires i < |entries|
    ensures Children(entries[i := e]) + ChildOf(entries[i]) == Children(entries) + ChildOf(e)
  {
    ChildrenSplit(entries, i);
    var updated := entries[i := e];
    ChildrenSplit(updated, i);
    assert updated[..i] == entries[..i] && updated[i + 1..] == entries[i + 1..];
  }

  lemma StopKeepsOk(r: Registry, i: nat)
    requires RegistryOk(r) && i < |r.entries|
    ensures RegistryOk(StopAt(r, i)) && !StopAt(r, i).entries[i].running
  {
    hide Children;
    var e := r.entries[i];
    ChildrenUpdate(r.entries, i, Stopped(e));
    var r' := StopAt(r, i);
    var c, c' := Children(r.entries), Children(r'.entries);
    assert c' + ChildOf(e) == c + ChildOf(Stopped(e)) == c;
    assert multiset(r'.reaped) == multiset(r.reaped) + ChildOf(e);
    assert multiset(r'.started) == multiset(r.reaped) + (c' + ChildOf(e)) == multiset(r'.reaped) + c';
    assert forall p :: p in c' ==> 1 <= c'[p] <= (c' + ChildOf(e))[p] == c[p];
  }

  lemma StartKeepsOk(r: Registry, i: nat, pid: int)
    requires RegistryOk(r) && i < |r.entries| && !r.entries[i].running && pid > 0 && pid !in Children(r.entries)
    ensures RegistryOk(r.(entries := r.entries[i := r.entries[i].(running := true, pid := pid)],
                          started := r.started + [pid]))
  {
    hide Children;
    var e := r.entries[i].(running := true, pid := pid);
    ChildrenUpdate(r.entries, i, e);
    var c, c' := Children(r.entries), Children(r.entries[i := e]);
    assert c' == c' + ChildOf(r.entries[i]) == c + multiset{pid};
    assert multiset(r.started + [pid]) == multiset(r.reaped) + c + multiset{pid} == multiset(r.reaped) + c';
    assert forall p :: p in c' ==> c'[p] == c[p] + (if p == pid then 1 else 0);
  }

  lemma RemoveKeepsOk(r: Registry, i: nat)
    requires RegistryOk(r) && i < |r.entries| && !r.entries[i].running
    ensures RegistryOk(RemoveAt(r, i))
  {
    hide Children;
    ChildrenSplit(r.entries, i);
    assert Children(r.entries) == Children(r.entries[..i] + r.entries[i + 1..]);
    var r' := RemoveAt(r, i);
    assert forall k :: 0 <= k < |r'.entries| ==> r'.entries[k] == r.entries[if k < i then k else k + 1];
  }

  lemma AddKeepsOk(r: Registry, e: Entry)
    requires RegistryOk(r) && |r.entries| < ENTRIES_MAX && Find(r.entries, e.name) == |r.entries|
    requires !e.running && e.pid == -1
    ensures RegistryOk(r.(entries := r.entries + [e]))
  {
    ChildrenConcat(r.entries, [e]);
    assert Children([e]) == multiset{};
  }

  lemma DoKeepsOk(r: Registry, op: Op)
    requires RegistryOk(r) && ValidOp(r, op)
    ensures RegistryOk(Do(r, op))
  {
    hide RegistryOk, Children, Find, StopAt, RemoveAt;
    match op
    case Add(name, command, args) =>
      if CodeOf(r, op) == Ok { AddKeepsOk(r, Entry(name, command, if args.Some? then args.value else "", false, -1)); }
    case Remove(name) =>
      var i := Find(r.entries, name);
      if i < |r.entries| {
        StopKeepsOk(r, i);
        StopKeepsLength(r, i);
        RemoveKeepsOk(StopAt(r, i), i);
      }
    case Start(name, fork) =>
      var i := Find(r.entries, name);
      if i < |r.entries| && !r.entries[i].running && fork.Some? { StartKeepsOk(r, i, fork.value); }
    case Stop(name) =>
      var i := Find(r.entries, name);
      if i < |r.entries| { StopKeepsOk(r, i); }
  }

  lemma StopKeepsLength(r: Registry, i: nat)
    ensures i < |r.entries| ==> |StopAt(r, i).entries| == |r.entries|
  {
  }

  // ----- any sequence of calls, then destroy

  ghost function After(ops: seq<Op>): Registry {
    if ops == [] then Registry([], [], []) else Do(After(ops[..|ops| - 1]), ops[|ops| - 1])
  }

  ghost predicate ValidOps(ops: seq<Op>) {
    forall n :: 0 <= n < |ops| ==> ValidOp(After(ops[..n]), ops[n])
  }

  lemma {:induction false} AfterIsOk(ops: seq<Op>)
    requires ValidOps(ops)
    ensures RegistryOk(After(ops))
  {
    if ops != [] {
      var before := ops[..|ops| - 1];
      forall n | 0 <= n < |before| ensures ValidOp(After(before[..n]), before[n]) {
        assert before[..n] == ops[..n];
      }
      AfterIsOk(before);
      DoKeepsOk(After(before), ops[|ops| - 1]);
    }
  }

  /** Stops the entries from position i on. */
  function StopFrom(r: Registry, i: nat): Registry
    requires i <= |r.entries|
    decreases |r.entries| - i
  {
    if i == |r.entries| then r else StopFrom(StopAt(r, i), i + 1)
  }

  lemma {:induction false} StopFromStopsAll(r: Registry, i: nat)
    requires RegistryOk(r) && i <= |r.entries| && forall k :: 0 <= k < i ==> !r.entries[k].running
    ensures RegistryOk(StopFrom(r, i)) && Children(StopFrom(r, i).entries) == multiset{}
    ensures StopFrom(r, i).started == r.started
    decreases |r.entries| - i
  {
    if i == |r.entries| {
      NoChildren(r.entries);
    } else {
      StopKeepsOk(r, i);
      StopFromStopsAll(StopAt(r, i), i + 1);
    }
  }

  lemma {:induction false} NoChildren(entries: seq<Entry>)
    requires forall k :: 0 <= k < |entries| ==> !entries[k].running
    ensures Children(entries) == multiset{}
  {
    if entries != [] { NoChildren(entries[1..]); }
  }

  lemma NamedByItself(r: Registry, i: nat)
    requires RegistryOk(r) && i < |r.entries|
    ensures Find(r.entries, r.entries[i].name) == i
  {
    FindIs(r.entries, r.entries[i].name, i);
  }

  /** Main result: after any calls and a destroy, every child started has been signalled and
      reaped exactly as often as it was started, and none is left. */
  lemma DestroyReapsEverything(ops: seq<Op>)
    requires ValidOps(ops)
    ensures var end := StopFrom(After(ops), 0);
            end.started == After(ops).started && multiset(end.started) == multiset(end.reaped)
  {
    AfterIsOk(ops);
    StopFromStopsAll(After(ops), 0);
  }

  // ----- the code

  class McpServers {
    const slots: array<Entry>
    var count: nat
    ghost var started: seq<int>
    ghost var reaped: seq<int>

    ghost predicate Shape()
      reads this
    {
      slots.Length == ENTRIES_MAX && count <= ENTRIES_MAX
    }

    ghost function State(): Registry
      requires Shape()
      reads this, slots
    {
      Registry(slots[..count], started, reaped)
    }

    constructor ()
      ensures Shape() && fresh(slots) && State() == After([])
    {
      slots := new Entry[ENTRIES_MAX];
      count := 0;
      started, reaped := [], [];
    }

    method FindByName(name: string) returns (at: int)
      requires Shape()
      ensures var i := Find(slots[..count], name); at == if i < count then i else -1
    {
      var i := 0;
      while i < count
        invariant 0 <= i <= count && forall k :: 0 <= k < i ==> slots[k].name != name
      {
        if slots[i].name == name {
          FindIs(slots[..count], name, i);
          return i;
        }
        i := i + 1;
      }
      FindIs(slots[..count], name, i);
      return -1;
    }

    method Add(name: string, command: string, args: Option<string>) returns (code: Code)
      requires Shape()
      modifies this, slots
      ensures Shape() && State() == Do(old(State()), Op.Add(name, command, args))
      ensures code == CodeOf(old(State()), Op.Add(name, command, args))
    {
      hide Find;
      var at := FindByName(name);
      if at >= 0 { return AlreadyExists; }
      if count >= ENTRIES_MAX { return OutOfMemory; }
      var alen := if args.Some? then |args.value| else 0;
      if |name| > NAME_MAX || |command| > CMD_MAX || alen > ARGS_MAX { return InvalidArgument; }
      slots[count] := Entry(name, command, if args.Some? then args.value else "", false, -1);
      count := count + 1;
      assert slots[..count] == old(slots[..count]) + [slots[count - 1]];
      return Ok;
    }

    /** The child is sent SIGTERM and waited for in one step. */
    method Stop(name: string) returns (code: Code)
      requires Shape()
      modifies this`reaped, slots
      ensures Shape() && State() == Do(old(State()), Op.Stop(name))
      ensures code == CodeOf(old(State()), Op.Stop(name))
    {
      hide Find;
      var at := FindByName(name);
      if at < 0 { return NotFound; }
      var e := slots[at];
      ghost var before := slots[..count];
      if !e.running {
        slots[at] := e.(pid := -1);
      } else {
        if e.pid > 0 { reaped := reaped + [e.pid]; }
        slots[at] := e.(running := false, pid := -1);
      }
      assert slots[..count] == before[at := Stopped(e)];
      return Ok;
    }

    method Start(name: string, fork: Option<int>) returns (code: Code)
      requires Shape()
      modifies this`started, slots
      ensures Shape() && State() == Do(old(State()), Op.Start(name, fork))
      ensures code == CodeOf(old(State()), Op.Start(name, fork))
    {
      hide Find;
      var at := FindByName(name);
      if at < 0 { return NotFound; }
      var e := slots[at];
      if e.running { return Ok; }
      if fork.None? { return IoError; }
      ghost var before := slots[..count];
      slots[at] := e.(running := true, pid := fork.value);
      started := started + [fork.value];
      assert slots[..count] == before[at := e.(running := true, pid := fork.value)];
      return Ok;
    }

    /** memmove closes the gap at i. */
    method CloseGap(i: nat)
      requires Shape() && i < count
      modifies this`count, slots
      ensures Shape() && State() == RemoveAt(old(State()), i)
    {
      ghost var before := slots[..count];
      var k := i;
      while k < count - 1
        invariant i <= k <= count - 1
        invariant forall j :: 0 <= j < i || k <= j < count ==> slots[j] == before[j]
        invariant forall j :: i <= j < k ==> slots[j] == before[j + 1]
        modifies slots
      {
        slots[k] := slots[k + 1];
        k := k + 1;
      }
      count := count - 1;
      assert slots[..count] == before[..i] + before[i + 1..];
    }

    method Remove(name: string) returns (code: Code)
      requires Shape()
      modifies this, slots
      ensures Shape() && State() == Do(old(State()), Op.Remove(name))
      ensures code == CodeOf(old(State()), Op.Remove(name))
    {
      hide Find, RemoveAt, StopAt;
      StopKeepsLength(State(), Find(State().entries, name));
      var at := FindByName(name);
      if at < 0 { return NotFound; }
      var _ := Stop(name);
      CloseGap(at);
      return Ok;
    }

    /** The loop of destroy stops every entry by name; names being distinct, each by its own. */
    method Destroy()
      requires Shape() && RegistryOk(State())
      modifies this`reaped, slots
      ensures Shape() && State() == StopFrom(old(State()), 0)
    {
      hide Find, RegistryOk, StopAt;
      var i := 0;
      while i < count
        invariant 0 <= i <= count && RegistryOk(State())
        invariant StopFrom(State(), i) == StopFrom(old(State()), 0)
        modifies this`reaped, slots
      {
        ghost var before := State();
        NamedByItself(before, i);
        StopKeepsOk(before, i);
        StopKeepsLength(before, i);
        var _ := Stop(slots[i].name);
        i := i + 1;
      }
    }
  }

  // ----- the calls, field by field

  /** What an addition does: refused, in this order, for a name that is taken, a full table of 16,
      and texts of more than 63, 255 and 511 characters; otherwise the entry is the last one, is
      not running and carries the texts. */
  lemma AddedEntry(r: Registry, name: string, command: string, args: Option<string>)
    ensures var op := Op.Add(name, command, args);
            var r', code := Do(r, op), CodeOf(r, op);
            var taken := exists k :: 0 <= k < |r.entries| && r.entries[k].name == name;
            var long := |name| > 63 || |command| > 255 || (args.Some? && |args.value| > 511);
            && (code == AlreadyExists <==> taken)
            && (code == OutOfMemory <==> !taken && |r.entries| >= 16)
            && (code == InvalidArgument <==> !taken && |r.entries| < 16 && long)
            && (code == Ok <==> !taken && |r.entries| < 16 && !long)
            && (code != Ok ==> r' == r)
            && (code == Ok ==>
                  && r'.started == r.started && r'.reaped == r.reaped && |r'.entries| == |r.entries| + 1
                  && r'.entries[..|r.entries|] == r.entries
                  && var e := r'.entries[|r.entries|];
                     && e.name == name && e.command == command && !e.running && e.pid == -1
                     && e.args == (match args case None => "" case Some(a) => a))
  {
    var i := Find(r.entries, name);
    assert i < |r.entries| ==> r.entries[i].name == name;
  }

  /** What a start does to the entry of that name: a running one is left alone, one whose fork fails
      too; otherwise it runs with the child's pid, and nothing else changes. */
  lemma StartedEntry(r: Registry, i: nat, fork: Option<int>)
    requires RegistryOk(r) && i < |r.entries|
    ensures var op := Op.Start(r.entries[i].name, fork);
            var r', code, e := Do(r, op), CodeOf(r, op), r.entries[i];
            && (e.running ==> r' == r && code == Ok)
            && (!e.running && fork == None ==> r' == r && code == IoError)
            && (!e.running && fork.Some? ==>
                  && code == Ok && r'.started == r.started + [fork.value] && r'.reaped == r.reaped
                  && |r'.entries| == |r.entries|
                  && (forall k :: 0 <= k < |r.entries| && k != i ==> r'.entries[k] == r.entries[k])
                  && r'.entries[i] == Entry(e.name, e.command, e.args, true, fork.value))
  {
    FindIs(r.entries, r.entries[i].name, i);
  }

  /** What a stop does: the entry runs no more, and its child, if it had one, is reaped. */
  lemma StoppedEntry(r: Registry, i: nat)
    requires RegistryOk(r) && i < |r.entries|
    ensures var op := Op.Stop(r.entries[i].name);
            var r', e := Do(r, op), r.entries[i];
            && CodeOf(r, op) == Ok && r'.started == r.started
            && r'.reaped == (if e.running then r.reaped + [e.pid] else r.reaped)
            && |r'.entries| == |r.entries|
            && (forall k :: 0 <= k < |r.entries| && k != i ==> r'.entries[k] == r.entries[k])
            && r'.entries[i] == Entry(e.name, e.command, e.args, false, -1)
  {
    FindIs(r.entries, r.entries[i].name, i);
  }

  /** What a removal does: the child is reaped as for a stop, and the other entries stay in order. */
  lemma RemovedEntry(r: Registry, i: nat)
    requires RegistryOk(r) && i < |r.entries|
    ensures var op := Op.Remove(r.entries[i].name);
            var r', e := Do(r, op), r.entries[i];
            && CodeOf(r, op) == Ok && r'.started == r.started
            && r'.reaped == (if e.running then r.reaped + [e.pid] else r.reaped)
            && r'.entries == r.entries[..i] + r.entries[i + 1..]
  {
    FindIs(r.entries, r.entries[i].name, i);
    assert r.entries[i := Stopped(r.entries[i])][..i] == r.entries[..i];
    assert r.entries[i := Stopped(r.entries[i])][i + 1..] == r.entries[i + 1..];
  }

  /** A name that no entry has. */
  lemma UnknownName(r: Registry, name: string, fork: Option<int>)
    requires forall k :: 0 <= k < |r.entries| ==> r.entries[k].name != name
    ensures Do(r, Op.Start(name, fork)) == Do(r, Op.Stop(name)) == Do(r, Op.Remove(name)) == r
    ensures CodeOf(r, Op.Start(name, fork)) == CodeOf(r, Op.Stop(name)) == CodeOf(r, Op.Remove(name)) == NotFound
  {
    FindIs(r.entries, name, |r.entries|);
  }
}
