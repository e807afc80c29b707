/** sc_config_mutator_mutate of src/config_mutator.c: one edit of the configuration file,
    from the raw path to the write. A pointer into the JSON tree is the path that leads to it. */
module ConfigMutator {
  import opened Text
  import opened Wrappers
  import opened ConfigTree
  import opened ConfigPath

  // ----- the tree, edited in place

  function ReplaceAt(root: Json, path: Path, node: Json): Json
    requires At(root, path).Some?
    decreases |path|
  {
    if path == [] then node
    else Set(root, path[0], ReplaceAt(Get(root, path[0]).value, path[1..], node))
  }

  lemma {:induction false} AtStep(root: Json, path: Path, key: string)
    ensures At(root, path + [key]) == if At(root, path).Some? then Get(At(root, path).value, key) else None
    decreases |path|
  {
    if path == [] {
      assert (path + [key])[1..] == [];
    } else {
      assert (path + [key])[1..] == path[1..] + [key];
      var child := Get(root, path[0]);
      if child.Some? { AtStep(child.value, path[1..], key); }
    }
  }

  lemma {:induction false} AtReplaced(root: Json, path: Path, node: Json)
    requires At(root, path).Some?
    ensures At(ReplaceAt(root, path, node), path) == Some(node)
    decreases |path|
  {
    if path != [] {
      var child := Get(root, path[0]).value;
      AtReplaced(child, path[1..], node);
      GetSet(root.pairs, path[0], ReplaceAt(child, path[1..], node), path[0]);
    }
  }

  /** Creating the missing object one step ahead does not change what a set further on gives. */
  lemma {:induction false} CreatingIsNeutral(root: Json, p: Path, key: string, rest: Path, value: Json)
    requires At(root, p).Some? && At(root, p).value.Object? && Get(At(root, p).value, key).None? && rest != []
    ensures var root' := ReplaceAt(root, p, Set(At(root, p).value, key, EMPTY));
            SetAt(root', p + [key] + rest, value) == SetAt(root, p + [key] + rest, value)
    decreases |p|
  {
    var path := p + [key] + rest;
    var node := At(root, p).value;
    if p == [] {
      assert path[0] == key && path[1..] == rest;
      GetSet(root.pairs, key, EMPTY, key);
      var below := SetAt(EMPTY, rest, value);
      if below.Some? { SetSet(root.pairs, key, EMPTY, below.value); }
    } else {
      assert path[0] == p[0] && path[1..] == p[1..] + [key] + rest;
      var child := Get(root, p[0]).value;
      CreatingIsNeutral(child, p[1..], key, rest, value);
      var child' := ReplaceAt(child, p[1..], Set(node, key, EMPTY));
      GetSet(root.pairs, p[0], child', p[0]);
      var below := SetAt(child, path[1..], value);
      if below.Some? { SetSet(root.pairs, p[0], child', below.value); }
    }
  }

  /** Setting a key of the node that is already there. */
  lemma {:induction false} SetLast(root: Json, p: Path, key: string, value: Json)
    requires At(root, p).Some?
    ensures SetAt(root, p + [key], value) ==
            if At(root, p).value.Object? then Some(ReplaceAt(root, p, Set(At(root, p).value, key, value))) else None
    decreases |p|
  {
    var path := p + [key];
    if p != [] {
      assert path[0] == p[0] && path[1..] == p[1..] + [key];
      SetLast(Get(root, p[0]).value, p[1..], key, value);
    }
  }

  lemma {:induction false} RemoveLast(root: Json, p: Path, key: string)
    ensures RemoveAt(root, p + [key]) ==
            if At(root, p).Some? && At(root, p).value.Object?
            then ReplaceAt(root, p, Remove(At(root, p).value, key)) else root
    decreases |p|
  {
    var path := p + [key];
    if p != [] {
      assert path[0] == p[0] && path[1..] == p[1..] + [key];
      var child := Get(root, p[0]);
      if child.Some? {
        RemoveLast(child.value, p[1..], key);
        SetGot(root.pairs, p[0]);
      }
    }
  }

  class Document {
    var root: Json

    constructor (root: Json)
      ensures this.root == root
    {
      this.root := root;
    }

    method ValueAtPath(tokens: Path) returns (value: Option<Json>)
      ensures value == At(root, tokens)
    {
      var cur := root;
      var i := 0;
      assert tokens[0..] == tokens;
      while i < |tokens|
        invariant 0 <= i <= |tokens| && At(root, tokens) == At(cur, tokens[i..])
      {
        assert tokens[i..][1..] == tokens[i + 1..];
        if !cur.Object? { return None; }
        var next := Get(cur, tokens[i]);
        if next.None? { return None; }
        cur := next.value;
        i := i + 1;
      }
      return Some(cur);
    }

    /** ensure_and_walk: creates the missing objects on the way to the parent of the last token. */
    method EnsureAndWalk(tokens: Path, ghost value: Json) returns (reached: bool)
      requires tokens != []
      modifies this
      ensures SetAt(root, tokens, value) == SetAt(old(root), tokens, value)
      ensures reached ==> At(root, tokens[..|tokens| - 1]).Some?
      ensures !reached ==> SetAt(old(root), tokens, value).None?
      ensures SetAt(old(root), tokens, value).None? ==> root == old(root)
    {
      hide SetAt, At, ReplaceAt;
      var i := 0;
      AtRoot(root);
      assert tokens[..0] == [];
      while i < |tokens| - 1
        invariant 0 <= i <= |tokens| - 1 && At(root, tokens[..i]).Some?
        invariant SetAt(root, tokens, value) == SetAt(old(root), tokens, value)
        invariant root == old(root) || (At(root, tokens[..i]).value == EMPTY && !Blocked(root, tokens))
      {
        assert tokens[..i + 1] == tokens[..i] + [tokens[i]];
        AtStep(root, tokens[..i], tokens[i]);
        var cur := At(root, tokens[..i]).value;
        var next := Get(cur, tokens[i]);
        if next.None? {
          if !cur.Object? {
            NonObjectBlocks(root, tokens, i, value);
            return false;
          }
          ghost var p, rest := tokens[..i], tokens[i + 1..];
          assert tokens == p + [tokens[i]] + rest;
          CreatingIsNeutral(root, p, tokens[i], rest, value);
          CreatedIsEmpty(root, p, tokens[i]);
          MissingIsNotBlocked(root, tokens, i, value);
          root := ReplaceAt(root, tokens[..i], Set(cur, tokens[i], EMPTY));
          SetFailsIffBlocked(root, tokens, value);
        } else {
          EmptyHasNothing(cur, tokens[i]);
        }
        i := i + 1;
      }
      SetFailsIffBlocked(root, tokens, value);
      return true;
    }

    /** The SET branch of mutate. */
    method SetValue(tokens: Path, value: Json) returns (ok: bool)
      requires tokens != []
      modifies this
      ensures ok <==> SetAt(old(root), tokens, value).Some?
      ensures root == if ok then SetAt(old(root), tokens, value).value else old(root)
    {
      hide SetAt, At, ReplaceAt;
      var reached := EnsureAndWalk(tokens, value);
      if !reached { return false; }
      var parent := At(root, tokens[..|tokens| - 1]).value;
      assert tokens == tokens[..|tokens| - 1] + [tokens[|tokens| - 1]];
      SetLast(root, tokens[..|tokens| - 1], tokens[|tokens| - 1], value);
      if !parent.Object? { return false; }
      root := ReplaceAt(root, tokens[..|tokens| - 1], Set(parent, tokens[|tokens| - 1], value));
      return true;
    }

    /** The UNSET branch of mutate. */
    method RemoveValue(tokens: Path)
      requires tokens != []
      modifies this
      ensures root == RemoveAt(old(root), tokens)
    {
      hide RemoveAt, At, ReplaceAt;
      var parent := ValueAtPath(tokens[..|tokens| - 1]);
      assert tokens == tokens[..|tokens| - 1] + [tokens[|tokens| - 1]];
      RemoveLast(root, tokens[..|tokens| - 1], tokens[|tokens| - 1]);
      if parent.Some? && parent.value.Object? {
        root := ReplaceAt(root, tokens[..|tokens| - 1], Remove(parent.value, tokens[|tokens| - 1]));
      }
    }
  }

  lemma AtRoot(root: Json)
    ensures At(root, []) == Some(root)
  {
  }

  lemma EmptyHasNothing(j: Json, key: string)
    requires Get(j, key).Some?
    ensures j != EMPTY
  {
  }

  lemma NonObjectBlocks(root: Json, tokens: Path, i: nat, value: Json)
    requires i < |tokens| && At(root, tokens[..i]).Some? && !At(root, tokens[..i]).value.Object?
    ensures SetAt(root, tokens, value).None?
  {
    SetFailsIffBlocked(root, tokens, value);
  }

  lemma CreatedIsEmpty(root: Json, p: Path, key: string)
    requires At(root, p).Some? && At(root, p).value.Object?
    ensures At(ReplaceAt(root, p, Set(At(root, p).value, key, EMPTY)), p + [key]) == Some(EMPTY)
  {
    var node := Set(At(root, p).value, key, EMPTY);
    AtReplaced(root, p, node);
    AtStep(ReplaceAt(root, p, node), p, key);
    GetSet(At(root, p).value.pairs, key, EMPTY, key);
  }

  /** Once a step is missing below an object, nothing further on can be in the way. */
  lemma {:induction false} MissingIsNotBlocked(root: Json, tokens: Path, i: nat, value: Json)
    requires i < |tokens| && At(root, tokens[..i]).Some? && At(root, tokens[..i]).value.Object?
    requires At(root, tokens[..i + 1]).None?
    ensures SetAt(root, tokens, value).Some?
    decreases i
  {
    var child := Get(root, tokens[0]);
    if i == 0 {
      assert tokens[..0] == [] && tokens[..1][1..] == [];
      if |tokens| > 1 {
        NothingBlockedBelowEmpty(tokens[1..]);
        SetFailsIffBlocked(EMPTY, tokens[1..], value);
      }
    } else {
      assert tokens[..i][1..] == tokens[1..][..i - 1] && tokens[..i + 1][1..] == tokens[1..][..i];
      MissingIsNotBlocked(child.value, tokens[1..], i - 1, value);
    }
  }

  // ----- one mutation

  /** The parser and printer of src/core/json.c, as far as this module needs them. */
  datatype Codec = Codec(parse: string -> Option<Json>, render: Json -> string)

  datatype Action = SET | UNSET

  datatype Error = InvalidArgument | PermissionDenied | OutOfMemory | IoError | ParseError

  datatype MutationResult =
    | Failed(error: Error)
    | Mutated(path: string, changed: bool, applied: bool, requiresRestart: bool, oldValue: string, newValue: string)

  const CONFIG_MAX_SIZE := 1024 * 1024

  predicate RequiresRestart(path: string) {
    "channels." <= path || "runtime." <= path || path == "memory.backend" || path == "memory.profile"
  }

  datatype Plan = Refused(error: Error) | Edit(before: Json, after: Json, tokens: Path)

  /** The tree a mutation starts from; anything but an object is replaced by an empty one. */
  function LoadRoot(codec: Codec, content: Option<string>): (root: Option<Json>)
    ensures root.Some? ==> root.value.Object?
  {
    var parsed := codec.parse(if content.Some? then content.value else "{}\n");
    if parsed.Some? && !parsed.value.Object? then Some(EMPTY) else parsed
  }

  function ParsedValue(codec: Codec, raw: string): Json {
    var parsed := codec.parse(raw);
    if parsed.Some? then parsed.value else String(raw)
  }

  /** What a mutation of the trimmed path does. */
  ghost function PlanFor(codec: Codec, content: Option<string>, action: Action, path: string,
                         raw: Option<string>): Plan
  {
    var trimmed := Trim(path);
    if trimmed == "" then Refused(InvalidArgument)
    else if !IsAllowed(trimmed) then Refused(PermissionDenied)
    else PlanForAllowed(codec, content, action, trimmed, raw)
  }

  /** The same for a path already trimmed and found allowed. */
  ghost function PlanForAllowed(codec: Codec, content: Option<string>, action: Action, path: string,
                                raw: Option<string>): Plan
  {
    var tokens := Split(path, '.');
    if action.SET? && (raw.None? || raw.value == "") then Refused(InvalidArgument)
    else if content.Some? && |content.value| > CONFIG_MAX_SIZE then Refused(InvalidArgument)
    else
      var root := LoadRoot(codec, content);
      if root.None? then Refused(ParseError)
      else if !AllNonEmpty(tokens) then Refused(InvalidArgument)
      else if action.UNSET? then Edit(root.value, RemoveAt(root.value, tokens), tokens)
      else
        var after := SetAt(root.value, tokens, ParsedValue(codec, raw.value));
        if after.None? then Refused(OutOfMemory) else Edit(root.value, after.value, tokens)
  }

  function ValueText(codec: Codec, value: Option<Json>): string {
    if value.Some? then codec.render(value.value) else "null"
  }

  function WithNewline(text: string): string {
    if text == "" || text[|text| - 1] != '\n' then text + "\n" else text
  }

  datatype ReadResult = ReadFailed(error: Error) | ReadText(text: string)

  /** What the disk does: whether it takes the file, whether the backup can be opened and how
      much of it is written. */
  datatype Disk = Disk(writeOk: bool, backupOpens: bool, backupLength: nat)

  /** The backup before a write: none of an absent file; one that cannot be opened or is cut
      short is passed over in silence. */
  function BackedUp(disk: Disk, content: Option<string>, backup: Option<string>): Option<string> {
    if content.None? || !disk.backupOpens then backup
    else if disk.backupLength < |content.value| then Some(content.value[..disk.backupLength])
    else content
  }

  /** The configuration file and its backup. */
  class ConfigFile {
    var content: Option<string>
    var backup: Option<string>

    /** The file is reached only by an applied edit whose printed value really changed,
        whatever becomes of the backup. */
    method Mutate(codec: Codec, action: Action, path: string, raw: Option<string>, apply: bool, disk: Disk)
      returns (r: MutationResult)
      requires Lacks(path, NUL)
      modifies this
      ensures PlanFor(codec, old(content), action, path, raw).Refused? ==>
                r == Failed(PlanFor(codec, old(content), action, path, raw).error) && unchanged(this)
      ensures PlanFor(codec, old(content), action, path, raw).Edit? ==>
                var plan := PlanFor(codec, old(content), action, path, raw);
                var was := ValueText(codec, At(plan.before, plan.tokens));
                var now := ValueText(codec, At(plan.after, plan.tokens));
                var write := apply && was != now;
                && (!write ==> unchanged(this))
                && (write ==>
                      && content == (if disk.writeOk then Some(WithNewline(codec.render(plan.after))) else old(content))
                      && backup == BackedUp(disk, old(content), old(backup)))
                && r == (if write && !disk.writeOk then Failed(IoError)
                         else Mutated(Trim(path), was != now, write, RequiresRestart(Trim(path)), was, now))
    {
      hide SetAt, RemoveAt, At, Split, Trim, IsAllowed, AllNonEmpty, WithNewline, RequiresRestart;
      var trimmed := TrimPath(path);
      if trimmed == "" { return Failed(InvalidArgument); }
      var allowed := IsAllowedPath(trimmed);
      if !allowed { return Failed(PermissionDenied); }
      if action.SET? && (raw.None? || raw.value == "") { return Failed(InvalidArgument); }
      if content.Some? && |content.value| > CONFIG_MAX_SIZE { return Failed(InvalidArgument); }
      var root := LoadRoot(codec, content);
      if root.None? { return Failed(ParseError); }
      TrimLacks(path, NUL);
      var tokens := SplitPath(trimmed);
      TrimTwice(path);
      if tokens.None? { return Failed(InvalidArgument); }
      var doc := new Document(root.value);
      var oldValue := doc.ValueAtPath(tokens.value);
      var was := ValueText(codec, oldValue);
      if action.SET? {
        var ok := doc.SetValue(tokens.value, ParsedValue(codec, raw.value));
        if !ok { return Failed(OutOfMemory); }
      } else {
        doc.RemoveValue(tokens.value);
      }
      var newValue := doc.ValueAtPath(tokens.value);
      var now := ValueText(codec, newValue);
      var changed := was != now;
      if apply && changed {
        var rendered := WithNewline(codec.render(doc.root));
        if content.Some? && disk.backupOpens {
          var written := if disk.backupLength < |content.value| then disk.backupLength else |content.value|;
          assert content.value[..|content.value|] == content.value;
          backup := Some(content.value[..written]);
        }
        if !disk.writeOk { return Failed(IoError); }
        content := Some(rendered);
      }
      return Mutated(trimmed, changed, apply && changed, RequiresRestart(trimmed), was, now);
    }

    /** Printing the value at a path, or the error that stands in the way. */
    method GetPathValueJson(codec: Codec, path: string) returns (r: ReadResult)
      requires Lacks(path, NUL)
      ensures r == ReadPath(codec, content, path)
    {
      hide At, Split, Trim, IsAllowed, AllNonEmpty;
      if path == "" { return ReadFailed(InvalidArgument); }
      var allowed := IsAllowedPath(path);
      if !allowed { return ReadFailed(PermissionDenied); }
      if content.Some? && |content.value| > CONFIG_MAX_SIZE { return ReadFailed(InvalidArgument); }
      var root := LoadRoot(codec, content);
      if root.None? { return ReadFailed(ParseError); }
      var tokens := SplitPath(path);
      if tokens.None? { return ReadFailed(InvalidArgument); }
      var doc := new Document(root.value);
      var value := doc.ValueAtPath(tokens.value);
      return ReadText(ValueText(codec, value));
    }
  }

  /** What a reader of the path gets. The path is looked up in the lists as it is, untrimmed. */
  ghost function ReadPath(codec: Codec, content: Option<string>, path: string): ReadResult {
    if path == "" then ReadFailed(InvalidArgument)
    else if !IsAllowed(path) then ReadFailed(PermissionDenied)
    else ReadAllowed(codec, content, path)
  }

  ghost function ReadAllowed(codec: Codec, content: Option<string>, path: string): ReadResult {
    var tokens := Split(Trim(path), '.');
    var root := LoadRoot(codec, content);
    if content.Some? && |content.value| > CONFIG_MAX_SIZE then ReadFailed(InvalidArgument)
    else if root.None? then ReadFailed(ParseError)
    else if Trim(path) == "" || !AllNonEmpty(tokens) then ReadFailed(InvalidArgument)
    else ReadText(ValueText(codec, At(root.value, tokens)))
  }

  lemma TrimTwice(path: string)
    ensures Trim(Trim(path)) == Trim(path)
  {
    TrimEnds(path);
    var t := Trim(path);
    TrimLeftIs(t, 0);
    assert t[0..] == t;
    TrimRightIs(t, |t|);
    assert t[..|t|] == t;
  }

  lemma {:induction false} TrimRightEnds(s: string)
    requires s != "" ==> !IsBlank(s[0])
    ensures var t := TrimRight(s); t != "" ==> !IsBlank(t[0]) && !IsBlank(t[|t| - 1])
    decreases |s|
  {
    if s != "" && IsBlank(s[|s| - 1]) { TrimRightEnds(s[..|s| - 1]); }
  }

  lemma {:induction false} TrimLeftEnds(s: string)
    ensures TrimLeft(s) != "" ==> !IsBlank(TrimLeft(s)[0])
  {
    if s != "" && IsBlank(s[0]) { TrimLeftEnds(s[1..]); }
  }

  lemma TrimEnds(path: string)
    ensures var t := Trim(path); t != "" ==> !IsBlank(t[0]) && !IsBlank(t[|t| - 1])
  {
    TrimLeftEnds(path);
    TrimRightEnds(TrimLeft(path));
  }

  // ----- what the laws say about a mutation

  /** A set that is planned makes its path read as the new value and leaves every path apart
      from it alone; it is refused for the tree's sake exactly when the way is blocked. */
  lemma PlannedSet(codec: Codec, content: Option<string>, path: string, raw: string, q: Path)
    requires raw != "" && AllNonEmpty(Split(path, '.'))
    requires content.Some? ==> |content.value| <= CONFIG_MAX_SIZE
    requires LoadRoot(codec, content).Some?
    ensures var tokens := Split(path, '.');
            var root := LoadRoot(codec, content).value;
            var plan := PlanForAllowed(codec, content, SET, path, Some(raw));
            && (plan == Refused(OutOfMemory) <==> Blocked(root, tokens))
            && (plan.Edit? ==>
                  && At(plan.after, tokens) == Some(ParsedValue(codec, raw))
                  && (Apart(tokens, q) ==> At(plan.after, q) == At(root, q)))
  {
    hide At, SetAt, Split, AllNonEmpty, LoadRoot, ParsedValue;
    var tokens := Split(path, '.');
    var root, value := LoadRoot(codec, content).value, ParsedValue(codec, raw);
    SetFailsIffBlocked(root, tokens, value);
    if SetAt(root, tokens, value).Some? {
      ReadSet(root, tokens, value, []);
      assert tokens + [] == tokens;
      AtRoot(value);
      if Apart(tokens, q) { SetFrame(root, tokens, value, q); }
    }
  }

  /** An unset that is planned makes its path, and everything below it, missing and leaves every
      path apart from it alone. The parser gives well-formed trees. */
  lemma PlannedUnset(codec: Codec, content: Option<string>, path: string, below: Path, q: Path)
    requires PlanForAllowed(codec, content, UNSET, path, None).Edit?
    requires WellFormed(LoadRoot(codec, content).value)
    ensures var plan := PlanForAllowed(codec, content, UNSET, path, None);
            && At(plan.after, plan.tokens + below) == None
            && (Apart(plan.tokens, q) ==> At(plan.after, q) == At(plan.before, q))
            && (At(plan.before, plan.tokens).None? ==> plan.after == plan.before)
  {
    hide At, RemoveAt, Split, AllNonEmpty, LoadRoot;
    var plan := PlanForAllowed(codec, content, UNSET, path, None);
    ReadRemoved(plan.before, plan.tokens, below);
    if Apart(plan.tokens, q) { RemoveFrame(plan.before, plan.tokens, q); }
    if At(plan.before, plan.tokens).None? { RemoveMissing(plan.before, plan.tokens); }
  }

  /** The same set once more is no change, so it is not written a second time. */
  lemma RepeatedSetIsNoChange(codec: Codec, content: Option<string>, path: string, raw: string)
    requires PlanForAllowed(codec, content, SET, path, Some(raw)).Edit?
    requires var plan := PlanForAllowed(codec, content, SET, path, Some(raw));
             var written := WithNewline(codec.render(plan.after));
             codec.parse(written) == Some(plan.after) && |written| <= CONFIG_MAX_SIZE
    ensures var plan := PlanForAllowed(codec, content, SET, path, Some(raw));
            PlanForAllowed(codec, Some(WithNewline(codec.render(plan.after))), SET, path, Some(raw)) ==
            Edit(plan.after, plan.after, plan.tokens)
  {
    hide At, SetAt, Split, Trim, AllNonEmpty, WithNewline;
    var plan := PlanForAllowed(codec, content, SET, path, Some(raw));
    var value := ParsedValue(codec, raw);
    SetGivesObject(plan.before, plan.tokens, value);
    ReadSet(plan.before, plan.tokens, value, []);
    assert plan.tokens + [] == plan.tokens;
    AtRoot(value);
    SetWhatIsThere(plan.after, plan.tokens);
  }

  /** Setting null where nothing stands creates objects in memory but is never written:
      a missing value and a null are printed alike. */
  lemma NullOnMissingIsNoChange(codec: Codec, content: Option<string>, path: string, raw: string)
    requires codec.render(Null) == "null" && ParsedValue(codec, raw) == Null
    requires PlanForAllowed(codec, content, SET, path, Some(raw)).Edit?
    requires var plan := PlanForAllowed(codec, content, SET, path, Some(raw)); At(plan.before, plan.tokens).None?
    ensures var plan := PlanForAllowed(codec, content, SET, path, Some(raw));
            ValueText(codec, At(plan.before, plan.tokens)) == ValueText(codec, At(plan.after, plan.tokens))
  {
    hide At, SetAt, Split, AllNonEmpty, LoadRoot;
    var plan := PlanForAllowed(codec, content, SET, path, Some(raw));
    ReadSet(plan.before, plan.tokens, Null, []);
    assert plan.tokens + [] == plan.tokens;
    AtRoot(Null);
  }

  /** The printer gives two values the same text only if they are the same. */
  ghost predicate ToldApart(codec: Codec, x: Json, y: Json) {
    codec.render(x) == codec.render(y) ==> x == y
  }

  /** Exactly which successful sets do not reach the file when they are applied: those of the
      value that is there already, and those of null where nothing is. Only the latter have
      changed the tree. */
  lemma UnwrittenSetIff(codec: Codec, content: Option<string>, path: string, raw: string)
    requires codec.render(Null) == "null"
    requires PlanForAllowed(codec, content, SET, path, Some(raw)).Edit?
    requires ToldApart(codec, ParsedValue(codec, raw), Null)
    requires var plan := PlanForAllowed(codec, content, SET, path, Some(raw));
             var there := At(plan.before, plan.tokens);
             there.Some? ==> ToldApart(codec, there.value, ParsedValue(codec, raw))
    ensures var plan := PlanForAllowed(codec, content, SET, path, Some(raw));
            var there, value := At(plan.before, plan.tokens), ParsedValue(codec, raw);
            var unwritten := ValueText(codec, there) == ValueText(codec, At(plan.after, plan.tokens));
            && (unwritten <==> there == Some(value) || (there.None? && value == Null))
            && (unwritten && plan.after != plan.before <==> there.None? && value == Null)
  {
    hide At, SetAt, Split, AllNonEmpty, LoadRoot;
    var plan := PlanForAllowed(codec, content, SET, path, Some(raw));
    var there, value := At(plan.before, plan.tokens), ParsedValue(codec, raw);
    ReadSet(plan.before, plan.tokens, value, []);
    assert plan.tokens + [] == plan.tokens;
    AtRoot(value);
    if there == Some(value) { SetWhatIsThere(plan.before, plan.tokens); }
  }

  /** Such a set: a null for `tools.x` when there is no file yet. */
  lemma NullIntoNoFile(codec: Codec)
    requires codec.parse("{}\n") == Some(EMPTY) && codec.parse("null") == Some(Null) && codec.render(Null) == "null"
    ensures var plan := PlanForAllowed(codec, None, SET, "tools.x", Some("null"));
            && plan.Edit? && plan.after != plan.before
            && ValueText(codec, At(plan.before, plan.tokens)) == ValueText(codec, At(plan.after, plan.tokens))
  {
    hide Split;
    var tokens := ["tools", "x"];
    assert "tools.x" == "tools" + ['.'] + "x";
    SplitFirst("tools", '.', "x");
    SplitUnfold("x", '.');
    assert Split("tools.x", '.') == tokens;
    assert At(EMPTY, tokens).None? && SetAt(EMPTY, ["x"], Null).Some?;
    assert tokens[1..] == ["x"];
    UnwrittenSetIff(codec, None, "tools.x", "null");
  }

  /** End to end: after a written set, reading the same path from the file gives the new value's
      text if the path is on the lists as it stands; the reader does not trim it first, so a padded
      path that could be set is refused. The parser is supposed to read back what the printer
      wrote, within the size limit. */
  lemma WrittenSetIsReadBack(codec: Codec, content: Option<string>, path: string, raw: string)
    requires PlanFor(codec, content, SET, path, Some(raw)).Edit?
    requires var plan := PlanFor(codec, content, SET, path, Some(raw));
             var written := WithNewline(codec.render(plan.after));
             codec.parse(written) == Some(plan.after) && |written| <= CONFIG_MAX_SIZE
    ensures var plan := PlanFor(codec, content, SET, path, Some(raw));
            ReadPath(codec, Some(WithNewline(codec.render(plan.after))), path) ==
            if IsAllowed(path) then ReadText(codec.render(ParsedValue(codec, raw)))
            else ReadFailed(PermissionDenied)
  {
    hide At, SetAt, Split, Trim, IsAllowed, AllNonEmpty, WithNewline;
    TrimTwice(path);
    AllowedSetIsReadBack(codec, content, Trim(path), raw);
    EmptyTrim();
  }

  lemma EmptyTrim()
    ensures Trim("") == ""
  {
  }

  lemma AllowedSetIsReadBack(codec: Codec, content: Option<string>, path: string, raw: string)
    requires PlanForAllowed(codec, content, SET, path, Some(raw)).Edit? && path != "" && path == Trim(path)
    requires var plan := PlanForAllowed(codec, content, SET, path, Some(raw));
             var written := WithNewline(codec.render(plan.after));
             codec.parse(written) == Some(plan.after) && |written| <= CONFIG_MAX_SIZE
    ensures var plan := PlanForAllowed(codec, content, SET, path, Some(raw));
            ReadAllowed(codec, Some(WithNewline(codec.render(plan.after))), path) ==
            ReadText(codec.render(ParsedValue(codec, raw)))
  {
    hide At, SetAt, Split, Trim, AllNonEmpty, WithNewline;
    var plan := PlanForAllowed(codec, content, SET, path, Some(raw));
    var value := ParsedValue(codec, raw);
    ReadSet(plan.before, plan.tokens, value, []);
    assert plan.tokens + [] == plan.tokens;
    AtRoot(value);
    SetGivesObject(plan.before, plan.tokens, value);
  }

  /** A path that can be set and not read. */
  lemma PaddedPathIsNotReadBack()
    ensures Trim(" tools.x") == "tools.x" && IsAllowed("tools.x") && !IsAllowed(" tools.x")
  {
    assert IsAllowed("tools.x") by { assert ALLOWED_PREFIX[|ALLOWED_PREFIX| - 1] == "tools." <= "tools.x"; }
    LeadingBlankIsNotAllowed(" tools.x");
    TrimLeftIs(" tools.x", 1);
    assert " tools.x"[1..] == "tools.x";
    TrimRightIs("tools.x", 7);
    assert "tools.x"[..7] == "tools.x";
  }

  /** No entry of the lists starts with a blank, so no path that does is allowed as it stands. */
  lemma LeadingBlankIsNotAllowed(path: string)
    requires path != "" && IsBlank(path[0])
    ensures !IsAllowed(path)
  {
    assert forall i :: 0 <= i < |ALLOWED_EXACT| ==> |ALLOWED_EXACT[i]| > 0 && !IsBlank(ALLOWED_EXACT[i][0]);
    assert forall i :: 0 <= i < |ALLOWED_PREFIX| ==> |ALLOWED_PREFIX[i]| > 0 && !IsBlank(ALLOWED_PREFIX[i][0]);
  }

  lemma SetGivesObject(root: Json, path: Path, value: Json)
    requires path != [] && SetAt(root, path, value).Some?
    ensures SetAt(root, path, value).value.Object?
  {
  }

  // ----- plans in terms of the raw request and the raw file

  /** The text the parser is given: the file's, or an empty object's when there is no file. */
  function FileText(content: Option<string>): string {
    if content.Some? then content.value else "{}\n"
  }

  /** A set plans the value that the raw text parses to, and the raw text itself as a string when
      it does not parse. */
  lemma PlannedValue(codec: Codec, content: Option<string>, path: string, raw: string)
    requires PlanForAllowed(codec, content, SET, path, Some(raw)).Edit?
    ensures var plan := PlanForAllowed(codec, content, SET, path, Some(raw));
            At(plan.after, Split(path, '.')) ==
            match codec.parse(raw) case None => Some(String(raw)) case Some(v) => Some(v)
  {
    hide At, SetAt, Split, AllNonEmpty, LoadRoot;
    var plan := PlanForAllowed(codec, content, SET, path, Some(raw));
    var value := ParsedValue(codec, raw);
    ReadSet(plan.before, plan.tokens, value, []);
    assert plan.tokens + [] == plan.tokens;
    AtRoot(value);
  }

  /** Setting `reasoning_effort` to `high`, which is not JSON, plans the string. */
  lemma BareWordIsString(codec: Codec, content: Option<string>)
    requires codec.parse("high").None?
    requires PlanForAllowed(codec, content, SET, "reasoning_effort", Some("high")).Edit?
    ensures var plan := PlanForAllowed(codec, content, SET, "reasoning_effort", Some("high"));
            At(plan.after, Split("reasoning_effort", '.')) == Some(String("high"))
  {
    PlannedValue(codec, content, "reasoning_effort", "high");
  }

  /** An edit starts from the object the file holds, or from an empty one when it holds anything
      else; it is of the path's segments. */
  lemma PlannedBefore(codec: Codec, content: Option<string>, action: Action, path: string, raw: Option<string>)
    requires PlanForAllowed(codec, content, action, path, raw).Edit?
    ensures var plan := PlanForAllowed(codec, content, action, path, raw);
            && plan.tokens == Split(path, '.')
            && match codec.parse(FileText(content))
               case Some(Object(pairs)) => plan.before == Object(pairs)
               case Some(_) => plan.before == Object([])
               case None => false
  {
    hide SetAt, RemoveAt, Split, AllNonEmpty;
  }

  /** Exactly which requests are refused, and why: the first of these that applies decides. */
  lemma RefusedIff(codec: Codec, content: Option<string>, action: Action, path: string, raw: Option<string>)
    ensures PlanFor(codec, content, action, path, raw) == PlanForAllowed(codec, content, action, Trim(path), raw) ||
            PlanFor(codec, content, action, path, raw).Refused?
    ensures var plan, text, tokens :=
              PlanFor(codec, content, action, path, raw), Trim(path), Split(Trim(path), '.');
            if text == "" then plan == Refused(InvalidArgument)
            else if !IsAllowed(text) then plan == Refused(PermissionDenied)
            else if action == SET && (raw == None || raw == Some("")) then plan == Refused(InvalidArgument)
            else if content.Some? && |content.value| > 1048576 then plan == Refused(InvalidArgument)
            else if codec.parse(FileText(content)) == None then plan == Refused(ParseError)
            else if exists j :: 0 <= j < |tokens| && tokens[j] == "" then plan == Refused(InvalidArgument)
            else
              var root := codec.parse(FileText(content)).value;
              if action == SET && root.Object? && Blocked(root, tokens) then plan == Refused(OutOfMemory)
              else plan.Edit?
  {
    hide IsAllowed, Trim, Split, PlanForAllowed, AllNonEmpty, Blocked;
    RefusedAllowedIff(codec, content, action, Trim(path), raw);
    SomeEmpty(Split(Trim(path), '.'));
  }

  lemma SomeEmpty(tokens: Path)
    ensures !AllNonEmpty(tokens) <==> exists j :: 0 <= j < |tokens| && tokens[j] == ""
  {
  }

  lemma RefusedAllowedIff(codec: Codec, content: Option<string>, action: Action, path: string, raw: Option<string>)
    ensures var plan, tokens := PlanForAllowed(codec, content, action, path, raw), Split(path, '.');
            if action == SET && (raw == None || raw == Some("")) then plan == Refused(InvalidArgument)
            else if content.Some? && |content.value| > 1048576 then plan == Refused(InvalidArgument)
            else if codec.parse(FileText(content)) == None then plan == Refused(ParseError)
            else if !AllNonEmpty(tokens) then plan == Refused(InvalidArgument)
            else
              var root := codec.parse(FileText(content)).value;
              if action == SET && root.Object? && Blocked(root, tokens) then plan == Refused(OutOfMemory)
              else plan.Edit?
  {
    hide Split, SetAt, RemoveAt, Blocked, AllNonEmpty, ParsedValue;
    var tokens := Split(path, '.');
    var parsed := codec.parse(FileText(content));
    if parsed.Some? && action == SET && raw.Some? {
      var root := if parsed.value.Object? then parsed.value else EMPTY;
      NothingBlockedBelowEmpty(tokens);
      SetFailsIffBlocked(root, tokens, ParsedValue(codec, raw.value));
    }
  }

  /** What is written ends with a newline, and one is added only when there is none. */
  lemma WrittenText(text: string)
    ensures var r := WithNewline(text);
            && r != "" && r[|r| - 1] == '\n'
            && (r == text <==> text != "" && text[|text| - 1] == '\n')
            && (r != text ==> r == text + "\n")
  {
    if text == "" || text[|text| - 1] != '\n' {
      assert |text + "\n"| == |text| + 1;
    }
  }

  /** Which edits ask for a restart: the backend and the profile of the memory, and everything
      about channels and the runtime. */
  lemma RestartExamples()
    ensures RequiresRestart("channels.telegram.token") && RequiresRestart("runtime.kind")
    ensures RequiresRestart("memory.backend") && RequiresRestart("memory.profile")
    ensures !RequiresRestart("memory.auto_save") && !RequiresRestart("channels") && !RequiresRestart("runtime")
    ensures !RequiresRestart("memory.backend.x") && !RequiresRestart("tools.x")
  {
    assert "channels." <= "channels.telegram.token" && "runtime." <= "runtime.kind";
    assert "memory.auto_save"[0] == 'm' && "tools.x"[0] == 't' && "memory.backend.x"[0] == 'm';
    assert "memory.auto_save"[7] != "memory.backend"[7] && "memory.auto_save"[7] != "memory.profile"[7];
    assert |"memory.backend.x"| != |"memory.backend"| && |"memory.backend.x"| != |"memory.profile"|;
  }

  /** A missing value is printed as null, any other as itself. */
  lemma ValueTexts(codec: Codec, j: Json)
    ensures ValueText(codec, None) == "null" && ValueText(codec, Some(j)) == codec.render(j)
  {
  }

  /** A disk that takes everything leaves the old file as the backup. */
  lemma BackupIsOldFile(disk: Disk, text: string, backup: Option<string>)
    requires disk.backupOpens && disk.backupLength >= |text|
    ensures BackedUp(disk, Some(text), backup) == Some(text) && BackedUp(disk, None, backup) == backup
  {
  }

  /** Exactly what a reader gets, in terms of the raw path and the raw file. */
  lemma ReadIff(codec: Codec, content: Option<string>, path: string)
    ensures var r, tokens := ReadPath(codec, content, path), Split(Trim(path), '.');
            if path == "" then r == ReadFailed(InvalidArgument)
            else if !IsAllowed(path) then r == ReadFailed(PermissionDenied)
            else if content.Some? && |content.value| > 1048576 then r == ReadFailed(InvalidArgument)
            else if codec.parse(FileText(content)) == None then r == ReadFailed(ParseError)
            else if Trim(path) == "" || exists j :: 0 <= j < |tokens| && tokens[j] == ""
            then r == ReadFailed(InvalidArgument)
            else
              var root := codec.parse(FileText(content)).value;
              var value := if root.Object? then At(root, tokens) else At(Object([]), tokens);
              r == ReadText(match value case None => "null" case Some(j) => codec.render(j))
  {
    hide IsAllowed, Trim, Split, At;
    assert !AllNonEmpty(Split(Trim(path), '.')) <==>
           exists j :: 0 <= j < |Split(Trim(path), '.')| && Split(Trim(path), '.')[j] == "";
  }
}
