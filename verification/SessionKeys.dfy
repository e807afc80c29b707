/** Agent-id normalisation and session keys of src/agent_routing.c. */
module SessionKeys {
  import opened Text
  import opened Wrappers

  // ----- normalize_id

  predicate IsAlnum(c: char) {
    '0' <= c <= '9' || 'a' <= c <= 'z' || 'A' <= c <= 'Z'
  }

  function ToLower(c: char): char {
    if 'A' <= c <= 'Z' then c - 'A' + 'a' else c
  }

  function NormChar(c: char): char {
    if IsAlnum(c) then ToLower(c) else '-'
  }

  function NormText(s: string): (t: string)
    ensures |t| == |s| && forall i :: 0 <= i < |s| ==> t[i] == NormChar(s[i])
  {
    if s == "" then "" else [NormChar(s[0])] + NormText(s[1..])
  }

  function DropLeadingDashes(s: string): string {
    if s != "" && s[0] == '-' then DropLeadingDashes(s[1..]) else s
  }

  function DropTrailingDashes(s: string): string {
    if s != "" && s[|s| - 1] == '-' then DropTrailingDashes(s[..|s| - 1]) else s
  }

  /** At most `size` characters are looked at; a null or empty id is the default one. */
  function Normalized(input: Option<string>, size: nat): string {
    if input.None? then "default"
    else
      var s := input.value;
      var t := DropTrailingDashes(DropLeadingDashes(NormText(s[..if |s| < size then |s| else size])));
      if t == "" then "default" else t
  }

  /** Leading and trailing dashes can be counted from the outside in. */
  lemma {:induction false} DropLeadingIs(s: string, n: nat)
    requires n <= |s| && (forall k :: 0 <= k < n ==> s[k] == '-') && (n < |s| ==> s[n] != '-')
    ensures DropLeadingDashes(s) == s[n..]
  {
    if n > 0 { DropLeadingIs(s[1..], n - 1); }
  }

  lemma {:induction false} DropTrailingIs(s: string, n: nat)
    requires n <= |s| && (forall k :: n <= k < |s| ==> s[k] == '-') && (n > 0 ==> s[n - 1] != '-')
    ensures DropTrailingDashes(s) == s[..n]
    decreases |s|
  {
    if n < |s| {
      DropTrailingIs(s[..|s| - 1], n);
      assert s[..|s| - 1][..n] == s[..n];
    } else {
      assert s[..n] == s;
    }
  }

  lemma TrimIs(text: string, start: nat, out: nat)
    requires start <= out <= |text|
    requires forall k :: 0 <= k < start || out <= k < |text| ==> text[k] == '-'
    requires start < |text| ==> text[start] != '-'
    requires out > start ==> text[out - 1] != '-'
    requires out == start ==> start == |text|
    ensures DropTrailingDashes(DropLeadingDashes(text)) == text[start..out]
  {
    DropLeadingIs(text, start);
    DropTrailingIs(text[start..], out - start);
    assert text[start..][..out - start] == text[start..out];
  }

  lemma EmptyNormalizes(s: string, size: nat)
    requires s == "" || size == 0
    ensures Normalized(Some(s), size) == "default"
  {
    assert NormText(s[..if |s| < size then |s| else size]) == "";
  }

  /** Where the terminator goes: behind the text in the buffer without its trailing dashes. */
  function TerminatorAt(s: string, size: nat): nat {
    |DropTrailingDashes(NormText(s[..if |s| < size then |s| else size]))|
  }

  /** An id that reaches the end of the buffer with nothing to trim there. */
  predicate Overruns(input: Option<string>, size: nat) {
    input.Some? && 0 < size <= |input.value| && IsAlnum(input.value[size - 1])
  }

  /** The terminator stays inside the buffer exactly when the id does not overrun it. */
  lemma OverrunIff(s: string, size: nat)
    requires size > 0
    ensures TerminatorAt(s, size) <= size
    ensures TerminatorAt(s, size) == size <==> Overruns(Some(s), size)
  {
    var text := NormText(s[..if |s| < size then |s| else size]);
    if |s| >= size {
      assert text[size - 1] == NormChar(s[size - 1]);
      if IsAlnum(s[size - 1]) {
        DropTrailingIs(text, size);
      } else {
        DropTrailingShrinks(text[..size - 1]);
      }
    } else {
      DropTrailingShrinks(text);
    }
  }

  lemma {:induction false} DropTrailingShrinks(s: string)
    ensures |DropTrailingDashes(s)| <= |s|
    decreases |s|
  {
    if s != "" && s[|s| - 1] == '-' { DropTrailingShrinks(s[..|s| - 1]); }
  }

  /** 64 letters are such an id, 63 are not. */
  lemma SixtyFourLettersOverrun()
    ensures var name := seq(64, _ => 'a');
            TerminatorAt(name, NORM_BUF) == NORM_BUF && TerminatorAt(name[..63], NORM_BUF) < NORM_BUF
  {
    var name := seq(64, _ => 'a');
    OverrunIff(name, NORM_BUF);
    OverrunIff(name[..63], NORM_BUF);
  }

  /** The C loop. Where C would write its terminator one cell behind the buffer, which leaves
      nothing defined to return, this one stops and reports `overrun`. */
  method NormalizeId(buf: array<char>, input: Option<string>) returns (id: string, overrun: bool)
    requires input.Some? ==> Lacks(input.value, NUL)
    modifies buf
    ensures overrun <==>
            input.Some? && 0 < buf.Length <= |input.value| && IsAlnum(input.value[buf.Length - 1])
    ensures !overrun ==> id == Normalized(input, buf.Length)
  {
    hide NormText, DropLeadingDashes, DropTrailingDashes, CStr;
    if buf.Length == 0 {
      if input.Some? { EmptyNormalizes(input.value, 0); }
      return "default", false;
    }
    if input.None? || |input.value| == 0 {
      if input.Some? { EmptyNormalizes(input.value, buf.Length); }
      return "default", false;
    }
    var s := input.value;
    ghost var head := s[..if |s| < buf.Length then |s| else buf.Length];
    var i, out := 0, 0;
    while i < |s| && out < buf.Length
      invariant 0 <= i == out <= |head|
      invariant forall k :: 0 <= k < out ==> buf[k] == NormChar(s[k])
    {
      if IsAlnum(s[i]) { buf[out] := ToLower(s[i]); } else { buf[out] := '-'; }
      out := out + 1;
      i := i + 1;
    }
    ghost var text := NormText(head);
    assert |text| == out && forall k :: 0 <= k < out ==> buf[k] == text[k];
    var start := 0;
    while start < out && buf[start] == '-'
      invariant 0 <= start <= out
      invariant forall k :: 0 <= k < start ==> text[k] == '-'
    {
      start := start + 1;
    }
    while out > start && buf[out - 1] == '-'
      invariant start <= out <= |text|
      invariant forall k :: out <= k < |text| ==> text[k] == '-'
    {
      out := out - 1;
    }
    TrimIs(text, start, out);
    if start >= out { return "default", false; }
    if out == buf.Length { return "", true; }
    ghost var trimmed := text[start..out];
    assert forall k :: 0 <= k < |trimmed| ==> buf[start + k] == trimmed[k];
    NormCharIsNotNul(head);
    buf[out] := NUL;
    CStrIs(buf[start..], trimmed);
    return CStr(buf[start..]), false;
  }

  lemma NormCharIsNotNul(s: string)
    ensures Lacks(NormText(s), NUL)
  {
  }

  predicate IsIdChar(c: char) {
    '0' <= c <= '9' || 'a' <= c <= 'z' || c == '-'
  }

  /** Lower-case letters, digits and inner dashes. */
  predicate IsNormalId(id: string) {
    && id != ""
    && (forall k :: 0 <= k < |id| ==> IsIdChar(id[k]))
    && id[0] != '-' && id[|id| - 1] != '-'
  }

  lemma {:induction false} TrimmedText(s: string)
    requires forall k :: 0 <= k < |s| ==> IsIdChar(s[k])
    ensures var t := DropTrailingDashes(DropLeadingDashes(s));
            |t| <= |s| && (t == "" || IsNormalId(t))
    decreases |s|
  {
    if s != "" && s[0] == '-' {
      TrimmedText(s[1..]);
    } else if s != "" && s[|s| - 1] == '-' {
      var u := s[..|s| - 1];
      if u == "" || u[0] != '-' { TrimmedText(u); }
    }
  }

  lemma NormalizedIsNormal(input: Option<string>, size: nat)
    ensures IsNormalId(Normalized(input, size))
    ensures |Normalized(input, size)| <= size || Normalized(input, size) == "default"
  {
    if input.Some? {
      var s := input.value;
      TrimmedText(NormText(s[..if |s| < size then |s| else size]));
    }
  }

  /** An id has a normal form in C and is its own exactly when it is normal and leaves room for
      the terminator. */
  lemma NormalizeFixpoint(id: string, size: nat)
    requires size >= 7
    ensures Normalized(Some(id), size) == id && !Overruns(Some(id), size) <==> IsNormalId(id) && |id| < size
  {
    NormalizedIsNormal(Some(id), size);
    if IsNormalId(id) && |id| <= size { NormalIsFixed(id, size); }
  }

  lemma NormalIsFixed(id: string, size: nat)
    requires IsNormalId(id) && |id| <= size
    ensures Normalized(Some(id), size) == id
  {
    assert id[..|id|] == id;
    assert NormText(id) == id;
    DropLeadingIs(id, 0);
    DropTrailingIs(id, |id|);
    assert id[0..] == id;
  }

  lemma NormalizeIdempotent(input: Option<string>, size: nat)
    requires size >= 7
    ensures Normalized(Some(Normalized(input, size)), size) == Normalized(input, size)
  {
    NormalizedIsNormal(input, size);
    NormalIsFixed(Normalized(input, size), size);
  }

  lemma NormalizeIgnoresCase(x: string, y: string, size: nat)
    requires |x| == |y| && forall k :: 0 <= k < |x| ==> ToLower(x[k]) == ToLower(y[k])
    ensures Normalized(Some(x), size) == Normalized(Some(y), size)
  {
    var n := if |x| < size then |x| else size;
    assert forall k :: 0 <= k < n ==> NormChar(x[k]) == NormChar(y[k]);
    assert NormText(x[..n]) == NormText(y[..n]);
  }

  // ----- peers, identity links and keys

  datatype PeerKind = ChatDirect | ChatGroup | ChatChannel

  /** `id` is the C string; a non-zero `idLen` says how much of it is meant. */
  datatype Peer = Peer(kind: PeerKind, id: Option<string>, idLen: nat)

  predicate ValidPeer(p: Peer) {
    p.id.Some? ==> p.idLen <= |p.id.value|
  }

  function EffectiveId(p: Peer): string
    requires ValidPeer(p) && p.id.Some?
  {
    if p.idLen > 0 then p.id.value[..p.idLen] else p.id.value
  }

  datatype IdentityLink = IdentityLink(canonical: string, peers: seq<Option<string>>)

  /** The canonical name of the first link that lists the peer. */
  function LinkedName(id: string, links: seq<IdentityLink>): Option<string> {
    if links == [] then None
    else if Some(id) in links[0].peers then Some(links[0].canonical)
    else LinkedName(id, links[1..])
  }

  /** The double loop; an unlinked peer comes back as the pointer that was passed in. */
  method ResolveLinkedPeer(peer: string, peerLen: nat, links: seq<IdentityLink>) returns (resolved: string)
    requires peerLen <= |peer|
    ensures var name := LinkedName(peer[..peerLen], links);
            resolved == if name.Some? then name.value else peer
  {
    var i := 0;
    assert links[0..] == links;
    while i < |links|
      invariant 0 <= i <= |links|
      invariant LinkedName(peer[..peerLen], links) == LinkedName(peer[..peerLen], links[i..])
    {
      var link := links[i];
      var j := 0;
      while j < |link.peers|
        invariant 0 <= j <= |link.peers|
        invariant forall k :: 0 <= k < j ==> link.peers[k] != Some(peer[..peerLen])
      {
        var p := link.peers[j];
        if p.Some? && peer[..peerLen] == p.value {
          return link.canonical;
        }
        j := j + 1;
      }
      i := i + 1;
    }
    return peer;
  }

  datatype Scope = Main | PerPeer | PerChannelPeer | PerAccountChannelPeer

  function KindName(k: PeerKind): string {
    match k
    case ChatDirect => "direct"
    case ChatGroup => "group"
    case ChatChannel => "channel"
  }

  /** Direct chats print the whole C string of an unlinked peer, other chats its first idLen characters. */
  function PeerPart(p: Peer, links: seq<IdentityLink>): string
    requires ValidPeer(p) && p.id.Some?
  {
    if p.kind.ChatDirect? then
      var name := LinkedName(EffectiveId(p), links);
      if name.Some? then name.value else p.id.value
    else EffectiveId(p)
  }

  const NORM_BUF := 64

  function AccountName(account: Option<string>): string {
    if account.Some? && account.value != "" then account.value else "default"
  }

  function SessionKey(agent: Option<string>, channel: string, peer: Option<Peer>, scope: Scope,
                      account: Option<string>, links: seq<IdentityLink>): string
    requires peer.Some? ==> ValidPeer(peer.value)
  {
    var prefix := "agent:" + Normalized(agent, NORM_BUF) + ":";
    if peer.Some? && peer.value.id.Some? then
      var p := peer.value;
      var tail := KindName(p.kind) + ":" + PeerPart(p, links);
      if !p.kind.ChatDirect? then prefix + (channel + ":" + tail)
      else
        match scope
        case Main => prefix + "main"
        case PerPeer => prefix + tail
        case PerChannelPeer => prefix + (channel + ":" + tail)
        case PerAccountChannelPeer => prefix + (channel + ":" + (AccountName(account) + ":" + tail))
    else prefix + (channel + ":" + ("none" + ":" + "none"))
  }

  function MainSessionKey(agent: Option<string>): string {
    "agent:" + Normalized(agent, NORM_BUF) + ":" + "main"
  }

  method BuildSessionKeyWithScope(agent: Option<string>, channel: string, peer: Option<Peer>, scope: Scope,
                                  account: Option<string>, links: seq<IdentityLink>)
    returns (key: string, overrun: bool)
    requires agent.Some? ==> Lacks(agent.value, NUL)
    requires peer.Some? ==> ValidPeer(peer.value)
    ensures overrun <==> Overruns(agent, NORM_BUF)
    ensures !overrun ==> key == SessionKey(agent, channel, peer, scope, account, links)
  {
    key := "";
    var buf := new char[NORM_BUF];
    var norm;
    norm, overrun := NormalizeId(buf, agent);
    if overrun { return; }
    if peer.Some? && peer.value.id.Some? {
      var p := peer.value;
      var kind := "direct";
      if p.kind == ChatGroup { kind := "group"; } else if p.kind == ChatChannel { kind := "channel"; }
      var len := if p.idLen > 0 then p.idLen else |p.id.value|;
      assert p.id.value[..len] == EffectiveId(p);
      if p.kind != ChatDirect {
        return "agent:" + norm + ":" + (channel + ":" + (kind + ":" + p.id.value[..len])), false;
      }
      var resolved := ResolveLinkedPeer(p.id.value, len, links);
      match scope
      case Main => return "agent:" + norm + ":" + "main", false;
      case PerPeer => return "agent:" + norm + ":" + ("direct" + ":" + resolved), false;
      case PerChannelPeer => return "agent:" + norm + ":" + (channel + ":" + ("direct" + ":" + resolved)), false;
      case PerAccountChannelPeer =>
        var acct := if account.Some? && account.value != "" then account.value else "default";
        return "agent:" + norm + ":" + (channel + ":" + (acct + ":" + ("direct" + ":" + resolved))), false;
    }
    return "agent:" + norm + ":" + (channel + ":" + ("none" + ":" + "none")), false;
  }

  // ----- which inputs share a key

  /** A colon-free component and everything behind its colon can be read back. */
  lemma CutAtColon(a: string, r: string, b: string, s: string)
    requires Lacks(a, ':') && Lacks(b, ':')
    ensures a + ":" + r == b + ":" + s <==> a == b && r == s
  {
    if a + ":" + r == b + ":" + s {
      IndexOfAfter(a, ':', r);
      IndexOfAfter(b, ':', s);
      assert a == (a + ":" + r)[..|a|] && b == (b + ":" + s)[..|b|];
      assert r == (a + ":" + r)[|a| + 1..] && s == (b + ":" + s)[|b| + 1..];
    }
  }

  lemma NormalizedLacksColon(agent: Option<string>)
    ensures Lacks(Normalized(agent, NORM_BUF), ':')
  {
    NormalizedIsNormal(agent, NORM_BUF);
  }

  lemma CutAgent(a: Option<string>, r: string, b: Option<string>, s: string)
    ensures "agent:" + Normalized(a, NORM_BUF) + ":" + r == "agent:" + Normalized(b, NORM_BUF) + ":" + s
            <==> Normalized(a, NORM_BUF) == Normalized(b, NORM_BUF) && r == s
  {
    hide Normalized;
    NormalizedLacksColon(a);
    NormalizedLacksColon(b);
    var x, y := Normalized(a, NORM_BUF), Normalized(b, NORM_BUF);
    CutAtColon(x, r, y, s);
    var u, v := "agent:" + x + ":" + r, "agent:" + y + ":" + s;
    assert u == "agent:" + (x + ":" + r) && v == "agent:" + (y + ":" + s);
    assert u[6..] == x + ":" + r && v[6..] == y + ":" + s;
  }

  /** The conversation a key stands for: none, or a chat kind with a peer name. */
  function Conversation(peer: Option<Peer>, links: seq<IdentityLink>): Option<(PeerKind, string)>
    requires peer.Some? ==> ValidPeer(peer.value)
  {
    if peer.Some? && peer.value.id.Some?
    then Some((peer.value.kind, PeerPart(peer.value, links)))
    else None
  }

  function ConversationText(c: Option<(PeerKind, string)>): string {
    match c
    case None => "none" + ":" + "none"
    case Some((kind, name)) => KindName(kind) + ":" + name
  }

  lemma ConversationTextInjective(c: Option<(PeerKind, string)>, d: Option<(PeerKind, string)>)
    ensures ConversationText(c) == ConversationText(d) <==> c == d
  {
    var x := if c.None? then ("none", "none") else (KindName(c.value.0), c.value.1);
    var y := if d.None? then ("none", "none") else (KindName(d.value.0), d.value.1);
    CutAtColon(x.0, x.1, y.0, y.1);
  }

  predicate IsDirect(c: Option<(PeerKind, string)>) {
    c.Some? && c.value.0.ChatDirect?
  }

  lemma KeyOf(a: Option<string>, chan: string, p: Option<Peer>, scope: Scope, acct: Option<string>,
              links: seq<IdentityLink>)
    requires p.Some? ==> ValidPeer(p.value)
    ensures var text := ConversationText(Conversation(p, links));
            SessionKey(a, chan, p, scope, acct, links) ==
            "agent:" + Normalized(a, NORM_BUF) + ":" +
            if !IsDirect(Conversation(p, links)) then chan + ":" + text
            else
              match scope
              case Main => "main"
              case PerPeer => text
              case PerChannelPeer => chan + ":" + text
              case PerAccountChannelPeer => chan + ":" + (AccountName(acct) + ":" + text)
  {
    hide Normalized, PeerPart;
  }

  /** Main result: under the default scope two inputs share a key exactly when the
      normalised agent, the channel and the conversation agree. For an agent id that overruns
      its buffer C has no key at all, so there the lemma says nothing about the code. */
  lemma PerChannelPeerKeys(a: Option<string>, chan: string, p: Option<Peer>, acct: Option<string>,
                           links: seq<IdentityLink>,
                           a': Option<string>, chan': string, p': Option<Peer>, acct': Option<string>,
                           links': seq<IdentityLink>)
    requires Lacks(chan, ':') && Lacks(chan', ':')
    requires (p.Some? ==> ValidPeer(p.value)) && (p'.Some? ==> ValidPeer(p'.value))
    ensures SessionKey(a, chan, p, PerChannelPeer, acct, links) ==
            SessionKey(a', chan', p', PerChannelPeer, acct', links')
            <==>
            && Normalized(a, NORM_BUF) == Normalized(a', NORM_BUF)
            && chan == chan'
            && Conversation(p, links) == Conversation(p', links')
  {
    hide Normalized, PeerPart;
    var c, c' := Conversation(p, links), Conversation(p', links');
    CutAgent(a, chan + ":" + ConversationText(c), a', chan' + ":" + ConversationText(c'));
    CutAtColon(chan, ConversationText(c), chan', ConversationText(c'));
    ConversationTextInjective(c, c');
  }

  /** The other chat's channel is called `direct`, and the peer is named as its conversation is written. */
  ghost predicate KeysMeet(direct: Option<(PeerKind, string)>, chan: string, other: Option<(PeerKind, string)>)
    requires IsDirect(direct)
  {
    chan == "direct" && direct.value.1 == ConversationText(other)
  }

  /** Under the per-peer scope a direct chat's key leaves out the channel. Keys are shared by direct
      chats with the same peer, by other chats with the same channel and conversation, and by a
      direct and another chat exactly when they meet. */
  lemma PerPeerKeys(a: Option<string>, chan: string, p: Option<Peer>, acct: Option<string>,
                    links: seq<IdentityLink>,
                    a': Option<string>, chan': string, p': Option<Peer>, acct': Option<string>,
                    links': seq<IdentityLink>)
    requires Lacks(chan, ':') && Lacks(chan', ':')
    requires (p.Some? ==> ValidPeer(p.value)) && (p'.Some? ==> ValidPeer(p'.value))
    ensures var c, c' := Conversation(p, links), Conversation(p', links');
            SessionKey(a, chan, p, PerPeer, acct, links) == SessionKey(a', chan', p', PerPeer, acct', links')
            <==>
            && Normalized(a, NORM_BUF) == Normalized(a', NORM_BUF)
            && if IsDirect(c) && IsDirect(c') then c == c'
               else if IsDirect(c) then KeysMeet(c, chan', c')
               else if IsDirect(c') then KeysMeet(c', chan, c)
               else chan == chan' && c == c'
  {
    hide Normalized, PeerPart, SessionKey;
    var c, c' := Conversation(p, links), Conversation(p', links');
    var x, x' := ConversationText(c), ConversationText(c');
    KeyOf(a, chan, p, PerPeer, acct, links);
    KeyOf(a', chan', p', PerPeer, acct', links');
    var t := if IsDirect(c) then x else chan + ":" + x;
    var t' := if IsDirect(c') then x' else chan' + ":" + x';
    CutAgent(a, t, a', t');
    ConversationTextInjective(c, c');
    CutAtColon(chan, x, chan', x');
    if IsDirect(c) { CutAtColon("direct", c.value.1, chan', x'); }
    if IsDirect(c') { CutAtColon("direct", c'.value.1, chan, x); }
  }

  /** The direct chat with `group:x`, and the group chat x of a channel named `direct`. */
  lemma DirectMeetsGroup(chan: string)
    ensures SessionKey(None, chan, Some(Peer(ChatDirect, Some("group:x"), 0)), PerPeer, None, []) ==
            SessionKey(None, "direct", Some(Peer(ChatGroup, Some("x"), 0)), PerPeer, None, [])
  {
    hide Normalized;
    NoLinks("group:x");
    assert "direct" + ":" + "group:x" == "direct" + ":" + ("group" + ":" + "x");
  }

  /** An account name that can stand between the colons of a key without being taken for a
      chat kind. */
  predicate PlainAccount(account: Option<string>) {
    var name := AccountName(account);
    ':' !in name && name != "group" && name != "channel"
  }

  /** Under the per-account scope, with such account names, two inputs share a key exactly when
      normalised agent, channel and conversation agree, and for direct chats the account too. */
  lemma PerAccountKeys(a: Option<string>, chan: string, p: Option<Peer>, acct: Option<string>,
                       links: seq<IdentityLink>,
                       a': Option<string>, chan': string, p': Option<Peer>, acct': Option<string>,
                       links': seq<IdentityLink>)
    requires Lacks(chan, ':') && Lacks(chan', ':') && PlainAccount(acct) && PlainAccount(acct')
    requires (p.Some? ==> ValidPeer(p.value)) && (p'.Some? ==> ValidPeer(p'.value))
    ensures SessionKey(a, chan, p, PerAccountChannelPeer, acct, links) ==
            SessionKey(a', chan', p', PerAccountChannelPeer, acct', links')
            <==>
            && Normalized(a, NORM_BUF) == Normalized(a', NORM_BUF)
            && chan == chan'
            && Conversation(p, links) == Conversation(p', links')
            && (IsDirect(Conversation(p, links)) ==> AccountName(acct) == AccountName(acct'))
  {
    hide Normalized, PeerPart, SessionKey;
    var c, c' := Conversation(p, links), Conversation(p', links');
    KeyOf(a, chan, p, PerAccountChannelPeer, acct, links);
    KeyOf(a', chan', p', PerAccountChannelPeer, acct', links');
    var x := if IsDirect(c) then AccountName(acct) + ":" + ConversationText(c) else ConversationText(c);
    var x' := if IsDirect(c') then AccountName(acct') + ":" + ConversationText(c') else ConversationText(c');
    CutAgent(a, chan + ":" + x, a', chan' + ":" + x');
    CutAtColon(chan, x, chan', x');
    AccountedConversations(c, AccountName(acct), c', AccountName(acct'));
  }

  lemma AccountedConversations(c: Option<(PeerKind, string)>, name: string,
                               c': Option<(PeerKind, string)>, name': string)
    requires Lacks(name, ':') && name != "group" && name != "channel"
    requires Lacks(name', ':') && name' != "group" && name' != "channel"
    ensures var x := if IsDirect(c) then name + ":" + ConversationText(c) else ConversationText(c);
            var x' := if IsDirect(c') then name' + ":" + ConversationText(c') else ConversationText(c');
            x == x' <==> c == c' && (IsDirect(c) ==> name == name')
  {
    ConversationTextInjective(c, c');
    var k := if c.None? then ("none", "none") else (KindName(c.value.0), c.value.1);
    var k' := if c'.None? then ("none", "none") else (KindName(c'.value.0), c'.value.1);
    CutAtColon(name, ConversationText(c), name', ConversationText(c'));
    CutAtColon(name, ConversationText(c), k'.0, k'.1);
    CutAtColon(k.0, k.1, name', ConversationText(c'));
    assert IsDirect(c) ==> ConversationText(c)[0] == 'd';
    assert IsDirect(c') ==> ConversationText(c')[0] == 'd';
  }

  // ----- which part of a peer's id a key depends on

  /** The peer that is meant, spelled out. */
  function Meant(p: Peer): Peer
    requires ValidPeer(p) && p.id.Some?
  {
    p.(id := Some(EffectiveId(p)), idLen := 0)
  }

  /** A key should depend on the meant peer alone. It does so exactly when it is not a direct
      chat's, or names no peer, or the peer is linked, or all of the C string is meant. */
  lemma KeyOfMeantPeerIff(a: Option<string>, chan: string, p: Peer, scope: Scope, acct: Option<string>,
                          links: seq<IdentityLink>)
    requires ValidPeer(p) && p.id.Some?
    ensures SessionKey(a, chan, Some(p), scope, acct, links) ==
            SessionKey(a, chan, Some(Meant(p)), scope, acct, links)
            <==>
            !p.kind.ChatDirect? || scope.Main? || LinkedName(EffectiveId(p), links).Some? ||
            p.idLen == 0 || p.idLen == |p.id.value|
  {
    hide Normalized, SessionKey, LinkedName;
    var m := Meant(p);
    KeyOf(a, chan, Some(p), scope, acct, links);
    KeyOf(a, chan, Some(m), scope, acct, links);
    var c, c' := Conversation(Some(p), links), Conversation(Some(m), links);
    var x, x' := ConversationText(c), ConversationText(c');
    ConversationTextInjective(c, c');
    assert c == c' <==> PeerPart(p, links) == PeerPart(m, links);
    var name := AccountName(acct);
    CutAgent(a, x, a, x');
    CutAgent(a, chan + ":" + x, a, chan + ":" + x');
    CutAgent(a, chan + ":" + (name + ":" + x), a, chan + ":" + (name + ":" + x'));
    SamePrefix(chan + ":", x, x');
    SamePrefix(name + ":", x, x');
    SamePrefix(chan + ":", name + ":" + x, name + ":" + x');
  }

  lemma SamePrefix(prefix: string, x: string, y: string)
    ensures prefix + x == prefix + y <==> x == y
  {
    assert (prefix + x)[|prefix|..] == x && (prefix + y)[|prefix|..] == y;
  }

  /** Two peers that both mean `bob` have different keys. */
  lemma SameMeantPeerDifferentKeys(chan: string)
    ensures var p, q := Peer(ChatDirect, Some("bob42"), 3), Peer(ChatDirect, Some("bob"), 0);
            && Meant(p) == Meant(q) == q
            && SessionKey(None, chan, Some(p), PerChannelPeer, None, []) !=
               SessionKey(None, chan, Some(q), PerChannelPeer, None, [])
  {
    var p := Peer(ChatDirect, Some("bob42"), 3);
    assert "bob42"[..3] == "bob";
    NoLinks("bob");
    KeyOfMeantPeerIff(None, chan, p, PerChannelPeer, None, []);
  }

  /** The account name up to its first colon. */
  function FirstSegment(acct: string): string {
    acct[..IndexOf(acct, ':')]
  }

  /** Under the per-account scope a group or channel chat can share the key of an account's direct
      chat, and an account name admits that exactly when its first segment spells a chat kind. */
  ghost predicate AccountIsSeparate(acct: string) {
    forall a: Option<string>, a': Option<string>, chan: string, chan': string, p: Peer, p': Peer,
           acct': Option<string>, links: seq<IdentityLink>, links': seq<IdentityLink> ::
      Lacks(chan, ':') && Lacks(chan', ':') && ValidPeer(p) && ValidPeer(p') && p.id.Some? && p'.id.Some? &&
      p.kind.ChatDirect? && !p'.kind.ChatDirect? ==>
        SessionKey(a, chan, Some(p), PerAccountChannelPeer, Some(acct), links) !=
        SessionKey(a', chan', Some(p'), PerAccountChannelPeer, acct', links')
  }

  lemma PerAccountSeparation(acct: string)
    ensures AccountIsSeparate(acct) <==> FirstSegment(acct) != "group" && FirstSegment(acct) != "channel"
  {
    hide Normalized, LinkedName;
    if FirstSegment(acct) != "group" && FirstSegment(acct) != "channel" {
      forall a: Option<string>, a': Option<string>, chan: string, chan': string, p: Peer, p': Peer,
             acct': Option<string>, links: seq<IdentityLink>, links': seq<IdentityLink> |
        Lacks(chan, ':') && Lacks(chan', ':') && ValidPeer(p) && ValidPeer(p') && p.id.Some? && p'.id.Some? &&
        p.kind.ChatDirect? && !p'.kind.ChatDirect?
        ensures SessionKey(a, chan, Some(p), PerAccountChannelPeer, Some(acct), links) !=
                SessionKey(a', chan', Some(p'), PerAccountChannelPeer, acct', links')
      {
        DirectAndGroupKeysDiffer(a, a', chan, chan', p, p', acct, acct', links, links');
      }
    } else {
      var rest := acct[|FirstSegment(acct)|..];
      KindNamedAccountCollides("", if FirstSegment(acct) == "group" then ChatGroup else ChatChannel, rest, "x");
      assert acct == FirstSegment(acct) + rest;
    }
  }

  /** The account is a chat kind's name, alone or with something behind a colon: its direct chat
      with peer x has the key of the chat of that kind named by what follows. */
  lemma KindNamedAccountCollides(chan: string, kind: PeerKind, rest: string, x: string)
    requires !kind.ChatDirect? && (rest == "" || rest[0] == ':')
    ensures var id := if rest == "" then "direct:" + x else rest[1..] + ":" + ("direct:" + x);
            SessionKey(None, chan, Some(Peer(ChatDirect, Some(x), 0)), PerAccountChannelPeer,
                       Some(KindName(kind) + rest), []) ==
            SessionKey(None, chan, Some(Peer(kind, Some(id), 0)), PerAccountChannelPeer, None, [])
  {
    hide Normalized;
    var p := Peer(ChatDirect, Some(x), 0);
    var name := KindName(kind);
    var id := if rest == "" then "direct:" + x else rest[1..] + ":" + ("direct:" + x);
    NoLinks(x);
    assert "direct" + ":" + x == "direct:" + x;
    if rest != "" {
      assert rest == [':'] + rest[1..];
      assert name + rest + ":" + ("direct:" + x) == name + ":" + id;
    } else {
      assert name + rest == name;
    }
    assert SessionKey(None, chan, Some(p), PerAccountChannelPeer, Some(name + rest), []) ==
      "agent:" + Normalized(None, NORM_BUF) + ":" + (chan + ":" + (name + rest + ":" + ("direct:" + x)));
    assert SessionKey(None, chan, Some(Peer(kind, Some(id), 0)), PerAccountChannelPeer, None, []) ==
      "agent:" + Normalized(None, NORM_BUF) + ":" + (chan + ":" + (name + ":" + id));
  }

  /** The direct chat of account `group:7` with x, and the group chat `7:direct:x`. */
  lemma ColonAccountCollides(chan: string)
    ensures SessionKey(None, chan, Some(Peer(ChatDirect, Some("x"), 0)), PerAccountChannelPeer, Some("group:7"), []) ==
            SessionKey(None, chan, Some(Peer(ChatGroup, Some("7:direct:x"), 0)), PerAccountChannelPeer, None, [])
  {
    hide SessionKey;
    KindNamedAccountCollides(chan, ChatGroup, ":7", "x");
    assert "group" + ":7" == "group:7" && ":7"[1..] + ":" + ("direct:" + "x") == "7:direct:x";
  }

  lemma NoLinks(id: string)
    ensures LinkedName(id, []) == None
  {
  }

  lemma DirectAndGroupKeysDiffer(a: Option<string>, a': Option<string>, chan: string, chan': string, p: Peer, p': Peer,
                                 acct: string, acct': Option<string>,
                                 links: seq<IdentityLink>, links': seq<IdentityLink>)
    requires FirstSegment(acct) != "group" && FirstSegment(acct) != "channel"
    requires Lacks(chan, ':') && Lacks(chan', ':') && ValidPeer(p) && ValidPeer(p') && p.id.Some? && p'.id.Some?
    requires p.kind.ChatDirect? && !p'.kind.ChatDirect?
    ensures SessionKey(a, chan, Some(p), PerAccountChannelPeer, Some(acct), links) !=
            SessionKey(a', chan', Some(p'), PerAccountChannelPeer, acct', links')
  {
    hide Normalized, PeerPart;
    var name := AccountName(Some(acct));
    var direct := "direct" + ":" + PeerPart(p, links);
    var tail := name + ":" + direct;
    var tail' := KindName(p'.kind) + ":" + PeerPart(p', links');
    CutAgent(a, chan + ":" + tail, a', chan' + ":" + tail');
    CutAtColon(chan, tail, chan', tail');
    var first := FirstSegment(name);
    if first == name {
      CutAtColon(name, direct, KindName(p'.kind), PeerPart(p', links'));
    } else {
      var rest := name[|first| + 1..];
      assert name == first + ":" + rest;
      assert tail == first + ":" + (rest + ":" + direct);
      CutAtColon(first, rest + ":" + direct, KindName(p'.kind), PeerPart(p', links'));
    }
  }

  // ----- normal forms, links and names, spelled out

  /** A character as it stands in a normal id. */
  function InNormalId(c: char): char {
    if 'A' <= c <= 'Z' then ['a', 'b', 'c', 'd', 'e', 'f', 'g', 'h', 'i', 'j', 'k', 'l', 'm', 'n', 'o', 'p', 'q', 'r',
                             's', 't', 'u', 'v', 'w', 'x', 'y', 'z'][c as int - 'A' as int]
    else if 'a' <= c <= 'z' || '0' <= c <= '9' then c
    else '-'
  }

  /** The text between the first and the last letter or digit is kept position by position, letters
      in lower case and everything that is no letter or digit as a dash; what stands around it goes. */
  lemma NormalizedText(left: string, s: string, right: string, size: nat)
    requires s != "" && InNormalId(s[0]) != '-' && InNormalId(s[|s| - 1]) != '-'
    requires forall k :: 0 <= k < |left| ==> InNormalId(left[k]) == '-'
    requires forall k :: 0 <= k < |right| ==> InNormalId(right[k]) == '-'
    requires |left + s + right| <= size
    ensures var t := Normalized(Some(left + s + right), size);
            |t| == |s| && forall k :: 0 <= k < |s| ==> t[k] == InNormalId(s[k])
  {
    hide DropLeadingDashes, DropTrailingDashes, InNormalId, NormText;
    var all := left + s + right;
    assert all[..|all|] == all;
    var text := NormText(all);
    NormTextIs(all);
    assert text == NormText(all) && |text| == |all|;
    forall k | 0 <= k < |left| ensures text[k] == '-' { assert all[k] == left[k]; }
    forall k | 0 <= k < |s| ensures text[|left| + k] == InNormalId(s[k]) { assert all[|left| + k] == s[k]; }
    var out := |left| + |s|;
    forall k | out <= k < |text| ensures text[k] == '-' { assert all[k] == right[k - out]; }
    assert text[|left| + 0] != '-' && text[|left| + (|s| - 1)] != '-';
    TrimIs(text, |left|, out);
  }

  lemma NormTextIs(s: string)
    ensures forall k :: 0 <= k < |s| ==> NormText(s)[k] == InNormalId(s[k])
  {
    hide NormText;
    forall k | 0 <= k < |s| ensures NormText(s)[k] == InNormalId(s[k]) { NormCharIs(s[k]); }
  }

  lemma NormCharIs(c: char)
    ensures NormChar(c) == InNormalId(c)
  {
  }

  /** No id, an empty one and one without letters and digits are the default one. */
  lemma NormalizedToDefault(s: string, size: nat)
    requires forall k :: 0 <= k < |s| ==> InNormalId(s[k]) == '-'
    ensures Normalized(None, size) == Normalized(Some(s), size) == "default"
  {
    hide DropLeadingDashes, DropTrailingDashes, InNormalId, NormText;
    var head := s[..if |s| < size then |s| else size];
    var text := NormText(head);
    NormTextIs(head);
    forall k | 0 <= k < |text| ensures text[k] == '-' { assert head[k] == s[k]; }
    TrimIs(text, |text|, |text|);
    assert text[|text|..|text|] == "";
  }

  /** Only what the buffer can take is looked at. */
  lemma NormalizedLooksNoFurther(s: string, size: nat)
    requires |s| >= size
    ensures Normalized(Some(s), size) == Normalized(Some(s[..size]), size)
  {
    assert s[..size][..size] == s[..size];
  }

  /** The name of a peer is that of the first link that lists it. */
  lemma {:induction false} LinkedNameIs(id: string, links: seq<IdentityLink>)
    ensures (forall i :: 0 <= i < |links| ==> Some(id) !in links[i].peers) ==> LinkedName(id, links) == None
    ensures forall i ::
              (0 <= i < |links| && Some(id) in links[i].peers && forall k :: 0 <= k < i ==> Some(id) !in links[k].peers)
              ==> LinkedName(id, links) == Some(links[i].canonical)
  {
    if links != [] {
      LinkedNameIs(id, links[1..]);
      assert forall i :: 0 <= i < |links[1..]| ==> links[1..][i] == links[i + 1];
      forall i | 0 < i < |links| && Some(id) in links[i].peers && forall k :: 0 <= k < i ==> Some(id) !in links[k].peers
        ensures LinkedName(id, links) == Some(links[i].canonical)
      {
        assert links[1..][i - 1] == links[i];
        assert Some(id) !in links[0].peers;
      }
    }
  }

  /** The keys in full, scope by scope; the account is `default` when there is none or an empty one. */
  lemma DirectKeyTexts(agent: Option<string>, chan: string, id: string, account: Option<string>)
    ensures var key := (s: Scope) => SessionKey(agent, chan, Some(Peer(ChatDirect, Some(id), 0)), s, account, []);
            var start := "agent:" + Normalized(agent, 64);
            var name := if account == None || account == Some("") then "default" else account.value;
            && key(Main) == start + ":main" == MainSessionKey(agent)
            && key(PerPeer) == start + ":direct:" + id
            && key(PerChannelPeer) == start + ":" + chan + ":direct:" + id
            && key(PerAccountChannelPeer) == start + ":" + chan + ":" + name + ":direct:" + id
  {
    hide Normalized;
    NoLinks(id);
    var start := "agent:" + Normalized(agent, 64);
    Glue(start, chan, AccountName(account), "direct", id);
  }

  /** Parts joined from the back are the parts joined from the front. */
  lemma Glue(start: string, chan: string, name: string, kind: string, id: string)
    ensures start + ":" + (kind + ":" + id) == start + (":" + kind + ":") + id
    ensures start + ":" + (chan + ":" + (kind + ":" + id)) == start + ":" + chan + (":" + kind + ":") + id
    ensures start + ":" + (chan + ":" + (name + ":" + (kind + ":" + id))) ==
            start + ":" + chan + ":" + name + (":" + kind + ":") + id
  {
  }

  lemma OtherKeyTexts(agent: Option<string>, chan: string, id: string, s: Scope, account: Option<string>,
                      links: seq<IdentityLink>)
    ensures var key := (p: Option<Peer>) requires p.Some? ==> ValidPeer(p.value) =>
                         SessionKey(agent, chan, p, s, account, links);
            var start := "agent:" + Normalized(agent, 64) + ":" + chan;
            && key(Some(Peer(ChatGroup, Some(id), 0))) == start + ":group:" + id
            && key(Some(Peer(ChatChannel, Some(id), 0))) == start + ":channel:" + id
            && key(None) == key(Some(Peer(ChatDirect, None, 0))) == start + ":none:none"
  {
    hide Normalized;
    var start := "agent:" + Normalized(agent, 64) + ":" + chan;
    var front := "agent:" + Normalized(agent, 64) + ":";
    assert front + (chan + ":" + ("group" + ":" + id)) == start + ":group:" + id;
    assert front + (chan + ":" + ("channel" + ":" + id)) == start + ":channel:" + id;
    assert front + (chan + ":" + ("none" + ":" + "none")) == start + ":none:none";
  }
}
