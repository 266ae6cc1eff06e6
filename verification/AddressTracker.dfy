/**
 * The tracker of network interface addresses and online links: what a batch of routing
 * messages does to both collections and which changes it reports.
 */
module AddressTracker {
  import opened Options

  const IFLA_WIRELESS := 11

  type Address = seq<int>

  /** The stored record of an address: its interface, the deprecated flag, and the rest. */
  datatype Info = Info(interface: int, deprecated: bool, rest: seq<int>)

  datatype LinkFlags = LinkFlags(loopback: bool, up: bool, lowerUp: bool, running: bool)

  /** A decoded message; an address message may carry no usable address. */
  datatype Message =
    | Done
    | Error
    | Malformed
    | NewAddr(info: Info, address: Option<Address>, reallyDeprecated: bool)
    | DelAddr(info: Info, address: Option<Address>)
    | NewLink(interface: int, flags: LinkFlags, change: int, attributes: seq<int>)
    | DelLink(interface: int)
    | Other

  /** The interface names and the names to ignore. */
  datatype Env = Env(name: int -> string, ignored: set<string>)

  datatype State = State(addresses: map<Address, Info>, links: set<int>)

  datatype Flags = Flags(address: bool, link: bool, tunnel: bool)

  const CLEAR := Flags(false, false, false)

  datatype Result = Result(s: State, flags: Flags)

  predicate Ignored(env: Env, interface: int) {
    env.ignored != {} && env.name(interface) in env.ignored
  }

  predicate IsTunnel(env: Env, interface: int) {
    var name := env.name(interface);
    |name| >= 3 && name[..3] == "tun"
  }

  predicate IgnoreWireless(change: int, attributes: seq<int>) {
    change == 0 && IFLA_WIRELESS in attributes
  }

  predicate IsOnline(f: LinkFlags) {
    !f.loopback && f.up && f.lowerUp && f.running
  }

  function Canonical(info: Info, reallyDeprecated: bool): Info {
    if reallyDeprecated then info.(deprecated := true) else info
  }

  function SetLink(env: Env, r: Result, interface: int, online: bool): Result {
    if online == (interface in r.s.links) then r
    else Result(r.s.(links := if online then r.s.links + {interface} else r.s.links - {interface}),
                r.flags.(link := true, tunnel := r.flags.tunnel || IsTunnel(env, interface)))
  }

  function Handle(env: Env, r: Result, m: Message): Result {
    match m
    case NewAddr(info, address, reallyDeprecated) =>
      if Ignored(env, info.interface) || address.None? then r
      else
        var value := Canonical(info, reallyDeprecated);
        if address.value in r.s.addresses && r.s.addresses[address.value] == value then r
        else Result(r.s.(addresses := r.s.addresses[address.value := value]), r.flags.(address := true))
    case DelAddr(info, address) =>
      if Ignored(env, info.interface) || address.None? || address.value !in r.s.addresses then r
      else Result(r.s.(addresses := r.s.addresses - {address.value}), r.flags.(address := true))
    case NewLink(interface, flags, change, attributes) =>
      if Ignored(env, interface) || IgnoreWireless(change, attributes) then r
      else SetLink(env, r, interface, IsOnline(flags))
    case DelLink(interface) =>
      if Ignored(env, interface) then r else SetLink(env, r, interface, false)
    case _ => r
  }

  /** The messages after which the rest of the buffer is not looked at. */
  predicate Stops(m: Message) {
    m.Done? || m.Error? || m.Malformed?
  }

  function HandleAll(env: Env, r: Result, batch: seq<Message>): Result
    decreases |batch|
  {
    if batch == [] || Stops(batch[0]) then r else HandleAll(env, Handle(env, r, batch[0]), batch[1..])
  }

  ghost function Tunnels(env: Env, s: State): set<int> {
    set i | i in s.links && IsTunnel(env, i)
  }

  // ------------------------------------------------------------------
  // What one message means
  // ------------------------------------------------------------------

  ghost predicate IsWatched(env: Env, interface: int) {
    forall name :: name in env.ignored ==> env.name(interface) != name
  }

  /**
   * A link message of an interface that is watched puts it online exactly if it is up, its
   * lower layer is up and it is running, and it is not the loopback; a message that
   * reports no change and carries the wireless attribute means nothing.
   */
  lemma LinkMessageMeans(env: Env, r: Result, i: int, loopback: bool, up: bool, lowerUp: bool, running: bool,
                         change: int, attributes: seq<int>)
    ensures var after := Handle(env, r, NewLink(i, LinkFlags(loopback, up, lowerUp, running), change, attributes)).s;
            && (IsWatched(env, i) && (change != 0 || forall k :: 0 <= k < |attributes| ==> attributes[k] != 11) ==>
                  (i in after.links <==> up && lowerUp && running && !loopback))
            && (!IsWatched(env, i) || (change == 0 && 11 in attributes) ==> after == r.s)
            && (forall j :: j != i ==> (j in after.links <==> j in r.s.links))
            && after.addresses == r.s.addresses
  {
  }

  /**
   * An address message of an interface that is watched stores what it says, deprecated if
   * it says so or if nothing is left of its preferred lifetime.
   */
  lemma AddressMessageMeans(env: Env, r: Result, i: int, deprecated: bool, rest: seq<int>, a: Address, expired: bool)
    ensures var after := Handle(env, r, NewAddr(Info(i, deprecated, rest), Some(a), expired)).s;
            && (IsWatched(env, i) ==>
                  a in after.addresses && after.addresses[a] == Info(i, deprecated || expired, rest))
            && (!IsWatched(env, i) ==> after == r.s)
            && (forall b :: b != a ==> Lookup(after.addresses, b) == Lookup(r.s.addresses, b))
            && after.links == r.s.links
  {
  }

  /** A removal of a watched interface's address or link removes it, and nothing else. */
  lemma RemovalMeans(env: Env, r: Result, info: Info, a: Address, i: int)
    ensures IsWatched(env, info.interface) ==>
              Handle(env, r, DelAddr(info, Some(a))).s == r.s.(addresses := r.s.addresses - {a})
    ensures IsWatched(env, i) ==> Handle(env, r, DelLink(i)).s == r.s.(links := r.s.links - {i})
    ensures !IsWatched(env, info.interface) ==> Handle(env, r, DelAddr(info, Some(a))) == r
    ensures !IsWatched(env, i) ==> Handle(env, r, DelLink(i)) == r
  {
    if a !in r.s.addresses {
      assert r.s.addresses - {a} == r.s.addresses;
    }
    if i !in r.s.links {
      assert forall j :: j in r.s.links ==> j != i;
      SameSet(r.s.links - {i}, r.s.links);
    }
  }

  /**
   * The kernel may send two messages about an address without preferred lifetime, one that
   * is marked deprecated and one that is not: the second of the two, whichever it is, is no change.
   */
  lemma SpuriousPairIsOneChange(env: Env, r: Result, i: int, first: bool, second: bool, rest: seq<int>, a: Address)
    ensures var once := Handle(env, r, NewAddr(Info(i, first, rest), Some(a), true));
            Handle(env, once, NewAddr(Info(i, second, rest), Some(a), true)) == once
  {
  }

  /** Tunnels are the interfaces whose name starts so. */
  lemma TunnelMeans(env: Env, i: int)
    ensures IsTunnel(env, i) <==> exists rest :: env.name(i) == "tun" + rest
  {
    var name := env.name(i);
    if IsTunnel(env, i) {
      assert name == "tun" + name[3..];
    }
    assert forall rest: string :: ("tun" + rest)[..3] == "tun";
  }

  /** Everything behind an end, an error or a malformed message is left unread. */
  lemma {:induction false} StopMeans(env: Env, r: Result, a: seq<Message>, m: Message, b: seq<Message>)
    requires m == Done || m == Error || m == Malformed
    ensures HandleAll(env, r, a + [m] + b) == HandleAll(env, r, a)
    decreases |a|
  {
    hide Handle;
    if a == [] {
      assert (a + [m] + b)[0] == m;
    } else {
      assert (a + [m] + b)[0] == a[0] && (a + [m] + b)[1..] == a[1..] + [m] + b;
      StopMeans(env, Handle(env, r, a[0]), a[1..], m, b);
    }
  }

  // ------------------------------------------------------------------
  // Flags report changes
  // ------------------------------------------------------------------

  /** One message: each flag is raised exactly if what it watches has changed. */
  lemma MessageFlagsExact(env: Env, r: Result, m: Message)
    ensures var r' := Handle(env, r, m);
            && (r'.flags.address <==> r.flags.address || r'.s.addresses != r.s.addresses)
            && (r'.flags.link <==> r.flags.link || r'.s.links != r.s.links)
            && (r'.flags.tunnel <==> r.flags.tunnel || Tunnels(env, r'.s) != Tunnels(env, r.s))
  {
    match m
    case NewAddr(info, address, reallyDeprecated) =>
      if address.Some? && !Ignored(env, info.interface) {
        var value := Canonical(info, reallyDeprecated);
        var a := address.value;
        assert r.s.addresses[a := value][a] == value;
      }
    case DelAddr(info, address) =>
    case NewLink(interface, flags, change, attributes) =>
      SetLinkFlagsExact(env, r, interface, IsOnline(flags));
    case DelLink(interface) =>
      SetLinkFlagsExact(env, r, interface, false);
    case _ =>
  }

  lemma SetLinkFlagsExact(env: Env, r: Result, interface: int, online: bool)
    ensures var r' := SetLink(env, r, interface, online);
            && r'.flags.address == r.flags.address && r'.s.addresses == r.s.addresses
            && (r'.flags.link <==> r.flags.link || r'.s.links != r.s.links)
            && (r'.flags.tunnel <==> r.flags.tunnel || Tunnels(env, r'.s) != Tunnels(env, r.s))
  {
    hide IsTunnel;
    var r' := SetLink(env, r, interface, online);
    if online != (interface in r.s.links) {
      assert interface in r'.s.links <==> online;
      if IsTunnel(env, interface) {
        assert interface in Tunnels(env, r'.s) <==> online;
      } else {
        assert Tunnels(env, r'.s) == Tunnels(env, r.s);
      }
    }
  }

  /** A whole batch: a flag left clear means that nothing it watches has changed. */
  lemma {:induction false} ClearFlagsMeanUnchanged(env: Env, r: Result, batch: seq<Message>)
    ensures var r' := HandleAll(env, r, batch);
            && (!r'.flags.address ==> !r.flags.address && r'.s.addresses == r.s.addresses)
            && (!r'.flags.link ==> !r.flags.link && r'.s.links == r.s.links)
            && (!r'.flags.tunnel ==> !r.flags.tunnel && Tunnels(env, r'.s) == Tunnels(env, r.s))
    decreases |batch|
  {
    if batch != [] && !Stops(batch[0]) {
      MessageFlagsExact(env, r, batch[0]);
      ClearFlagsMeanUnchanged(env, Handle(env, r, batch[0]), batch[1..]);
    }
  }

  // ------------------------------------------------------------------
  // Last writer wins
  // ------------------------------------------------------------------

  datatype Verdict<T> = Untouched | Removed | Set(value: T)

  function AddressVerdict(env: Env, m: Message, a: Address): Verdict<Info> {
    match m
    case NewAddr(info, address, reallyDeprecated) =>
      if !Ignored(env, info.interface) && address == Some(a) then Set(Canonical(info, reallyDeprecated)) else Untouched
    case DelAddr(info, address) =>
      if !Ignored(env, info.interface) && address == Some(a) then Removed else Untouched
    case _ => Untouched
  }

  function LinkVerdict(env: Env, m: Message, interface: int): Verdict<()> {
    match m
    case NewLink(i, flags, change, attributes) =>
      if i != interface || Ignored(env, i) || IgnoreWireless(change, attributes) then Untouched
      else if IsOnline(flags) then Set(()) else Removed
    case DelLink(i) => if i != interface || Ignored(env, i) then Untouched else Removed
    case _ => Untouched
  }

  /** What the last message about the address says. */
  function LastAboutAddress(env: Env, batch: seq<Message>, a: Address): Verdict<Info> {
    if batch == [] || Stops(batch[0]) then Untouched
    else
      var later := LastAboutAddress(env, batch[1..], a);
      if later.Untouched? then AddressVerdict(env, batch[0], a) else later
  }

  /** What the last message about the interface says. */
  function LastAboutLink(env: Env, batch: seq<Message>, interface: int): Verdict<()> {
    if batch == [] || Stops(batch[0]) then Untouched
    else
      var later := LastAboutLink(env, batch[1..], interface);
      if later.Untouched? then LinkVerdict(env, batch[0], interface) else later
  }

  function Lookup(m: map<Address, Info>, a: Address): Option<Info> {
    if a in m then Some(m[a]) else None
  }

  function AfterVerdict(v: Verdict<Info>, before: Option<Info>): Option<Info> {
    match v
    case Untouched => before
    case Removed => None
    case Set(value) => Some(value)
  }

  predicate OnlineAfter(v: Verdict<()>, before: bool) {
    match v
    case Untouched => before
    case Removed => false
    case Set(_) => true
  }

  lemma MessageWrites(env: Env, r: Result, m: Message, a: Address, interface: int)
    ensures var s' := Handle(env, r, m).s;
            && Lookup(s'.addresses, a) == AfterVerdict(AddressVerdict(env, m, a), Lookup(r.s.addresses, a))
            && (interface in s'.links) == OnlineAfter(LinkVerdict(env, m, interface), interface in r.s.links)
  {
    hide IsTunnel, IgnoreWireless, IsOnline, Ignored, Canonical;
  }

  /**
   * After a batch each address has what the last message about it says and each link is
   * as the last message about it says, up to the first message that stops the batch.
   */
  lemma {:induction false} LastWriterWins(env: Env, r: Result, batch: seq<Message>, a: Address, interface: int)
    ensures var s' := HandleAll(env, r, batch).s;
            && Lookup(s'.addresses, a) == AfterVerdict(LastAboutAddress(env, batch, a), Lookup(r.s.addresses, a))
            && (interface in s'.links) == OnlineAfter(LastAboutLink(env, batch, interface), interface in r.s.links)
    decreases |batch|
  {
    if batch != [] && !Stops(batch[0]) {
      hide Handle, AddressVerdict, LinkVerdict;
      MessageWrites(env, r, batch[0], a, interface);
      LastWriterWins(env, Handle(env, r, batch[0]), batch[1..], a, interface);
    }
  }

  lemma SameSet<T>(a: set<T>, b: set<T>)
    requires a - b == {} == b - a
    ensures a == b
  {
    assert forall x :: x in a ==> x in b || x in a - b;
    assert forall x :: x in b ==> x in a || x in b - a;
  }

  lemma Member<T>(a: set<T>) returns (x: T)
    requires a != {}
    ensures x in a
  {
    x :| x in a;
  }

  lemma SameState(s: State, t: State)
    requires forall a :: Lookup(s.addresses, a) == Lookup(t.addresses, a)
    requires forall i :: i in s.links <==> i in t.links
    ensures s == t
  {
    forall a: Address
      ensures a in s.addresses <==> a in t.addresses
      ensures a in s.addresses ==> s.addresses[a] == t.addresses[a]
    {
      assert Lookup(s.addresses, a) == Lookup(t.addresses, a);
    }
    assert s.addresses == t.addresses;
    if s.links - t.links != {} {
      var i := Member(s.links - t.links);
    }
    if t.links - s.links != {} {
      var i := Member(t.links - s.links);
    }
    SameSet(s.links, t.links);
  }

  /** Handling a batch a second time changes nothing. */
  lemma HandlingTwiceIsOnce(env: Env, r: Result, f: Flags, batch: seq<Message>)
    ensures var once := HandleAll(env, r, batch).s;
            HandleAll(env, Result(once, f), batch).s == once
  {
    hide HandleAll, LastAboutAddress, LastAboutLink;
    var once := HandleAll(env, r, batch).s;
    var twice := HandleAll(env, Result(once, f), batch).s;
    forall a: Address ensures Lookup(twice.addresses, a) == Lookup(once.addresses, a) {
      LastWriterWins(env, r, batch, a, 0);
      LastWriterWins(env, Result(once, f), batch, a, 0);
    }
    forall i: int ensures i in twice.links <==> i in once.links {
      LastWriterWins(env, r, batch, [], i);
      LastWriterWins(env, Result(once, f), batch, [], i);
    }
    SameState(twice, once);
  }

  // ------------------------------------------------------------------
  // When a batch raises a flag, and when that means a change
  // ------------------------------------------------------------------

  /** The messages that are looked at: those before the first one that stops the batch. */
  function Heeded(batch: seq<Message>): seq<Message> {
    if batch == [] || Stops(batch[0]) then [] else [batch[0]] + Heeded(batch[1..])
  }

  /** The message says something about an address that is not so in the state. */
  ghost predicate AddressNews(env: Env, s: State, m: Message) {
    exists a :: AfterVerdict(AddressVerdict(env, m, a), Lookup(s.addresses, a)) != Lookup(s.addresses, a)
  }

  ghost predicate LinkNewsOf(env: Env, s: State, m: Message, i: int) {
    OnlineAfter(LinkVerdict(env, m, i), i in s.links) != (i in s.links)
  }

  ghost predicate LinkNews(env: Env, s: State, m: Message) {
    exists i :: LinkNewsOf(env, s, m, i)
  }

  ghost predicate TunnelNews(env: Env, s: State, m: Message) {
    exists i :: IsTunnel(env, i) && LinkNewsOf(env, s, m, i)
  }

  /** What one message does not say anew stays as it is, and what it does raises its flag. */
  lemma MessageNews(env: Env, r: Result, m: Message)
    ensures var r' := Handle(env, r, m);
            && (AddressNews(env, r.s, m) <==> r'.s.addresses != r.s.addresses)
            && (LinkNews(env, r.s, m) <==> r'.s.links != r.s.links)
            && (TunnelNews(env, r.s, m) <==> Tunnels(env, r'.s) != Tunnels(env, r.s))
  {
    var s' := Handle(env, r, m).s;
    forall a: Address
      ensures Lookup(s'.addresses, a) == AfterVerdict(AddressVerdict(env, m, a), Lookup(r.s.addresses, a))
    {
      MessageWrites(env, r, m, a, 0);
    }
    forall i: int ensures LinkNewsOf(env, r.s, m, i) <==> LinkDiffers(r.s, s', i) {
      MessageWrites(env, r, m, [], i);
    }
    hide Handle, AddressVerdict, LinkNewsOf, LinkDiffers, AfterVerdict, IsTunnel;
    AddressesDiffer(r.s, s');
    LinksDiffer(env, r.s, s');
  }

  lemma AddressesDiffer(s: State, t: State)
    ensures s.addresses != t.addresses <==> exists a :: Lookup(s.addresses, a) != Lookup(t.addresses, a)
  {
    if forall a :: Lookup(s.addresses, a) == Lookup(t.addresses, a) {
      SameState(s, t.(links := s.links));
    }
  }

  ghost predicate LinkDiffers(s: State, t: State, i: int) {
    (i in s.links) != (i in t.links)
  }

  lemma LinksDiffer(env: Env, s: State, t: State)
    ensures s.links != t.links <==> exists i :: LinkDiffers(s, t, i)
    ensures Tunnels(env, s) != Tunnels(env, t) <==> exists i :: IsTunnel(env, i) && LinkDiffers(s, t, i)
  {
    hide IsTunnel;
    if forall i :: !LinkDiffers(s, t, i) {
      assert forall i :: i in s.links ==> i in t.links || LinkDiffers(s, t, i);
      assert forall i :: i in t.links ==> i in s.links || LinkDiffers(s, t, i);
      SameState(s.(addresses := t.addresses), t);
    }
    if forall i :: IsTunnel(env, i) ==> !LinkDiffers(s, t, i) {
      SameState(State(map[], Tunnels(env, s)), State(map[], Tunnels(env, t)));
    } else {
      var i :| IsTunnel(env, i) && LinkDiffers(s, t, i);
      assert (i in Tunnels(env, s)) != (i in Tunnels(env, t));
    }
  }

  /**
   * A batch raises a flag exactly if some message that is looked at says something new,
   * compared with the state before the batch.
   */
  lemma {:induction false} BatchFlagsExact(env: Env, r: Result, batch: seq<Message>)
    ensures var f := HandleAll(env, r, batch).flags;
            && (f.address <==> r.flags.address || exists m :: m in Heeded(batch) && AddressNews(env, r.s, m))
            && (f.link <==> r.flags.link || exists m :: m in Heeded(batch) && LinkNews(env, r.s, m))
            && (f.tunnel <==> r.flags.tunnel || exists m :: m in Heeded(batch) && TunnelNews(env, r.s, m))
    decreases |batch|
  {
    if batch != [] && !Stops(batch[0]) {
      var m, r1 := batch[0], Handle(env, r, batch[0]);
      MessageFlagsExact(env, r, m);
      MessageNews(env, r, m);
      BatchFlagsExact(env, r1, batch[1..]);
      hide Handle, AddressNews, LinkNews, TunnelNews;
      assert Heeded(batch) == [m] + Heeded(batch[1..]);
      forall x: Message
        ensures !AddressNews(env, r.s, m) ==> (AddressNews(env, r1.s, x) <==> AddressNews(env, r.s, x))
        ensures !LinkNews(env, r.s, m) ==> (LinkNews(env, r1.s, x) <==> LinkNews(env, r.s, x))
        ensures !TunnelNews(env, r.s, m) ==> (TunnelNews(env, r1.s, x) <==> TunnelNews(env, r.s, x))
      {
        SameNews(env, r.s, r1.s, x);
      }
    }
  }

  /** News depends on what it is about only. */
  lemma SameNews(env: Env, s: State, t: State, m: Message)
    ensures s.addresses == t.addresses ==> (AddressNews(env, s, m) <==> AddressNews(env, t, m))
    ensures s.links == t.links ==> (LinkNews(env, s, m) <==> LinkNews(env, t, m))
    ensures Tunnels(env, s) == Tunnels(env, t) ==> (TunnelNews(env, s, m) <==> TunnelNews(env, t, m))
  {
    hide IsTunnel, LinkVerdict, AddressVerdict;
    assert s.links == t.links ==> forall i :: LinkNewsOf(env, s, m, i) <==> LinkNewsOf(env, t, m, i);
    if Tunnels(env, s) == Tunnels(env, t) {
      forall i | IsTunnel(env, i) ensures LinkNewsOf(env, s, m, i) == LinkNewsOf(env, t, m, i) {
        assert (i in Tunnels(env, s)) == (i in s.links);
        assert (i in Tunnels(env, t)) == (i in t.links);
      }
    }
  }

  ghost predicate LastAddressNews(env: Env, s: State, batch: seq<Message>) {
    exists a :: AfterVerdict(LastAboutAddress(env, batch, a), Lookup(s.addresses, a)) != Lookup(s.addresses, a)
  }

  ghost predicate LastLinkNewsOf(env: Env, s: State, batch: seq<Message>, i: int) {
    OnlineAfter(LastAboutLink(env, batch, i), i in s.links) != (i in s.links)
  }

  /** A batch changes something exactly if the last message about it says something new. */
  lemma BatchChangesExactly(env: Env, r: Result, batch: seq<Message>)
    ensures var s' := HandleAll(env, r, batch).s;
            && (s'.addresses != r.s.addresses <==> LastAddressNews(env, r.s, batch))
            && (s'.links != r.s.links <==> exists i :: LastLinkNewsOf(env, r.s, batch, i))
            && (Tunnels(env, s') != Tunnels(env, r.s)
                <==> exists i :: IsTunnel(env, i) && LastLinkNewsOf(env, r.s, batch, i))
  {
    var s' := HandleAll(env, r, batch).s;
    forall a: Address
      ensures Lookup(s'.addresses, a) == AfterVerdict(LastAboutAddress(env, batch, a), Lookup(r.s.addresses, a))
    {
      LastWriterWins(env, r, batch, a, 0);
    }
    forall i: int ensures LastLinkNewsOf(env, r.s, batch, i) <==> LinkDiffers(r.s, s', i) {
      LastWriterWins(env, r, batch, [], i);
    }
    hide HandleAll, LastAboutAddress, LastLinkNewsOf, LinkDiffers, AfterVerdict, IsTunnel;
    AddressesDiffer(r.s, s');
    LinksDiffer(env, r.s, s');
  }

  /**
   * From clear flags, a raised flag means a change if and only if no message that is looked
   * at says anything new, or the last one about some address or link does.
   */
  lemma RaisedMeansChangedExactly(env: Env, s: State, batch: seq<Message>)
    ensures var r' := HandleAll(env, Result(s, CLEAR), batch);
            && ((r'.flags.address ==> r'.s.addresses != s.addresses) <==>
                (forall m :: m in Heeded(batch) ==> !AddressNews(env, s, m)) || LastAddressNews(env, s, batch))
            && ((r'.flags.link ==> r'.s.links != s.links) <==>
                || (forall m :: m in Heeded(batch) ==> !LinkNews(env, s, m))
                || exists i :: LastLinkNewsOf(env, s, batch, i))
            && ((r'.flags.tunnel ==> Tunnels(env, r'.s) != Tunnels(env, s)) <==>
                || (forall m :: m in Heeded(batch) ==> !TunnelNews(env, s, m))
                || exists i :: IsTunnel(env, i) && LastLinkNewsOf(env, s, batch, i))
  {
    BatchFlagsExact(env, Result(s, CLEAR), batch);
    BatchChangesExactly(env, Result(s, CLEAR), batch);
    hide HandleAll, AddressNews, LinkNews, TunnelNews, LastAddressNews, LastLinkNewsOf, Tunnels, IsTunnel;
  }

  /** A batch where it does not: a change that a later message takes back stays reported. */
  lemma FlagWithoutChange()
    ensures var env := Env(i => "eth0", {});
            var info := Info(1, false, []);
            var s := State(map[], {});
            var batch := [NewAddr(info, Some([10]), false), DelAddr(info, Some([10]))];
            HandleAll(env, Result(s, CLEAR), batch) == Result(s, Flags(true, false, false))
  {
    var env := Env(i => "eth0", {});
    var info := Info(1, false, []);
    var s := State(map[], {});
    var batch := [NewAddr(info, Some([10]), false), DelAddr(info, Some([10]))];
    var one := Handle(env, Result(s, CLEAR), batch[0]);
    var two := Handle(env, one, batch[1]);
    assert one.s.addresses - {[10]} == map[];
    assert batch[1..][1..] == [];
    assert HandleAll(env, two, []) == two;
    assert batch[1..][0] == batch[1];
    assert HandleAll(env, one, batch[1..]) == two;
  }

  // ------------------------------------------------------------------
  // Ignored interfaces
  // ------------------------------------------------------------------

  /** Neither collection mentions an ignored interface. */
  ghost predicate Clean(env: Env, s: State) {
    && (forall a :: a in s.addresses ==> !Ignored(env, s.addresses[a].interface))
    && (forall i :: i in s.links ==> !Ignored(env, i))
  }

  lemma {:induction false} BatchKeepsClean(env: Env, r: Result, batch: seq<Message>)
    requires Clean(env, r.s)
    ensures Clean(env, HandleAll(env, r, batch).s)
    decreases |batch|
  {
    if batch != [] && !Stops(batch[0]) {
      BatchKeepsClean(env, Handle(env, r, batch[0]), batch[1..]);
    }
  }

  predicate AboutIgnored(env: Env, m: Message) {
    match m
    case NewAddr(info, _, _) => Ignored(env, info.interface)
    case DelAddr(info, _) => Ignored(env, info.interface)
    case NewLink(interface, _, _, _) => Ignored(env, interface)
    case DelLink(interface) => Ignored(env, interface)
    case _ => false
  }

  function WithoutIgnored(env: Env, batch: seq<Message>): seq<Message> {
    if batch == [] then []
    else (if AboutIgnored(env, batch[0]) then [] else [batch[0]]) + WithoutIgnored(env, batch[1..])
  }

  /** Messages about ignored interfaces could as well not have been sent: same state, same flags. */
  lemma {:induction false} IgnoredIsInvisible(env: Env, r: Result, batch: seq<Message>)
    ensures HandleAll(env, r, batch) == HandleAll(env, r, WithoutIgnored(env, batch))
    decreases |batch|
  {
    if batch != [] {
      var rest := WithoutIgnored(env, batch[1..]);
      if AboutIgnored(env, batch[0]) {
        assert [] + rest == rest;
        IgnoredIsInvisible(env, r, batch[1..]);
      } else {
        assert ([batch[0]] + rest)[1..] == rest;
        IgnoredIsInvisible(env, Handle(env, r, batch[0]), batch[1..]);
      }
    }
  }

  // ------------------------------------------------------------------
  // Runs: reads of several buffers, each starting with clear flags
  // ------------------------------------------------------------------

  function ReadAll(env: Env, r: Result, buffers: seq<seq<Message>>): Result {
    if buffers == [] then r
    else HandleAll(env, ReadAll(env, r, buffers[..|buffers| - 1]), buffers[|buffers| - 1])
  }

  function Run(env: Env, s: State, rounds: seq<seq<seq<Message>>>): State {
    if rounds == [] then s
    else ReadAll(env, Result(Run(env, s, rounds[..|rounds| - 1]), CLEAR), rounds[|rounds| - 1]).s
  }

  /** Everything that is looked at in a read of several buffers. */
  function HeededAll(buffers: seq<seq<Message>>): seq<Message> {
    if buffers == [] then []
    else HeededAll(buffers[..|buffers| - 1]) + Heeded(buffers[|buffers| - 1])
  }

  predicate NoStops(batch: seq<Message>) {
    forall m :: m in batch ==> !Stops(m)
  }

  lemma {:induction false} HeededSuffices(env: Env, r: Result, batch: seq<Message>)
    ensures NoStops(Heeded(batch)) && HandleAll(env, r, Heeded(batch)) == HandleAll(env, r, batch)
    decreases |batch|
  {
    hide Handle;
    if batch != [] && !Stops(batch[0]) {
      HeededSuffices(env, Handle(env, r, batch[0]), batch[1..]);
      assert Heeded(batch)[1..] == Heeded(batch[1..]);
    }
  }

  lemma {:induction false} HandleJoin(env: Env, r: Result, x: seq<Message>, y: seq<Message>)
    requires NoStops(x)
    ensures HandleAll(env, r, x + y) == HandleAll(env, HandleAll(env, r, x), y)
    decreases |x|
  {
    hide Handle;
    if x == [] {
      assert x + y == y;
    } else {
      assert x[0] in x && (x + y)[1..] == x[1..] + y;
      HandleJoin(env, Handle(env, r, x[0]), x[1..], y);
    }
  }

  /** A read of several buffers is one batch, so what is exact for a batch is exact for a read. */
  lemma {:induction false} ReadIsOneBatch(env: Env, r: Result, buffers: seq<seq<Message>>)
    ensures NoStops(HeededAll(buffers))
    ensures ReadAll(env, r, buffers) == HandleAll(env, r, HeededAll(buffers))
  {
    if buffers != [] {
      var n := |buffers| - 1;
      ReadIsOneBatch(env, r, buffers[..n]);
      HeededSuffices(env, ReadAll(env, r, buffers[..n]), buffers[n]);
      HandleJoin(env, r, HeededAll(buffers[..n]), Heeded(buffers[n]));
    }
  }

  /** A read that runs no callback has changed nothing, whatever the number of buffers. */
  lemma {:induction false} ReadFlags(env: Env, s: State, buffers: seq<seq<Message>>)
    ensures var r' := ReadAll(env, Result(s, CLEAR), buffers);
            && (!r'.flags.address ==> r'.s.addresses == s.addresses)
            && (!r'.flags.link ==> r'.s.links == s.links)
            && (!r'.flags.tunnel ==> Tunnels(env, r'.s) == Tunnels(env, s))
  {
    if buffers != [] {
      var n := |buffers| - 1;
      ReadFlags(env, s, buffers[..n]);
      ClearFlagsMeanUnchanged(env, ReadAll(env, Result(s, CLEAR), buffers[..n]), buffers[n]);
    }
  }

  lemma {:induction false} ReadKeepsClean(env: Env, r: Result, buffers: seq<seq<Message>>)
    requires Clean(env, r.s)
    ensures Clean(env, ReadAll(env, r, buffers).s)
  {
    if buffers != [] {
      var n := |buffers| - 1;
      ReadKeepsClean(env, r, buffers[..n]);
      BatchKeepsClean(env, ReadAll(env, r, buffers[..n]), buffers[n]);
    }
  }

  /** In no run does an ignored interface enter either collection. */
  lemma {:induction false} IgnoredNeverEnters(env: Env, s: State, rounds: seq<seq<seq<Message>>>)
    requires Clean(env, s)
    ensures Clean(env, Run(env, s, rounds))
  {
    if rounds != [] {
      var n := |rounds| - 1;
      IgnoredNeverEnters(env, s, rounds[..n]);
      ReadKeepsClean(env, Result(Run(env, s, rounds[..n]), CLEAR), rounds[n]);
    }
  }
}

/** The tracker object. */
module AddressTrackerObject {
  import opened Options
  import opened AddressTracker

  class Tracker {
    const env: Env
    var addressMap: map<Address, Info>
    var onlineLinks: set<int>

    constructor (env: Env)
      ensures this.env == env && Value() == State(map[], {})
    {
      this.env := env;
      addressMap, onlineLinks := map[], {};
    }

    ghost function Value(): State
      reads this
    {
      State(addressMap, onlineLinks)
    }

    static method IgnoreWirelessChange(change: int, attributes: seq<int>) returns (ignore: bool)
      ensures ignore == IgnoreWireless(change, attributes)
    {
      for i := 0 to |attributes|
        invariant change == 0 ==> IFLA_WIRELESS !in attributes[..i]
      {
        if attributes[i] == IFLA_WIRELESS && change == 0 {
          return true;
        }
      }
      return false;
    }

    method EraseLink(interface: int, flags: Flags) returns (f: Flags)
      modifies `onlineLinks
      ensures Result(Value(), f) == SetLink(env, Result(old(Value()), flags), interface, false)
    {
      f := flags;
      if interface in onlineLinks {
        onlineLinks := onlineLinks - {interface};
        f := f.(link := true);
        if IsTunnel(env, interface) {
          f := f.(tunnel := true);
        }
      }
    }

    method InsertLink(interface: int, flags: Flags) returns (f: Flags)
      modifies `onlineLinks
      ensures Result(Value(), f) == SetLink(env, Result(old(Value()), flags), interface, true)
    {
      f := flags;
      if interface !in onlineLinks {
        onlineLinks := onlineLinks + {interface};
        f := f.(link := true);
        if IsTunnel(env, interface) {
          f := f.(tunnel := true);
        }
      }
    }

    /** The body of the loop over the messages; `more` is false at a message that stops it. */
    method HandleOne(m: Message, flags: Flags) returns (f: Flags, more: bool)
      modifies this
      ensures more == !Stops(m)
      ensures var before := Result(old(Value()), flags);
              Result(Value(), f) == if more then Handle(env, before, m) else before
    {
      f, more := flags, true;
      match m
      case Done =>
        more := false;
      case Error =>
        more := false;
      case Malformed =>
        more := false;
      case NewAddr(info, address, reallyDeprecated) =>
        if !Ignored(env, info.interface) && address.Some? {
          var msg := info;
          if reallyDeprecated {
            msg := msg.(deprecated := true);
          }
          if address.value !in addressMap {
            addressMap := addressMap[address.value := msg];
            f := f.(address := true);
          } else if addressMap[address.value] != msg {
            addressMap := addressMap[address.value := msg];
            f := f.(address := true);
          }
        }
      case DelAddr(info, address) =>
        if !Ignored(env, info.interface) && address.Some? && address.value in addressMap {
          addressMap := addressMap - {address.value};
          f := f.(address := true);
        }
      case NewLink(interface, linkFlags, change, attributes) =>
        if Ignored(env, interface) {
          return;
        }
        var spurious := IgnoreWirelessChange(change, attributes);
        if spurious {
          return;
        }
        if !linkFlags.loopback && linkFlags.up && linkFlags.lowerUp && linkFlags.running {
          f := InsertLink(interface, f);
        } else {
          f := EraseLink(interface, f);
        }
      case DelLink(interface) =>
        if !Ignored(env, interface) {
          f := EraseLink(interface, f);
        }
      case Other =>
    }

    method HandleMessage(batch: seq<Message>, flags: Flags) returns (f: Flags)
      modifies this
      ensures Result(Value(), f) == HandleAll(env, Result(old(Value()), flags), batch)
    {
      f := flags;
      var i: nat := 0;
      while i < |batch|
        invariant i <= |batch|
        invariant HandleAll(env, Result(Value(), f), batch[i..]) == HandleAll(env, Result(old(Value()), flags), batch)
      {
        assert batch[i..][1..] == batch[i + 1..];
        var more;
        f, more := HandleOne(batch[i], f);
        if !more {
          return;
        }
        i := i + 1;
      }
    }

    method ReadMessages(buffers: seq<seq<Message>>) returns (f: Flags)
      modifies this
      ensures Result(Value(), f) == ReadAll(env, Result(old(Value()), CLEAR), buffers)
    {
      f := Flags(false, false, false);
      for k := 0 to |buffers|
        invariant Result(Value(), f) == ReadAll(env, Result(old(Value()), CLEAR), buffers[..k])
      {
        f := HandleMessage(buffers[k], f);
        assert buffers[..k + 1][..k] == buffers[..k];
      }
      assert buffers[..|buffers|] == buffers;
    }
  }
}
