/**
 * The delegate that turns the platform's network signals into notifications: which
 * networks are connected, which one is the default, and what observers were told.
 */
module NetworkNotifier {
  import opened Options

  const INVALID_NETWORK := -1
  const CONNECTION_UNKNOWN := 0
  const CONNECTION_LAST := 7

  datatype Note =
    | Connected(network: int)
    | Disconnected(network: int)
    | SoonToDisconnect(network: int)
    | MadeDefault(network: int)
    | TypeChanged

  datatype State = State(networks: map<int, int>, current: int, kind: int)

  datatype Step = Step(s: State, notes: seq<Note>)

  function ConvertConnectionType(kind: int): int {
    if CONNECTION_UNKNOWN <= kind <= CONNECTION_LAST then kind else CONNECTION_UNKNOWN
  }

  function ChangeType(s: State, kind: int, network: int): Step {
    var announce := if network != s.current && network in s.networks then [MadeDefault(network)] else [];
    Step(s.(kind := ConvertConnectionType(kind), current := network), announce + [TypeChanged])
  }

  function Connect(s: State, network: int, kind: int): Step {
    Step(s.(networks := s.networks[network := kind]),
         if network in s.networks then []
         else if network == s.current then [Connected(network), MadeDefault(network)]
         else [Connected(network)])
  }

  function WarnOfDisconnect(s: State, network: int): Step {
    Step(s, if network in s.networks then [SoonToDisconnect(network)] else [])
  }

  function Disconnect(s: State, network: int): Step {
    Step(s.(networks := s.networks - {network},
            current := if network == s.current then INVALID_NETWORK else s.current),
         if network in s.networks then [Disconnected(network)] else [])
  }

  function DisconnectAll(s: State, gone: seq<int>): Step
    decreases |gone|
  {
    if gone == [] then Step(s, [])
    else
      var first := Disconnect(s, gone[0]);
      var rest := DisconnectAll(first.s, gone[1..]);
      Step(rest.s, first.notes + rest.notes)
  }

  /** The connected networks missing from `active`, each once, in whatever order the map lists them. */
  ghost predicate Missing(s: State, active: seq<int>, gone: seq<int>) {
    && (forall n :: n in gone <==> n in s.networks && n !in active)
    && (forall i, j :: 0 <= i < j < |gone| ==> gone[i] != gone[j])
  }

  // ------------------------------------------------------------------
  // Purging
  // ------------------------------------------------------------------

  function Farewells(gone: seq<int>): seq<Note> {
    seq(|gone|, i requires 0 <= i < |gone| => Disconnected(gone[i]))
  }

  lemma {:induction false} DisconnectAllRemoves(s: State, gone: seq<int>)
    requires forall i :: 0 <= i < |gone| ==> gone[i] in s.networks
    requires forall i, j :: 0 <= i < j < |gone| ==> gone[i] != gone[j]
    ensures DisconnectAll(s, gone) == Step(
              s.(networks := map n | n in s.networks && n !in gone :: s.networks[n],
                 current := if s.current in gone then INVALID_NETWORK else s.current),
              Farewells(gone))
    decreases |gone|
  {
    if gone == [] {
      assert s.networks == map n | n in s.networks && n !in gone :: s.networks[n];
    } else {
      var first := Disconnect(s, gone[0]);
      var rest := gone[1..];
      forall i | 0 <= i < |rest| ensures rest[i] in first.s.networks {
        assert rest[i] == gone[i + 1];
      }
      DisconnectAllRemoves(first.s, rest);
      assert gone == [gone[0]] + rest;
      assert (map n | n in s.networks && n !in gone :: s.networks[n])
          == (map n | n in first.s.networks && n !in rest :: first.s.networks[n]);
      assert Farewells(gone) == [Disconnected(gone[0])] + Farewells(rest);
    }
  }

  /**
   * Purging keeps exactly the connected networks that are active, says goodbye once to
   * each of the others, and forgets the default exactly if it was one of them.
   */
  lemma PurgeKeepsActive(s: State, active: seq<int>, gone: seq<int>)
    requires Missing(s, active, gone)
    ensures var st := DisconnectAll(s, gone);
            && st.s.networks == (map n | n in s.networks && n in active :: s.networks[n])
            && (st.s.current == if s.current in s.networks && s.current !in active then INVALID_NETWORK else s.current)
            && st.s.kind == s.kind
            && st.notes == Farewells(gone)
            && |st.notes| + |st.s.networks| == |s.networks|
  {
    assert forall i :: 0 <= i < |gone| ==> gone[i] in gone;
    DisconnectAllRemoves(s, gone);
    var kept := map n | n in s.networks && n in active :: s.networks[n];
    assert forall n :: n in s.networks ==> (n in active <==> n !in gone);
    assert kept == map n | n in s.networks && n !in gone :: s.networks[n];
    var out := set n | n in gone;
    DistinctSize(gone);
    assert s.networks.Keys == kept.Keys + out && kept.Keys !! out;
  }

  lemma {:induction false} DistinctSize(a: seq<int>)
    requires forall i, j :: 0 <= i < j < |a| ==> a[i] != a[j]
    ensures |set n | n in a| == |a|
  {
    if a != [] {
      var front := a[..|a| - 1];
      DistinctSize(front);
      assert (set n | n in a) == (set n | n in front) + {a[|a| - 1]};
    }
  }

  // ------------------------------------------------------------------
  // Runs
  // ------------------------------------------------------------------

  datatype Event =
    | OnTypeChanged(kind: int, network: int)
    | OnConnect(network: int, kind: int)
    | OnSoonToDisconnect(network: int)
    | OnDisconnect(network: int)
    | OnPurge(active: seq<int>, gone: seq<int>)

  ghost predicate Possible(s: State, ev: Event) {
    ev.OnPurge? ==> Missing(s, ev.active, ev.gone)
  }

  function Apply(s: State, ev: Event): Step {
    match ev
    case OnTypeChanged(kind, network) => ChangeType(s, kind, network)
    case OnConnect(network, kind) => Connect(s, network, kind)
    case OnSoonToDisconnect(network) => WarnOfDisconnect(s, network)
    case OnDisconnect(network) => Disconnect(s, network)
    case OnPurge(active, gone) => DisconnectAll(s, gone)
  }

  ghost predicate IsRun(s: State, events: seq<Event>)
    decreases |events|
  {
    events == [] || (Possible(s, events[0]) && IsRun(Apply(s, events[0]).s, events[1..]))
  }

  function Run(s: State, events: seq<Event>): Step
    decreases |events|
  {
    if events == [] then Step(s, [])
    else
      var first := Apply(s, events[0]);
      var rest := Run(first.s, events[1..]);
      Step(rest.s, first.notes + rest.notes)
  }

  // ------------------------------------------------------------------
  // Observers can rebuild the set of connected networks
  // ------------------------------------------------------------------

  /**
   * An observer who starts with `before` and adds and removes what it is told ends with
   * `after`, and is never told of a connection it has or of the loss of one it has not.
   */
  ghost predicate Replays(before: set<int>, notes: seq<Note>, after: set<int>)
    decreases |notes|
  {
    if notes == [] then before == after
    else
      match notes[0]
      case Connected(n) => n !in before && Replays(before + {n}, notes[1..], after)
      case Disconnected(n) => n in before && Replays(before - {n}, notes[1..], after)
      case SoonToDisconnect(n) => n in before && Replays(before, notes[1..], after)
      case MadeDefault(n) => n in before && Replays(before, notes[1..], after)
      case TypeChanged => Replays(before, notes[1..], after)
  }

  lemma {:induction false} ReplaysJoin(a: set<int>, x: seq<Note>, b: set<int>, y: seq<Note>, c: set<int>)
    requires Replays(a, x, b) && Replays(b, y, c)
    ensures Replays(a, x + y, c)
    decreases |x|
  {
    if x == [] {
      assert x + y == y;
    } else {
      assert (x + y)[1..] == x[1..] + y;
      var next := match x[0]
        case Connected(n) => a + {n}
        case Disconnected(n) => a - {n}
        case _ => a;
      ReplaysJoin(next, x[1..], b, y, c);
    }
  }

  lemma DisconnectReplays(s: State, network: int)
    ensures var st := Disconnect(s, network); Replays(s.networks.Keys, st.notes, st.s.networks.Keys)
  {
    assert (s.networks - {network}).Keys == s.networks.Keys - {network};
    if network !in s.networks {
      assert s.networks.Keys - {network} == s.networks.Keys;
    } else {
      assert [Disconnected(network)][1..] == [];
    }
  }

  lemma {:induction false} DisconnectAllReplays(s: State, gone: seq<int>)
    ensures var st := DisconnectAll(s, gone); Replays(s.networks.Keys, st.notes, st.s.networks.Keys)
    decreases |gone|
  {
    if gone != [] {
      var first := Disconnect(s, gone[0]);
      var rest := DisconnectAll(first.s, gone[1..]);
      DisconnectReplays(s, gone[0]);
      DisconnectAllReplays(first.s, gone[1..]);
      ReplaysJoin(s.networks.Keys, first.notes, first.s.networks.Keys, rest.notes, rest.s.networks.Keys);
    }
  }

  lemma ConnectReplays(s: State, network: int, kind: int)
    ensures var st := Connect(s, network, kind); Replays(s.networks.Keys, st.notes, st.s.networks.Keys)
  {
    var st := Connect(s, network, kind);
    assert st.s.networks.Keys == s.networks.Keys + {network};
    if network in s.networks {
      assert s.networks.Keys + {network} == s.networks.Keys;
    } else {
      assert st.notes[1..] == if network == s.current then [MadeDefault(network)] else [];
      assert [MadeDefault(network)][1..] == [];
    }
  }

  lemma StepReplays(s: State, ev: Event)
    ensures var st := Apply(s, ev); Replays(s.networks.Keys, st.notes, st.s.networks.Keys)
  {
    match ev
    case OnTypeChanged(kind, network) =>
      assert [MadeDefault(network), TypeChanged][1..] == [TypeChanged];
      assert [TypeChanged][1..] == [];
    case OnConnect(network, kind) => ConnectReplays(s, network, kind);
    case OnSoonToDisconnect(network) => assert [SoonToDisconnect(network)][1..] == [];
    case OnDisconnect(network) => DisconnectReplays(s, network);
    case OnPurge(active, gone) => DisconnectAllReplays(s, gone);
  }

  /**
   * Over every run the notifications rebuild the set of connected networks, and a network
   * is warned about or made the default only while observers know it to be connected.
   */
  lemma {:induction false} RunReplays(s: State, events: seq<Event>)
    requires IsRun(s, events)
    ensures var st := Run(s, events); Replays(s.networks.Keys, st.notes, st.s.networks.Keys)
    decreases |events|
  {
    if events != [] {
      var first := Apply(s, events[0]);
      var rest := Run(first.s, events[1..]);
      StepReplays(s, events[0]);
      RunReplays(first.s, events[1..]);
      ReplaysJoin(s.networks.Keys, first.notes, first.s.networks.Keys, rest.notes, rest.s.networks.Keys);
    }
  }

  /** The first loss of `n` in notifications that start with `n` connected and connect it again. */
  lemma {:induction false} LostBefore(before: set<int>, notes: seq<Note>, after: set<int>, n: int, j: nat)
    returns (k: nat)
    requires Replays(before, notes, after) && n in before
    requires j < |notes| && notes[j] == Connected(n)
    ensures k < j && notes[k] == Disconnected(n)
    decreases |notes|
  {
    if notes[0] == Disconnected(n) {
      k := 0;
    } else {
      var next := match notes[0]
        case Connected(m) => before + {m}
        case Disconnected(m) => before - {m}
        case _ => before;
      k := LostBefore(next, notes[1..], after, n, j - 1);
      k := k + 1;
    }
  }

  /** Two connections of one network never follow each other without a disconnection between them. */
  lemma {:induction false} ConnectionsAlternate(before: set<int>, notes: seq<Note>, after: set<int>,
                                                n: int, i: nat, j: nat)
    requires Replays(before, notes, after) && i < j < |notes|
    requires notes[i] == notes[j] == Connected(n)
    ensures exists k :: i < k < j && notes[k] == Disconnected(n)
    decreases |notes|
  {
    var next := match notes[0]
      case Connected(m) => before + {m}
      case Disconnected(m) => before - {m}
      case _ => before;
    var tail := notes[1..];
    if i == 0 {
      var k := LostBefore(next, tail, after, n, j - 1);
      assert notes[k + 1] == Disconnected(n);
    } else {
      ConnectionsAlternate(next, tail, after, n, i - 1, j - 1);
      var k :| i - 1 < k < j - 1 && tail[k] == Disconnected(n);
      assert notes[k + 1] == Disconnected(n);
    }
  }

  // ------------------------------------------------------------------
  // Observers know the default
  // ------------------------------------------------------------------

  /** The default an observer infers: the last one announced, unless it has been lost since. */
  function Believes(belief: Option<int>, notes: seq<Note>): Option<int>
    decreases |notes|
  {
    if notes == [] then belief
    else
      var next := match notes[0]
        case MadeDefault(n) => Some(n)
        case Disconnected(n) => if belief == Some(n) then None else belief
        case _ => belief;
      Believes(next, notes[1..])
  }

  lemma {:induction false} BelievesJoin(belief: Option<int>, x: seq<Note>, y: seq<Note>)
    ensures Believes(belief, x + y) == Believes(Believes(belief, x), y)
    decreases |x|
  {
    if x == [] {
      assert x + y == y;
    } else {
      assert (x + y)[1..] == x[1..] + y;
      var next := match x[0]
        case MadeDefault(n) => Some(n)
        case Disconnected(n) => if belief == Some(n) then None else belief
        case _ => belief;
      BelievesJoin(next, x[1..], y);
    }
  }

  /** A connected default, other than the invalid handle, is the one observers believe in. */
  ghost predicate Informed(s: State, belief: Option<int>) {
    s.current in s.networks && s.current != INVALID_NETWORK ==> belief == Some(s.current)
  }

  /** Observers believe only in a connected network. */
  ghost predicate Grounded(s: State, belief: Option<int>) {
    belief.Some? ==> belief.value in s.networks
  }

  lemma BelievesOne(belief: Option<int>, note: Note)
    ensures Believes(belief, [note]) ==
            match note
            case MadeDefault(n) => Some(n)
            case Disconnected(n) => if belief == Some(n) then None else belief
            case _ => belief
  {
    assert [note][1..] == [];
  }

  lemma DisconnectInforms(s: State, network: int, belief: Option<int>)
    ensures var st := Disconnect(s, network);
            && (Informed(s, belief) ==> Informed(st.s, Believes(belief, st.notes)))
            && (Grounded(s, belief) ==> Grounded(st.s, Believes(belief, st.notes)))
  {
    BelievesOne(belief, Disconnected(network));
  }

  lemma {:induction false} DisconnectAllInforms(s: State, gone: seq<int>, belief: Option<int>)
    ensures var st := DisconnectAll(s, gone);
            && (Informed(s, belief) ==> Informed(st.s, Believes(belief, st.notes)))
            && (Grounded(s, belief) ==> Grounded(st.s, Believes(belief, st.notes)))
    decreases |gone|
  {
    if gone != [] {
      var first := Disconnect(s, gone[0]);
      var rest := DisconnectAll(first.s, gone[1..]);
      DisconnectInforms(s, gone[0], belief);
      DisconnectAllInforms(first.s, gone[1..], Believes(belief, first.notes));
      BelievesJoin(belief, first.notes, rest.notes);
    }
  }

  lemma StepInforms(s: State, ev: Event, belief: Option<int>)
    ensures var st := Apply(s, ev);
            && (Informed(s, belief) ==> Informed(st.s, Believes(belief, st.notes)))
            && (Grounded(s, belief) ==> Grounded(st.s, Believes(belief, st.notes)))
  {
    match ev
    case OnTypeChanged(kind, network) =>
      var announce := if network != s.current && network in s.networks then [MadeDefault(network)] else [];
      BelievesJoin(belief, announce, [TypeChanged]);
      BelievesOne(belief, MadeDefault(network));
      BelievesOne(Believes(belief, announce), TypeChanged);
    case OnConnect(network, kind) =>
      BelievesOne(belief, Connected(network));
      assert [Connected(network), MadeDefault(network)][1..] == [MadeDefault(network)];
      BelievesOne(belief, MadeDefault(network));
    case OnSoonToDisconnect(network) => BelievesOne(belief, SoonToDisconnect(network));
    case OnDisconnect(network) => DisconnectInforms(s, network, belief);
    case OnPurge(active, gone) => DisconnectAllInforms(s, gone, belief);
  }

  /**
   * Over every run: whenever the default is connected it is the last one announced and
   * not lost since, and an announced default that is not lost is connected.
   */
  lemma {:induction false} RunInforms(s: State, events: seq<Event>, belief: Option<int>)
    requires IsRun(s, events)
    ensures var st := Run(s, events);
            && (Informed(s, belief) ==> Informed(st.s, Believes(belief, st.notes)))
            && (Grounded(s, belief) ==> Grounded(st.s, Believes(belief, st.notes)))
    decreases |events|
  {
    if events != [] {
      var first := Apply(s, events[0]);
      var rest := Run(first.s, events[1..]);
      StepInforms(s, events[0], belief);
      RunInforms(first.s, events[1..], Believes(belief, first.notes));
      BelievesJoin(belief, first.notes, rest.notes);
    }
  }

  // ------------------------------------------------------------------
  // Why the invalid handle is set apart
  // ------------------------------------------------------------------

  /** Only handles in `handles` are connected at the start or reported connected. */
  ghost predicate Within(handles: iset<int>, s: State, events: seq<Event>) {
    && (forall n :: n in s.networks ==> n in handles)
    && (forall k :: 0 <= k < |events| && events[k].OnConnect? ==> events[k].network in handles)
  }

  lemma StepWithin(handles: iset<int>, s: State, ev: Event)
    requires Within(handles, s, [ev]) && Possible(s, ev)
    ensures forall n :: n in Apply(s, ev).s.networks ==> n in handles
  {
    assert [ev][0] == ev;
    if ev.OnPurge? {
      PurgeKeepsActive(s, ev.active, ev.gone);
    }
  }

  lemma {:induction false} RunWithin(handles: iset<int>, s: State, events: seq<Event>)
    requires IsRun(s, events) && Within(handles, s, events)
    ensures forall n :: n in Run(s, events).s.networks ==> n in handles
    decreases |events|
  {
    if events != [] {
      StepWithin(handles, s, events[0]);
      hide Apply, Possible;
      RunWithin(handles, Apply(s, events[0]).s, events[1..]);
    }
  }

  /** A connected default, whatever its handle, is the one observers believe in. */
  ghost predicate FullyInformed(s: State, belief: Option<int>) {
    s.current in s.networks ==> belief == Some(s.current)
  }

  /** Every run over these handles keeps observers informed of a connected default. */
  ghost predicate AlwaysInforms(handles: iset<int>) {
    forall s, events, belief ::
      IsRun(s, events) && Within(handles, s, events) && FullyInformed(s, belief) ==>
        FullyInformed(Run(s, events).s, Believes(belief, Run(s, events).notes))
  }

  /**
   * A connected default is always the last one announced and not lost since, in every run
   * over a set of handles, if and only if the invalid handle is not among them.
   */
  lemma InformsExactly(handles: iset<int>)
    ensures AlwaysInforms(handles) <==> INVALID_NETWORK !in handles
  {
    if INVALID_NETWORK in handles {
      var s, events := InvalidHandleUnannounced(handles);
      assert !FullyInformed(Run(s, events).s, Believes(None, Run(s, events).notes));
    } else {
      hide IsRun, Run, Believes, Within;
      forall s, events, belief | IsRun(s, events) && Within(handles, s, events) && FullyInformed(s, belief)
        ensures FullyInformed(Run(s, events).s, Believes(belief, Run(s, events).notes))
      {
        RunInforms(s, events, belief);
        RunWithin(handles, s, events);
      }
    }
  }

  /**
   * Once the invalid handle is connected, the loss of the default makes it a connected
   * default that was never announced.
   */
  lemma InvalidHandleUnannounced(handles: iset<int>) returns (s: State, events: seq<Event>)
    requires INVALID_NETWORK in handles
    ensures s == State(map[], 5, CONNECTION_UNKNOWN)
    ensures events == [OnConnect(INVALID_NETWORK, 2), OnDisconnect(5)]
    ensures IsRun(s, events) && Within(handles, s, events) && FullyInformed(s, None)
    ensures var st := Run(s, events);
            && st.s.current == INVALID_NETWORK && INVALID_NETWORK in st.s.networks
            && st.notes == [Connected(INVALID_NETWORK)] && Believes(None, st.notes) == None
  {
    s := State(map[], 5, CONNECTION_UNKNOWN);
    events := [OnConnect(INVALID_NETWORK, 2), OnDisconnect(5)];
    var a := Apply(s, events[0]);
    var b := Apply(a.s, events[1]);
    assert events[1..] == [events[1]] && events[1..][1..] == [];
    assert IsRun(b.s, []) && IsRun(a.s, events[1..]);
    assert Run(b.s, []) == Step(b.s, []);
    assert Run(a.s, events[1..]) == Step(b.s, []);
    assert a.notes + [] == [Connected(INVALID_NETWORK)];
    BelievesOne(None, Connected(INVALID_NETWORK));
  }
}

/** The delegate object, whose notification log stands for its observer list. */
module NetworkNotifierDelegate {
  import opened NetworkNotifier

  class Delegate {
    var networkMap: map<int, int>
    var defaultNetwork: int
    var connectionType: int
    var log: seq<Note>

    ghost function Value(): State
      reads this
    {
      State(networkMap, defaultNetwork, connectionType)
    }

    constructor (networks: map<int, int>, network: int, kind: int)
      ensures Value() == State(networks, network, ConvertConnectionType(kind)) && log == []
    {
      networkMap, defaultNetwork, connectionType, log := networks, network, ConvertConnectionType(kind), [];
    }

    method NotifyConnectionTypeChanged(kind: int, network: int)
      modifies this
      ensures Step(Value(), log) == Logged(old(log), ChangeType(old(Value()), kind, network))
    {
      connectionType := ConvertConnectionType(kind);
      ghost var announce: seq<Note> := [];
      if network != defaultNetwork {
        defaultNetwork := network;
        var defaultExists := network in networkMap;
        if defaultExists {
          log := log + [MadeDefault(network)];
          announce := [MadeDefault(network)];
        }
      }
      assert log == old(log) + announce;
      log := log + [TypeChanged];
      assert log == old(log) + (announce + [TypeChanged]);
    }

    method NotifyOfNetworkConnect(network: int, kind: int)
      modifies this
      ensures Step(Value(), log) == Logged(old(log), Connect(old(Value()), network, kind))
    {
      var alreadyExists := network in networkMap;
      networkMap := networkMap[network := kind];
      if !alreadyExists {
        log := log + [Connected(network)];
        if network == defaultNetwork {
          log := log + [MadeDefault(network)];
          assert log == old(log) + [Connected(network), MadeDefault(network)];
        }
      }
    }

    method NotifyOfNetworkSoonToDisconnect(network: int)
      modifies `log
      ensures Step(Value(), log) == Logged(old(log), WarnOfDisconnect(old(Value()), network))
    {
      if network !in networkMap {
        return;
      }
      log := log + [SoonToDisconnect(network)];
    }

    method NotifyOfNetworkDisconnect(network: int)
      modifies this
      ensures Step(Value(), log) == Logged(old(log), Disconnect(old(Value()), network))
    {
      if network == defaultNetwork {
        defaultNetwork := INVALID_NETWORK;
      }
      var erased := network in networkMap;
      networkMap := networkMap - {network};
      if !erased {
        return;
      }
      log := log + [Disconnected(network)];
    }

    static method Find(active: seq<int>, network: int) returns (found: bool)
      ensures found <==> network in active
    {
      found := false;
      for j := 0 to |active|
        invariant !found && network !in active[..j]
      {
        if active[j] == network {
          found := true;
          break;
        }
      }
    }

    /** The keys without a match in the list of active networks. */
    method CollectDisconnected(active: seq<int>) returns (gone: seq<int>)
      ensures Missing(Value(), active, gone)
    {
      gone := [];
      var todo: set<int> := networkMap.Keys;
      while todo != {}
        invariant todo <= networkMap.Keys
        invariant forall n :: n in gone <==> n in networkMap && n !in todo && n !in active
        invariant forall i, j :: 0 <= i < j < |gone| ==> gone[i] != gone[j]
        decreases |todo|
      {
        var n := Pick(todo);
        todo := todo - {n};
        var found := Find(active, n);
        if !found {
          gone := gone + [n];
        }
      }
    }

    /** One disconnection per network that is not active; `gone` is the order of the map. */
    method NotifyPurgeActiveNetworkList(active: seq<int>) returns (gone: seq<int>)
      modifies this
      ensures Missing(old(Value()), active, gone)
      ensures Step(Value(), log) == Logged(old(log), DisconnectAll(old(Value()), gone))
    {
      gone := CollectDisconnected(active);
      var i: nat := 0;
      ghost var s0, l0 := Value(), log;
      while i < |gone|
        invariant i <= |gone|
        invariant Logged(log, DisconnectAll(Value(), gone[i..])) == Logged(l0, DisconnectAll(s0, gone))
      {
        ghost var s, l := Value(), log;
        NotifyOfNetworkDisconnect(gone[i]);
        Advance(s, l, gone[i..]);
        assert gone[i..][1..] == gone[i + 1..];
        i := i + 1;
      }
      assert gone[i..] == [];
    }
  }

  method Pick<T>(s: set<T>) returns (x: T)
    requires s != {}
    ensures x in s
  {
    x :| x in s;
  }

  ghost function Logged(log: seq<Note>, st: Step): Step {
    Step(st.s, log + st.notes)
  }

  lemma Advance(s: State, log: seq<Note>, gone: seq<int>)
    requires gone != []
    ensures var first := Logged(log, Disconnect(s, gone[0]));
            Logged(first.notes, DisconnectAll(first.s, gone[1..])) == Logged(log, DisconnectAll(s, gone))
  {
    var first := Disconnect(s, gone[0]);
    var rest := DisconnectAll(first.s, gone[1..]);
    assert (log + first.notes) + rest.notes == log + (first.notes + rest.notes);
  }
}
