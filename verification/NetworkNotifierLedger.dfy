/**
 * What the delegate remembers and tells over a run, read off the signals: the connected
 * networks and their kinds, the default, and every notification that is sent.
 */
module NetworkNotifierLedger {
  import opened Options
  import opened NetworkNotifier

  function Lookup(m: map<int, int>, n: int): Option<int> {
    if n in m then Some(m[n]) else None
  }

  // ------------------------------------------------------------------
  // Connected networks and their kinds
  // ------------------------------------------------------------------

  /** What a signal says about a network: connected with a kind, gone, or nothing. */
  ghost function KindAfter(kind: Option<int>, n: int, ev: Event): Option<int> {
    match ev
    case OnConnect(network, k) => if network == n then Some(k) else kind
    case OnDisconnect(network) => if network == n then None else kind
    case OnPurge(active, _) => if n in active then kind else None
    case _ => kind
  }

  ghost function KindOf(kind: Option<int>, n: int, events: seq<Event>): Option<int>
    decreases |events|
  {
    if events == [] then kind else KindOf(KindAfter(kind, n, events[0]), n, events[1..])
  }

  lemma StepKind(s: State, ev: Event, n: int)
    requires Possible(s, ev)
    ensures Lookup(Apply(s, ev).s.networks, n) == KindAfter(Lookup(s.networks, n), n, ev)
  {
    if ev.OnPurge? {
      PurgeKeepsActive(s, ev.active, ev.gone);
      hide DisconnectAll;
    }
  }

  /**
   * After every run a network is connected, with the kind its last connect signal gave,
   * exactly if no later signal disconnected it or left it out of the active ones.
   */
  lemma {:induction false} KindIsLastSignalled(s: State, events: seq<Event>, n: int)
    requires IsRun(s, events)
    ensures Lookup(Run(s, events).s.networks, n) == KindOf(Lookup(s.networks, n), n, events)
    decreases |events|
  {
    if events != [] {
      StepKind(s, events[0], n);
      hide Apply, Possible;
      KindIsLastSignalled(Apply(s, events[0]).s, events[1..], n);
    }
  }

  // ------------------------------------------------------------------
  // The default and the connection type
  // ------------------------------------------------------------------

  /** The signal takes the network away. */
  ghost predicate Loses(ev: Event, n: int) {
    (ev.OnDisconnect? && ev.network == n) || (ev.OnPurge? && n in ev.gone)
  }

  lemma StepDefault(s: State, ev: Event)
    requires Possible(s, ev)
    ensures var s' := Apply(s, ev).s;
            && s'.current == (if ev.OnTypeChanged? then ev.network
                              else if Loses(ev, s.current) then -1 else s.current)
            && s'.kind == (if !ev.OnTypeChanged? then s.kind else if 0 <= ev.kind <= 7 then ev.kind else 0)
  {
    if ev.OnPurge? {
      PurgeKeepsActive(s, ev.active, ev.gone);
      hide DisconnectAll;
    }
  }

  /** From one change of type to the next the default stays, unless it is lost; the type stays. */
  lemma {:induction false} DefaultStays(s: State, events: seq<Event>)
    requires IsRun(s, events) && forall k :: 0 <= k < |events| ==> !events[k].OnTypeChanged?
    ensures var s' := Run(s, events).s;
            && s'.current == (if exists k :: 0 <= k < |events| && Loses(events[k], s.current) then -1 else s.current)
            && s'.kind == s.kind
    decreases |events|
  {
    if events != [] {
      StepDefault(s, events[0]);
      hide Apply, Possible, Loses;
      var s1 := Apply(s, events[0]).s;
      var rest := events[1..];
      DefaultStays(s1, rest);
      if Loses(events[0], s.current) {
        assert s1.current == -1;
      } else {
        assert forall k :: 0 <= k < |rest| ==> rest[k] == events[k + 1];
        if k :| 0 <= k < |events| && Loses(events[k], s.current) {
          assert rest[k - 1] == events[k];
        }
      }
    }
  }

  /** A change of type names the default and the type. */
  lemma ChangeNamesDefault(s: State, kind: int, network: int, events: seq<Event>)
    requires IsRun(s, [OnTypeChanged(kind, network)] + events)
    requires forall k :: 0 <= k < |events| ==> !events[k].OnTypeChanged?
    ensures var s' := Run(s, [OnTypeChanged(kind, network)] + events).s;
            && s'.current == (if exists k :: 0 <= k < |events| && Loses(events[k], network) then -1 else network)
            && s'.kind == (if 0 <= kind <= 7 then kind else 0)
  {
    var ev := OnTypeChanged(kind, network);
    assert ([ev] + events)[0] == ev && ([ev] + events)[1..] == events;
    StepDefault(s, ev);
    hide Apply;
    DefaultStays(Apply(s, ev).s, events);
  }

  // ------------------------------------------------------------------
  // Notifications
  // ------------------------------------------------------------------

  /** The network is the default and is connected. */
  ghost predicate IsDefaultUp(s: State, n: int) {
    s.current == n && n in s.networks
  }

  ghost function Announcements(notes: seq<Note>): seq<Note> {
    if notes == [] then []
    else (if notes[0].MadeDefault? then [notes[0]] else []) + Announcements(notes[1..])
  }

  lemma {:induction false} FarewellsAnnounceNothing(gone: seq<int>)
    ensures Announcements(Farewells(gone)) == []
  {
    if gone != [] {
      FarewellsAnnounceNothing(gone[1..]);
      assert Farewells(gone)[1..] == Farewells(gone[1..]);
    }
  }

  /**
   * A default is announced exactly when it comes up, once: it was not the default or was not
   * connected, and now is both. (The invalid handle, which a loss names silently, is not to be connected.)
   */
  lemma AnnouncedWhenUp(s: State, ev: Event)
    requires Possible(s, ev) && -1 !in s.networks && !(ev.OnConnect? && ev.network == -1)
    ensures var st := Apply(s, ev);
            var n := st.s.current;
            Announcements(st.notes) == if n in st.s.networks && !IsDefaultUp(s, n) then [MadeDefault(n)] else []
  {
    match ev
    case OnTypeChanged(kind, network) =>
      assert [MadeDefault(network), TypeChanged][1..] == [TypeChanged] && [TypeChanged][1..] == [];
    case OnConnect(network, kind) =>
      assert [Connected(network), MadeDefault(network)][1..] == [MadeDefault(network)];
      assert [MadeDefault(network)][1..] == [] && [Connected(network)][1..] == [];
      assert Announcements([MadeDefault(network)]) == [MadeDefault(network)];
    case OnSoonToDisconnect(network) =>
      assert [SoonToDisconnect(network)][1..] == [];
    case OnDisconnect(network) =>
      assert [Disconnected(network)][1..] == [];
    case OnPurge(active, gone) =>
      PurgeKeepsActive(s, active, gone);
      FarewellsAnnounceNothing(gone);
      hide DisconnectAll;
  }

  /** Warnings and changes of type, as they are passed on. */
  ghost function Passed(notes: seq<Note>): seq<Note> {
    if notes == [] then []
    else (if notes[0].SoonToDisconnect? || notes[0].TypeChanged? then [notes[0]] else []) + Passed(notes[1..])
  }

  lemma {:induction false} PassedJoin(a: seq<Note>, b: seq<Note>)
    ensures Passed(a + b) == Passed(a) + Passed(b)
  {
    if a == [] {
      assert a + b == b;
    } else {
      PassedJoin(a[1..], b);
      assert (a + b)[1..] == a[1..] + b;
      var first := if a[0].SoonToDisconnect? || a[0].TypeChanged? then [a[0]] else [];
      assert first + (Passed(a[1..]) + Passed(b)) == (first + Passed(a[1..])) + Passed(b);
    }
  }

  lemma {:induction false} FarewellsPassNothing(gone: seq<int>)
    ensures Passed(Farewells(gone)) == []
  {
    if gone != [] {
      FarewellsPassNothing(gone[1..]);
      assert Farewells(gone)[1..] == Farewells(gone[1..]);
    }
  }

  /** What is to be passed on of a run: every change of type, and the warnings about networks then connected. */
  ghost function ToPass(s: State, events: seq<Event>): seq<Note>
    decreases |events|
  {
    if events == [] then []
    else
      var ev := events[0];
      (if ev.OnTypeChanged? then [TypeChanged]
       else if ev.OnSoonToDisconnect? && ev.network in s.networks then [SoonToDisconnect(ev.network)]
       else []) + ToPass(Apply(s, ev).s, events[1..])
  }

  lemma StepPasses(s: State, ev: Event)
    requires Possible(s, ev)
    ensures Passed(Apply(s, ev).notes)
         == if ev.OnTypeChanged? then [TypeChanged]
            else if ev.OnSoonToDisconnect? && ev.network in s.networks then [SoonToDisconnect(ev.network)] else []
  {
    match ev
    case OnTypeChanged(kind, network) =>
      assert [MadeDefault(network), TypeChanged][1..] == [TypeChanged] && [TypeChanged][1..] == [];
    case OnConnect(network, kind) =>
      assert [Connected(network), MadeDefault(network)][1..] == [MadeDefault(network)];
      assert [MadeDefault(network)][1..] == [] && [Connected(network)][1..] == [];
      assert Passed([MadeDefault(network)]) == [];
    case OnSoonToDisconnect(network) =>
      assert [SoonToDisconnect(network)][1..] == [];
    case OnDisconnect(network) =>
      assert [Disconnected(network)][1..] == [];
    case OnPurge(active, gone) =>
      PurgeKeepsActive(s, active, gone);
      FarewellsPassNothing(gone);
      hide DisconnectAll;
  }

  /** Over every run each change of type is passed on, and each warning about a connected network, and no others. */
  lemma {:induction false} RunPasses(s: State, events: seq<Event>)
    requires IsRun(s, events)
    ensures Passed(Run(s, events).notes) == ToPass(s, events)
    decreases |events|
  {
    if events != [] {
      StepPasses(s, events[0]);
      hide Apply, Possible;
      var st := Apply(s, events[0]);
      RunPasses(st.s, events[1..]);
      PassedJoin(st.notes, Run(st.s, events[1..]).notes);
    }
  }
}
