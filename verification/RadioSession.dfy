/** Temporary use of an idle radio: pausing its other interfaces, and putting everything back. */
module RadioSession {
  import opened Wrappers

  type Name = string

  datatype Identity = Identity(phy: nat, wdev: nat, ifindex: nat, address: nat)

  datatype Tuning = Tuning(channel: nat, noHt: bool)

  /** What the kernel has for one interface, which is also what a snapshot shows. */
  datatype Interface = Interface(identity: Identity, mode: string, up: bool, tuning: Option<Tuning>)

  datatype State = State(name: Name, saved: Interface)

  const MONITOR := "monitor"

  datatype Command = Link(name: Name, up: bool) | SetType(name: Name, mode: string) | Tune(name: Name, tuning: Tuning)

  function Apply(c: Command, i: Interface): Interface {
    match c
    case Link(_, up) => i.(up := up)
    case SetType(_, mode) => i.(mode := mode)
    case Tune(_, tuning) => i.(tuning := Some(tuning))
  }

  /** Mode, link state and, for a monitor whose tuning was known, the tuning. */
  predicate Restored(now: Interface, saved: Interface) {
    && now.identity == saved.identity && now.mode == saved.mode && now.up == saved.up
    && (saved.mode == MONITOR && saved.tuning.Some? ==> now.tuning == saved.tuning)
  }

  /** Only one interface differs, and it is still the same one. */
  ghost predicate OnlyAt(before: map<Name, Interface>, after: map<Name, Interface>, name: Name) {
    && before.Keys == after.Keys
    && (forall n :: n in before && n != name ==> after[n] == before[n])
    && (name in before ==> after[name].identity == before[name].identity)
  }

  ghost predicate IssuedAt(before: map<Name, Command>, after: map<Name, Command>, name: Name) {
    forall n :: n != name ==> (n in before <==> n in after) && (n in before ==> after[n] == before[n])
  }

  class Radio {
    var interfaces: map<Name, Interface>
    ghost var last: map<Name, Command>   // the last command issued to each interface
    ghost var issued: seq<Command>       // every command issued
    ghost var faults: nat                // commands and readings that failed although the interface exists

    constructor (i: map<Name, Interface>)
      ensures interfaces == i && last == map[] && issued == [] && faults == 0
    {
      interfaces, last, issued, faults := i, map[], [], 0;
    }

    /** A command can succeed, fail, or be interrupted before or after it took effect. */
    method Run(c: Command) returns (ok: bool)
      modifies this
      ensures OnlyAt(old(interfaces), interfaces, c.name) && last == old(last)[c.name := c]
      ensures issued == old(issued) + [c] && faults == old(faults) + if ok || c.name !in interfaces then 0 else 1
      ensures ok ==> c.name in interfaces && interfaces[c.name] == Apply(c, old(interfaces)[c.name])
      ensures c.name in interfaces && !ok ==>
                interfaces[c.name] == old(interfaces)[c.name] || interfaces[c.name] == Apply(c, old(interfaces)[c.name])
    {
      last, issued := last[c.name := c], issued + [c];
      if c.name !in interfaces { return false; }
      var takesEffect;
      ok, takesEffect := *, *;
      if !ok { faults := faults + 1; }
      if ok || takesEffect { interfaces := interfaces[c.name := Apply(c, interfaces[c.name])]; }
    }

    method Snapshot(name: Name) returns (s: Option<Interface>)
      modifies this`faults
      ensures s.Some? ==> name in interfaces && s.value == interfaces[name]
      ensures faults == old(faults) + if s.None? && name in interfaces then 1 else 0
    {
      var readable := *;
      if !readable && name in interfaces { faults := faults + 1; }
      s := if readable && name in interfaces then Some(interfaces[name]) else None;
    }

    /** What the capture does to the interface it borrowed. */
    method Use(name: Name, mode: string, up: bool, tuning: Option<Tuning>)
      modifies this`interfaces
      ensures OnlyAt(old(interfaces), interfaces, name)
      ensures name in interfaces ==>
                interfaces[name] == old(interfaces)[name].(mode := mode, up := up, tuning := tuning)
    {
      if name in interfaces {
        interfaces := interfaces[name := interfaces[name].(mode := mode, up := up, tuning := tuning)];
      }
    }
  }

  ghost predicate Distinct(states: seq<State>) {
    forall i, j :: 0 <= i < j < |states| ==> states[i].name != states[j].name
  }

  predicate Named(states: seq<State>, name: Name) { exists s :: s in states && s.name == name }

  /** What it takes to put an interface back: its mode first if that differs, then its tuning if it is a
      monitor whose tuning is known, and last its link state. */
  function Undo(name: Name, now: Interface, saved: Interface): seq<Command> {
    Reworking(name, now, saved) + [Link(name, saved.up)]
  }

  function Reworking(name: Name, now: Interface, saved: Interface): seq<Command> {
    (if now.mode != saved.mode then [Link(name, false), SetType(name, saved.mode)] else [])
    + (if saved.mode == "monitor" && saved.tuning.Some? then [Link(name, true), Tune(name, saved.tuning.value)] else [])
  }

  /** The commands one by one, in each of the four cases. */
  lemma UndoExactly(name: Name, now: Interface, saved: Interface)
    ensures var first, last, all := Link(name, false), Link(name, saved.up), Undo(name, now, saved);
            if saved.mode == "monitor" && saved.tuning.Some? then
              var tune := Tune(name, saved.tuning.value);
              if now.mode == saved.mode then all == [Link(name, true), tune, last]
              else all == [first, SetType(name, saved.mode), Link(name, true), tune, last]
            else if now.mode == saved.mode then all == [last]
            else all == [first, SetType(name, saved.mode), last]
  {}

  /** All but the link state is as it was saved, or as it was just now if that was already so. */
  ghost predicate Reworked(after: Interface, now: Interface, saved: Interface) {
    && after.identity == now.identity && after.mode == saved.mode
    && (saved.mode == MONITOR && saved.tuning.Some? ==> after.tuning == saved.tuning)
    && (now.(up := saved.up) == saved ==> after.(up := saved.up) == saved)
  }

  lemma ThenLinked(after: Interface, linked: Interface, now: Interface, saved: Interface)
    requires Reworked(after, now, saved) && now.identity == saved.identity && linked == after.(up := saved.up)
    ensures Restored(linked, saved) && (now.(up := saved.up) == saved ==> linked == saved)
  {}

  /** The interface is there, and is the one that was saved. */
  ghost predicate Same(interfaces: map<Name, Interface>, s: State) {
    s.name in interfaces && interfaces[s.name].identity == s.saved.identity
  }

  class RadioSession {
    const radio: Radio
    const target: Name
    const requireIdle: bool
    var states: seq<State>
    var changed: seq<State>

    ghost predicate Valid()
      reads this
    {
      && Distinct(states) && Named(states, target) && Distinct(changed)
      && (forall s :: s in changed ==> s in states)
    }

    constructor (r: Radio, t: Name, s: seq<State>, idleFirst: bool)
      requires Distinct(s) && Named(s, t)
      ensures Valid() && radio == r && target == t && states == s && changed == [] && requireIdle == idleFirst
    {
      radio, target, requireIdle, states, changed := r, t, idleFirst, s, [];
    }

    /** Its mode and its tuning, if they need setting. */
    method Rework(s: State, now: Interface) returns (ok: bool)
      requires s.name in radio.interfaces && radio.interfaces[s.name] == now
      modifies radio
      ensures OnlyAt(old(radio.interfaces), radio.interfaces, s.name) && s.name in radio.interfaces
      ensures IssuedAt(old(radio.last), radio.last, s.name) && old(radio.faults) <= radio.faults
      ensures ok <==> radio.faults == old(radio.faults)
      ensures ok ==> Reworked(radio.interfaces[s.name], now, s.saved)
      ensures ok ==> radio.issued == old(radio.issued) + Reworking(s.name, now, s.saved)
    {
      ok := true;
      if now.mode != s.saved.mode {
        ok := radio.Run(Link(s.name, false));
        if ok { ok := radio.Run(SetType(s.name, s.saved.mode)); }
      }
      if ok && s.saved.mode == MONITOR && s.saved.tuning.Some? {
        ok := radio.Run(Link(s.name, true));
        if ok { ok := radio.Run(Tune(s.name, s.saved.tuning.value)); }
      }
    }

    /** Puts one interface back, if it is the same one. Whatever fails on the way, its link state is set
        last; if nothing fails, exactly the commands it takes are issued. */
    method RestoreOne(s: State) returns (ok: bool, seen: bool)
      modifies radio
      ensures OnlyAt(old(radio.interfaces), radio.interfaces, s.name)
      ensures ok ==>
                && seen && s.name in radio.interfaces && s.name in old(radio.interfaces)
                && Restored(radio.interfaces[s.name], s.saved)
      ensures ok && old(radio.interfaces)[s.name].(up := s.saved.up) == s.saved ==> radio.interfaces[s.name] == s.saved
      ensures seen ==> s.name in radio.last && radio.last[s.name] == Link(s.name, s.saved.up)
      ensures IssuedAt(old(radio.last), radio.last, s.name)
      ensures !seen ==> !ok && radio.interfaces == old(radio.interfaces)
      ensures seen ==> Same(old(radio.interfaces), s)
      ensures old(radio.faults) <= radio.faults
      ensures radio.faults == old(radio.faults) ==> ok == seen == Same(old(radio.interfaces), s)
      ensures radio.faults == old(radio.faults) ==>
                radio.issued == old(radio.issued)
                  + if seen then Undo(s.name, old(radio.interfaces)[s.name], s.saved) else []
    {
      var current := radio.Snapshot(s.name);
      ok, seen := false, false;
      if current.None? || current.value.identity != s.saved.identity { return; }
      seen := true;
      ok := Rework(s, current.value);
      hide Reworked, Reworking, Restored;
      ghost var after := radio.interfaces[s.name];
      var linked := radio.Run(Link(s.name, s.saved.up));
      if ok && linked { ThenLinked(after, radio.interfaces[s.name], current.value, s.saved); }
      ok := ok && linked;
    }

    /** The radio is idle and every interface is as it was saved. Nothing is changed. */
    method Unchanged() returns (ok: bool, ghost idle: bool)
      modifies radio`faults
      ensures old(radio.faults) <= radio.faults && (ok ==> idle)
      ensures radio.faults == old(radio.faults) ==>
                (ok <==> idle && forall s :: s in states ==>
                  s.name in radio.interfaces && radio.interfaces[s.name] == s.saved)
      ensures ok ==> forall s :: s in states ==> s.name in radio.interfaces && radio.interfaces[s.name] == s.saved
    {
      ok := *;
      idle := ok;
      var i := 0;
      while ok && i < |states|
        invariant 0 <= i <= |states| && old(radio.faults) <= radio.faults && (ok ==> idle)
        invariant !ok && idle && radio.faults == old(radio.faults) ==>
                    exists s :: s in states && !(s.name in radio.interfaces && radio.interfaces[s.name] == s.saved)
        invariant ok ==> forall k :: 0 <= k < i ==>
                    states[k].name in radio.interfaces && radio.interfaces[states[k].name] == states[k].saved
      {
        assert states[i] in states;
        var now := radio.Snapshot(states[i].name);
        ok := now == Some(states[i].saved);
        i := i + 1;
      }
    }

    /** Remembers an interface, then takes it down; the command may be interrupted either way. */
    method Pause(s: State, ghost before: map<Name, Interface>) returns (ok: bool)
      requires Paused(before, radio.interfaces, changed, target) && !Named(changed, s.name)
      requires s.name in before && before[s.name] == s.saved && s.name != target
      modifies this`changed, radio
      ensures changed == old(changed) + [s] && Paused(before, radio.interfaces, changed, target)
      ensures ok ==> s.name in radio.interfaces && !radio.interfaces[s.name].up
      ensures OnlyAt(old(radio.interfaces), radio.interfaces, s.name)
      ensures radio.faults == old(radio.faults) + if ok then 0 else 1
      ensures radio.issued == old(radio.issued) + [Link(s.name, false)]
    {
      hide Paused, OnlyAt, Named;
      ghost var now := radio.interfaces;
      PausedKeys(before, now, changed, target);
      changed := changed + [s];
      ok := radio.Run(Link(s.name, false));
      PausedNext(before, now, radio.interfaces, old(changed), s, target);
    }

    /** Takes down the other interfaces that are up, remembering each before touching it. */
    method PauseOthers(ghost before: map<Name, Interface>) returns (ok: bool)
      requires Valid() && changed == [] && Paused(before, radio.interfaces, changed, target)
      requires forall s :: s in states ==> s.name in before && before[s.name] == s.saved
      modifies this`changed, radio
      ensures Valid() && Paused(before, radio.interfaces, changed, target)
      ensures forall s :: s in changed ==> s.name != target
      ensures ok ==> Progress(states, changed, radio.interfaces, target)
      ensures ok ==> radio.issued == old(radio.issued) + Downs(states, target)
      ensures radio.faults == old(radio.faults) + if ok then 0 else 1
    {
      hide Paused, OnlyAt, Progress, Named, Distinct, Downs;
      ok := true;
      NoDowns(target);
      NoProgress(radio.interfaces, target);
      for i := 0 to |states|
        invariant Valid() && Paused(before, radio.interfaces, changed, target) && ok
        invariant forall s :: s in changed ==> s in states[..i] && s.name != target
        invariant Progress(states[..i], changed, radio.interfaces, target)
        invariant radio.issued == old(radio.issued) + Downs(states[..i], target)
        invariant radio.faults == old(radio.faults)
      {
        var s := states[i];
        assert s in states;
        DistinctSnoc(states, changed, i);
        assert states[..i + 1] == states[..i] + [s];
        DownsSnoc(states[..i], s, target);
        ghost var now, was := radio.interfaces, changed;
        PausedElse(before, now, changed, target, s);
        if s.name != target && s.saved.up {
          ok := Pause(s, before);
          if !ok { return; }
        }
        NamesApart(states, i);
        Progressed(states[..i], s, was, changed, now, radio.interfaces, target);
      }
      assert states[..|states|] == states;
    }

    method Selected() returns (s: State)
      requires Valid()
      ensures s in states && s.name == target
    {
      var i := 0;
      while i < |states| && states[i].name != target
        invariant 0 <= i <= |states| && forall j :: 0 <= j < i ==> states[j].name != target
      {
        i := i + 1;
      }
      assert Named(states, target);
      s := states[i];
    }

    /** Pauses the other interfaces that are up, and last of all remembers the selected one. If no command
        fails it goes through exactly when the radio is idle and unchanged. */
    method Prepare() returns (ok: bool, ghost idle: bool)
      requires Valid() && changed == []
      modifies this`changed, radio
      ensures Valid() && Paused(old(radio.interfaces), radio.interfaces, changed, target)
      ensures ok ==> forall s :: s in states && (s.saved.up || s.name == target) ==> s in changed
      ensures ok <==> Named(changed, target)
      ensures ok ==> forall s :: s in states && s.name != target ==>
                s.name in radio.interfaces && !radio.interfaces[s.name].up
      ensures ok ==> radio.issued == old(radio.issued) + Downs(states, target)
      ensures old(radio.faults) <= radio.faults
      ensures radio.faults == old(radio.faults) ==>
                (ok <==> idle && forall s :: s in states ==>
                   s.name in old(radio.interfaces) && old(radio.interfaces)[s.name] == s.saved)
    {
      hide Paused;
      PausedStart(radio.interfaces, target);
      ghost var before := radio.interfaces;
      ok, idle := Unchanged();
      if !ok { return; }
      ok := PauseOthers(before);
      if !ok { return; }
      var selected := Selected();
      PausedLast(before, radio.interfaces, changed, selected);
      NamedSnoc(changed, selected);
      OneState(states, selected, target);
      changed := changed + [selected];
    }

    /** Puts back every interface on record, newest first. A failure on one stops none of the others. */
    method Restore() returns (refused: bool, errors: seq<Name>, ghost untouched: set<Name>, ghost busy: bool)
      requires Valid()
      modifies radio
      ensures old(radio.interfaces).Keys == radio.interfaces.Keys
      ensures refused <==> requireIdle && changed != [] && busy
      ensures refused ==> radio.interfaces == old(radio.interfaces) && radio.issued == old(radio.issued)
      ensures !refused ==> forall s :: s in changed ==>
                Handled(s, old(radio.interfaces), radio.interfaces, radio.last, errors, untouched)
      ensures forall n :: n in radio.interfaces && !Named(changed, n) ==>
        radio.interfaces[n] == old(radio.interfaces)[n]
      ensures (forall n :: n in errors ==> Named(changed, n)) && old(radio.faults) <= radio.faults
      ensures !refused && radio.faults == old(radio.faults) ==>
                forall s :: s in changed ==> (s.name in errors <==> !Same(old(radio.interfaces), s))
    {
      var inUse := *;
      refused, errors, untouched, busy := requireIdle && changed != [] && inUse, [], {}, inUse;
      ghost var before := radio.interfaces;
      if refused { return; }
      var i := |changed|;
      while i > 0
        invariant 0 <= i <= |changed| && before.Keys == radio.interfaces.Keys
        invariant forall j :: i <= j < |changed| ==>
          Handled(changed[j], before, radio.interfaces, radio.last, errors, untouched)
        invariant forall n :: n in before && !Named(changed[i..], n) ==> radio.interfaces[n] == before[n]
        invariant forall j :: 0 <= j < i ==> changed[j].name !in errors && changed[j].name !in untouched
        invariant (forall n :: n in errors ==> Named(changed, n)) && old(radio.faults) <= radio.faults
        invariant radio.faults == old(radio.faults) ==>
                    forall j :: i <= j < |changed| ==> (changed[j].name in errors <==> !Same(before, changed[j]))
      {
        i := i - 1;
        var s := changed[i];
        assert changed[i..] == [s] + changed[i + 1..];
        NamedCons(s, changed[i + 1..]);
        NotNamed(changed, i);
        ghost var now, last := radio.interfaces, radio.last;
        assert s in changed && (Same(now, s) <==> Same(before, s));
        var ok, seen := RestoreOne(s);
        forall j | i < j < |changed|
          ensures Handled(changed[j], before, radio.interfaces, radio.last,
                          if ok then errors else errors + [s.name], if seen then untouched else untouched + {s.name})
        {
          HandledKept(changed[j], s.name, before, now, radio.interfaces, last, radio.last, errors, untouched, ok, seen);
        }
        if !ok { errors := errors + [s.name]; }
        if !seen { untouched := untouched + {s.name}; }
      }
      assert changed[0..] == changed;
    }

    /** A whole borrowing: preparation may stop at any point, the capture may do anything to the
        interface it was given, and restoration follows. Where restoration reports no error, every
        other interface is exactly as it was, and the borrowed one is restored. */
    method Borrow(mode: string, up: bool, tuning: Option<Tuning>) returns (refused: bool, errors: seq<Name>)
      requires Valid() && changed == []
      modifies this`changed, radio
      ensures old(radio.interfaces).Keys == radio.interfaces.Keys
      ensures !refused ==> forall n :: n in radio.interfaces && n !in errors && n != target ==>
                radio.interfaces[n] == old(radio.interfaces)[n]
      ensures !refused && target !in errors && target in radio.interfaces ==>
                Restored(radio.interfaces[target], old(radio.interfaces)[target])
      ensures refused ==> requireIdle
      ensures !refused && radio.faults == old(radio.faults) ==> errors == []
    {
      hide Restored, OnlyAt;
      ghost var before := radio.interfaces;
      var prepared, idle := Prepare();
      ghost var paused := radio.interfaces;
      if prepared {
        radio.Use(target, mode, up, tuning);
        OnlyThere(paused, radio.interfaces, target);
      } else {
        OnlyThere(paused, paused, target);
      }
      ghost var used := radio.interfaces;
      ghost var untouched: set<Name>, busy;
      StillSame(before, paused, used, changed, target);
      refused, errors, untouched, busy := Restore();
      if errors != [] && !refused {
        assert errors[0] in errors;
        var s :| s in changed && s.name == errors[0];
      }
      if !refused {
        forall n | n in before && n !in errors
          ensures n != target ==> radio.interfaces[n] == before[n]
          ensures n == target ==> Restored(radio.interfaces[n], before[n])
        {
          if Named(changed, n) {
            var s :| s in changed && s.name == n;
            assert Handled(s, used, radio.interfaces, radio.last, errors, untouched);
          } else {
            RestoredSame(before[n]);
          }
        }
      }
    }
  }

  /** The interfaces that were up, but for the selected one, are taken down in turn. */
  function Downs(states: seq<State>, target: Name): seq<Command> {
    if states == [] then []
    else
      var front, s := Downs(states[..|states| - 1], target), states[|states| - 1];
      if s.name != target && s.saved.up then front + [Link(s.name, false)] else front
  }

  /** Of the interfaces gone through, those that were up are on record, and none but the selected one
      is up any more. */
  ghost predicate Progress(gone: seq<State>, changed: seq<State>, now: map<Name, Interface>, target: Name) {
    && (forall s :: s in gone && s.saved.up && s.name != target ==> s in changed)
    && (forall s :: s in gone && s.name != target ==> s.name in now && !now[s.name].up)
  }

  lemma NoProgress(now: map<Name, Interface>, target: Name)
    ensures Progress([], [], now, target)
  {}

  lemma Progressed(gone: seq<State>, s: State, was: seq<State>, changed: seq<State>, before: map<Name, Interface>,
      now: map<Name, Interface>, target: Name)
    requires Progress(gone, was, before, target) && (forall x :: x in gone ==> x.name != s.name)
    requires if s.name != target && s.saved.up then
        changed == was + [s] && OnlyAt(before, now, s.name) && s.name in now && !now[s.name].up
      else changed == was && now == before
    requires s.name != target && !s.saved.up ==> s.name in now && !now[s.name].up
    ensures Progress(gone + [s], changed, now, target)
  {}

  lemma OneState(states: seq<State>, s: State, target: Name)
    requires Distinct(states) && s in states && s.name == target
    ensures forall x :: x in states && x.name == target ==> x == s
  {
    var i :| 0 <= i < |states| && states[i] == s;
    forall x | x in states && x.name == target ensures x == s {
      var j :| 0 <= j < |states| && states[j] == x;
    }
  }

  lemma NoDowns(target: Name)
    ensures Downs([], target) == []
  {}

  lemma DownsSnoc(states: seq<State>, s: State, target: Name)
    ensures Downs(states + [s], target)
            == Downs(states, target) + if s.name != target && s.saved.up then [Link(s.name, false)] else []
  {
    assert (states + [s])[..|states|] == states;
  }

  lemma NamesApart(states: seq<State>, i: nat)
    requires Distinct(states) && i < |states|
    ensures forall x :: x in states[..i] ==> x.name != states[i].name
  {
    forall x | x in states[..i] ensures x.name != states[i].name {
      var k :| 0 <= k < i && states[k] == x;
    }
  }

  /** An interface not on record is as it was. */
  lemma PausedElse(before: map<Name, Interface>, now: map<Name, Interface>, changed: seq<State>, target: Name, s: State)
    requires Paused(before, now, changed, target)
    ensures s.name in before && !Named(changed, s.name) ==> s.name in now && now[s.name] == before[s.name]
  {}

  lemma OnlyThere(before: map<Name, Interface>, after: map<Name, Interface>, name: Name)
    requires OnlyAt(before, after, name)
    ensures before.Keys == after.Keys && forall n :: n in before && n != name ==> after[n] == before[n]
  {}

  lemma StillSame(before: map<Name, Interface>, paused: map<Name, Interface>, used: map<Name, Interface>,
      changed: seq<State>, target: Name)
    requires Paused(before, paused, changed, target) && OnlyAt(paused, used, target)
    ensures forall s :: s in changed ==> Same(used, s)
  {}

  lemma RestoredSame(i: Interface)
    ensures Restored(i, i)
  {}

  /** What restoring made of one interface: without an error it is as it was saved; and unless it is
      gone, unreadable or replaced, and so left alone, its last command set its saved link state. */
  ghost predicate Handled(s: State, before: map<Name, Interface>, now: map<Name, Interface>, last: map<Name, Command>,
                          errors: seq<Name>, untouched: set<Name>) {
    && (s.name !in errors ==>
          && s.name in now && Restored(now[s.name], s.saved)
          && (s.name in before && before[s.name].(up := s.saved.up) == s.saved ==> now[s.name] == s.saved))
    && (if s.name in untouched then s.name in errors
      && (s.name in before && s.name in now ==> now[s.name] == before[s.name])
        else s.name in last && last[s.name] == Link(s.name, s.saved.up))
  }

  lemma HandledKept(s: State, other: Name, before: map<Name, Interface>, now: map<Name, Interface>, after: map<Name,
      Interface>,
                    last: map<Name, Command>, later: map<Name, Command>, errors: seq<Name>, untouched: set<Name>,
                      ok: bool, seen: bool)
    requires Handled(s, before, now, last, errors, untouched) && s.name != other
    requires OnlyAt(now, after, other) && IssuedAt(last, later, other)
    ensures Handled(s, before, after, later,
                    if ok then errors else errors + [other], if seen then untouched else untouched + {other})
  {
    assert s.name in now <==> s.name in after;
  }

  lemma NamedCons(s: State, rest: seq<State>)
    ensures forall n :: Named([s] + rest, n) <==> Named(rest, n) || n == s.name
  {
    forall n ensures Named([s] + rest, n) <==> Named(rest, n) || n == s.name {
      assert s in [s] + rest;
      assert forall x :: x in rest ==> x in [s] + rest;
    }
  }

  lemma NotNamed(changed: seq<State>, i: nat)
    requires Distinct(changed) && i < |changed|
    ensures !Named(changed[i + 1..], changed[i].name)
    ensures forall j :: 0 <= j < |changed| && j != i ==> changed[j].name != changed[i].name
  {
    forall s | s in changed[i + 1..] ensures s.name != changed[i].name {
      var k :| 0 <= k < |changed[i + 1..]| && changed[i + 1..][k] == s;
      assert changed[i + 1 + k] == s;
    }
  }

  lemma PausedStart(before: map<Name, Interface>, target: Name)
    ensures Paused(before, before, [], target)
  {}

  lemma PausedKeys(before: map<Name, Interface>, now: map<Name, Interface>, changed: seq<State>, target: Name)
    requires Paused(before, now, changed, target)
    ensures before.Keys == now.Keys
  {}

  /** Only interfaces on record differ from before, and those only in their link state; the selected
      one not even in that. */
  ghost predicate Paused(before: map<Name, Interface>, now: map<Name, Interface>, changed: seq<State>, target: Name) {
    && before.Keys == now.Keys
    && (forall n :: n in before && !Named(changed, n) ==> now[n] == before[n])
    && (forall s :: s in changed ==>
          s.name in before && before[s.name] == s.saved && now[s.name].(up := s.saved.up) == s.saved
          && (s.name == target ==> now[s.name] == s.saved))
  }

  lemma PausedNext(before: map<Name, Interface>, now: map<Name, Interface>, after: map<Name, Interface>,
                   changed: seq<State>, s: State, target: Name)
    requires Paused(before, now, changed, target) && !Named(changed, s.name)
    requires s.name in before && before[s.name] == s.saved && s.name != target
    requires OnlyAt(now, after, s.name) && (after[s.name] == now[s.name] || after[s.name] == now[s.name].(up := false))
    ensures Paused(before, after, changed + [s], target)
  {
    NamedSnoc(changed, s);
  }

  lemma PausedLast(before: map<Name, Interface>, now: map<Name, Interface>, changed: seq<State>, s: State)
    requires Paused(before, now, changed, s.name) && !Named(changed, s.name)
    requires s.name in before && before[s.name] == s.saved
    ensures Paused(before, now, changed + [s], s.name)
  {
    NamedSnoc(changed, s);
  }

  lemma NamedSnoc(changed: seq<State>, s: State)
    ensures forall n :: Named(changed + [s], n) <==> Named(changed, n) || n == s.name
  {
    forall n ensures Named(changed + [s], n) <==> Named(changed, n) || n == s.name {
      assert s in changed + [s];
      assert forall x :: x in changed ==> x in changed + [s];
    }
  }

  lemma DistinctSnoc(states: seq<State>, changed: seq<State>, i: nat)
    requires Distinct(states) && Distinct(changed) && i < |states| && forall s :: s in changed ==> s in states[..i]
    ensures Distinct(changed + [states[i]]) && !Named(changed, states[i].name)
  {
    forall s | s in changed ensures s.name != states[i].name {
      var k :| 0 <= k < i && states[k] == s;
    }
  }
}
