/** The controller (lib/form.js): the lifecycle state machine, the error
    channel, and the two directions of synchronisation between the form's
    elements and the remote key. The remote key is a map from key paths to
    values with a log of the operations issued on it; its asynchronous
    callbacks complete synchronously, their failures given as inputs. */
module FormController {
  import opened Wrappers
  import opened Dom
  import opened ElementNames
  import opened NameIndex
  import opened ElementValue
  import opened KeyPath
  import opened Capture
  import opened Receive
  import opened Options
  import IndicatorView

  /** `STATES`. */
  datatype State = New | Initializing | Initialized | Destroying | Destroyed | FailedDestroy

  datatype FormError =
    /** `initialize` called again. */
    | AlreadyInitialized
    /** `destroy` before `initialize` completed, or twice. */
    | NotDestroyable
    /** `on`/`off` with an event other than `error`. */
    | InvalidEvent
    /** `_capture` refused the element. */
    | Rejected(reason: CaptureError)
    /** `_setEl` found no element for the identity. */
    | NotLocated(id: Identity)
    /** The remote key reported an error for a set or a remove. */
    | StoreError
    /** One of `initialize`'s two tasks reported an error. */
    | TaskError
    /** The TypeError of a key path without a name segment. */
    | MissingSegments
    /** The TypeError of `elementValue.set` on an option that is missing. */
    | SetError
    /** The TypeError of the view's `destroy` with a detached container. */
    | ViewError

  /** How an operation ends: normally, with an error passed to its callback,
      with an error emitted to the `error` listeners, or with an exception. */
  datatype Outcome = Done | CallbackError(error: FormError) | Emitted(error: FormError) | Thrown(error: FormError)

  /** An operation issued on the remote key. */
  datatype Op = SetOp(path: string, value: Value) | RemoveOp

  /** A leaf of the stored nested map (tag name, type, escaped name, index),
      in the order `_.each` visits the nested objects. */
  datatype Entry = Entry(tagName: string, elType: string, name: string, index: string, value: Value)

  /** The identity `initialize` hands `_setEl` for an entry: the stored
      name unescaped. */
  function EntryIdentity(e: Entry): Identity {
    Identity(e.tagName, e.elType, Unescape(e.name), e.index)
  }

  /** The path in the widget's namespace that an entry was read from. */
  function EntryPath(e: Entry): string {
    Keyify(Identity(e.tagName, e.elType, e.name, e.index))
  }

  /** What `key.get` hands `initialize`: the entries list the namespace,
      each stored path with its value, in the order `_.each` visits them. */
  predicate Lists(store: map<string, Value>, entries: seq<Entry>) {
    && (forall i :: 0 <= i < |entries| ==> EntryPath(entries[i]) in store && store[EntryPath(entries[i])] == entries[i].value)
    && (forall p :: p in store ==> exists i :: 0 <= i < |entries| && EntryPath(entries[i]) == p)
  }

  /** Whether an entry's `_setEl` reaches element e. */
  predicate Reaches(elems: seq<Elem>, entry: Entry, e: Elem) {
    Locate(elems, Resolve(EntryIdentity(entry), entry.value).0) == Some(e)
  }

  /** The snapshot hydration leaves in element e, which starts as s: each
      entry that reaches e writes its value, in order. */
  function Hydrated(elems: seq<Elem>, e: Elem, s: Snapshot, entries: seq<Entry>): (r: Snapshot)
    ensures |r.options| == |s.options|
    decreases |entries|
  {
    if entries == [] then s
    else ApplyEntry(elems, e, Hydrated(elems, e, s, entries[..|entries| - 1]), entries[|entries| - 1])
  }

  /** Whether an entry's `_setEl` checks another radio button of e's group,
      so that the browser unchecks e. */
  predicate Unchecks(elems: seq<Elem>, entry: Entry, e: Elem) {
    var (id, v) := Resolve(EntryIdentity(entry), entry.value);
    match Locate(elems, id)
    case None => false
    case Some(el) => ChecksRadio(el, v) && GroupMate(el, e)
  }

  /** The effect of one entry's `_setEl` on element e, which holds s: the
      entry's value written when it reaches e, e unchecked when the entry
      checks another button of its radio group, nothing otherwise. */
  function ApplyEntry(elems: seq<Elem>, e: Elem, s: Snapshot, entry: Entry): (r: Snapshot)
    ensures |r.options| == |s.options|
    ensures Reaches(elems, entry, e) ==> r == Write(KindOfElem(e), s, Resolve(EntryIdentity(entry), entry.value).1).0
    ensures Unchecks(elems, entry, e) ==> r == s.(checked := false)
    ensures !Reaches(elems, entry, e) && !Unchecks(elems, entry, e) ==> r == s
  {
    var (id, v) := Resolve(EntryIdentity(entry), entry.value);
    match Locate(elems, id)
    case None => s
    case Some(el) => if el == e then Write(KindOfElem(e), s, v).0 else Beside(el, v, e, s)
  }

  /** The elements' states, in document order. */
  function Snapshots(elems: seq<Elem>): (r: seq<Snapshot>)
    reads elems, set e | e in elems :: e.options
    ensures |r| == |elems| && forall k :: 0 <= k < |elems| ==> r[k] == SnapshotOf(elems[k])
  {
    seq(|elems|, k requires 0 <= k < |elems| reads elems, set e | e in elems :: e.options => SnapshotOf(elems[k]))
  }

  /** One entry's `_setEl` seen across all the elements. */
  function StepAll(elems: seq<Elem>, ss: seq<Snapshot>, entry: Entry): (r: seq<Snapshot>)
    requires |ss| == |elems|
    ensures |r| == |elems| && forall k :: 0 <= k < |elems| ==> r[k] == ApplyEntry(elems, elems[k], ss[k], entry)
  {
    seq(|elems|, k requires 0 <= k < |elems| => ApplyEntry(elems, elems[k], ss[k], entry))
  }

  /** Hydration of all the elements, which start as ss. */
  function HydratedAll(elems: seq<Elem>, ss: seq<Snapshot>, entries: seq<Entry>): (r: seq<Snapshot>)
    requires |ss| == |elems|
    ensures |r| == |elems|
    decreases |entries|
  {
    if entries == [] then ss
    else StepAll(elems, HydratedAll(elems, ss, entries[..|entries| - 1]), entries[|entries| - 1])
  }

  /** The error an entry's `_setEl` reports: its identity when it locates
      no element, nothing otherwise. */
  function EntryMiss(elems: seq<Elem>, entry: Entry): seq<FormError> {
    var id := Resolve(EntryIdentity(entry), entry.value).0;
    if Locate(elems, id).None? then [NotLocated(id)] else []
  }

  /** The errors a hydration walk over the entries reports, in order: one
      per entry that locates no element. */
  function Missed(elems: seq<Elem>, entries: seq<Entry>): (r: seq<FormError>)
    ensures |r| <= |entries| && forall j :: 0 <= j < |r| ==> r[j].NotLocated?
    decreases |entries|
  {
    if entries == [] then []
    else Missed(elems, entries[..|entries| - 1]) + EntryMiss(elems, entries[|entries| - 1])
  }

  /** Hydration one entry further. */
  lemma HydratedAllStep(elems: seq<Elem>, ss: seq<Snapshot>, entries: seq<Entry>, i: nat)
    requires |ss| == |elems| && i < |entries|
    ensures HydratedAll(elems, ss, entries[..i + 1]) == StepAll(elems, HydratedAll(elems, ss, entries[..i]), entries[i])
  {
    assert entries[..i + 1][..i] == entries[..i];
  }

  /** The errors of one more entry. */
  lemma MissedStep(elems: seq<Elem>, entries: seq<Entry>, i: nat)
    requires i < |entries|
    ensures Missed(elems, entries[..i + 1]) == Missed(elems, entries[..i]) + EntryMiss(elems, entries[i])
  {
    assert entries[..i + 1][..i] == entries[..i];
  }

  /** Each element is hydrated on its own: the k-th state is the fold of
      the entries over the k-th element alone. */
  lemma {:induction false} HydratedAllAt(elems: seq<Elem>, ss: seq<Snapshot>, entries: seq<Entry>, k: nat)
    requires |ss| == |elems| && k < |elems|
    ensures HydratedAll(elems, ss, entries)[k] == Hydrated(elems, elems[k], ss[k], entries)
    decreases |entries|
  {
    if entries != [] {
      HydratedAllAt(elems, ss, entries[..|entries| - 1], k);
    }
  }

  /** An element that no entry reaches, and whose radio group no entry
      checks, keeps its state. */
  lemma {:induction false} HydratedUntouched(elems: seq<Elem>, e: Elem, s: Snapshot, entries: seq<Entry>)
    requires forall i :: 0 <= i < |entries| ==> !Reaches(elems, entries[i], e) && !Unchecks(elems, entries[i], e)
    ensures Hydrated(elems, e, s, entries) == s
    decreases |entries|
  {
    if entries != [] {
      var n := |entries| - 1;
      var prefix := entries[..n];
      assert forall i :: 0 <= i < |prefix| ==> prefix[i] == entries[i];
      HydratedUntouched(elems, e, s, prefix);
      assert !Reaches(elems, entries[n], e) && !Unchecks(elems, entries[n], e);
      assert Hydrated(elems, e, s, entries) == ApplyEntry(elems, e, Hydrated(elems, e, s, prefix), entries[n]);
    }
  }

  /** An element exactly one entry reaches ends as that entry's value
      writes it. */
  lemma {:induction false} HydratedSingle(elems: seq<Elem>, e: Elem, s: Snapshot, entries: seq<Entry>, j: nat)
    requires j < |entries| && Reaches(elems, entries[j], e)
    requires forall i :: 0 <= i < |entries| && i != j ==> !Reaches(elems, entries[i], e) && !Unchecks(elems, entries[i], e)
    ensures Hydrated(elems, e, s, entries) == ApplyEntry(elems, e, s, entries[j])
    decreases |entries|
  {
    var n := |entries| - 1;
    var prefix := entries[..n];
    assert forall i :: 0 <= i < |prefix| ==> prefix[i] == entries[i];
    assert Hydrated(elems, e, s, entries) == ApplyEntry(elems, e, Hydrated(elems, e, s, prefix), entries[n]);
    if j == n {
      HydratedUntouched(elems, e, s, prefix);
    } else {
      HydratedSingle(elems, e, s, prefix, j);
      assert !Reaches(elems, entries[n], e) && !Unchecks(elems, entries[n], e);
    }
  }

  /** A stored radio position checks one button of the group: the entry
      leaves the button it reaches checked and every other button of that
      group unchecked, whatever they held. */
  lemma RadioEntryChecksOneButton(elems: seq<Elem>, entry: Entry, el: Elem, s: Snapshot, e: Elem, t: Snapshot)
    requires Reaches(elems, entry, el) && entry.elType == "radio" && el.elType == "radio" && KindOfElem(el) == Checkable
    requires e in elems && GroupMate(el, e)
    ensures ApplyEntry(elems, el, s, entry).checked
    ensures !ApplyEntry(elems, e, t, entry).checked
  {
    assert Resolve(EntryIdentity(entry), entry.value).1 == VBool(true);
    assert Unchecks(elems, entry, e);
  }

  /** `VALID_EVENTS`. */
  const ERROR_EVENT: string := "error"

  /** `_emitOrThrow`: an error goes to the listeners when there are any and
      is thrown otherwise. */
  function Report(listeners: seq<nat>, e: FormError): (r: Outcome)
    ensures r.Emitted? <==> |listeners| > 0
    ensures r.Emitted? || r.Thrown?
    ensures r.error == e
  {
    if |listeners| > 0 then Emitted(e) else Thrown(e)
  }

  /** The errors the listeners have seen after one more report. */
  function Recorded(emitted: seq<FormError>, listeners: seq<nat>, e: FormError): seq<FormError> {
    if |listeners| > 0 then emitted + [e] else emitted
  }

  /** The emitter's `off`: the first registration of the listener goes. */
  function RemoveFirst(xs: seq<nat>, x: nat): (r: seq<nat>)
    ensures x !in xs ==> r == xs
    ensures x in xs ==> |r| == |xs| - 1
    decreases |xs|
  {
    if xs == [] then []
    else if xs[0] == x then xs[1..]
    else [xs[0]] + RemoveFirst(xs[1..], x)
  }

  /** `off` takes away one registration of the listener and keeps every
      other one. */
  lemma {:induction false} RemoveFirstCounts(xs: seq<nat>, x: nat)
    ensures multiset(RemoveFirst(xs, x)) == multiset(xs) - multiset{x}
    decreases |xs|
  {
    if xs != [] {
      assert xs == [xs[0]] + xs[1..];
      if xs[0] != x {
        RemoveFirstCounts(xs[1..], x);
      }
    }
  }

  /** Registering a listener and then removing it restores the list. */
  lemma {:induction false} OffUndoesOn(xs: seq<nat>, x: nat)
    requires x !in xs
    ensures RemoveFirst(xs + [x], x) == xs
    decreases |xs|
  {
    if xs != [] {
      assert (xs + [x])[1..] == xs[1..] + [x];
      OffUndoesOn(xs[1..], x);
    }
  }

  /** `hasClickAncestor`: only a checkbox or radio inside a click-indicator
      region, when that widget is loaded (the flag), suppresses the
      indicator. */
  predicate HasClickAncestor(el: Elem, clickRegion: bool) {
    el.tagName == INPUT && (el.elType == "radio" || el.elType == "checkbox") && clickRegion
  }

  /** Whether `_setEl` shows an indicator: only for an update from a user
      (a truthy `userId`). */
  predicate FromUser(userId: Option<string>) {
    userId.Some? && userId.value != ""
  }

  /** Each element has its own options. */
  predicate OwnOptions(elems: seq<Elem>) {
    forall i, j :: 0 <= i < |elems| && 0 <= j < |elems| && elems[i] != elems[j] ==> elems[i].options != elems[j].options
  }

  class Form {
    /** The form's elements in document order. */
    const elems: seq<Elem>
    const included: Option<seq<string>>
    /** The indicator view, when `ui` is set. */
    const view: IndicatorView.View?
    var state: State
    /** False only while a remote reset is being applied. */
    var local: bool
    /** The `error` listeners, by identity. */
    var listeners: seq<nat>
    /** The widget's namespace on the remote key. */
    var store: map<string, Value>
    var log: seq<Op>
    /** The errors emitted to the listeners, in order. */
    var emitted: seq<FormError>
    /** `key.on('set')`/`key.on('remove')` are registered. */
    var platformBound: bool
    /** The DOM listeners, `reset` among them, are registered. */
    var domBound: bool
    /** `usercache.on('change')` is registered. */
    var userFeedBound: bool

    ghost predicate Valid()
      reads this, view
    {
      (view != null ==> view.Valid())
      && (view != null && state == Initialized ==> view.mounted)
      && state != FailedDestroy
      && OwnOptions(elems)
    }

    /** The constructor, once `Validate` has accepted the options. */
    constructor(elems: seq<Elem>, cfg: Config, remote: map<string, Value>)
      requires OwnOptions(elems)
      ensures Valid()
      ensures this.elems == elems && included == cfg.included && (view != null <==> cfg.ui)
      ensures view != null ==>
        && fresh(view) && view.items == [] && !view.mounted
        && view.displayTimer == (if cfg.displayTimer < 0 then 0 else cfg.displayTimer)
      ensures state == New && local && listeners == [] && store == remote && log == [] && emitted == []
      ensures !platformBound && !domBound && !userFeedBound
    {
      this.elems := elems;
      included := cfg.included;
      if cfg.ui {
        view := new IndicatorView.View(if cfg.displayTimer < 0 then 0 else cfg.displayTimer);
      } else {
        view := null;
      }
      state := New;
      local := true;
      listeners := [];
      store := remote;
      log := [];
      emitted := [];
      platformBound := false;
      domBound := false;
      userFeedBound := false;
    }

    twostate predicate SameLifecycle()
      reads this
    {
      state == old(state) && local == old(local) && platformBound == old(platformBound)
      && domBound == old(domBound) && userFeedBound == old(userFeedBound)
    }

    twostate predicate SameRemote()
      reads this
    {
      store == old(store) && log == old(log)
    }

    /** `on`: only `error` listeners are accepted. */
    method On(evt: string, listener: nat) returns (out: Outcome)
      requires Valid()
      modifies this
      ensures Valid() && SameLifecycle() && SameRemote() && emitted == old(emitted)
      ensures evt != ERROR_EVENT ==> out == Thrown(InvalidEvent) && listeners == old(listeners)
      ensures evt == ERROR_EVENT ==> out == Done && listeners == old(listeners) + [listener]
    {
      if evt != ERROR_EVENT {
        return Thrown(InvalidEvent);
      }
      listeners := listeners + [listener];
      out := Done;
    }

    /** `off`: only `error` listeners can be removed. */
    method Off(evt: string, listener: nat) returns (out: Outcome)
      requires Valid()
      modifies this
      ensures Valid() && SameLifecycle() && SameRemote() && emitted == old(emitted)
      ensures evt != ERROR_EVENT ==> out == Thrown(InvalidEvent) && listeners == old(listeners)
      ensures evt == ERROR_EVENT ==> out == Done && listeners == RemoveFirst(old(listeners), listener)
    {
      if evt != ERROR_EVENT {
        return Thrown(InvalidEvent);
      }
      var rest := RemoveFirst(listeners, listener);
      listeners := rest;
      out := Done;
    }

    /** `_emitOrThrow`. */
    method EmitOrThrow(e: FormError) returns (out: Outcome)
      requires Valid()
      modifies this
      ensures Valid() && SameLifecycle() && SameRemote() && listeners == old(listeners)
      ensures out == Report(listeners, e) && emitted == Recorded(old(emitted), listeners, e)
    {
      if |listeners| > 0 {
        emitted := emitted + [e];
        out := Emitted(e);
      } else {
        out := Thrown(e);
      }
    }

    /** `_capture` for a change of el: nothing for an ignored change, an error
      for a refused element, otherwise `key.set` of the value under the
      element's path (which may report an error). */
    method Capture(el: Elem, setFails: bool) returns (out: Outcome)
      requires Valid()
      modifies this
      ensures Valid() && SameLifecycle() && listeners == old(listeners)
      ensures match old(Decide(elems, el, included))
        case Skip => out == Done && SameRemote() && emitted == old(emitted)
        case Reject(e) =>
          && out == Report(listeners, Rejected(e)) && SameRemote()
          && emitted == Recorded(old(emitted), listeners, Rejected(e))
        case Store(path, v) =>
          if setFails then
            && out == Report(listeners, StoreError) && SameRemote()
            && emitted == Recorded(old(emitted), listeners, StoreError)
          else
            && out == Done && emitted == old(emitted)
            && store == old(store)[path := v] && log == old(log) + [SetOp(path, v)]
    {
      out := ApplyDecision(Decide(elems, el, included), setFails);
    }

    /** What `_capture` does once the checks have decided. */
    method ApplyDecision(d: Decision, setFails: bool) returns (out: Outcome)
      requires Valid()
      modifies this
      ensures Valid() && SameLifecycle() && listeners == old(listeners)
      ensures match d
        case Skip => out == Done && SameRemote() && emitted == old(emitted)
        case Reject(e) =>
          && out == Report(listeners, Rejected(e)) && SameRemote()
          && emitted == Recorded(old(emitted), listeners, Rejected(e))
        case Store(path, v) =>
          if setFails then
            && out == Report(listeners, StoreError) && SameRemote()
            && emitted == Recorded(old(emitted), listeners, StoreError)
          else
            && out == Done && emitted == old(emitted)
            && store == old(store)[path := v] && log == old(log) + [SetOp(path, v)]
    {
      match d {
        case Skip =>
          out := Done;
        case Reject(e) =>
          out := EmitOrThrow(Rejected(e));
        case Store(path, v) =>
          if setFails {
            out := EmitOrThrow(StoreError);
          } else {
            store := store[path := v];
            log := log + [SetOp(path, v)];
            out := Done;
          }
      }
    }

    /** `_setEl`: locate the element the identity describes (the radio
        reversal first), set its value, and show the user's indicator unless
        the update is not from a user or the element sits in a click-indicator
        region. Nothing is set when no element is found. */
    method SetEl(id: Identity, v: Value, userId: Option<string>, user: IndicatorView.User, clickRegion: bool)
      returns (out: Outcome)
      requires Valid()
      modifies this, view, Footprint(elems)
      ensures Valid() && SameLifecycle() && SameRemote() && listeners == old(listeners)
      ensures view != null ==> view.mounted == old(view.mounted)
      ensures match Locate(elems, Resolve(id, v).0)
        case None =>
          && out == Report(listeners, NotLocated(Resolve(id, v).0))
          && emitted == Recorded(old(emitted), listeners, NotLocated(Resolve(id, v).0))
          && (forall e :: e in elems ==> SnapshotOf(e) == old(SnapshotOf(e)))
          && (view != null ==> view.items == old(view.items))
        case Some(el) =>
          && SnapshotOf(el) == Write(KindOfElem(el), old(SnapshotOf(el)), Resolve(id, v).1).0
          && (forall e :: e in elems && e != el ==> SnapshotOf(e) == Beside(el, Resolve(id, v).1, e, old(SnapshotOf(e))))
          && emitted == old(emitted)
          && (out == Done <==> Write(KindOfElem(el), old(SnapshotOf(el)), Resolve(id, v).1).1)
          && (out != Done ==> out == Thrown(SetError))
          && (view != null ==>
                if out == Done && !HasClickAncestor(el, clickRegion) && FromUser(userId)
                then view.items == IndicatorView.Added(old(view.items), user, old(view.nextHandle),
                                                      old(view.clock) + view.displayTimer, old(view.nextNode))
                else view.items == old(view.items))
    {
      var (id2, v2) := Resolve(id, v);
      var found := Locate(elems, id2);
      if found.None? {
        out := EmitOrThrow(NotLocated(id2));
      } else {
        out := SetFound(found.value, v2, userId, user, clickRegion);
      }
    }

    /** `_setEl` once the element is found: set its value and show the
        indicator. */
    method SetFound(el: Elem, v: Value, userId: Option<string>, user: IndicatorView.User, clickRegion: bool)
      returns (out: Outcome)
      requires Valid() && el in elems
      modifies this, view, Footprint(elems)
      ensures Valid() && SameLifecycle() && SameRemote() && listeners == old(listeners)
      ensures view != null ==> view.mounted == old(view.mounted)
      ensures SnapshotOf(el) == Write(KindOfElem(el), old(SnapshotOf(el)), v).0
      ensures forall e :: e in elems && e != el ==> SnapshotOf(e) == Beside(el, v, e, old(SnapshotOf(e)))
      ensures emitted == old(emitted)
      ensures out == Done <==> Write(KindOfElem(el), old(SnapshotOf(el)), v).1
      ensures out != Done ==> out == Thrown(SetError)
      ensures view != null ==>
        if out == Done && !HasClickAncestor(el, clickRegion) && FromUser(userId)
        then view.items == IndicatorView.Added(old(view.items), user, old(view.nextHandle),
                                              old(view.clock) + view.displayTimer, old(view.nextNode))
        else view.items == old(view.items)
    {
      assert forall e :: e in elems && e != el ==> e.options != el.options;
      var ok := ElementValue.Set(elems, el, v);
      if !ok {
        return Thrown(SetError);
      }
      out := Done;
      if HasClickAncestor(el, clickRegion) {
        return;
      }
      if FromUser(userId) && view != null {
        view.AddIndicator(user);
      }
    }

    /** `_receive`: the last four segments of the reported key name the
        element; then `_setEl`. */
    method Receive(fullKey: string, v: Value, userId: Option<string>, user: IndicatorView.User, clickRegion: bool)
      returns (out: Outcome)
      requires Valid()
      modifies this, view, Footprint(elems)
      ensures Valid() && SameLifecycle() && SameRemote() && listeners == old(listeners)
      ensures view != null ==> view.mounted == old(view.mounted)
      ensures match Deliver(elems, fullKey, v)
        case Undecodable =>
          && out == Thrown(MissingSegments) && emitted == old(emitted)
          && (forall e :: e in elems ==> SnapshotOf(e) == old(SnapshotOf(e)))
          && (view != null ==> view.items == old(view.items))
        case NotFound(id) =>
          && out == Report(listeners, NotLocated(id))
          && emitted == Recorded(old(emitted), listeners, NotLocated(id))
          && (forall e :: e in elems ==> SnapshotOf(e) == old(SnapshotOf(e)))
          && (view != null ==> view.items == old(view.items))
        case Located(el, v2) =>
          && SnapshotOf(el) == Write(KindOfElem(el), old(SnapshotOf(el)), v2).0
          && (forall e :: e in elems && e != el ==> SnapshotOf(e) == Beside(el, v2, e, old(SnapshotOf(e))))
          && emitted == old(emitted)
          && (out == Done <==> Write(KindOfElem(el), old(SnapshotOf(el)), v2).1)
          && (out != Done ==> out == Thrown(SetError))
          && (view != null ==>
                if out == Done && !HasClickAncestor(el, clickRegion) && FromUser(userId)
                then view.items == IndicatorView.Added(old(view.items), user, old(view.nextHandle),
                                                      old(view.clock) + view.displayTimer, old(view.nextNode))
                else view.items == old(view.items))
    {
      match Dekeyify(ReceivePath(fullKey)) {
        case Err(_) =>
          return Thrown(MissingSegments);
        case Ok(id) =>
          out := SetEl(id, v, userId, user, clickRegion);
      }
    }

    /** `_reset`, the handler of the form's `reset` event: the remote key is
        removed only for a reset made on this page. */
    method Reset(removeFails: bool) returns (out: Outcome)
      requires Valid()
      modifies this
      ensures Valid() && SameLifecycle() && listeners == old(listeners)
      ensures !local ==> out == Done && SameRemote() && emitted == old(emitted)
      ensures local && removeFails ==>
        out == Report(listeners, StoreError) && SameRemote() && emitted == Recorded(old(emitted), listeners, StoreError)
      ensures local && !removeFails ==>
        out == Done && store == map[] && log == old(log) + [RemoveOp] && emitted == old(emitted)
    {
      if !local {
        return Done;
      }
      if removeFails {
        out := EmitOrThrow(StoreError);
      } else {
        store := map[];
        log := log + [RemoveOp];
        out := Done;
      }
    }

    /** `form.reset()`: the browser fires `reset`, which reaches `_reset`
        while the DOM listeners are bound. */
    method FormReset(removeFails: bool) returns (out: Outcome)
      requires Valid()
      modifies this
      ensures Valid() && SameLifecycle() && listeners == old(listeners)
      ensures !domBound || !local ==> out == Done && SameRemote() && emitted == old(emitted)
      ensures domBound && local && removeFails ==>
        out == Report(listeners, StoreError) && SameRemote() && emitted == Recorded(old(emitted), listeners, StoreError)
      ensures domBound && local && !removeFails ==>
        out == Done && store == map[] && log == old(log) + [RemoveOp] && emitted == old(emitted)
    {
      if domBound {
        out := Reset(removeFails);
      } else {
        out := Done;
      }
    }

    /** `_receiveReset`, the handler of a remote remove: the form is reset
        with `local` cleared, so the reset is not sent back. */
    method ReceiveReset() returns (out: Outcome)
      requires Valid()
      modifies this
      ensures Valid() && SameRemote() && emitted == old(emitted) && listeners == old(listeners)
      ensures out == Done && local
      ensures state == old(state) && platformBound == old(platformBound) && domBound == old(domBound)
      ensures userFeedBound == old(userFeedBound)
    {
      local := false;
      out := FormReset(false);
      local := true;
    }

    /** `_handleUserChange`. */
    method HandleUserChange(user: IndicatorView.User)
      requires Valid()
      modifies view
      ensures Valid()
      ensures view != null ==> view.mounted == old(view.mounted)
      ensures view != null ==> match IndicatorView.FindUser(old(view.items), user.id)
        case None => view.items == old(view.items)
        case Some(i) => view.items == old(view.items)[i := old(view.items)[i].(displayName := user.displayName, color := user.color)]
    {
      if view != null {
        view.UpdateIndicator(user);
      }
    }

    /** `initialize`: only from NEW. The view is mounted and the platform
        listeners bound before the two tasks run; when one fails the state
        goes back to NEW with those bindings left in place. Otherwise every
        stored entry is applied to its element without an indicator, the
        DOM listeners are bound and the state is INITIALIZED; each element
        then holds what its entries wrote, in order. An exception while
        applying an entry escapes with the state still INITIALIZING.
        Applying stored values never writes to the key. */
    method Initialize(cacheOk: bool, fetchOk: bool, entries: seq<Entry>) returns (out: Outcome)
      requires Valid() && (fetchOk ==> Lists(store, entries))
      modifies this, view, Footprint(elems)
      ensures Valid() && SameRemote() && listeners == old(listeners)
      ensures old(state) != New ==>
        && out == CallbackError(AlreadyInitialized) && SameLifecycle() && emitted == old(emitted)
        && (forall e :: e in elems ==> SnapshotOf(e) == old(SnapshotOf(e)))
      ensures old(state) == New && (!cacheOk || !fetchOk) ==>
        && out == CallbackError(TaskError) && state == New && platformBound && domBound == old(domBound)
        && (view != null ==> view.mounted)
        && (forall e :: e in elems ==> SnapshotOf(e) == old(SnapshotOf(e)))
      ensures old(state) == New && cacheOk && fetchOk ==>
        || (out == Done && state == Initialized && platformBound && domBound && userFeedBound)
        || (out.Thrown? && state == Initializing)
      ensures old(state) == New && out == Done ==>
        forall k :: 0 <= k < |elems| ==> SnapshotOf(elems[k]) == Hydrated(elems, elems[k], old(SnapshotOf(elems[k])), entries)
      ensures view != null ==> view.items == old(view.items)
      ensures old(state) == New && out == Done ==> emitted == old(emitted) + Missed(elems, entries)
      ensures listeners == [] ==> emitted == old(emitted)
    {
      if state != New {
        return CallbackError(AlreadyInitialized);
      }
      state := Initializing;
      if view != null {
        view.Initialize();
      }
      platformBound := true;
      if !cacheOk || !fetchOk {
        state := New;
        return CallbackError(TaskError);
      }
      out := Launch(entries);
    }

    /** `initialize` once both tasks have succeeded: the user feed is bound,
        the stored entries are applied, then the DOM listeners are bound and
        the state is INITIALIZED, unless applying an entry threw. */
    method Launch(entries: seq<Entry>) returns (out: Outcome)
      requires Valid() && state == Initializing && (view != null ==> view.mounted)
      modifies this, view, Footprint(elems)
      ensures Valid() && SameRemote() && listeners == old(listeners)
      ensures platformBound == old(platformBound) && userFeedBound
      ensures || (out == Done && state == Initialized && domBound)
              || (out.Thrown? && state == Initializing && domBound == old(domBound))
      ensures out == Done ==>
        forall k :: 0 <= k < |elems| ==> SnapshotOf(elems[k]) == Hydrated(elems, elems[k], old(SnapshotOf(elems[k])), entries)
      ensures view != null ==> view.items == old(view.items)
      ensures out == Done ==> emitted == old(emitted) + Missed(elems, entries)
      ensures listeners == [] ==> emitted == old(emitted)
    {
      userFeedBound := true;
      out := Hydrate(entries);
      if out.Thrown? {
        return;
      }
      domBound := true;
      state := Initialized;
    }

    /** The walk over the stored entries in `initialize`: `_setEl` for each
        in turn; an exception ends it. */
    method Hydrate(entries: seq<Entry>) returns (out: Outcome)
      requires Valid()
      modifies this, view, Footprint(elems)
      ensures Valid() && SameLifecycle() && SameRemote() && listeners == old(listeners)
      ensures view != null ==> view.mounted == old(view.mounted)
      ensures out == Done || out.Thrown?
      ensures out == Done ==>
        forall k :: 0 <= k < |elems| ==> SnapshotOf(elems[k]) == Hydrated(elems, elems[k], old(SnapshotOf(elems[k])), entries)
      ensures view != null ==> view.items == old(view.items)
      ensures out == Done ==> emitted == old(emitted) + Missed(elems, entries)
      ensures listeners == [] ==> emitted == old(emitted) && (out == Done ==> Missed(elems, entries) == [])
    {
      ghost var start := Snapshots(elems);
      assert entries[..0] == [];
      var i := 0;
      while i < |entries|
        invariant 0 <= i <= |entries|
        invariant Valid() && SameLifecycle() && SameRemote() && listeners == old(listeners)
        invariant view != null ==> view.mounted == old(view.mounted) && view.items == old(view.items)
        invariant Snapshots(elems) == HydratedAll(elems, start, entries[..i])
        invariant emitted == old(emitted) + Missed(elems, entries[..i])
        invariant listeners == [] ==> Missed(elems, entries[..i]) == []
      {
        var r := HydrateStep(entries, i, start, old(emitted));
        if r.Thrown? {
          return r;
        }
        assert Snapshots(elems) == HydratedAll(elems, start, entries[..i + 1]);
        assert emitted == old(emitted) + Missed(elems, entries[..i + 1]);
        assert listeners == [] ==> Missed(elems, entries[..i + 1]) == [];
        assert Valid() && SameLifecycle() && SameRemote() && listeners == old(listeners);
        assert view != null ==> view.mounted == old(view.mounted) && view.items == old(view.items);
        i := i + 1;
      }
      assert entries[..i] == entries;
      forall k | 0 <= k < |elems|
        ensures SnapshotOf(elems[k]) == Hydrated(elems, elems[k], start[k], entries)
      {
        HydratedAllAt(elems, start, entries, k);
      }
      out := Done;
    }

    /** The walk's loop body: the next entry applied, with the walk's
        state carried one entry further unless it throws. */
    method HydrateStep(entries: seq<Entry>, i: nat, ghost start: seq<Snapshot>, ghost emitted0: seq<FormError>)
      returns (r: Outcome)
      requires Valid() && i < |entries| && |start| == |elems|
      requires Snapshots(elems) == HydratedAll(elems, start, entries[..i])
      requires emitted == emitted0 + Missed(elems, entries[..i])
      requires listeners == [] ==> Missed(elems, entries[..i]) == []
      modifies this, view, Footprint(elems)
      ensures Valid() && SameLifecycle() && SameRemote() && listeners == old(listeners)
      ensures view != null ==> view.mounted == old(view.mounted) && view.items == old(view.items)
      ensures listeners == [] ==> emitted == old(emitted)
      ensures !r.Thrown? ==>
        && Snapshots(elems) == HydratedAll(elems, start, entries[..i + 1])
        && emitted == emitted0 + Missed(elems, entries[..i + 1])
        && (listeners == [] ==> Missed(elems, entries[..i + 1]) == [])
    {
      ghost var before := Snapshots(elems);
      HydratedAllStep(elems, start, entries, i);
      MissedStep(elems, entries, i);
      r := HydrateEntry(entries[i]);
      assert Snapshots(elems) == StepAll(elems, before, entries[i]);
    }

    /** One step of the hydration walk: `_setEl` for the next entry, with
        no user and so no indicator. */
    method HydrateEntry(entry: Entry) returns (r: Outcome)
      requires Valid()
      modifies this, view, Footprint(elems)
      ensures Valid() && SameLifecycle() && SameRemote() && listeners == old(listeners)
      ensures view != null ==> view.mounted == old(view.mounted)
      ensures Snapshots(elems) == StepAll(elems, old(Snapshots(elems)), entry)
      ensures view != null ==> view.items == old(view.items)
      ensures !r.Thrown? ==> emitted == old(emitted) + EntryMiss(elems, entry)
      ensures listeners == [] ==> emitted == old(emitted) && (!r.Thrown? ==> EntryMiss(elems, entry) == [])
    {
      r := SetEl(EntryIdentity(entry), entry.value, None, IndicatorView.User("", "", ""), false);
      assert forall k :: 0 <= k < |elems| ==> Snapshots(elems)[k] == StepAll(elems, old(Snapshots(elems)), entry)[k];
    }

    /** `destroy`: only from INITIALIZED (FAILED_DESTROY is never reached);
        unmounts the view and unbinds everything, ending in DESTROYED. */
    method Destroy() returns (out: Outcome)
      requires Valid()
      modifies this, view
      ensures Valid() && SameRemote() && listeners == old(listeners) && emitted == old(emitted)
      ensures old(state) != Initialized ==> out == CallbackError(NotDestroyable) && SameLifecycle()
      ensures old(state) == Initialized ==>
        out == Done && state == Destroyed && !platformBound && !domBound && !userFeedBound
      ensures old(state) == Initialized && view != null ==>
        !view.mounted && view.items == IndicatorView.Disarmed(old(view.items))
    {
      if state != Initialized && state != FailedDestroy {
        return CallbackError(NotDestroyable);
      }
      state := Destroying;
      if view != null {
        var ok := view.Destroy();
        if !ok {
          return Thrown(ViewError);
        }
      }
      platformBound := false;
      domBound := false;
      userFeedBound := false;
      state := Destroyed;
      out := Done;
    }
  }

  /** Synchronisation between two pages laid out alike: a change captured by
      the widget on one page and received by the widget on the other gives
      the element at the same position the same value; for a radio button,
      the button at that position is checked. */
  method Mirror(a: Form, b: Form, k: int, prefix: string, userId: Option<string>, user: IndicatorView.User,
                clickRegion: bool)
    returns (captured: Outcome, received: Outcome)
    requires a != b && a.Valid() && b.Valid()
    requires Distinct(a.elems) && Distinct(b.elems) && Shapes(a.elems) == Shapes(b.elems) && 0 <= k < |a.elems|
    requires UniformType(a.elems, a.elems[k]) && SlashFree(a.elems[k])
             && Unescape(Escape(a.elems[k].name)) == a.elems[k].name
    requires Decide(a.elems, a.elems[k], a.included).Store?
    requires KindOfElem(a.elems[k]) == KindOfElem(b.elems[k]) && a.elems[k].options.Length == b.elems[k].options.Length
    modifies a, b, b.view, Footprint(b.elems)
    ensures captured == Done && received == Done
    ensures !IsRadio(a.elems[k]) ==> ElementValue.Get(b.elems[k]) == old(ElementValue.Get(a.elems[k]))
    ensures IsRadio(a.elems[k]) && KindOfElem(b.elems[k]) == Checkable ==> ElementValue.Get(b.elems[k]) == VBool(true)
    ensures IsRadio(a.elems[k]) && KindOfElem(b.elems[k]) == Checkable ==>
      forall e :: e in b.elems && GroupMate(b.elems[k], e) ==> !e.checked
  {
    var el, target := a.elems[k], b.elems[k];
    var d := Decide(a.elems, el, a.included);
    var key := prefix + "/" + d.path;
    CaptureThenSet(a.elems, b.elems, k, a.included, prefix);
    ghost var w := Write(KindOfElem(target), SnapshotOf(target), Handed(el));
    ghost var g := ElementValue.Get(el);
    captured := a.Capture(el, false);
    received := b.Receive(key, d.value, userId, user, clickRegion);
    assert SnapshotOf(target) == w.0;
    assert ElementValue.Get(target) == Read(KindOfElem(target), w.0);
    assert !IsRadio(el) ==> ElementValue.Get(target) == g;
  }
}
