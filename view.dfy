/** The bookkeeping of the indicators that show which remote user last
    changed an element (lib/view.js): one item per user, each with the timer
    that removes it `displayTimer` milliseconds after the user's last change.
    Every `clearTimeout` of the source is applied to the handle of the item
    it works on, so the pending timers are exactly the armed timers of the
    items; each item carries its own. Timers run on a logical clock; rendering
    and positioning are not part of this model. */
module IndicatorView {
  import opened Wrappers

  /** What the view takes from a user record. The colour stands for what
      `colors.get(user)` computes from it. */
  datatype User = User(id: string, displayName: string, color: string)

  /** An entry of `_items`: the indicator node with the user id, name and
      colour it displays, and its removal timer: the handle, whether it is
      still pending and when it falls due. */
  datatype Item = Item(userId: string, displayName: string, color: string, node: nat,
                       timeout: nat, armed: bool, due: nat)

  /** `_getItem`: the first item of the user. */
  function FindUser(items: seq<Item>, id: string): (r: Option<nat>)
    ensures r.Some? ==> r.value < |items| && items[r.value].userId == id
    ensures r.Some? ==> forall j :: 0 <= j < r.value ==> items[j].userId != id
    ensures r.None? ==> forall j :: 0 <= j < |items| ==> items[j].userId != id
    decreases |items|
  {
    if items == [] then None
    else if items[0].userId == id then Some(0)
    else match FindUser(items[1..], id)
      case None => None
      case Some(i) => Some(i + 1)
  }

  /** The first item showing the indicator node. */
  function FindNode(items: seq<Item>, node: nat): (r: Option<nat>)
    ensures r.Some? ==> r.value < |items| && items[r.value].node == node
    ensures r.Some? ==> forall j :: 0 <= j < r.value ==> items[j].node != node
    ensures r.None? ==> forall j :: 0 <= j < |items| ==> items[j].node != node
    decreases |items|
  {
    if items == [] then None
    else if items[0].node == node then Some(0)
    else match FindNode(items[1..], node)
      case None => None
      case Some(i) => Some(i + 1)
  }

  /** `splice(i, 1)`. */
  function RemoveAt<T>(xs: seq<T>, i: nat): (r: seq<T>)
    requires i < |xs|
    ensures |r| == |xs| - 1
    ensures forall j :: 0 <= j < i ==> r[j] == xs[j]
    ensures forall j :: i <= j < |r| ==> r[j] == xs[j + 1]
  {
    xs[..i] + xs[i + 1..]
  }

  predicate UniqueUsers(items: seq<Item>) {
    forall i, j :: 0 <= i < j < |items| ==> items[i].userId != items[j].userId
  }

  predicate UniqueNodes(items: seq<Item>) {
    forall i, j :: 0 <= i < j < |items| ==> items[i].node != items[j].node
  }

  /** The view's invariant, on the values of its fields: one item per user
      and per node, nodes drawn from a fresh supply, and no armed timer
      overdue. */
  ghost predicate Inv(items: seq<Item>, clock: nat, nextNode: nat) {
    UniqueUsers(items) && UniqueNodes(items)
    && (forall i :: 0 <= i < |items| ==> items[i].node < nextNode)
    && (forall i :: 0 <= i < |items| && items[i].armed ==> clock <= items[i].due)
  }

  /** The items without those showing one of the nodes. */
  function Without(items: seq<Item>, nodes: set<nat>): (r: seq<Item>)
    ensures forall it :: it in r <==> it in items && it.node !in nodes
    ensures |r| <= |items|
    decreases |items|
  {
    if items == [] then []
    else (if items[0].node in nodes then [] else [items[0]]) + Without(items[1..], nodes)
  }

  /** The items whose timers are pending or fall due after `now`. */
  function Expire(items: seq<Item>, now: nat): (r: seq<Item>)
    ensures forall it :: it in r <==> it in items && !(it.armed && it.due <= now)
    decreases |items|
  {
    if items == [] then []
    else (if items[0].armed && items[0].due <= now then [] else [items[0]]) + Expire(items[1..], now)
  }

  /** The nodes whose timers fall due by `now`. */
  function ExpiredNodes(items: seq<Item>, now: nat): (r: set<nat>)
    ensures forall n :: n in r <==> exists i :: 0 <= i < |items| && items[i].armed && items[i].due <= now && items[i].node == n
  {
    set i | 0 <= i < |items| && items[i].armed && items[i].due <= now :: items[i].node
  }

  /** The timer that fires next by `now`: the armed one due first, and among
      those due together the one armed first. */
  function NextDue(items: seq<Item>, now: nat): (r: Option<nat>)
    ensures r.Some? ==> r.value < |items| && items[r.value].armed && items[r.value].due <= now
    ensures r.Some? ==> forall j :: 0 <= j < |items| && items[j].armed ==> items[r.value].due <= items[j].due
    ensures r.Some? ==> forall j :: 0 <= j < |items| && items[j].armed && items[j].due == items[r.value].due ==>
      items[r.value].timeout <= items[j].timeout
    ensures r.None? ==> forall j :: 0 <= j < |items| && items[j].armed ==> items[j].due > now
    decreases |items|
  {
    if items == [] then None
    else
      var rest := NextDue(items[1..], now);
      var here := items[0].armed && items[0].due <= now;
      match rest
      case None => if here then Some(0) else None
      case Some(i) =>
        var o := items[i + 1];
        if here && (items[0].due < o.due || (items[0].due == o.due && items[0].timeout <= o.timeout))
        then Some(0) else Some(i + 1)
  }

  /** `removeIndicator` as evidently intended: drop the item that shows the
      node, if there is one. */
  function RemovedIntended(items: seq<Item>, node: nat): (r: seq<Item>)
    ensures FindNode(items, node).None? ==> r == items
    ensures FindNode(items, node).Some? ==> r == RemoveAt(items, FindNode(items, node).value)
  {
    match FindNode(items, node)
    case None => items
    case Some(i) => RemoveAt(items, i)
  }

  /** `removeIndicator` as written: `_.find` returns an item rather than an
      index, and `splice` turns it into 0, so the first item goes whatever
      the node is. */
  function RemovedAsWritten(items: seq<Item>, node: nat): (r: seq<Item>)
    ensures items != [] ==> r == items[1..]
    ensures items == [] ==> r == []
  {
    if items == [] then items else items[1..]
  }

  /** The timers that fall due by `target` firing in order, as the code is
      written: the fired timer is spent, and `removeIndicator` as written then
      drops the first item (clearing its timer) and detaches the node the
      timer was bound to, whichever item holds it. The result is the items
      and the attached nodes once no timer is due by `target`. */
  function RunAsWritten(items: seq<Item>, attached: set<nat>, target: nat): (r: (seq<Item>, set<nat>))
    ensures NextDue(r.0, target).None?
    ensures |r.0| <= |items| && r.1 <= attached
    decreases |items|
  {
    match NextDue(items, target)
    case None => (items, attached)
    case Some(i) =>
      var it := items[i];
      RunAsWritten(RemovedAsWritten(items[i := it.(armed := false)], it.node), attached - {it.node}, target)
  }

  /** `destroy`'s effect on the items: every timer cleared, nothing else. */
  function Disarmed(items: seq<Item>): (r: seq<Item>)
    ensures |r| == |items|
    ensures forall i :: 0 <= i < |items| ==> r[i] == items[i].(armed := false)
  {
    seq(|items|, i requires 0 <= i < |items| => items[i].(armed := false))
  }

  /** `addIndicator`'s effect on the items: the user's item, reused when
      there is one and appended (showing a new node) otherwise, has a timer
      armed with handle h, due at `due`; every other item stays as it was. */
  function Added(items: seq<Item>, user: User, h: nat, due: nat, node: nat): (r: seq<Item>)
    ensures FindUser(items, user.id).Some? ==> |r| == |items|
    ensures FindUser(items, user.id).None? ==> |r| == |items| + 1 && r[..|items|] == items
    ensures FindUser(r, user.id).Some?
    ensures FindUser(items, user.id).Some? ==> FindUser(r, user.id) == FindUser(items, user.id)
    ensures FindUser(items, user.id).Some? ==>
      var k := FindUser(items, user.id).value;
      && r[k] == items[k].(timeout := h, armed := true, due := due)
      && forall j :: 0 <= j < |items| && j != k ==> r[j] == items[j]
    ensures FindUser(items, user.id).None? ==>
      r[|items|] == Item(user.id, user.displayName, user.color, node, h, true, due)
  {
    match FindUser(items, user.id)
    case Some(i) =>
      var r := items[i := items[i].(timeout := h, armed := true, due := due)];
      assert forall j :: 0 <= j < |r| ==> r[j].userId == items[j].userId;
      assert r[i].userId == user.id;
      r
    case None =>
      var r := items + [Item(user.id, user.displayName, user.color, node, h, true, due)];
      assert forall j :: 0 <= j < |items| ==> r[j] == items[j];
      assert r[|items|].userId == user.id;
      r
  }

  class View {
    const displayTimer: nat
    var items: seq<Item>
    /** The container is attached to the document body. */
    var mounted: bool
    /** The indicator nodes that are children of the container. */
    var attached: set<nat>
    var clock: nat
    /** Sources of fresh indicator nodes and timer handles. */
    var nextNode: nat
    var nextHandle: nat

    ghost predicate Valid()
      reads this
    {
      Inv(items, clock, nextNode)
    }

    /** `new View(displayTimer)`. */
    constructor(displayTimer: nat)
      ensures Valid() && this.displayTimer == displayTimer
      ensures items == [] && attached == {} && !mounted
      ensures clock == 0 && nextNode == 0 && nextHandle == 0
    {
      this.displayTimer := displayTimer;
      items := [];
      mounted := false;
      attached := {};
      clock := 0;
      nextNode := 0;
      nextHandle := 0;
    }

    /** `initialize`: attach the container to the document body. */
    method Initialize()
      requires Valid()
      modifies this
      ensures Valid() && mounted
      ensures items == old(items) && attached == old(attached) && clock == old(clock)
      ensures nextNode == old(nextNode) && nextHandle == old(nextHandle)
    {
      mounted := true;
    }

    /** `addIndicator`, bookkeeping part: an existing item of the user is
        reused and its timer re-armed (its name and colour stay as they
        were); otherwise a new indicator is created, attached and appended.
        Either way the timer falls due `displayTimer` from now. */
    method AddIndicator(user: User)
      requires Valid()
      modifies this
      ensures Valid()
      ensures clock == old(clock) && mounted == old(mounted) && nextHandle == old(nextHandle) + 1
      ensures items == Added(old(items), user, old(nextHandle), clock + displayTimer, old(nextNode))
      ensures FindUser(old(items), user.id).Some? ==> attached == old(attached) && nextNode == old(nextNode)
      ensures FindUser(old(items), user.id).None? ==>
        attached == old(attached) + {old(nextNode)} && nextNode == old(nextNode) + 1
    {
      var found := FindUser(items, user.id);
      var h := nextHandle;
      var due := clock + displayTimer;
      InvAdded(items, clock, nextNode, user, h, due);
      items := Added(items, user, h, due, nextNode);
      if found.None? {
        attached := attached + {nextNode};
        nextNode := nextNode + 1;
      }
      nextHandle := h + 1;
    }

    /** `removeIndicator` as written: the first item is spliced out (and its
        timer cleared with it) whatever the node is; then the node is
        detached. An empty list (the item is `undefined`) or a detached node
        (no parent) throws a TypeError (false), with the earlier steps done. */
    method RemoveIndicatorAsWritten(node: nat) returns (ok: bool)
      requires Valid()
      modifies this
      ensures Valid()
      ensures items == RemovedAsWritten(old(items), node)
      ensures old(items) == [] ==> !ok && attached == old(attached)
      ensures old(items) != [] ==> (ok <==> node in old(attached)) && attached == old(attached) - {node}
      ensures clock == old(clock) && mounted == old(mounted)
      ensures nextNode == old(nextNode) && nextHandle == old(nextHandle)
    {
      if items == [] {
        return false;
      }
      InvDropFirst(items, clock, nextNode);
      items := items[1..];
      ok := node in attached;
      attached := attached - {node};
    }

    /** `removeIndicator` as evidently intended: the item showing the node is
        removed (and its timer cleared with it) and the node detached; an
        unknown node throws (false) and changes nothing. */
    method RemoveIndicator(node: nat) returns (ok: bool)
      requires Valid()
      modifies this
      ensures Valid()
      ensures items == RemovedIntended(old(items), node)
      ensures ok <==> FindNode(old(items), node).Some? && node in old(attached)
      ensures FindNode(old(items), node).None? ==> attached == old(attached)
      ensures FindNode(old(items), node).Some? ==> attached == old(attached) - {node}
      ensures clock == old(clock) && mounted == old(mounted)
      ensures nextNode == old(nextNode) && nextHandle == old(nextHandle)
    {
      var found := FindNode(items, node);
      if found.None? {
        return false;
      }
      InvRemove(items, clock, nextNode, found.value);
      items := RemoveAt(items, found.value);
      if node !in attached {
        return false;
      }
      attached := attached - {node};
      ok := true;
    }

    /** `updateIndicator`: only the user's item changes, and only its name
        and colour; without an item nothing changes. */
    method UpdateIndicator(user: User)
      requires Valid()
      modifies this
      ensures Valid()
      ensures match FindUser(old(items), user.id)
        case None => items == old(items)
        case Some(i) => items == old(items)[i := old(items)[i].(displayName := user.displayName, color := user.color)]
      ensures attached == old(attached) && clock == old(clock) && mounted == old(mounted)
      ensures nextNode == old(nextNode) && nextHandle == old(nextHandle)
    {
      var found := FindUser(items, user.id);
      if found.Some? {
        var i := found.value;
        InvRelabel(items, clock, nextNode, i, user);
        items := items[i := items[i].(displayName := user.displayName, color := user.color)];
      }
    }

    /** `destroy`: detaches the container and clears the timer of every item,
        one item after another; the items stay in the list. Without a mounted
        container `parentNode` is null and it throws (false). */
    method Destroy() returns (ok: bool)
      requires Valid()
      modifies this
      ensures Valid()
      ensures ok <==> old(mounted)
      ensures !mounted
      ensures items == if ok then Disarmed(old(items)) else old(items)
      ensures attached == old(attached) && clock == old(clock)
      ensures nextNode == old(nextNode) && nextHandle == old(nextHandle)
    {
      if !mounted {
        return false;
      }
      mounted := false;
      var i := 0;
      while i < |items|
        invariant 0 <= i <= |items| == |old(items)| && !mounted
        invariant forall j :: 0 <= j < i ==> items[j] == old(items)[j].(armed := false)
        invariant forall j :: i <= j < |items| ==> items[j] == old(items)[j]
        invariant attached == old(attached) && clock == old(clock)
        invariant nextNode == old(nextNode) && nextHandle == old(nextHandle)
      {
        items := items[i := items[i].(armed := false)];
        i := i + 1;
      }
      InvDisarm(old(items), clock, nextNode);
      ok := true;
    }

    /** The clock advances by dt; each timer that falls due fires, in order,
        and removes its indicator: what is left are the items whose timers
        were cleared or fall due later. */
    method Elapse(dt: nat)
      requires Valid()
      modifies this
      ensures Valid()
      ensures clock == old(clock) + dt
      ensures items == Expire(old(items), clock)
      ensures attached == old(attached) - ExpiredNodes(old(items), clock)
      ensures mounted == old(mounted) && nextNode == old(nextNode) && nextHandle == old(nextHandle)
    {
      var target := clock + dt;
      ghost var fired: set<nat> := {};
      WithoutNotShown(items, fired);
      assert Firing(old(items), fired, items, target);
      var next := NextDue(items, target);
      while next.Some?
        invariant Valid() && old(clock) <= clock <= target
        invariant Firing(old(items), fired, items, target)
        invariant attached == old(attached) - fired
        invariant next == NextDue(items, target)
        invariant mounted == old(mounted) && nextNode == old(nextNode) && nextHandle == old(nextHandle)
        decreases |items|
      {
        ghost var node := items[next.value].node;
        ElapseStep(old(items), fired, items, clock, nextNode, target, next.value);
        Fire(next.value, target);
        SetMinusTwice(old(attached), fired, node);
        fired := fired + {node};
        next := NextDue(items, target);
      }
      ExpireAll(old(items), fired, items, target);
      InvAdvance(items, clock, nextNode, target);
      clock := target;
      assert items == Expire(old(items), target);
      assert attached == old(attached) - ExpiredNodes(old(items), target);
    }
    /** The clock advances by dt and the timers that fall due fire in order,
        each running `removeIndicator` as written. */
    method ElapseAsWritten(dt: nat)
      requires Valid()
      modifies this
      ensures Valid()
      ensures clock == old(clock) + dt
      ensures items == RunAsWritten(old(items), old(attached), clock).0
      ensures attached == RunAsWritten(old(items), old(attached), clock).1
      ensures mounted == old(mounted) && nextNode == old(nextNode) && nextHandle == old(nextHandle)
    {
      var target := clock + dt;
      ghost var final := RunAsWritten(items, attached, target);
      var next := NextDue(items, target);
      while next.Some?
        invariant Valid() && old(clock) <= clock <= target
        invariant RunAsWritten(items, attached, target) == final
        invariant next == NextDue(items, target)
        invariant mounted == old(mounted) && nextNode == old(nextNode) && nextHandle == old(nextHandle)
        decreases |items|
      {
        FireAsWritten(next.value, target);
        next := NextDue(items, target);
      }
      assert RunAsWritten(items, attached, target) == (items, attached);
      InvAdvance(items, clock, nextNode, target);
      clock := target;
    }

    /** The timer that fires next: the clock moves to its due time and
        its indicator is removed. */
    method Fire(i: nat, target: nat)
      requires Valid() && clock <= target && NextDue(items, target) == Some(i)
      modifies this
      ensures Valid() && clock == old(items)[i].due
      ensures items == RemovedIntended(old(items), old(items)[i].node)
      ensures attached == old(attached) - {old(items)[i].node}
      ensures mounted == old(mounted) && nextNode == old(nextNode) && nextHandle == old(nextHandle)
    {
      var it := items[i];
      InvFire(items, clock, nextNode, i);
      clock := it.due;
      var _ := RemoveIndicator(it.node);
    }

    /** The timer that fires next: the clock moves to its due time, it is
        spent, and `removeIndicator` as written runs for its node. */
    method FireAsWritten(i: nat, target: nat)
      requires Valid() && clock <= target && NextDue(items, target) == Some(i)
      modifies this
      ensures Valid() && old(clock) <= clock <= target && |items| < |old(items)|
      ensures RunAsWritten(items, attached, target) == RunAsWritten(old(items), old(attached), target)
      ensures mounted == old(mounted) && nextNode == old(nextNode) && nextHandle == old(nextHandle)
    {
      var it := items[i];
      RunStep(items, attached, target, i);
      InvFire(items, clock, nextNode, i);
      InvSpend(items, it.due, nextNode, i);
      clock := it.due;
      items := items[i := it.(armed := false)];
      var _ := RemoveIndicatorAsWritten(it.node);
    }
  }


  lemma SetMinusTwice(a: set<nat>, f: set<nat>, n: nat)
    ensures a - f - {n} == a - (f + {n})
  {
  }

  /** What `Elapse` keeps while timers fire: the items left are the original
      ones without the fired nodes, and every fired node had fallen due. */
  ghost predicate Firing(original: seq<Item>, fired: set<nat>, items: seq<Item>, target: nat) {
    items == Without(original, fired) && fired <= ExpiredNodes(original, target) && UniqueNodes(original)
  }

  /** One timer fires: the clock moves to its due time and its item goes. */
  lemma ElapseStep(original: seq<Item>, fired: set<nat>, items: seq<Item>, clock: nat, nn: nat, target: nat, i: nat)
    requires Inv(items, clock, nn) && Firing(original, fired, items, target)
    requires NextDue(items, target) == Some(i)
    ensures Inv(items, items[i].due, nn) && clock <= items[i].due <= target
    ensures FindNode(items, items[i].node) == Some(i)
    ensures Firing(original, fired + {items[i].node}, RemovedIntended(items, items[i].node), target)
  {
    var it := items[i];
    WithoutMember(original, fired, it);
    var k :| 0 <= k < |original| && original[k] == it;
    assert it.node in ExpiredNodes(original, target);
    InvFire(items, clock, nn, i);
    RemovedIsWithout(items, it.node);
    WithoutTwice(original, fired, {it.node});
  }

  /** An indicator whose timer has fallen due is gone: no item of its user
      is left. */
  lemma ArmedIndicatorExpires(items: seq<Item>, i: nat, now: nat)
    requires UniqueUsers(items) && i < |items| && items[i].armed && items[i].due <= now
    ensures FindUser(Expire(items, now), items[i].userId).None?
  {
    var r := Expire(items, now);
    forall k | 0 <= k < |r| ensures r[k].userId != items[i].userId {
      assert r[k] in r;
      var j :| 0 <= j < |items| && items[j] == r[k];
      assert j != i;
    }
  }

  /** A user's indicator, added and then left alone for `displayTimer`, is
      removed by its own timer. */
  method AddThenWait(v: View, user: User)
    requires v.Valid()
    modifies v
    ensures v.Valid()
    ensures FindUser(v.items, user.id).None?
  {
    v.AddIndicator(user);
    ghost var added := v.items;
    ghost var i: nat := if FindUser(old(v.items), user.id).Some? then FindUser(old(v.items), user.id).value else |old(v.items)|;
    assert added[i].userId == user.id && added[i].armed && added[i].due == v.clock + v.displayTimer;
    v.Elapse(v.displayTimer);
    ArmedIndicatorExpires(added, i, v.clock);
  }

  /** One timer of the run fires. */
  lemma RunStep(items: seq<Item>, attached: set<nat>, target: nat, i: nat)
    requires NextDue(items, target) == Some(i)
    ensures RunAsWritten(items, attached, target)
         == RunAsWritten(RemovedAsWritten(items[i := items[i].(armed := false)], items[i].node),
                         attached - {items[i].node}, target)
  {
  }

  /** No item of the user but possibly the first, and that one, if it is
      the user's, has a timer due by `target`. */
  predicate FirstOnly(items: seq<Item>, id: string, target: nat) {
    (forall j :: 0 < j < |items| ==> items[j].userId != id)
    && (items != [] && items[0].userId == id ==> items[0].armed && items[0].due <= target)
  }

  /** As written, an item in front of the list disappears by the time its
      timer falls due: the first timer to fire removes it, whoever's it is. */
  lemma {:induction false} FirstItemExpiresAsWritten(items: seq<Item>, attached: set<nat>, id: string, target: nat)
    requires FirstOnly(items, id, target)
    ensures FindUser(RunAsWritten(items, attached, target).0, id).None?
    decreases |items|
  {
    match NextDue(items, target)
    case None =>
      assert forall j :: 0 <= j < |items| ==> items[j].userId != id;
    case Some(i) =>
      var it := items[i];
      var spent := items[i := it.(armed := false)];
      var rest := RemovedAsWritten(spent, it.node);
      assert rest == spent[1..];
      assert forall j :: 0 <= j < |rest| ==> rest[j].userId == items[j + 1].userId;
      FirstItemExpiresAsWritten(rest, attached - {it.node}, id, target);
  }

  /** On the code as written, a user's indicator at the front of the list
      (the only one, or one that already led it) is gone once
      `displayTimer` has elapsed since the last add; added to an empty list,
      its node is detached as well. */
  method AddThenWaitAsWritten(v: View, user: User)
    requires v.Valid() && (v.items == [] || v.items[0].userId == user.id)
    modifies v
    ensures v.Valid()
    ensures FindUser(v.items, user.id).None?
    ensures old(v.items) == [] ==> v.items == [] && v.attached == old(v.attached) - {old(v.nextNode)}
  {
    ghost var target := v.clock + v.displayTimer;
    ghost var before, node, shownBefore := v.items, v.nextNode, v.attached;
    AddedFirst(v.items, user, v.nextHandle, target, v.nextNode);
    v.AddIndicator(user);
    ghost var added, shown := v.items, v.attached;
    assert FirstOnly(added, user.id, target);
    FirstItemExpiresAsWritten(added, shown, user.id, target);
    if before == [] {
      assert FindUser(before, user.id).None?;
      LoneAddedAsWritten(added, shownBefore, node, target);
    }
    v.ElapseAsWritten(v.displayTimer);
    assert v.clock == target;
    ghost var r := RunAsWritten(added, shown, target);
    assert v.items == r.0;
  }

  /** An indicator added alone, with its node newly attached, is gone, node
      and all, once its timer falls due. */
  lemma LoneAddedAsWritten(added: seq<Item>, attached: set<nat>, node: nat, target: nat)
    requires |added| == 1 && added[0].node == node && added[0].armed && added[0].due <= target
    ensures RunAsWritten(added, attached + {node}, target) == ([], attached - {node})
  {
    assert added == [added[0]];
    LoneTimerAsWritten(added[0], attached + {node}, target);
    assert attached + {node} - {node} == attached - {node};
  }

  /** A lone armed timer due by `target` takes its item and its node. */
  lemma LoneTimerAsWritten(a: Item, attached: set<nat>, target: nat)
    requires a.armed && a.due <= target
    ensures RunAsWritten([a], attached, target) == ([], attached - {a.node})
  {
    assert NextDue([a], target) == Some(0);
    assert RemovedAsWritten([a][0 := a.(armed := false)], a.node) == [];
    assert RunAsWritten([], attached - {a.node}, target) == ([], attached - {a.node});
  }

  /** Adding for the user whose item leads the list, or to an empty list,
      leaves the user's item in front with its fresh timer. */
  lemma AddedFirst(items: seq<Item>, user: User, h: nat, due: nat, node: nat)
    requires UniqueUsers(items) && (items == [] || items[0].userId == user.id)
    ensures FirstOnly(Added(items, user, h, due, node), user.id, due)
  {
    var r := Added(items, user, h, due, node);
    if items == [] {
      assert r == [Item(user.id, user.displayName, user.color, node, h, true, due)];
    } else {
      assert FindUser(items, user.id) == Some(0);
      assert r[0] == items[0].(timeout := h, armed := true, due := due);
      assert forall j :: 0 < j < |r| ==> r[j] == items[j];
    }
  }

  /** The defect seen through the timers: A's item leads the list but was
      re-armed after B's was added, so B's timer falls due first. It removes
      A's item, whose node stays shown with no timer left to remove it, and
      detaches B's node while B's item stays in the list. */
  lemma AsWrittenTimerKeepsItsItem(a: Item, b: Item, target: nat)
    requires a.node != b.node
    requires a.armed && b.armed && b.due <= target < a.due
    ensures RunAsWritten([a, b], {a.node, b.node}, target) == ([b.(armed := false)], {a.node})
  {
    assert NextDue([b], target) == Some(0);
    assert NextDue([a, b], target) == Some(1);
    var spent := [a, b][1 := b.(armed := false)];
    assert RemovedAsWritten(spent, b.node) == [b.(armed := false)];
    assert NextDue([b.(armed := false)], target) == None;
    assert {a.node, b.node} - {b.node} == {a.node};
  }

  /** The unit test "tracks each timer separately", on the code as written:
      two users' indicators, added a second apart with a 2-second timer,
      leave one at a time. The counts are the indicators shown. */
  method UnitTestTracksEachTimer() returns (afterAdd: nat, afterTwo: nat, afterThree: nat)
    ensures afterAdd == 2 && afterTwo == 1 && afterThree == 0
  {
    var first, second := User("id", "user", "#f00"), User("id2", "user", "#f00");
    var a := Item("id", "user", "#f00", 0, 0, true, 2000);
    var b := Item("id2", "user", "#f00", 1, 1, true, 3000);
    TrackedTimers(first, second, a, b);
    var v := new View(2000);
    v.Initialize();
    AddTwoTimers(v, first, second, a, b);
    afterAdd := |v.attached|;
    afterTwo, afterThree := RunTwoTimers(v, a, b);
  }

  /** The first half of that test: one indicator, a second of waiting,
      and a second indicator. */
  method AddTwoTimers(v: View, first: User, second: User, a: Item, b: Item)
    requires v.Valid() && v.items == [] && v.attached == {} && v.displayTimer == 2000
    requires v.clock == 0 && v.nextNode == 0 && v.nextHandle == 0
    requires Added([], first, 0, 2000, 0) == [a] && RunAsWritten([a], {0}, 1000) == ([a], {0})
    requires Added([a], second, 1, 3000, 1) == [a, b] && FindUser([a], second.id).None?
    modifies v
    ensures v.Valid() && v.items == [a, b] && v.attached == {0, 1} && v.clock == 1000
  {
    assert FindUser([], first.id).None?;
    v.AddIndicator(first);
    assert v.items == [a] && v.attached == {0};
    assert v.clock == 0 && v.nextNode == 1 && v.nextHandle == 1;
    v.ElapseAsWritten(1000);
    assert v.clock == 1000;
    ghost var waited := RunAsWritten([a], {0}, 1000);
    assert v.items == waited.0 && v.attached == waited.1;
    assert v.nextNode == 1 && v.nextHandle == 1;
    v.AddIndicator(second);
    assert v.items == Added([a], second, 1, 3000, 1);
  }

  /** The second half of that test: the timers due at 2000 and 3000 fire
      one per second of waiting, each taking one indicator. */
  method RunTwoTimers(v: View, a: Item, b: Item) returns (afterTwo: nat, afterThree: nat)
    requires v.Valid() && v.items == [a, b] && v.attached == {a.node, b.node} && a.node != b.node
    requires a.armed && a.due == 2000 && b.armed && b.due == 3000 && v.clock == 1000
    modifies v
    ensures afterTwo == 1 && afterThree == 0
  {
    TwoTimersAsWritten(a, b, v.attached);
    v.ElapseAsWritten(1000);
    afterTwo := |v.attached|;
    v.ElapseAsWritten(1000);
    afterThree := |v.attached|;
  }

  lemma TrackedTimers(first: User, second: User, a: Item, b: Item)
    requires first == User("id", "user", "#f00") && second == User("id2", "user", "#f00")
    requires a == Item("id", "user", "#f00", 0, 0, true, 2000) && b == Item("id2", "user", "#f00", 1, 1, true, 3000)
    ensures Added([], first, 0, 2000, 0) == [a]
    ensures RunAsWritten([a], {0}, 1000) == ([a], {0})
    ensures Added([a], second, 1, 3000, 1) == [a, b] && FindUser([a], second.id).None?
  {
    assert NextDue([a], 1000) == None;
    assert |"id"| != |"id2"|;
    assert FindUser([a], second.id) == None;
  }

  lemma TwoTimersAsWritten(a: Item, b: Item, attached: set<nat>)
    requires a.node != b.node && attached == {a.node, b.node}
    requires a.armed && a.due == 2000 && b.armed && b.due == 3000
    ensures RunAsWritten([a, b], attached, 2000) == ([b], {b.node})
    ensures RunAsWritten([b], {b.node}, 3000) == ([], {})
  {
    assert NextDue([b], 2000) == None;
    assert NextDue([a, b], 2000) == Some(0);
    assert RemovedAsWritten([a, b][0 := a.(armed := false)], a.node) == [b];
    assert attached - {a.node} == {b.node};
    assert NextDue([b], 3000) == Some(0);
    assert RemovedAsWritten([b][0 := b.(armed := false)], b.node) == [];
    assert {b.node} - {b.node} == {};
    assert RunAsWritten([], {}, 3000) == ([], {});
  }

  /** The unit tests "adds an indicator to the page" and "removes an
      indicator after 2 seconds", on the code as written: one indicator is
      shown after the add and none once two seconds have passed. */
  method UnitTestRemovesAfterTwo() returns (afterAdd: nat, afterTwo: nat)
    ensures afterAdd == 1 && afterTwo == 0
  {
    var user := User("id", "user", "#f00");
    var v := new View(2000);
    v.Initialize();
    assert FindUser([], user.id).None?;
    v.AddIndicator(user);
    var a := Item("id", "user", "#f00", 0, 0, true, 2000);
    assert v.items == [a] && v.attached == {0};
    afterAdd := |v.attached|;
    LoneTimerAsWritten(a, {0}, 2000);
    v.ElapseAsWritten(2000);
    assert v.attached == {0} - {0} == {};
    afterTwo := |v.attached|;
  }

  /** The unit test "resets the timer if add is called again", on the code
      as written: the second add, a second after the first, re-arms the
      user's timer, so the indicator is still shown two seconds after the
      first add and gone a second later. */
  method UnitTestResetsTimer() returns (afterTwo: nat, afterThree: nat)
    ensures afterTwo == 1 && afterThree == 0
  {
    var user := User("id", "user", "#f00");
    var a := Item("id", "user", "#f00", 0, 0, true, 2000);
    var a' := a.(timeout := 1, due := 3000);
    var v := new View(2000);
    v.Initialize();
    assert FindUser([], user.id).None?;
    v.AddIndicator(user);
    assert v.items == [a] && v.attached == {0} && v.clock == 0;
    PendingTimerAsWritten(a, {0}, 1000);
    v.ElapseAsWritten(1000);
    assert v.items == [a] && v.clock == 1000;
    assert FindUser([a], user.id) == Some(0);
    v.AddIndicator(user);
    assert v.items == [a'] && v.attached == {0};
    PendingTimerAsWritten(a', {0}, 2000);
    v.ElapseAsWritten(1000);
    assert v.items == [a'] && v.attached == {0} && v.clock == 2000;
    afterTwo := |v.attached|;
    LoneTimerAsWritten(a', {0}, 3000);
    v.ElapseAsWritten(1000);
    assert v.attached == {0} - {0} == {};
    afterThree := |v.attached|;
  }

  /** A lone timer not yet due by `target` leaves everything in place. */
  lemma PendingTimerAsWritten(a: Item, attached: set<nat>, target: nat)
    requires target < a.due
    ensures RunAsWritten([a], attached, target) == ([a], attached)
  {
    assert NextDue([a], target) == None;
  }

  /** The defect of `removeIndicator` as written: with two indicators, the
      second one's timer removes the first one's item and leaves its own. */
  lemma AsWrittenRemovesWrongIndicator(first: Item, second: Item)
    requires first.node != second.node
    ensures RemovedAsWritten([first, second], second.node) == [second]
    ensures RemovedIntended([first, second], second.node) == [first]
  {
    assert [first, second][1..] == [second];
    assert FindNode([second], second.node) == Some(0);
    assert FindNode([first, second], second.node) == Some(1);
    assert RemoveAt([first, second], 1) == [first];
  }

  /** Why it goes unnoticed while indicators expire one at a time: for the
      first item the two agree. */
  lemma AsWrittenAgreesOnFirst(items: seq<Item>)
    requires items != []
    ensures RemovedAsWritten(items, items[0].node) == RemovedIntended(items, items[0].node)
  {
    assert FindNode(items, items[0].node) == Some(0);
    assert RemoveAt(items, 0) == items[1..];
  }

  // Lemmas behind the invariant, one per change of state.

  lemma InvRearm(items: seq<Item>, clock: nat, nn: nat, i: nat, h: nat, due: nat)
    requires Inv(items, clock, nn) && i < |items| && clock <= due
    ensures Inv(items[i := items[i].(timeout := h, armed := true, due := due)], clock, nn)
  {
    var its := items[i := items[i].(timeout := h, armed := true, due := due)];
    assert forall j :: 0 <= j < |its| ==> its[j].userId == items[j].userId && its[j].node == items[j].node;
  }

  lemma InvAppend(items: seq<Item>, clock: nat, nn: nat, it: Item)
    requires Inv(items, clock, nn) && FindUser(items, it.userId).None?
    requires it.node == nn && (it.armed ==> clock <= it.due)
    ensures Inv(items + [it], clock, nn + 1)
  {
    var its := items + [it];
    assert forall j :: 0 <= j < |items| ==> its[j] == items[j];
    assert its[|items|] == it;
    assert forall j :: 0 <= j < |items| ==> its[j].userId != it.userId && its[j].node < it.node;
  }

  /** `addIndicator` keeps the invariant; a new node is used only when the
      user had no item. */
  lemma InvAdded(items: seq<Item>, clock: nat, nn: nat, user: User, h: nat, due: nat)
    requires Inv(items, clock, nn) && clock <= due
    ensures Inv(Added(items, user, h, due, nn), clock, if FindUser(items, user.id).Some? then nn else nn + 1)
  {
    match FindUser(items, user.id)
    case Some(i) =>
      InvRearm(items, clock, nn, i, h, due);
    case None =>
      InvAppend(items, clock, nn, Item(user.id, user.displayName, user.color, nn, h, true, due));
  }

  lemma InvRemove(items: seq<Item>, clock: nat, nn: nat, i: nat)
    requires Inv(items, clock, nn) && i < |items|
    ensures Inv(RemoveAt(items, i), clock, nn)
  {
    var r := RemoveAt(items, i);
    forall a, b | 0 <= a < b < |r|
      ensures r[a].userId != r[b].userId && r[a].node != r[b].node
    {
      var a' := if a < i then a else a + 1;
      var b' := if b < i then b else b + 1;
      assert r[a] == items[a'] && r[b] == items[b'];
    }
  }

  lemma InvDropFirst(items: seq<Item>, clock: nat, nn: nat)
    requires Inv(items, clock, nn) && items != []
    ensures Inv(items[1..], clock, nn)
  {
    InvRemove(items, clock, nn, 0);
    assert RemoveAt(items, 0) == items[1..];
  }

  lemma InvRelabel(items: seq<Item>, clock: nat, nn: nat, i: nat, user: User)
    requires Inv(items, clock, nn) && i < |items| && items[i].userId == user.id
    ensures Inv(items[i := items[i].(displayName := user.displayName, color := user.color)], clock, nn)
  {
    var its := items[i := items[i].(displayName := user.displayName, color := user.color)];
    assert forall j :: 0 <= j < |its| ==>
      (its[j].userId == items[j].userId && its[j].node == items[j].node
       && its[j].armed == items[j].armed && its[j].due == items[j].due);
  }

  /** A timer that fires is no longer pending. */
  lemma InvSpend(items: seq<Item>, clock: nat, nn: nat, i: nat)
    requires Inv(items, clock, nn) && i < |items|
    ensures Inv(items[i := items[i].(armed := false)], clock, nn)
  {
    var its := items[i := items[i].(armed := false)];
    assert forall j :: 0 <= j < |its| ==> its[j].userId == items[j].userId && its[j].node == items[j].node;
  }

  lemma InvDisarm(items: seq<Item>, clock: nat, nn: nat)
    requires Inv(items, clock, nn)
    ensures Inv(Disarmed(items), clock, nn)
  {
  }

  /** The timer that fires next moves the clock to its due time without
      making any other timer overdue. */
  lemma InvFire(items: seq<Item>, clock: nat, nn: nat, i: nat)
    requires Inv(items, clock, nn) && i < |items| && items[i].armed
    requires forall j :: 0 <= j < |items| && items[j].armed ==> items[i].due <= items[j].due
    ensures Inv(items, items[i].due, nn)
    ensures FindNode(items, items[i].node) == Some(i)
  {
  }

  /** With nothing due by `target`, the clock can move there. */
  lemma InvAdvance(items: seq<Item>, clock: nat, nn: nat, target: nat)
    requires Inv(items, clock, nn) && clock <= target && NextDue(items, target).None?
    ensures Inv(items, target, nn)
  {
  }

  lemma WithoutMember(items: seq<Item>, nodes: set<nat>, it: Item)
    requires it in Without(items, nodes)
    ensures it in items && it.node !in nodes
  {
  }

  /** In a list showing each node once, removing the item of a node is
      leaving that node out. */
  lemma {:induction false} RemovedIsWithout(items: seq<Item>, n: nat)
    requires UniqueNodes(items)
    ensures RemovedIntended(items, n) == Without(items, {n})
    decreases |items|
  {
    if items != [] {
      var tail := items[1..];
      UniqueNodesTail(items);
      if items[0].node == n {
        RemovedHead(items, n);
      } else {
        RemovedIsWithout(tail, n);
        RemovedCons(items, n);
        assert Without(items, {n}) == [items[0]] + Without(tail, {n});
      }
    }
  }

  lemma UniqueNodesTail(items: seq<Item>)
    requires UniqueNodes(items) && items != []
    ensures UniqueNodes(items[1..])
  {
    var tail := items[1..];
    forall a, b | 0 <= a < b < |tail| ensures tail[a].node != tail[b].node {
      assert tail[a] == items[a + 1] && tail[b] == items[b + 1];
    }
  }

  /** Removing the node the first item shows, which no other item shows. */
  lemma RemovedHead(items: seq<Item>, n: nat)
    requires UniqueNodes(items) && items != [] && items[0].node == n
    ensures RemovedIntended(items, n) == items[1..] == Without(items, {n})
  {
    var tail := items[1..];
    assert FindNode(items, n) == Some(0);
    assert RemoveAt(items, 0) == tail;
    forall i | 0 <= i < |tail| ensures tail[i].node !in {n} {
      assert tail[i] == items[i + 1];
    }
    WithoutNotShown(tail, {n});
    assert Without(items, {n}) == [] + Without(tail, {n});
  }

  /** Removing a node the first item does not show keeps that item. */
  lemma RemovedCons(items: seq<Item>, n: nat)
    requires items != [] && items[0].node != n
    ensures RemovedIntended(items, n) == [items[0]] + RemovedIntended(items[1..], n)
  {
    var tail := items[1..];
    match FindNode(tail, n)
    case None =>
      assert FindNode(items, n) == None;
    case Some(k) =>
      assert FindNode(items, n) == Some(k + 1);
      assert items[..k + 1] == [items[0]] + tail[..k];
      assert items[k + 2..] == tail[k + 1..];
  }

  /** Leaving out nodes that no item shows changes nothing. */
  lemma {:induction false} WithoutNotShown(items: seq<Item>, nodes: set<nat>)
    requires forall i :: 0 <= i < |items| ==> items[i].node !in nodes
    ensures Without(items, nodes) == items
    decreases |items|
  {
    if items != [] {
      assert forall i :: 0 <= i < |items[1..]| ==> items[1..][i] == items[i + 1];
      WithoutNotShown(items[1..], nodes);
      assert [items[0]] + items[1..] == items;
    }
  }

  lemma {:induction false} WithoutTwice(items: seq<Item>, f: set<nat>, g: set<nat>)
    ensures Without(Without(items, f), g) == Without(items, f + g)
    decreases |items|
  {
    if items != [] {
      WithoutTwice(items[1..], f, g);
      var head := if items[0].node in f then [] else [items[0]];
      var w := Without(items[1..], f);
      assert Without(items, f) == head + w;
      if head == [] {
        assert head + w == w;
      } else {
        assert (head + w)[1..] == w;
      }
    }
  }

  /** Once nothing is due, the nodes fired are exactly the expired ones. */
  lemma ExpireAll(items: seq<Item>, fired: set<nat>, left: seq<Item>, target: nat)
    requires Firing(items, fired, left, target) && NextDue(left, target).None?
    ensures left == Expire(items, target)
    ensures fired == ExpiredNodes(items, target)
  {
    forall i | 0 <= i < |items|
      ensures items[i].node in fired <==> items[i].armed && items[i].due <= target
    {
      if items[i].node in fired {
        var k :| 0 <= k < |items| && items[k].armed && items[k].due <= target && items[k].node == items[i].node;
        assert k == i;
      } else {
        assert items[i] in left;
        var j :| 0 <= j < |left| && left[j] == items[i];
      }
    }
    SameFilter(items, fired, target);
  }

  lemma {:induction false} SameFilter(items: seq<Item>, fired: set<nat>, target: nat)
    requires forall i :: 0 <= i < |items| ==> (items[i].node in fired <==> items[i].armed && items[i].due <= target)
    ensures Without(items, fired) == Expire(items, target)
    decreases |items|
  {
    if items != [] {
      assert forall i :: 0 <= i < |items[1..]| ==> items[1..][i] == items[i + 1];
      SameFilter(items[1..], fired, target);
    }
  }
}
