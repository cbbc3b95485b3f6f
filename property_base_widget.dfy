/**
  The bookkeeping of the editor's property grid widgets, apart from the Qt widgets
  themselves: the value (or value type) that all selected objects share, the undo
  transaction a value change opens and closes, the guard that silences a widget about to
  be deleted, the queue of property changes an embedded-class widget collects until the
  command history settles, the keys and elements of a container widget, and the index a
  dragged container element is dropped at and moved by.

  The object accessor is modelled by the list of commands it receives; whether it accepts
  a `SetValue` or a move is given to the operations as a function, and what it reads
  for each selected item is given as a list aligned with the items.
*/
module PropertyBaseWidget {
  import opened Common

  type ObjectId = nat

  /** The type of a variant. */
  datatype VariantType = InvalidType | ScalarType(id: nat) | ArrayType

  /** An ezVariant: invalid, a scalar of some type, or an array of variants. */
  datatype Variant =
    | Invalid
    | Value(kind: nat, payload: int)
    | ValueArray(elements: seq<Variant>)

  function TypeOf(v: Variant): VariantType {
    match v
    case Invalid => InvalidType
    case Value(kind, _) => ScalarType(kind)
    case ValueArray(_) => ArrayType
  }

  /** One selected item: an object and, for a container element, its index (an invalid
      variant otherwise). */
  datatype Selection = Selection(owner: ObjectId, index: Option<int>)

  datatype PropertyCategory = Member | Array | Set | Map

  /** What the widgets ask of the object accessor. */
  datatype Command =
    | StartTransaction(description: string)
    | SetValue(owner: ObjectId, index: Option<int>, value: Variant)
    | MoveValue(owner: ObjectId, from: int, to: int)
    | MoveObject(owner: ObjectId, from: int, to: int)
    | RemoveValue(owner: ObjectId, at: int)
    | RemoveObject(owner: ObjectId, at: int)
    | CancelTransaction
    | FinishTransaction
    | BeginTemporaryCommands(description: string)
    | FinishTemporaryCommands
    | CancelTemporaryCommands

  // ---------------------------------------------------------------------------
  // The value all selected items share

  /** The position of the first valid value. */
  function FirstValid(values: seq<Variant>): (r: Option<nat>)
    ensures r.None? <==> forall i :: 0 <= i < |values| ==> values[i] == Invalid
    ensures r.Some? ==> r.value < |values| && values[r.value] != Invalid
    ensures r.Some? ==> forall i :: 0 <= i < r.value ==> values[i] == Invalid
  {
    if values == [] then None
    else if values[0] != Invalid then Some(0)
    else match FirstValid(values[1..])
      case None => None
      case Some(k) => Some(k + 1)
  }

  /** The common value of scalar reads: the first valid value, provided every value read
      after it equals it (an invalid read after it counts as a different value). */
  function CommonScalar(values: seq<Variant>): Variant {
    match FirstValid(values)
    case None => Invalid
    case Some(k) => if forall j :: k < j < |values| ==> values[j] == values[k] then values[k] else Invalid
  }

  /** The common value of whole-container reads: the first array when all are equal. */
  function CommonArray(arrays: seq<seq<Variant>>): Variant
    requires |arrays| >= 1
  {
    if forall i :: 0 <= i < |arrays| ==> arrays[i] == arrays[0] then ValueArray(arrays[0]) else Invalid
  }

  /** Whole containers are compared when the first item is not a container element and
      the property is an array or a set. */
  predicate ComparesArrays(items: seq<Selection>, category: PropertyCategory)
    requires |items| >= 1
  {
    items[0].index.None? && (category == Array || category == Set)
  }

  /** The value all `items` share, or an invalid variant. `values[i]` is the value read
      for `items[i]` (invalid when the read fails) and `arrays[i]` its whole container. */
  method GetCommonValue(items: seq<Selection>, category: PropertyCategory, values: seq<Variant>,
                        arrays: seq<seq<Variant>>) returns (r: Variant)
    requires |items| >= 1 && |values| == |items| && |arrays| == |items|
    ensures ComparesArrays(items, category) ==> r == CommonArray(arrays)
    ensures !ComparesArrays(items, category) ==> r == CommonScalar(values)
  {
    if ComparesArrays(items, category) {
      var common: seq<Variant> := [];
      var i := 0;
      while i < |items|
        invariant 0 <= i <= |items|
        invariant i > 0 ==> common == arrays[0]
        invariant forall j :: 0 <= j < i ==> arrays[j] == arrays[0]
      {
        if i == 0 {
          common := arrays[0];
        } else if common != arrays[i] {
          return Invalid;
        }
        i := i + 1;
      }
      return ValueArray(common);
    }
    var value := Invalid;
    ghost var first := -1;
    var i := 0;
    while i < |items|
      invariant 0 <= i <= |items|
      invariant value == Invalid <==> first == -1
      invariant value == Invalid ==> forall j :: 0 <= j < i ==> values[j] == Invalid
      invariant value != Invalid ==>
        && 0 <= first < i && value == values[first]
        && (forall j :: 0 <= j < first ==> values[j] == Invalid)
        && (forall j :: first < j < i ==> values[j] == value)
    {
      if value == Invalid {
        value := values[i];
        if value != Invalid {
          first := i;
        }
      } else if value != values[i] {
        value := Invalid;
        break;
      }
      i := i + 1;
    }
    return value;
  }

  /** Items that all hold the same valid value share it. */
  lemma CommonScalarAgrees(values: seq<Variant>, v: Variant)
    requires |values| >= 1 && v != Invalid
    requires forall i :: 0 <= i < |values| ==> values[i] == v
    ensures CommonScalar(values) == v
  {
    assert values[0] != Invalid;
  }

  /** Two items with different valid values share none. */
  lemma CommonScalarConflict(values: seq<Variant>, i: nat, j: nat)
    requires i < |values| && j < |values|
    requires values[i] != Invalid && values[j] != Invalid && values[i] != values[j]
    ensures CommonScalar(values) == Invalid
  {
  }

  /** A common value is valid only when it is the value of every item read after the
      first valid one, and every item before that one read nothing. */
  lemma CommonScalarIsShared(values: seq<Variant>)
    requires CommonScalar(values) != Invalid
    ensures CommonScalar(values) in values
    ensures forall i :: 0 <= i < |values| ==> values[i] == Invalid || values[i] == CommonScalar(values)
  {
  }

  /** Whether all `values` have one type, and which: the first item's type when they do,
      the invalid type when they do not; with no items, the caller's `prior` is left. */
  method GetCommonVariantSubType(items: seq<Selection>, values: seq<Variant>, prior: VariantType)
    returns (same: bool, t: VariantType)
    requires |values| == |items|
    ensures same <==> forall i :: 0 <= i < |values| ==> TypeOf(values[i]) == TypeOf(values[0])
    ensures same && |values| > 0 ==> t == TypeOf(values[0])
    ensures |values| == 0 ==> t == prior
    ensures !same ==> t == InvalidType
  {
    t := prior;
    var i := 0;
    while i < |items|
      invariant 0 <= i <= |items|
      invariant i > 0 ==> t == TypeOf(values[0])
      invariant i == 0 ==> t == prior
      invariant forall j :: 0 <= j < i ==> TypeOf(values[j]) == TypeOf(values[0])
    {
      if i == 0 {
        t := TypeOf(values[i]);
      } else if TypeOf(values[i]) != t {
        t := InvalidType;
        return false, t;
      }
      i := i + 1;
    }
    return true, t;
  }

  // ---------------------------------------------------------------------------
  // Transactions

  /** The commands actually sent when `cmds` are sent in order until one is refused: all
      of them, or the prefix ending with the first refused one. */
  function Attempts(cmds: seq<Command>, accepts: Command -> bool): seq<Command>
  {
    if cmds == [] then []
    else if accepts(cmds[0]) then [cmds[0]] + Attempts(cmds[1..], accepts)
    else [cmds[0]]
  }

  /** Only a prefix of the commands is sent. */
  lemma {:induction false} AttemptsPrefix(cmds: seq<Command>, accepts: Command -> bool)
    ensures Attempts(cmds, accepts) <= cmds
  {
    if cmds != [] && accepts(cmds[0]) {
      AttemptsPrefix(cmds[1..], accepts);
      assert cmds == [cmds[0]] + cmds[1..];
    }
  }

  /** When every command is accepted, all of them are sent. */
  lemma {:induction false} AttemptsAll(cmds: seq<Command>, accepts: Command -> bool)
    requires forall j :: 0 <= j < |cmds| ==> accepts(cmds[j])
    ensures Attempts(cmds, accepts) == cmds
  {
    if cmds != [] {
      AttemptsAll(cmds[1..], accepts);
    }
  }

  /** The commands sent before the first refused one, that one included. */
  lemma {:induction false} AttemptsStopAt(cmds: seq<Command>, accepts: Command -> bool, i: nat)
    requires i < |cmds| && !accepts(cmds[i])
    requires forall j :: 0 <= j < i ==> accepts(cmds[j])
    ensures Attempts(cmds, accepts) == cmds[..i + 1]
  {
    if i > 0 {
      AttemptsStopAt(cmds[1..], accepts, i - 1);
      assert cmds[..i + 1] == [cmds[0]] + cmds[1..][..i];
    }
  }

  predicate Refused(cmds: seq<Command>, accepts: Command -> bool) {
    exists j :: 0 <= j < |cmds| && !accepts(cmds[j])
  }

  /** A transaction: opened, the commands sent until one is refused, then cancelled when
      one was refused (or when none was sent and the status starts out failed), finished
      otherwise. */
  function Transaction(description: string, cmds: seq<Command>, accepts: Command -> bool, emptyFails: bool)
    : seq<Command>
  {
    [StartTransaction(description)] + Attempts(cmds, accepts)
    + [if Refused(cmds, accepts) || (cmds == [] && emptyFails) then CancelTransaction else FinishTransaction]
  }

  /** A transaction is opened first and closed last, cancelled exactly when a command was
      refused (or none was sent and the status starts out failed), and in between holds
      the commands sent. */
  lemma TransactionShape(description: string, cmds: seq<Command>, accepts: Command -> bool, emptyFails: bool)
    ensures var r := Transaction(description, cmds, accepts, emptyFails);
      && |r| >= 2 && r[0] == StartTransaction(description)
      && (r[|r| - 1] == CancelTransaction <==> Refused(cmds, accepts) || (cmds == [] && emptyFails))
      && (r[|r| - 1] == FinishTransaction <==> !Refused(cmds, accepts) && (cmds != [] || !emptyFails))
      && r[1..|r| - 1] == Attempts(cmds, accepts)
  {
    var r := Transaction(description, cmds, accepts, emptyFails);
    assert r[1..|r| - 1] == Attempts(cmds, accepts);
  }

  /** A transaction whose first refused command is the one at `n`: the commands before it,
      it, then the cancellation. */
  lemma TransactionRefusedAt(description: string, cmds: seq<Command>, accepts: Command -> bool, emptyFails: bool, n: nat)
    requires n < |cmds| && !accepts(cmds[n]) && forall j :: 0 <= j < n ==> accepts(cmds[j])
    ensures Transaction(description, cmds, accepts, emptyFails) ==
      [StartTransaction(description)] + cmds[..n] + [cmds[n]] + [CancelTransaction]
  {
    assert Refused(cmds, accepts);
    AttemptsStopAt(cmds, accepts, n);
    var start := [StartTransaction(description)];
    assert Transaction(description, cmds, accepts, emptyFails) == start + cmds[..n + 1] + [CancelTransaction];
    assert cmds[..n + 1] == cmds[..n] + [cmds[n]];
    assert start + (cmds[..n] + [cmds[n]]) == start + cmds[..n] + [cmds[n]];
  }

  /** A transaction whose commands are all accepted: all of them, then the closing command. */
  lemma TransactionAllAccepted(description: string, cmds: seq<Command>, accepts: Command -> bool, emptyFails: bool)
    requires forall j :: 0 <= j < |cmds| ==> accepts(cmds[j])
    ensures Transaction(description, cmds, accepts, emptyFails) ==
      [StartTransaction(description)] + cmds + [if cmds == [] && emptyFails then CancelTransaction else FinishTransaction]
  {
    assert !Refused(cmds, accepts);
    AttemptsAll(cmds, accepts);
  }

  /** The description of the transaction that changes `property`. */
  function ChangeDescription(property: string): string {
    "Change Property '" + property + "'"
  }

  /** One `SetValue` of `value` per item, in order. */
  function SetCommands(items: seq<Selection>, value: Variant): (r: seq<Command>)
    ensures |r| == |items|
    ensures forall i :: 0 <= i < |items| ==> r[i] == SetValue(items[i].owner, items[i].index, value)
  {
    seq(|items|, i requires 0 <= i < |items| => SetValue(items[i].owner, items[i].index, value))
  }

  /** The transaction a single value change runs: `SetValue` item by item until the
      accessor refuses one; the status starts out as a failure, so a change with no
      items is cancelled. */
  function ChangeTransaction(property: string, items: seq<Selection>, value: Variant, accepts: Command -> bool)
    : seq<Command>
  {
    Transaction(ChangeDescription(property), SetCommands(items, value), accepts, true)
  }

  /** A value change is cancelled exactly when there is no item or the accessor refuses
      the value for some item; the items after the refused one are left alone. */
  lemma ChangeCancelledIffRefused(property: string, items: seq<Selection>, value: Variant,
                                  accepts: Command -> bool)
    ensures var r := ChangeTransaction(property, items, value, accepts);
      && (r[|r| - 1] == CancelTransaction <==>
            items == [] || exists i :: 0 <= i < |items| && !accepts(SetValue(items[i].owner, items[i].index, value)))
      && |r| - 2 <= |items|
      && forall j :: 1 <= j < |r| - 1 ==> r[j] == SetValue(items[j - 1].owner, items[j - 1].index, value)
  {
    var cmds := SetCommands(items, value);
    var r := ChangeTransaction(property, items, value, accepts);
    TransactionShape(ChangeDescription(property), cmds, accepts, true);
    AttemptsPrefix(cmds, accepts);
    forall j | 1 <= j < |r| - 1
      ensures r[j] == SetValue(items[j - 1].owner, items[j - 1].index, value)
    {
      assert r[j] == r[1..|r| - 1][j - 1];
    }
    if Refused(cmds, accepts) {
      var i :| 0 <= i < |cmds| && !accepts(cmds[i]);
      assert !accepts(SetValue(items[i].owner, items[i].index, value));
    }
  }

  // ---------------------------------------------------------------------------
  // The base widget: value changes and the undead guard

  /** The object accessor the widgets share, as the commands it has received. */
  class ObjectAccessor {
    var commands: seq<Command>

    constructor ()
      ensures commands == []
    {
      commands := [];
    }
  }

  /** What a property widget reports to its own handler. */
  datatype PropertyEvent =
    | SingleValueChanged(property: string, value: Variant, items: seq<Selection>)
    | BeginTemporary(property: string)
    | EndTemporary
    | CancelTemporary

  /** The commands a live widget's handler sends for an event. */
  function Handled(e: PropertyEvent, accepts: Command -> bool): (r: seq<Command>)
    ensures e.SingleValueChanged? ==> r == ChangeTransaction(e.property, e.items, e.value, accepts)
    ensures !e.SingleValueChanged? ==> |r| == 1
  {
    match e
    case SingleValueChanged(property, value, items) => ChangeTransaction(property, items, value, accepts)
    case BeginTemporary(property) => [BeginTemporaryCommands(ChangeDescription(property))]
    case EndTemporary => [FinishTemporaryCommands]
    case CancelTemporary => [CancelTemporaryCommands]
  }

  /** Each event is one self-contained unit on the accessor: a value change is a single
      transaction, opened first and closed last, that in between only sets the new value
      on the items in order; a temporary event sends just its own begin, finish or
      cancel of temporary commands and touches no transaction. */
  lemma HandledIsOneUnit(e: PropertyEvent, accepts: Command -> bool)
    ensures var r := Handled(e, accepts);
      && (e.SingleValueChanged? ==>
            && |r| >= 2 && r[0] == StartTransaction(ChangeDescription(e.property))
            && (r[|r| - 1] == CancelTransaction || r[|r| - 1] == FinishTransaction)
            && |r| - 2 <= |e.items|
            && forall j :: 1 <= j < |r| - 1 ==>
                 r[j] == SetValue(e.items[j - 1].owner, e.items[j - 1].index, e.value))
      && (e.BeginTemporary? ==> r == [BeginTemporaryCommands(ChangeDescription(e.property))])
      && (e.EndTemporary? ==> r == [FinishTemporaryCommands])
      && (e.CancelTemporary? ==> r == [CancelTemporaryCommands])
  {
    if e.SingleValueChanged? {
      TransactionShape(ChangeDescription(e.property), SetCommands(e.items, e.value), accepts, true);
      ChangeCancelledIffRefused(e.property, e.items, e.value, accepts);
    }
  }

  /** Starts a transaction on the accessor, sends the commands in order until the accessor
      refuses one, then cancels the transaction if one was refused (or, when `emptyFails`,
      if there was none) and finishes it otherwise. */
  method RunTransaction(accessor: ObjectAccessor, description: string, cmds: seq<Command>,
                        accepts: Command -> bool, emptyFails: bool)
    modifies accessor`commands
    ensures accessor.commands == old(accessor.commands) + Transaction(description, cmds, accepts, emptyFails)
  {
    // The commands reach the accessor in this order; they are collected first.
    var sent := [StartTransaction(description)];
    var failed := emptyFails;
    var i := 0;
    while i < |cmds|
      invariant 0 <= i <= |cmds|
      invariant sent == [StartTransaction(description)] + cmds[..i]
      invariant forall j :: 0 <= j < i ==> accepts(cmds[j])
      invariant failed <==> i == 0 && emptyFails
    {
      sent := sent + [cmds[i]];
      failed := !accepts(cmds[i]);
      if failed {
        break;
      }
      i := i + 1;
    }
    if i < |cmds| {
      TransactionRefusedAt(description, cmds, accepts, emptyFails, i);
    } else {
      TransactionAllAccepted(description, cmds, accepts, emptyFails);
      assert cmds[..i] == cmds;
    }
    sent := sent + [if failed then CancelTransaction else FinishTransaction];
    accessor.commands := accessor.commands + sent;
  }

  class PropertyWidget {
    /** Set once the widget is about to be deleted; its handlers then do nothing. */
    var undead: bool
    /** The value the widget last showed or sent. */
    var oldValue: Variant
    var items: seq<Selection>
    const accessor: ObjectAccessor

    constructor (accessor: ObjectAccessor)
      ensures this.accessor == accessor
      ensures !undead && oldValue == Invalid && items == []
    {
      this.accessor := accessor;
      undead := false;
      oldValue := Invalid;
      items := [];
    }

    /** Marks the widget for deletion; it must not have been marked before. */
    method PrepareToDie()
      requires !undead
      modifies this`undead
      ensures undead
    {
      undead := true;
    }

    /** Opens a transaction, sets the value on each item until the accessor refuses one,
        then cancels the transaction if none was accepted or one was refused and
        finishes it otherwise. */
    method SetValueTransaction(property: string, value: Variant, items: seq<Selection>, accepts: Command -> bool)
      modifies accessor`commands
      ensures accessor.commands == old(accessor.commands) + ChangeTransaction(property, items, value, accepts)
    {
      var cmds := seq(|items|, i requires 0 <= i < |items| => SetValue(items[i].owner, items[i].index, value));
      // A default-constructed status holds a failure, so no item means a cancel.
      RunTransaction(accessor, ChangeDescription(property), cmds, accepts, true);
    }

    /** Runs an event through the accessor, unless the widget is undead: a value change
        becomes a transaction setting the value item by item, the temporary events
        begin, finish or cancel temporary commands. */
    method PropertyChangedHandler(e: PropertyEvent, accepts: Command -> bool)
      modifies accessor`commands
      ensures undead ==> accessor.commands == old(accessor.commands)
      ensures !undead ==> accessor.commands == old(accessor.commands) + Handled(e, accepts)
    {
      if undead {
        return;
      }
      match e
      case SingleValueChanged(property, value, items) =>
        SetValueTransaction(property, value, items, accepts);
      case BeginTemporary(property) =>
        accessor.commands := accessor.commands + [BeginTemporaryCommands(ChangeDescription(property))];
      case EndTemporary =>
        accessor.commands := accessor.commands + [FinishTemporaryCommands];
      case CancelTemporary =>
        accessor.commands := accessor.commands + [CancelTemporaryCommands];
    }

    /** Sends a new value of `property` for the selected items: nothing when it equals
        the value last shown or sent; otherwise the value is remembered and one value
        change goes to the handler. */
    method BroadcastValueChanged(property: string, newValue: Variant, accepts: Command -> bool)
      modifies this`oldValue, accessor`commands
      ensures newValue == old(oldValue) ==> oldValue == old(oldValue) && accessor.commands == old(accessor.commands)
      ensures newValue != old(oldValue) ==> oldValue == newValue
      ensures newValue != old(oldValue) && !undead ==>
        accessor.commands == old(accessor.commands) + ChangeTransaction(property, items, newValue, accepts)
      ensures undead ==> accessor.commands == old(accessor.commands)
    {
      if newValue == oldValue {
        return;
      }
      oldValue := newValue;
      PropertyChangedHandler(SingleValueChanged(property, newValue, items), accepts);
    }
  }

  /** Sending the value just sent again changes nothing. */
  method BroadcastTwice(w: PropertyWidget, property: string, value: Variant, accepts: Command -> bool)
    modifies w, w.accessor
    ensures w.oldValue == value
    ensures !w.undead && value != old(w.oldValue) ==>
      w.accessor.commands == old(w.accessor.commands) + ChangeTransaction(property, w.items, value, accepts)
  {
    w.BroadcastValueChanged(property, value, accepts);
    w.BroadcastValueChanged(property, value, accepts);
  }

  // ---------------------------------------------------------------------------
  // Queued property changes of an embedded-class widget

  /** `queue` with `property` appended unless it is already there. */
  function Enqueue(queue: seq<string>, property: string): (r: seq<string>)
    ensures NoDuplicates(queue) ==> NoDuplicates(r)
    ensures forall x :: x in r <==> x in queue || x == property
    ensures queue <= r && |r| <= |queue| + 1
  {
    if property in queue then queue else queue + [property]
  }

  /** Queuing a property twice queues it once. */
  lemma EnqueueIdempotent(queue: seq<string>, property: string)
    ensures Enqueue(Enqueue(queue, property), property) == Enqueue(queue, property)
  {
  }

  /** The queue after a run of property events, each on an object and a property. */
  function QueueAfter(queue: seq<string>, resolved: seq<ObjectId>, events: seq<(ObjectId, string)>): seq<string>
    decreases |events|
  {
    if events == [] then queue
    else
      var q := if events[0].0 in resolved then Enqueue(queue, events[0].1) else queue;
      QueueAfter(q, resolved, events[1..])
  }

  /** After any run of events the queue holds each property of an event on a resolved
      object exactly once, the earlier queue first. */
  lemma {:induction false} QueueAfterHoldsEachOnce(queue: seq<string>, resolved: seq<ObjectId>,
                                                   events: seq<(ObjectId, string)>)
    requires NoDuplicates(queue)
    ensures NoDuplicates(QueueAfter(queue, resolved, events))
    ensures queue <= QueueAfter(queue, resolved, events)
    ensures forall x :: x in QueueAfter(queue, resolved, events) <==>
      x in queue || exists j :: 0 <= j < |events| && events[j].0 in resolved && events[j].1 == x
    decreases |events|
  {
    if events != [] {
      var q := if events[0].0 in resolved then Enqueue(queue, events[0].1) else queue;
      QueueAfterHoldsEachOnce(q, resolved, events[1..]);
      forall x
        ensures x in QueueAfter(queue, resolved, events) <==>
          x in queue || exists j :: 0 <= j < |events| && events[j].0 in resolved && events[j].1 == x
      {
        if exists j :: 0 <= j < |events| && events[j].0 in resolved && events[j].1 == x {
          var j :| 0 <= j < |events| && events[j].0 in resolved && events[j].1 == x;
          if j > 0 {
            assert events[1..][j - 1] == events[j];
          }
        }
        if exists j :: 0 <= j < |events| - 1 && events[1..][j].0 in resolved && events[1..][j].1 == x {
          var j :| 0 <= j < |events| - 1 && events[1..][j].0 in resolved && events[1..][j].1 == x;
          assert events[j + 1] == events[1..][j];
        }
      }
    }
  }

  /** The command history events an embedded-class widget listens to. */
  datatype HistoryEvent = UndoEnded | RedoEnded | TransactionEnded | TransactionCanceled | OtherHistoryEvent

  class EmbeddedClassWidget {
    const base: PropertyWidget
    /** The objects the widget shows. */
    var resolved: seq<ObjectId>
    /** The properties changed since the command history last settled. */
    var queued: seq<string>
    /** The properties the widget has refreshed, in order. */
    var refreshed: seq<string>

    ghost predicate Valid()
      reads this
    {
      NoDuplicates(queued)
    }

    constructor (base: PropertyWidget, resolved: seq<ObjectId>)
      ensures Valid() && this.base == base && this.resolved == resolved
      ensures queued == [] && refreshed == []
    {
      this.base := base;
      this.resolved := resolved;
      queued := [];
      refreshed := [];
    }

    /** Queues a changed property of a resolved object, once; ignored when undead. */
    method PropertyEventHandler(owner: ObjectId, property: string)
      requires Valid()
      modifies this`queued
      ensures Valid()
      ensures base.undead || owner !in resolved ==> queued == old(queued)
      ensures !base.undead && owner in resolved ==> queued == Enqueue(old(queued), property)
    {
      if base.undead {
        return;
      }
      if owner !in resolved {
        return;
      }
      if property !in queued {
        queued := queued + [property];
      }
    }

    /** Refreshes every queued property in queue order, then empties the queue. */
    method FlushQueuedChanges()
      modifies this`queued, this`refreshed
      ensures refreshed == old(refreshed) + old(queued)
      ensures queued == [] && Valid()
    {
      var i := 0;
      while i < |queued|
        invariant queued == old(queued) && 0 <= i <= |queued|
        invariant refreshed == old(refreshed) + queued[..i]
      {
        refreshed := refreshed + [queued[i]];
        i := i + 1;
      }
      assert queued[..i] == queued;
      queued := [];
    }

    /** Flushes the queue when an undo, a redo or a transaction has ended or a transaction
        was cancelled; ignored when undead. */
    method CommandHistoryEventHandler(e: HistoryEvent)
      modifies this`queued, this`refreshed
      ensures base.undead || e == OtherHistoryEvent ==> queued == old(queued) && refreshed == old(refreshed)
      ensures !base.undead && e != OtherHistoryEvent ==> refreshed == old(refreshed) + old(queued) && queued == []
    {
      if base.undead {
        return;
      }
      match e
      case UndoEnded => FlushQueuedChanges();
      case RedoEnded => FlushQueuedChanges();
      case TransactionEnded => FlushQueuedChanges();
      case TransactionCanceled => FlushQueuedChanges();
      case OtherHistoryEvent =>
    }
  }

  // ---------------------------------------------------------------------------
  // Container widgets: the keys every selected object shares

  /** The entries of `s` that occur in `other`, in order. */
  function Keep(s: seq<string>, other: seq<string>): (r: seq<string>)
    ensures forall x :: x in r <==> x in s && x in other
  {
    if s == [] then []
    else
      var tail := Keep(s[1..], other);
      assert s == [s[0]] + s[1..];
      if s[0] in other then [s[0]] + tail else tail
  }

  /** Filtering keeps each entry `other` has as often as `s` has it. */
  lemma {:induction false} KeepCounts(s: seq<string>, other: seq<string>)
    ensures forall x :: multiset(Keep(s, other))[x] == if x in other then multiset(s)[x] else 0
  {
    if s != [] {
      KeepCounts(s[1..], other);
      assert s == [s[0]] + s[1..];
    }
  }

  /** Filtering two arrangements of the same entries leaves the same entries. */
  lemma KeepSameEntries(a: seq<string>, b: seq<string>, other: seq<string>)
    requires multiset(a) == multiset(b)
    ensures multiset(Keep(a, other)) == multiset(Keep(b, other))
  {
    KeepCounts(a, other);
    KeepCounts(b, other);
  }

  /** The entries of `first` that occur in every one of `others`. */
  function KeepAll(first: seq<string>, others: seq<seq<string>>): (r: seq<string>)
    decreases |others|
  {
    if others == [] then first else Keep(KeepAll(first, others[..|others| - 1]), others[|others| - 1])
  }

  /** `x` occurs in each of `others`. */
  predicate InAll(x: string, others: seq<seq<string>>)
  {
    forall j :: 0 <= j < |others| ==> x in others[j]
  }

  /** A key is kept exactly when the first object has it and so does every other one, as
      often as the first object lists it. */
  lemma {:induction false} KeepAllShared(first: seq<string>, others: seq<seq<string>>)
    ensures forall x :: x in KeepAll(first, others) <==> x in first && InAll(x, others)
    ensures forall x :: multiset(KeepAll(first, others))[x] == (if InAll(x, others) then multiset(first)[x] else 0)
    decreases |others|
  {
    if others != [] {
      var init := others[..|others| - 1];
      KeepAllShared(first, init);
      KeepCounts(KeepAll(first, init), others[|others| - 1]);
      forall x
        ensures InAll(x, others) <==> InAll(x, init) && x in others[|others| - 1]
      {
        if InAll(x, init) && x in others[|others| - 1] {
          forall j | 0 <= j < |others| ensures x in others[j] {
            if j < |init| {
              assert others[j] == init[j];
            }
          }
        }
      }
    }
  }

  /** Two keys are in order: `a` sorts strictly before `b`, comparing characters in turn
      and a proper prefix first. */
  predicate KeyBefore(a: string, b: string)
  {
    if a == [] then b != []
    else if b == [] then false
    else if a[0] != b[0] then a[0] < b[0]
    else KeyBefore(a[1..], b[1..])
  }

  /** The order is strict and total. */
  lemma {:induction false} KeyBeforeTotal(a: string, b: string)
    ensures !(KeyBefore(a, b) && KeyBefore(b, a))
    ensures a != b ==> KeyBefore(a, b) || KeyBefore(b, a)
  {
    if a != [] && b != [] && a[0] == b[0] {
      KeyBeforeTotal(a[1..], b[1..]);
      if a != b {
        assert a == [a[0]] + a[1..] && b == [b[0]] + b[1..];
      }
    }
  }

  predicate KeysSorted(s: seq<string>)
  {
    forall i :: 0 <= i < |s| - 1 ==> !KeyBefore(s[i + 1], s[i])
  }

  /** `x` inserted into a sorted `s` before the first entry it does not follow. */
  function InsertKey(x: string, s: seq<string>): (r: seq<string>)
    requires KeysSorted(s)
    ensures KeysSorted(r) && multiset(r) == multiset(s) + multiset{x}
    ensures r != [] && (r[0] == x || (s != [] && r[0] == s[0]))
  {
    if s == [] || !KeyBefore(s[0], x) then
      [x] + s
    else
      KeyBeforeTotal(s[0], x);
      var tail := InsertKey(x, s[1..]);
      assert s == [s[0]] + s[1..];
      [s[0]] + tail
  }

  /** The keys in ascending order. */
  function SortKeys(s: seq<string>): (r: seq<string>)
    ensures KeysSorted(r) && multiset(r) == multiset(s)
  {
    if s == [] then []
    else
      assert s == [s[0]] + s[1..];
      InsertKey(s[0], SortKeys(s[1..]))
  }

  lemma {:induction false} KeyBeforeTransitive(a: string, b: string, c: string)
    requires KeyBefore(a, b) && KeyBefore(b, c)
    ensures KeyBefore(a, c)
  {
    if a != [] && b != [] && c != [] && a[0] == b[0] && b[0] == c[0] {
      KeyBeforeTransitive(a[1..], b[1..], c[1..]);
    }
  }

  /** The first entry of a sorted sequence follows none of the others. */
  lemma {:induction false} SortedFirstLeast(s: seq<string>, j: nat)
    requires KeysSorted(s) && j < |s|
    ensures !KeyBefore(s[j], s[0])
  {
    if j > 0 {
      SortedFirstLeast(s, j - 1);
      assert !KeyBefore(s[j], s[j - 1]);
      KeyBeforeTotal(s[j], s[j - 1]);
      KeyBeforeTotal(s[j - 1], s[0]);
      KeyBeforeTotal(s[j], s[0]);
      if s[j - 1] != s[0] && s[j] != s[j - 1] {
        KeyBeforeTransitive(s[0], s[j - 1], s[j]);
      }
    } else {
      KeyBeforeTotal(s[0], s[0]);
    }
  }

  /** Two sorted arrangements of the same distinct keys start with the same key. */
  lemma SortedSameFirst(a: seq<string>, b: seq<string>)
    requires KeysSorted(a) && KeysSorted(b) && a != [] && b != [] && multiset(a) == multiset(b)
    ensures a[0] == b[0]
  {
    assert a[0] in multiset(b) && b[0] in multiset(a);
    var i :| 0 <= i < |b| && b[i] == a[0];
    var k :| 0 <= k < |a| && a[k] == b[0];
    SortedFirstLeast(a, k);
    SortedFirstLeast(b, i);
    KeyBeforeTotal(a[0], b[0]);
  }

  lemma TailSortedDistinct(s: seq<string>)
    requires s != [] && KeysSorted(s)
    ensures KeysSorted(s[1..])
    ensures NoDuplicates(s) ==> NoDuplicates(s[1..])
  {
    forall i | 0 <= i < |s| - 2 ensures !KeyBefore(s[1..][i + 1], s[1..][i]) {
      assert s[1..][i + 1] == s[i + 2] && s[1..][i] == s[i + 1];
    }
  }

  /** Distinct keys have one sorted order, so any sort of them gives this one. */
  lemma {:induction false} SortedKeysUnique(a: seq<string>, b: seq<string>)
    requires KeysSorted(a) && KeysSorted(b) && NoDuplicates(a) && multiset(a) == multiset(b)
    ensures a == b
    decreases |a|
  {
    assert |a| == |multiset(a)| == |b|;
    if a != [] {
      SortedSameFirst(a, b);
      assert a == [a[0]] + a[1..] && b == [b[0]] + b[1..];
      assert multiset(a) == multiset{a[0]} + multiset(a[1..]);
      assert multiset(b) == multiset{b[0]} + multiset(b[1..]);
      assert multiset(a[1..]) == multiset(a) - multiset{a[0]};
      assert multiset(b[1..]) == multiset(b) - multiset{b[0]};
      TailSortedDistinct(a);
      TailSortedDistinct(b);
      SortedKeysUnique(a[1..], b[1..]);
    }
  }

  /** A sequence is free of repetition exactly when no entry occurs twice in its multiset. */
  lemma {:induction false} NoDuplicatesCounts(s: seq<string>)
    ensures NoDuplicates(s) <==> forall x :: multiset(s)[x] <= 1
  {
    if s != [] {
      var t := s[1..];
      assert s == [s[0]] + t;
      NoDuplicatesCounts(t);
      if NoDuplicates(s) {
        assert NoDuplicates(t) by {
          forall i, j | 0 <= i < j < |t| ensures t[i] != t[j] {
            assert t[i] == s[i + 1] && t[j] == s[j + 1];
          }
        }
        assert s[0] !in t by {
          forall j | 0 <= j < |t| ensures t[j] != s[0] {
            assert t[j] == s[j + 1];
          }
        }
      }
      if forall x :: multiset(s)[x] <= 1 {
        assert multiset(s) == multiset{s[0]} + multiset(t);
        assert forall x :: multiset(t)[x] <= multiset(s)[x];
        assert s[0] !in multiset(t) by {
          assert multiset(s)[s[0]] == 1 + multiset(t)[s[0]];
        }
        forall i, j | 0 <= i < j < |s| ensures s[i] != s[j] {
          if i > 0 {
            assert s[i] == t[i - 1] && s[j] == t[j - 1];
          } else {
            assert s[j] == t[j - 1];
          }
        }
      }
    }
  }

  /** Sorting what survives the filtering, in whatever order the swaps left it, gives the
      sorted shared keys: distinct, since the first object's keys are. */
  lemma SortedSharedKeys(kept: seq<string>, first: seq<string>, others: seq<seq<string>>)
    requires NoDuplicates(first) && multiset(kept) == multiset(KeepAll(first, others))
    ensures SortKeys(kept) == SortKeys(KeepAll(first, others))
  {
    var shared := KeepAll(first, others);
    KeepAllShared(first, others);
    NoDuplicatesCounts(first);
    NoDuplicatesCounts(SortKeys(kept));
    SortedKeysUnique(SortKeys(kept), SortKeys(shared));
  }

  /** The keys a map container shows: sorted, each once, and exactly those the first
      object has and every other object has too. */
  lemma SharedKeysInOrder(first: seq<string>, others: seq<seq<string>>)
    requires NoDuplicates(first)
    ensures KeysSorted(SortKeys(KeepAll(first, others)))
    ensures NoDuplicates(SortKeys(KeepAll(first, others)))
    ensures forall x :: x in SortKeys(KeepAll(first, others)) <==> x in first && InAll(x, others)
  {
    var r := SortKeys(KeepAll(first, others));
    KeepAllShared(first, others);
    NoDuplicatesCounts(first);
    NoDuplicatesCounts(r);
    forall x ensures x in r <==> x in KeepAll(first, others) {
      assert x in r <==> x in multiset(r);
    }
  }

  /** Filtering from position `k` on: the entry at `k`, then the rest. */
  lemma KeepFrom(kept: seq<string>, other: seq<string>, k: nat)
    requires k < |kept|
    ensures Keep(kept[k..], other) == (if kept[k] in other then [kept[k]] else []) + Keep(kept[k + 1..], other)
  {
    assert kept[k..][1..] == kept[k + 1..];
  }

  /** Swapping the last entry into a hole at `k` keeps the entries before `k` and, from `k`
      on, the entries that were after it. */
  lemma SwapRemoveSplit(r: seq<string>, k: nat)
    requires k < |r|
    ensures RemoveAtAndSwap(r, k)[..k] == r[..k]
    ensures multiset(RemoveAtAndSwap(r, k)[k..]) == multiset(r[k + 1..])
  {
    var n := RemoveAtAndSwap(r, k);
    var last := |r| - 1;
    if k == last {
      assert n == r[..k];
    } else {
      assert n == r[..k] + [r[last]] + r[k + 1..last];
      assert n[..k] == r[..k];
      assert n[k..] == [r[last]] + r[k + 1..last];
      assert r[k + 1..] == r[k + 1..last] + [r[last]];
    }
  }

  lemma SplitAt(r: seq<string>, k: nat)
    requires k < |r|
    ensures multiset(r[k..]) == multiset{r[k]} + multiset(r[k + 1..])
  {
    assert r[k..] == [r[k]] + r[k + 1..];
  }

  /** One step of the backward filtering at `k`: what is before `k` is still untouched, and
      from `k` on the entries are those the filter keeps. */
  lemma FilterStep(kept: seq<string>, other: seq<string>, r: seq<string>, k: nat)
    requires k < |r| <= |kept| && r[..k + 1] == kept[..k + 1]
    requires multiset(r[k + 1..]) == multiset(Keep(kept[k + 1..], other))
    ensures var next := if r[k] in other then r else RemoveAtAndSwap(r, k);
      k <= |next| <= |kept| && next[..k] == kept[..k]
      && multiset(next[k..]) == multiset(Keep(kept[k..], other))
  {
    assert r[k] == kept[k];
    assert r[..k] == kept[..k];
    KeepFrom(kept, other, k);
    if r[k] !in other {
      SwapRemoveSplit(r, k);
    } else {
      SplitAt(r, k);
    }
  }

  /** Drops the entries of `kept` that `other` lacks, walking from the back and moving the
      last entry into each hole. */
  method RemoveMissingKeys(kept: seq<string>, other: seq<string>) returns (r: seq<string>)
    ensures multiset(r) == multiset(Keep(kept, other))
  {
    r := kept;
    var k := |r| - 1;
    while k >= 0
      invariant -1 <= k < |r| && |r| <= |kept|
      invariant r[..k + 1] == kept[..k + 1]
      invariant multiset(r[k + 1..]) == multiset(Keep(kept[k + 1..], other))
    {
      FilterStep(kept, other, r, k);
      if r[k] !in other {
        r := RemoveAtAndSwap(r, k);
      }
      k := k - 1;
    }
    assert kept[0..] == kept && r[0..] == r;
  }

  /** The keys of the first object that every other object has too, in the order the
      filtering leaves them: each other object's keys filter the keys kept so far. */
  method SharedKeys(keysOf: seq<seq<string>>) returns (kept: seq<string>)
    requires |keysOf| >= 1
    ensures multiset(kept) == multiset(KeepAll(keysOf[0], keysOf[1..]))
  {
    kept := keysOf[0];
    var i := 1;
    while i < |keysOf|
      invariant 1 <= i <= |keysOf|
      invariant multiset(kept) == multiset(KeepAll(keysOf[0], keysOf[1..i]))
    {
      ghost var before := kept;
      kept := RemoveMissingKeys(kept, keysOf[i]);
      assert keysOf[1..i + 1][..i - 1] == keysOf[1..i];
      KeepSameEntries(before, KeepAll(keysOf[0], keysOf[1..i]), keysOf[i]);
      i := i + 1;
    }
    assert keysOf[1..i] == keysOf[1..];
  }

  /** The fewest entries any object has, and at most the largest 32-bit signed integer. */
  method FewestEntries(countOf: seq<int>) returns (least: int)
    requires forall j :: 0 <= j < |countOf| ==> countOf[j] >= 0
    ensures 0 <= least <= I32_MAX && forall j :: 0 <= j < |countOf| ==> least <= countOf[j]
    ensures least == I32_MAX || exists j :: 0 <= j < |countOf| && least == countOf[j]
  {
    least := I32_MAX;
    var j := 0;
    while j < |countOf|
      invariant 0 <= j <= |countOf| && 0 <= least <= I32_MAX
      invariant forall i :: 0 <= i < j ==> least <= countOf[i]
      invariant least == I32_MAX || exists i :: 0 <= i < j && least == countOf[i]
    {
      if countOf[j] < least {
        least := countOf[j];
      }
      j := j + 1;
    }
  }

  /** The element keys of a container that is not a map: its positions. */
  function Positions(n: nat): (r: seq<Key>)
    ensures |r| == n && forall i :: 0 <= i < n ==> r[i] == Position(i)
  {
    seq(n, i requires 0 <= i < n => Position(i))
  }

  /** Map keys as element keys. */
  function AsNames(names: seq<string>): (r: seq<Key>)
    ensures |r| == |names| && forall i :: 0 <= i < |names| ==> r[i] == Name(names[i])
  {
    seq(|names|, i requires 0 <= i < |names| => Name(names[i]))
  }

  /** The key of a container element: a map key, or a position in an array or set. */
  datatype Key = Name(name: string) | Position(index: nat)

  /** The element of a container widget the user pressed a button on. */
  datatype ElementAction = MoveElementUp | MoveElementDown | DeleteElement | Help

  const I32_MAX: int := 0x7FFF_FFFF

  // ---------------------------------------------------------------------------
  // Drop targets

  /** The target the scan over element centres ends at, from element `j` on with `t` found
      so far: a centre below the cursor moves the target past it, the first centre above
      the cursor stops at it, and a centre level with the cursor is passed over. */
  function TargetScan(centers: seq<int>, y: int, j: nat, t: int): int
    requires j <= |centers|
    decreases |centers| - j
  {
    if j == |centers| then t
    else if y > centers[j] then TargetScan(centers, y, j + 1, j + 1)
    else if y < centers[j] then j
    else TargetScan(centers, y, j + 1, t)
  }

  /** The drop target for a cursor at height `y` over elements centred at `centers`. */
  function DropTargetOf(centers: seq<int>, y: int): int
  {
    TargetScan(centers, y, 0, -1)
  }

  predicate Increasing(centers: seq<int>)
  {
    forall i, k :: 0 <= i < k < |centers| ==> centers[i] < centers[k]
  }

  lemma {:induction false} TargetScanBetween(centers: seq<int>, y: int, j: nat, t: int)
    requires Increasing(centers) && y !in centers && |centers| >= 1 && j <= |centers|
    requires forall i :: 0 <= i < j ==> centers[i] < y
    requires t == if j == 0 then -1 else j
    ensures var r := TargetScan(centers, y, j, t);
      0 <= r <= |centers| && (forall i :: 0 <= i < r ==> centers[i] < y)
      && forall i :: r <= i < |centers| ==> y < centers[i]
    decreases |centers| - j
  {
    if j < |centers| && y > centers[j] {
      TargetScanBetween(centers, y, j + 1, j + 1);
    }
  }

  /** With the elements laid out top to bottom and the cursor level with no centre, the drop
      target is the gap between the elements above the cursor and those below it. */
  lemma DropTargetBetween(centers: seq<int>, y: int)
    requires Increasing(centers) && y !in centers && |centers| >= 1
    ensures 0 <= DropTargetOf(centers, y) <= |centers|
    ensures forall i :: 0 <= i < DropTargetOf(centers, y) ==> centers[i] < y
    ensures forall i :: DropTargetOf(centers, y) <= i < |centers| ==> y < centers[i]
  {
    TargetScanBetween(centers, y, 0, -1);
  }

  lemma {:induction false} TargetScanNone(centers: seq<int>, y: int, j: nat, t: int)
    requires j <= |centers| && t >= -1
    ensures TargetScan(centers, y, j, t) >= -1
    ensures TargetScan(centers, y, j, t) == -1 <==> t == -1 && forall i :: j <= i < |centers| ==> centers[i] == y
    decreases |centers| - j
  {
    if j < |centers| {
      if y > centers[j] {
        TargetScanNone(centers, y, j + 1, j + 1);
      } else if y == centers[j] {
        TargetScanNone(centers, y, j + 1, t);
      }
    }
  }

  /** There is no drop target exactly when the cursor is level with every element's centre. */
  lemma DropTargetNone(centers: seq<int>, y: int)
    ensures DropTargetOf(centers, y) == -1 <==> forall i :: 0 <= i < |centers| ==> centers[i] == y
  {
    TargetScanNone(centers, y, 0, -1);
  }

  /** Finds the drop target for a cursor at height `y`. */
  method ClosestDropTarget(centers: seq<int>, y: int) returns (t: int)
    ensures t == DropTargetOf(centers, y)
  {
    t := -1;
    var j := 0;
    while j < |centers|
      invariant 0 <= j <= |centers|
      invariant TargetScan(centers, y, j, t) == DropTargetOf(centers, y)
    {
      if y > centers[j] {
        t := j + 1;
      } else if y < centers[j] {
        t := j;
        break;
      }
      j := j + 1;
    }
  }

  // ---------------------------------------------------------------------------
  // Moving and deleting elements

  /** Whether an item's element moved by `move` lands within its container of `count` entries. */
  predicate MoveInRange(item: Selection, move: int, count: int)
    requires item.index.Some?
  {
    0 <= item.index.value + move <= count
  }

  /** The command moving an item's element by `move`: the value itself, or the object
      stored at that position. */
  function MoveCommand(item: Selection, move: int, isValueType: bool): Command
    requires item.index.Some?
  {
    if isValueType then MoveValue(item.owner, item.index.value, item.index.value + move)
    else MoveObject(item.owner, item.index.value, item.index.value + move)
  }

  predicate Indexed(items: seq<Selection>)
  {
    forall j :: 0 <= j < |items| ==> items[j].index.Some?
  }

  /** The moves for the items whose target lies within their container, in item order. */
  function MoveCommands(items: seq<Selection>, move: int, isValueType: bool, countOf: ObjectId -> int)
    : (r: seq<Command>)
    requires Indexed(items)
    ensures |r| <= |items|
    ensures forall c :: c in r ==> (c.MoveValue? || c.MoveObject?) && 0 <= c.to <= countOf(c.owner)
    decreases |items|
  {
    if items == [] then []
    else
      var last := items[|items| - 1];
      MoveCommands(items[..|items| - 1], move, isValueType, countOf)
      + if MoveInRange(last, move, countOf(last.owner)) then [MoveCommand(last, move, isValueType)] else []
  }

  /** With every target in range, each item gets its move. */
  lemma {:induction false} MoveCommandsAllInRange(items: seq<Selection>, move: int, isValueType: bool,
                                                   countOf: ObjectId -> int)
    requires Indexed(items)
    requires forall j :: 0 <= j < |items| ==> MoveInRange(items[j], move, countOf(items[j].owner))
    ensures |MoveCommands(items, move, isValueType, countOf)| == |items|
    ensures forall j :: 0 <= j < |items| ==>
      MoveCommands(items, move, isValueType, countOf)[j] == MoveCommand(items[j], move, isValueType)
    decreases |items|
  {
    if items != [] {
      MoveCommandsAllInRange(items[..|items| - 1], move, isValueType, countOf);
    }
  }

  /** With no target in range nothing is moved and the transaction is finished empty. */
  lemma {:induction false} MoveCommandsNoneInRange(items: seq<Selection>, move: int, isValueType: bool,
                                                    countOf: ObjectId -> int, accepts: Command -> bool)
    requires Indexed(items)
    requires forall j :: 0 <= j < |items| ==> !MoveInRange(items[j], move, countOf(items[j].owner))
    ensures MoveCommands(items, move, isValueType, countOf) == []
    ensures Transaction("Reparent Object", MoveCommands(items, move, isValueType, countOf), accepts, false)
      == [StartTransaction("Reparent Object"), FinishTransaction]
    decreases |items|
  {
    if items != [] {
      MoveCommandsNoneInRange(items[..|items| - 1], move, isValueType, countOf, accepts);
    }
  }

  /** The removal of each item's element: the value itself, or the object stored there. */
  function DeleteCommands(items: seq<Selection>, isValueType: bool): (r: seq<Command>)
    requires Indexed(items)
    ensures |r| == |items|
    ensures forall j :: 0 <= j < |items| ==>
      r[j] == if isValueType then RemoveValue(items[j].owner, items[j].index.value)
              else RemoveObject(items[j].owner, items[j].index.value)
  {
    seq(|items|, j requires 0 <= j < |items| && Indexed(items) =>
      if isValueType then RemoveValue(items[j].owner, items[j].index.value)
      else RemoveObject(items[j].owner, items[j].index.value))
  }

  /** `s` with the entry at `from` taken out and put back in front of the entry that was at
      `to` (at the end when `to == |s|`): how the accessor moves an element. */
  function MoveTo<T>(s: seq<T>, from: nat, to: nat): (r: seq<T>)
    requires from < |s| && to <= |s|
    ensures |r| == |s| && multiset(r) == multiset(s)
    ensures r[if to > from then to - 1 else to] == s[from]
  {
    var rest := s[..from] + s[from + 1..];
    var at := if to > from then to - 1 else to;
    assert s == s[..from] + [s[from]] + s[from + 1..];
    assert multiset(s) == multiset(rest) + multiset{s[from]};
    assert rest == rest[..at] + rest[at..];
    assert multiset(rest) == multiset(rest[..at]) + multiset(rest[at..]);
    rest[..at] + [s[from]] + rest[at..]
  }

  /** Moving in front of itself or of its successor leaves a sequence as it is, and for
      distinct entries only those two targets do. */
  lemma MoveToOwnPlace<T>(s: seq<T>, from: nat, to: nat)
    requires from < |s| && to <= |s| && NoDuplicates(s)
    ensures MoveTo(s, from, to) == s <==> to == from || to == from + 1
  {
    var r := MoveTo(s, from, to);
    if to == from || to == from + 1 {
      assert r == s[..from] + [s[from]] + s[from + 1..];
      assert s == s[..from] + [s[from]] + s[from + 1..];
    } else {
      var at := if to > from then to - 1 else to;
      assert r[at] == s[from] && at != from;
    }
  }

  /** A move one place up (by -1) swaps an element with the one above it. */
  lemma MoveUpSwaps<T>(s: seq<T>, from: nat)
    requires 1 <= from < |s|
    ensures MoveTo(s, from, from - 1) == s[..from - 1] + [s[from], s[from - 1]] + s[from + 1..]
  {
  }

  /** A move by +2 swaps an element with the one below it. */
  lemma MoveDownSwaps<T>(s: seq<T>, from: nat)
    requires from + 1 < |s|
    ensures MoveTo(s, from, from + 2) == s[..from] + [s[from + 1], s[from]] + s[from + 2..]
  {
  }

  /** The distance a drop moves the dragged element by: from its own index to the target
      gap, when the drag is one of the container's elements and the gap is neither just
      above nor just below it; None when the drop moves nothing. */
  function DropMove(elements: seq<nat>, source: Option<nat>, hasDragFormat: bool, centers: seq<int>, y: int)
    : Option<int>
  {
    if source.Some? && hasDragFormat && source.value in elements then
      var from := IndexOf(elements, source.value).value;
      var to := DropTargetOf(centers, y);
      if from != to && from + 1 != to then Some(to - from) else None
    else None
  }

  /** With the cursor strictly between or beyond distinct element centres, a drop moves
      something exactly when moving the dragged element to the target gap changes the
      order of the elements, and the distance lands it in that gap. */
  lemma DropMoveChangesOrder(elements: seq<nat>, source: Option<nat>, hasDragFormat: bool, centers: seq<int>, y: int)
    requires NoDuplicates(elements) && |centers| == |elements| >= 1
    requires Increasing(centers) && y !in centers
    ensures 0 <= DropTargetOf(centers, y) <= |elements|
    ensures DropMove(elements, source, hasDragFormat, centers, y).Some? <==>
      source.Some? && hasDragFormat && source.value in elements &&
      0 <= DropTargetOf(centers, y) <= |elements| &&
      MoveTo(elements, IndexOf(elements, source.value).value, DropTargetOf(centers, y)) != elements
    ensures DropMove(elements, source, hasDragFormat, centers, y).Some? ==>
      var from := IndexOf(elements, source.value).value;
      from + DropMove(elements, source, hasDragFormat, centers, y).value == DropTargetOf(centers, y)
  {
    DropTargetBetween(centers, y);
    if source.Some? && hasDragFormat && source.value in elements {
      MoveToOwnPlace(elements, IndexOf(elements, source.value).value, DropTargetOf(centers, y));
    }
  }

  // ---------------------------------------------------------------------------
  // The container widget

  class ContainerWidget {
    const base: PropertyWidget
    const category: PropertyCategory
    /** One key per element. */
    var keys: seq<Key>
    /** The elements' group boxes, as identities. */
    var elements: seq<nat>
    /** The identity the next group box gets. */
    var nextId: nat
    /** The element being dragged and the gap it would be dropped into, -1 when none. */
    var dropSource: int
    var dropTarget: int

    ghost predicate Valid()
      reads this
    {
      NoDuplicates(elements) && forall i :: 0 <= i < |elements| ==> elements[i] < nextId
    }

    constructor (base: PropertyWidget, category: PropertyCategory)
      ensures Valid() && this.base == base && this.category == category
      ensures keys == [] && elements == [] && dropSource == -1 && dropTarget == -1
    {
      this.base := base;
      this.category := category;
      keys := [];
      elements := [];
      nextId := 0;
      dropSource := -1;
      dropTarget := -1;
    }

    /** Sets the element keys and returns how many elements the container needs. A map shows
        the keys the first selected object has and every other one has too, sorted; any
        other container shows as many positions as the object with the fewest entries has.
        `keysOf` and `countOf` hold the accessor's answers for each selected object. */
    method GetRequiredElementCount(keysOf: seq<seq<string>>, countOf: seq<int>) returns (n: nat)
      requires category == Map ==> |keysOf| == |base.items| >= 1 && NoDuplicates(keysOf[0])
      requires category != Map ==> |countOf| == |base.items| && forall j :: 0 <= j < |countOf| ==> countOf[j] >= 0
      modifies this`keys
      ensures n == |keys|
      ensures category == Map ==> keys == AsNames(SortKeys(KeepAll(keysOf[0], keysOf[1..])))
      ensures category != Map ==> keys == Positions(n)
      ensures category != Map ==> n <= I32_MAX && forall j :: 0 <= j < |countOf| ==> n <= countOf[j]
      ensures category != Map ==> n == I32_MAX || exists j :: 0 <= j < |countOf| && n == countOf[j]
    {
      if category == Map {
        var kept := SharedKeys(keysOf);
        SortedSharedKeys(kept, keysOf[0], keysOf[1..]);
        keys := AsNames(SortKeys(kept));
        n := |keys|;
      } else {
        var least := FewestEntries(countOf);
        // The entry counts are never negative.
        keys := Positions(least);
        n := least;
      }
    }

    /** Removes the element at `index`, keeping the others in order. */
    method RemoveElement(index: nat)
      requires Valid() && index < |elements|
      modifies this`elements
      ensures Valid()
      ensures elements == old(elements[..index] + elements[index + 1..])
    {
      elements := elements[..index] + elements[index + 1..];
      forall i, j | 0 <= i < j < |elements| ensures elements[i] != elements[j] {
        assert elements[i] == old(elements)[if i < index then i else i + 1];
        assert elements[j] == old(elements)[if j < index then j else j + 1];
      }
    }

    /** Inserts a new element at `index`. */
    method AddElement(index: nat)
      requires Valid() && index <= |elements|
      modifies this`elements, this`nextId
      ensures Valid() && nextId == old(nextId) + 1
      ensures elements == old(elements[..index]) + [old(nextId)] + old(elements[index..])
    {
      elements := elements[..index] + [nextId] + elements[index..];
      nextId := nextId + 1;
      forall i, j | 0 <= i < j < |elements| ensures elements[i] != elements[j] {
        if i != index && j != index {
          assert elements[i] == old(elements)[if i < index then i else i - 1];
          assert elements[j] == old(elements)[if j < index then j else j - 1];
        }
      }
    }

    /** Brings the elements in line with the required count: surplus elements go from the
        end, missing ones are appended, and the elements already there stay. */
    method UpdateElements(keysOf: seq<seq<string>>, countOf: seq<int>)
      requires Valid()
      requires category == Map ==> |keysOf| == |base.items| >= 1 && NoDuplicates(keysOf[0])
      requires category != Map ==> |countOf| == |base.items| && forall j :: 0 <= j < |countOf| ==> countOf[j] >= 0
      modifies this`keys, this`elements, this`nextId
      ensures Valid() && |elements| == |keys|
      ensures category == Map ==> keys == AsNames(SortKeys(KeepAll(keysOf[0], keysOf[1..])))
      ensures category != Map ==> keys == Positions(|keys|)
      ensures |elements| <= |old(elements)| ==> elements == old(elements)[..|elements|]
      ensures |elements| > |old(elements)| ==> elements[..|old(elements)|] == old(elements)
      ensures forall i :: |old(elements)| <= i < |elements| ==> elements[i] >= old(nextId)
    {
      var n := GetRequiredElementCount(keysOf, countOf);
      ghost var required := keys;
      while |elements| > n
        invariant Valid() && keys == required && nextId == old(nextId)
        invariant |elements| >= n || elements == old(elements)
        invariant |elements| <= |old(elements)| && elements == old(elements)[..|elements|]
      {
        RemoveElement(|elements| - 1);
      }
      while |elements| < n
        invariant Valid() && keys == required && |elements| <= n && nextId >= old(nextId)
        invariant |elements| <= |old(elements)| ==> elements == old(elements)[..|elements|]
        invariant |elements| > |old(elements)| ==> elements[..|old(elements)|] == old(elements)
        invariant forall i :: |old(elements)| <= i < |elements| ==> elements[i] >= old(nextId)
      {
        AddElement(|elements|);
      }
    }

    /** Tracks a drag over the container: a drag of one of its own elements sets the
        element's position as drop source and the gap under the cursor as drop target;
        anything else clears both. `source` is the dragged group box, `centers` the
        elements' vertical centres and `y` the cursor's height. */
    method UpdateDropIndex(source: Option<nat>, hasDragFormat: bool, centers: seq<int>, y: int)
      returns (accepted: bool)
      requires |centers| == |elements|
      modifies this`dropSource, this`dropTarget
      ensures accepted <==> source.Some? && hasDragFormat && source.value in elements
      ensures accepted ==>
        dropSource == IndexOf(elements, source.value).value && dropTarget == DropTargetOf(centers, y)
      ensures !accepted ==> dropSource == -1 && dropTarget == -1
    {
      if source.Some? && hasDragFormat {
        var i := 0;
        while i < |elements|
          invariant 0 <= i <= |elements|
          invariant forall j :: 0 <= j < i ==> elements[j] != source.value
        {
          if elements[i] == source.value {
            var target := ClosestDropTarget(centers, y);
            dropSource, dropTarget := i, target;
            return true;
          }
          i := i + 1;
        }
      }
      dropSource, dropTarget := -1, -1;
      return false;
    }

    /** Moves each item's element by `move` in one transaction, skipping items whose target
        lies outside their container; `countOf` gives each container's size. */
    method MoveItems(items: seq<Selection>, move: int, isValueType: bool, countOf: ObjectId -> int,
                     accepts: Command -> bool)
      requires category != Map && Indexed(items)
      modifies base.accessor`commands
      ensures base.accessor.commands ==
        old(base.accessor.commands) + Transaction("Reparent Object", MoveCommands(items, move, isValueType, countOf), accepts, false)
    {
      var cmds := [];
      var j := 0;
      while j < |items|
        invariant 0 <= j <= |items|
        invariant cmds == MoveCommands(items[..j], move, isValueType, countOf)
      {
        assert items[..j + 1][..j] == items[..j];
        if MoveInRange(items[j], move, countOf(items[j].owner)) {
          cmds := cmds + [MoveCommand(items[j], move, isValueType)];
        }
        j := j + 1;
      }
      assert items[..j] == items;
      // The status starts out as a success, so a move of nothing is finished.
      RunTransaction(base.accessor, "Reparent Object", cmds, accepts, false);
    }

    /** Removes each item's element in one transaction. */
    method DeleteItems(items: seq<Selection>, isValueType: bool, accepts: Command -> bool)
      requires Indexed(items)
      modifies base.accessor`commands
      ensures base.accessor.commands ==
        old(base.accessor.commands) + Transaction("Delete Object", DeleteCommands(items, isValueType), accepts, false)
    {
      RunTransaction(base.accessor, "Delete Object", DeleteCommands(items, isValueType), accepts, false);
    }

    /** An element button: up moves by -1, down by +2 (in front of the element after the
        next), delete removes; the help button has its own handler. */
    method OnElementButtonClicked(action: ElementAction, items: seq<Selection>, isValueType: bool,
                                  countOf: ObjectId -> int, accepts: Command -> bool)
      requires Indexed(items)
      requires action == MoveElementUp || action == MoveElementDown ==> category != Map
      modifies base.accessor`commands
      ensures action == MoveElementUp ==>
        base.accessor.commands == old(base.accessor.commands) + Transaction("Reparent Object", MoveCommands(items, -1, isValueType, countOf), accepts, false)
      ensures action == MoveElementDown ==>
        base.accessor.commands == old(base.accessor.commands) + Transaction("Reparent Object", MoveCommands(items, 2, isValueType, countOf), accepts, false)
      ensures action == DeleteElement ==>
        base.accessor.commands == old(base.accessor.commands) + Transaction("Delete Object", DeleteCommands(items, isValueType), accepts, false)
      ensures action == Help ==> base.accessor.commands == old(base.accessor.commands)
    {
      match action
      case MoveElementUp => MoveItems(items, -1, isValueType, countOf, accepts);
      case MoveElementDown => MoveItems(items, 2, isValueType, countOf, accepts);
      case DeleteElement => DeleteItems(items, isValueType, accepts);
      case Help =>
    }

    /** Drops a dragged element: when the drag is one of the container's own elements and the
        target gap is neither just above nor just below it, the dragged element's items move
        by the distance between the two; the drag state is cleared either way. `dragged` is
        the selection of the dragged element's widget. Map entries cannot be moved, so the
        elements of a map container are never dragged onto it. */
    method DropEvent(source: Option<nat>, hasDragFormat: bool, centers: seq<int>, y: int,
                     dragged: seq<Selection>, isValueType: bool, countOf: ObjectId -> int,
                     accepts: Command -> bool)
      requires |centers| == |elements| && Indexed(dragged)
      requires category == Map ==> source.None? || source.value !in elements
      modifies this`dropSource, this`dropTarget, base.accessor`commands
      ensures dropSource == -1 && dropTarget == -1
      ensures match DropMove(elements, source, hasDragFormat, centers, y)
        case Some(distance) =>
          base.accessor.commands == old(base.accessor.commands) +
            Transaction("Reparent Object", MoveCommands(dragged, distance, isValueType, countOf), accepts, false)
        case None => base.accessor.commands == old(base.accessor.commands)
    {
      ghost var move := DropMove(elements, source, hasDragFormat, centers, y);
      var accepted := UpdateDropIndex(source, hasDragFormat, centers, y);
      if accepted && dropSource != dropTarget && dropSource + 1 != dropTarget {
        assert move == Some(dropTarget - dropSource);
        MoveItems(dragged, dropTarget - dropSource, isValueType, countOf, accepts);
      }
      dropSource, dropTarget := -1, -1;
    }
  }
}
