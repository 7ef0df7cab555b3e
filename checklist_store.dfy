/**
 * The persisted side of a checklist: what localStorage holds under a
 * checklist's key, how the page reads it back (the parse inside the load
 * handler, and safeRead), and what the change and reset handlers write.
 */
module ChecklistStore {
  import opened Optional

  /** The text localStorage holds under one key, abstracted from its JSON. */
  datatype Stored =
    | Absent                          // getItem returned null: nothing stored
    | EmptyText                       // the empty string
    | NullText                        // the JSON text "null"
    | Malformed                       // text that JSON.parse rejects
    | Obj(flags: map<string, bool>)   // a JSON object from step key to boolean

  /** Outcome of JSON.parse(getItem(key) || "{}"). */
  datatype Parsed = Threw | Null | Object(fields: map<string, bool>)

  const KeyPrefix: string := "poc-checklist:"

  /** The storage key of a checklist: the prefix, then the list id verbatim. */
  function StorageKey(listId: string): (key: string)
    ensures |key| == |KeyPrefix| + |listId|
    ensures key[..|KeyPrefix|] == KeyPrefix && key[|KeyPrefix|..] == listId
  {
    KeyPrefix + listId
  }

  /** Distinct checklists never share a storage key. */
  lemma StorageKeyInjective(a: string, b: string)
    ensures StorageKey(a) == StorageKey(b) ==> a == b
  {
    if StorageKey(a) == StorageKey(b) {
      assert a == StorageKey(a)[|KeyPrefix|..];
    }
  }

  /** localStorage.getItem: a key never written reads as null. */
  function Lookup(items: map<string, Stored>, key: string): Stored {
    if key in items then items[key] else Absent
  }

  /** JSON.parse applied to the stored text, with a missing or empty text read as "{}". */
  function Parse(raw: Stored): (p: Parsed)
    ensures p.Threw? <==> raw.Malformed?
    ensures p.Null? <==> raw.NullText?
    ensures raw.Absent? || raw.EmptyText? ==> p == Object(map[])
  {
    match raw
    case Absent => Object(map[])
    case EmptyText => Object(map[])
    case NullText => Null
    case Malformed => Threw
    case Obj(m) => Object(m)
  }

  /**
   * safeRead: the stored mapping, or the empty mapping whenever parsing
   * throws or yields null.
   */
  function SafeRead(raw: Stored): (saved: map<string, bool>)
    ensures raw.Obj? ==> saved == raw.flags
    ensures !raw.Obj? ==> saved == map[]
  {
    match Parse(raw)
    case Object(m) => m
    case Threw => map[]
    case Null => map[]
  }

  /** JSON.stringify of a mapping reads back, through safeRead, as that mapping. */
  lemma SerializeRoundTrip(m: map<string, bool>)
    ensures Parse(Obj(m)) == Object(m) && SafeRead(Obj(m)) == m
  {
  }

  /**
   * The names a plain object such as JSON.parse("{}") inherits from
   * Object.prototype. Reading one of them off an object that has no own
   * property of that name yields a function, or for `__proto__` the
   * prototype object itself: in every case a truthy value.
   */
  const Inherited: set<string> := {
    "constructor", "hasOwnProperty", "isPrototypeOf", "propertyIsEnumerable",
    "toLocaleString", "toString", "valueOf", "__proto__",
    "__defineGetter__", "__defineSetter__", "__lookupGetter__", "__lookupSetter__"
  }

  /**
   * The one inherited name that is an accessor: assigning a boolean to it on
   * an object without an own property of that name runs the prototype's
   * setter, which ignores anything but an object or null.
   */
  const ProtoKey: string := "__proto__"

  /**
   * What the change handler writes for one step: the old mapping (via
   * safeRead) with only that step's flag replaced. For the step `__proto__`
   * not stored already, the assignment stores nothing and the old mapping
   * is written back unchanged.
   */
  function Merge(raw: Stored, step: string, checked: bool): (written: Stored)
    ensures written.Obj?
    ensures step != ProtoKey || step in SafeRead(raw) ==>
              step in written.flags && written.flags[step] == checked
    ensures step == ProtoKey && step !in SafeRead(raw) ==> written.flags == SafeRead(raw)
    ensures forall k :: k != step ==> (k in written.flags <==> k in SafeRead(raw))
    ensures forall k :: k != step && k in SafeRead(raw) ==> written.flags[k] == SafeRead(raw)[k]
  {
    var saved := SafeRead(raw);
    if step == ProtoKey && step !in saved then Obj(saved)
    else Obj(saved[step := checked])
  }

  /** What the reset handler writes: JSON.stringify({}). */
  const Cleared: Stored := Obj(map[])

  /**
   * `!!saved[step]`: the stored flag when the step is an own property of
   * the parsed object, and otherwise whether the name is inherited.
   */
  predicate Truthy(saved: map<string, bool>, step: string) {
    if step in saved then saved[step] else step in Inherited
  }

  /**
   * The checkbox states after the load handler, given the parse outcome, the
   * step keys of the boxes and their states before. A parse that throws,
   * and a null whose indexing throws, are swallowed by the catch and leave
   * the boxes as they were.
   */
  function LoadedFlags(parsed: Parsed, steps: seq<string>, prior: seq<bool>): (flags: seq<bool>)
    requires |prior| == |steps|
    ensures |flags| == |steps|
    ensures !parsed.Object? ==> flags == prior
    ensures parsed.Object? ==> forall i :: 0 <= i < |steps| && steps[i] in parsed.fields ==>
              flags[i] == parsed.fields[steps[i]]
    ensures parsed.Object? ==> forall i :: 0 <= i < |steps| && steps[i] !in parsed.fields ==>
              (flags[i] <==> steps[i] in Inherited)
  {
    match parsed
    case Object(saved) => seq(|steps|, i requires 0 <= i < |steps| => Truthy(saved, steps[i]))
    case _ => prior
  }

  /** Stored keys that match no checkbox make no difference to a load. */
  lemma LoadIgnoresUnknownKeys(saved: map<string, bool>, steps: seq<string>, prior: seq<bool>)
    requires |prior| == |steps|
    ensures LoadedFlags(Object(saved), steps, prior)
         == LoadedFlags(Object(map k | k in saved && k in steps :: saved[k]), steps, prior)
  {
  }

  /**
   * Loading what reset wrote unticks every box whose step is not an
   * inherited name, whatever the boxes showed; a box whose step is one
   * comes back ticked.
   */
  lemma LoadAfterReset(steps: seq<string>, prior: seq<bool>)
    requires |prior| == |steps|
    ensures forall i :: 0 <= i < |steps| ==>
              (LoadedFlags(Parse(Cleared), steps, prior)[i] <==> steps[i] in Inherited)
  {
  }

  /** A box whose step is "constructor" comes back ticked after a reset. */
  lemma InheritedStepLoadsTicked()
    ensures LoadedFlags(Parse(Cleared), ["constructor"], [false]) == [true]
  {
  }

  /** One change event: the step key of the box and its new state. */
  datatype Change = Change(step: string, checked: bool)

  /** The stored value after the change handler has run for each change in turn. */
  function Replay(raw: Stored, changes: seq<Change>): (r: Stored)
    ensures changes != [] ==> r.Obj?
    decreases |changes|
  {
    if changes == [] then raw
    else
      var last := changes[|changes| - 1];
      Merge(Replay(raw, changes[..|changes| - 1]), last.step, last.checked)
  }

  /** The value the latest change for step set, if any change touched it. */
  function LastSet(changes: seq<Change>, step: string): (v: Option<bool>)
    ensures v.None? <==> forall j :: 0 <= j < |changes| ==> changes[j].step != step
    ensures v.Some? ==>
              (exists j {:trigger changes[j]} :: 0 <= j < |changes|
                 && changes[j] == Change(step, v.value)
                 && forall j' :: j < j' < |changes| ==> changes[j'].step != step)
    decreases |changes|
  {
    if changes == [] then None
    else if changes[|changes| - 1].step == step then Some(changes[|changes| - 1].checked)
    else
      var init := changes[..|changes| - 1];
      assert forall j :: 0 <= j < |init| ==> init[j] == changes[j];
      LastSet(init, step)
  }

  /**
   * After any sequence of change events, each step holds the value of its
   * latest change, and every step no change touched (known to the page or
   * not) keeps what safeRead found before. The step `__proto__` obeys the
   * first rule only when it was stored to begin with.
   */
  lemma {:induction false} ReplayLastWriteWins(raw: Stored, changes: seq<Change>, k: string)
    ensures LastSet(changes, k).Some? && (k != ProtoKey || k in SafeRead(raw)) ==>
              k in SafeRead(Replay(raw, changes))
              && SafeRead(Replay(raw, changes))[k] == LastSet(changes, k).value
    ensures LastSet(changes, k).None? && changes != [] ==>
              (k in SafeRead(Replay(raw, changes)) <==> k in SafeRead(raw))
              && (k in SafeRead(raw) ==> SafeRead(Replay(raw, changes))[k] == SafeRead(raw)[k])
    decreases |changes|
  {
    if changes != [] {
      var init := changes[..|changes| - 1];
      var last := changes[|changes| - 1];
      ReplayLastWriteWins(raw, init, k);
      if init == [] {
        assert Replay(raw, init) == raw;
      }
    }
  }

  /**
   * A `__proto__` step that was not stored before any change event is not
   * stored after them either: ticking or unticking its box is lost.
   */
  lemma {:induction false} ProtoStepNeverStored(raw: Stored, changes: seq<Change>)
    requires ProtoKey !in SafeRead(raw)
    ensures ProtoKey !in SafeRead(Replay(raw, changes))
    decreases |changes|
  {
    if changes != [] {
      ProtoStepNeverStored(raw, changes[..|changes| - 1]);
    }
  }

  /** Unticking a box whose step is `__proto__` and reloading ticks it again. */
  lemma ProtoStepUntickLost()
    ensures LoadedFlags(Parse(Merge(Absent, ProtoKey, false)), [ProtoKey], [false]) == [true]
  {
  }

  /** Changes to two different steps give the same stored mapping in either order. */
  lemma ChangesCommute(raw: Stored, a: Change, b: Change)
    requires a.step != b.step
    ensures Replay(raw, [a, b]) == Replay(raw, [b, a])
  {
    var m := SafeRead(raw);
    assert [a, b][..1] == [a] && [b, a][..1] == [b];
    assert [a][..0] == [] && [b][..0] == [];
    assert m[a.step := a.checked][b.step := b.checked] == m[b.step := b.checked][a.step := a.checked];
  }

  /**
   * After at least one change event, a fresh load ticks box i exactly when
   * the latest change to its step ticked it, or, with no such change, when
   * the value found before the changes was truthy. A `__proto__` step not
   * stored before is the exception (ProtoStepNeverStored).
   */
  lemma LoadAfterChanges(raw: Stored, changes: seq<Change>, steps: seq<string>, prior: seq<bool>, i: nat)
    requires changes != [] && |prior| == |steps| && i < |steps|
    ensures steps[i] != ProtoKey || steps[i] in SafeRead(raw) ==>
              (LoadedFlags(Parse(Replay(raw, changes)), steps, prior)[i]
               == match LastSet(changes, steps[i])
                  case Some(b) => b
                  case None => Truthy(SafeRead(raw), steps[i]))
  {
    ReplayLastWriteWins(raw, changes, steps[i]);
  }

  /**
   * The handlers as they would read with a prototype-free object
   * (`Object.create(null)`) or an own-property test: a step's flag is its
   * stored value, and absent means unticked.
   */
  predicate OwnTruthy(saved: map<string, bool>, step: string) {
    step in saved && saved[step]
  }

  /** The load handler with OwnTruthy in place of `!!saved[step]`. */
  function LoadedOwnFlags(parsed: Parsed, steps: seq<string>, prior: seq<bool>): (flags: seq<bool>)
    requires |prior| == |steps|
    ensures |flags| == |steps|
    ensures !parsed.Object? ==> flags == prior
    ensures parsed.Object? ==> forall i :: 0 <= i < |steps| ==>
              (flags[i] <==> steps[i] in parsed.fields && parsed.fields[steps[i]])
  {
    match parsed
    case Object(saved) => seq(|steps|, i requires 0 <= i < |steps| => OwnTruthy(saved, steps[i]))
    case _ => prior
  }

  /** The change handler storing the step's flag whatever the step is called. */
  function MergeOwn(raw: Stored, step: string, checked: bool): (written: Stored)
    ensures written.Obj?
    ensures step in written.flags && written.flags[step] == checked
    ensures forall k :: k != step ==> (k in written.flags <==> k in SafeRead(raw))
    ensures forall k :: k != step && k in SafeRead(raw) ==> written.flags[k] == SafeRead(raw)[k]
  {
    Obj(SafeRead(raw)[step := checked])
  }

  /** With own-property reads, loading what reset wrote unticks every box. */
  lemma LoadOwnAfterReset(steps: seq<string>, prior: seq<bool>)
    requires |prior| == |steps|
    ensures LoadedOwnFlags(Parse(Cleared), steps, prior) == seq(|steps|, i => false)
  {
  }

  /** With own-property reads and writes, a changed box reloads as set, whatever its step. */
  lemma LoadOwnAfterChange(raw: Stored, step: string, checked: bool, steps: seq<string>, prior: seq<bool>, i: nat)
    requires |prior| == |steps| && i < |steps| && steps[i] == step
    ensures LoadedOwnFlags(Parse(MergeOwn(raw, step, checked)), steps, prior)[i] == checked
  {
  }

  /**
   * The browser's localStorage as seen by this script: one string-keyed
   * store that every checklist on the page shares.
   */
  class Storage {
    var items: map<string, Stored>

    constructor (items: map<string, Stored>)
      ensures this.items == items
    {
      this.items := items;
    }

    method GetItem(key: string) returns (raw: Stored)
      ensures raw == Lookup(items, key)
      ensures key !in items ==> raw.Absent?
    {
      raw := if key in items then items[key] else Absent;
    }

    /** Writes are assumed to succeed; a quota failure is not modelled. */
    method SetItem(key: string, raw: Stored)
      modifies this
      ensures items == old(items)[key := raw]
      ensures Lookup(items, key) == raw
    {
      items := items[key := raw];
    }
  }
}
