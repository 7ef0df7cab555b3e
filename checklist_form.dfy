/**
 * One checklist form on the page: its step checkboxes, the progress line
 * injected above them, and the load, change and reset handlers that keep
 * the boxes and localStorage in step.
 */
module ChecklistForm {
  import opened ChecklistStore
  import opened Progress

  class Checklist {
    const listId: string
    const key: string
    /** The data-step key of each checkbox, in document order. */
    const steps: seq<string>
    /** The `checked` state of each checkbox, parallel to steps. */
    const boxes: array<bool>
    const storage: Storage
    /** The text of the progress element. */
    var status: string

    ghost predicate Valid()
      reads this
    {
      boxes.Length == |steps| && key == StorageKey(listId)
    }

    /**
     * Set-up of one form: compute the storage key, inject the progress
     * element, load the saved state and render the progress. `initial`
     * holds the states the markup gave the boxes.
     */
    constructor (listId: string, steps: seq<string>, initial: seq<bool>, storage: Storage)
      requires |initial| == |steps|
      ensures Valid() && fresh(boxes)
      ensures this.listId == listId && this.steps == steps && this.storage == storage
      ensures boxes[..] == LoadedFlags(Parse(Lookup(storage.items, StorageKey(listId))), steps, initial)
      ensures status == StatusText(Count(boxes[..]), |steps|)
    {
      this.listId := listId;
      key := StorageKey(listId);
      this.steps := steps;
      this.storage := storage;
      boxes := new bool[|initial|](i requires 0 <= i < |initial| => initial[i]);
      status := "";
      new;
      assert boxes[..] == initial;
      Load();
      RenderProgress();
    }

    /**
     * The load handler: parse what is stored and tick each box exactly when
     * `!!saved[step]` holds (Truthy). A parse failure, or a stored null whose
     * indexing throws, is caught and leaves every box unchanged.
     */
    method Load()
      requires Valid()
      modifies boxes
      ensures boxes[..] == LoadedFlags(Parse(Lookup(storage.items, key)), steps, old(boxes[..]))
    {
      var raw := storage.GetItem(key);
      match Parse(raw)
      case Threw =>
        // the catch ignores malformed storage
      case Null =>
        // saved[step] throws on the first box; the catch ignores it
      case Object(saved) =>
        var i := 0;
        while i < boxes.Length
          invariant 0 <= i <= boxes.Length
          invariant forall j :: 0 <= j < i ==> boxes[j] == Truthy(saved, steps[j])
        {
          boxes[i] := Truthy(saved, steps[i]);
          i := i + 1;
        }
    }

    /**
     * The user sets box i to `checked` and the change handler runs: it
     * stores safeRead's mapping with only that step replaced, then renders
     * the progress.
     */
    method OnChange(i: nat, checked: bool)
      requires Valid() && i < boxes.Length
      modifies this, boxes, storage
      ensures Valid()
      ensures boxes[..] == old(boxes[..])[i := checked]
      ensures storage.items == old(storage.items)[key := Merge(Lookup(old(storage.items), key), steps[i], checked)]
      ensures status == StatusText(Count(boxes[..]), |steps|)
    {
      boxes[i] := checked;
      var raw := storage.GetItem(key);
      var saved := SafeRead(raw);
      if steps[i] != ProtoKey || steps[i] in saved {
        saved := saved[steps[i] := checked];
      } // otherwise the __proto__ setter ignores the boolean
      storage.SetItem(key, Obj(saved));
      RenderProgress();
    }

    /**
     * The reset button: untick every box, store the empty mapping and
     * render the progress.
     */
    method Reset()
      requires Valid()
      modifies this, boxes, storage
      ensures Valid()
      ensures forall j :: 0 <= j < boxes.Length ==> !boxes[j]
      ensures storage.items == old(storage.items)[key := Cleared]
      ensures status == StatusText(0, |steps|)
    {
      var i := 0;
      while i < boxes.Length
        modifies boxes
        invariant 0 <= i <= boxes.Length
        invariant forall j :: 0 <= j < i ==> !boxes[j]
      {
        boxes[i] := false;
        i := i + 1;
      }
      assert Count(boxes[..]) == 0;
      storage.SetItem(key, Cleared);
      RenderProgress();
    }

    /** renderProgress: "<done> of <total> completed (<pct>%)" for the current boxes. */
    method RenderProgress()
      requires Valid()
      modifies this`status
      ensures status == StatusText(Count(boxes[..]), |steps|)
    {
      var total := boxes.Length;
      var done := CountChecked(boxes);
      status := StatusText(done, total);
    }
  }

  /**
   * Reset followed by a reload of the page whose markup gives the boxes
   * the states `markup`: every box comes back unticked, except one whose
   * step is an inherited name, and with no such step the progress line
   * reads "0 of N completed (0%)".
   */
  method ResetThenReload(form: Checklist, markup: seq<bool>) returns (reloaded: Checklist)
    requires form.Valid() && |markup| == |form.steps|
    modifies form, form.boxes, form.storage
    ensures reloaded.Valid() && reloaded.steps == form.steps
    ensures forall j :: 0 <= j < reloaded.boxes.Length ==>
              (reloaded.boxes[j] <==> form.steps[j] in Inherited)
    ensures (forall j :: 0 <= j < |form.steps| ==> form.steps[j] !in Inherited) ==>
              ParseStatus(reloaded.status) == Reading(0, |form.steps|, 0)
  {
    form.Reset();
    reloaded := new Checklist(form.listId, form.steps, markup, form.storage);
    LoadAfterReset(form.steps, markup);
    PercentEnds(|form.steps|);
  }

  /**
   * A change followed by a reload of the page whose markup gives the boxes
   * the states `markup`: the changed box comes back in the state the user
   * gave it, also for a `__proto__` step already stored as an own key; a
   * `__proto__` step not stored before comes back ticked.
   */
  method ChangeThenReload(form: Checklist, i: nat, checked: bool, markup: seq<bool>) returns (reloaded: Checklist)
    requires form.Valid() && i < form.boxes.Length && |markup| == |form.steps|
    modifies form, form.boxes, form.storage
    ensures reloaded.Valid() && reloaded.steps == form.steps
    ensures form.steps[i] != ProtoKey || ProtoKey in SafeRead(old(Lookup(form.storage.items, form.key))) ==>
              reloaded.boxes[i] == checked
    ensures form.steps[i] == ProtoKey && ProtoKey !in SafeRead(old(Lookup(form.storage.items, form.key))) ==>
              reloaded.boxes[i]
  {
    form.OnChange(i, checked);
    reloaded := new Checklist(form.listId, form.steps, markup, form.storage);
  }
}
