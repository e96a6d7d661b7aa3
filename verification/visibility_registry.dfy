/**
 The issue-visibility registry: one global set of visible section ids and a
 counter that names new sections. Each handle carries the callback it was
 created with; a step reports which callback, if any, it invoked.
 */
module VisibilityRegistry {
  import opened Common

  /** Identifies the `onNoVisibleSections` closure a caller passed in. */
  type CallbackId = nat

  datatype Registry = Registry(visible: set<string>, nextSectionId: nat)

  const InitialRegistry := Registry({}, 0)

  datatype Handle = Handle(id: string, onNoVisibleSections: CallbackId)

  /** The registry after a step, and the callback the step invoked. */
  datatype Step = Step(registry: Registry, fired: Option<CallbackId>)

  datatype Created = Created(registry: Registry, handle: Handle)

  /** The text of the `n`-th section id. */
  function SectionIdText(n: nat): (r: string)
    ensures |r| > |"issue-section-"| && r[..|"issue-section-"|] == "issue-section-"
  {
    "issue-section-" + Decimal(n)
  }

  /** Distinct counters name distinct sections. */
  lemma SectionIdTextInjective(a: nat, b: nat)
    requires SectionIdText(a) == SectionIdText(b)
    ensures a == b
  {
    var p := |"issue-section-"|;
    assert Decimal(a) == SectionIdText(a)[p..];
    assert Decimal(b) == SectionIdText(b)[p..];
    DecimalInjective(a, b);
  }

  /** Pre-increments the counter and names the new section after it. */
  function CreateSectionId(reg: Registry): (r: (Registry, string))
    ensures r.0 == reg.(nextSectionId := reg.nextSectionId + 1)
    ensures forall n :: 0 <= n <= reg.nextSectionId ==> r.1 != SectionIdText(n)
  {
    var next := reg.nextSectionId + 1;
    var id := SectionIdText(next);
    assert forall n :: 0 <= n <= reg.nextSectionId ==> id != SectionIdText(n) by {
      forall n | 0 <= n <= reg.nextSectionId
        ensures id != SectionIdText(n)
      {
        if id == SectionIdText(n) {
          SectionIdTextInjective(next, n);
        }
      }
    }
    (reg.(nextSectionId := next), id)
  }

  function CreateIssueVisibilityHandle(reg: Registry, onNoVisibleSections: CallbackId): (r: Created)
    ensures r.registry.visible == reg.visible
    ensures r.registry.nextSectionId == reg.nextSectionId + 1
    ensures r.handle.id == SectionIdText(r.registry.nextSectionId)
    ensures r.handle.onNoVisibleSections == onNoVisibleSections
  {
    var (reg', id) := CreateSectionId(reg);
    Created(reg', Handle(id, onNoVisibleSections))
  }

  /** Adds the handle's id to the visible set; never invokes a callback. */
  function MarkVisible(reg: Registry, h: Handle): (r: Step)
    ensures r.registry.visible == reg.visible + {h.id}
    ensures r.registry.nextSectionId == reg.nextSectionId
    ensures r.fired == None
  {
    Step(reg.(visible := reg.visible + {h.id}), None)
  }

  /** `maybeReset`: invokes the handle's callback when no section is visible. */
  function MaybeReset(reg: Registry, h: Handle): (r: Step)
    ensures r.registry == reg
    ensures r.fired == Some(h.onNoVisibleSections) <==> reg.visible == {}
    ensures r.fired == None <==> reg.visible != {}
  {
    Step(reg, if |reg.visible| == 0 then Some(h.onNoVisibleSections) else None)
  }

  /**
   Removes the handle's id; only when it was present does it go on to
   `maybeReset`, so the callback fires exactly when this handle was the last
   visible section.
   */
  function MarkHidden(reg: Registry, h: Handle): (r: Step)
    ensures r.registry.visible == reg.visible - {h.id}
    ensures r.registry.nextSectionId == reg.nextSectionId
    ensures r.fired.Some? <==> h.id in reg.visible && reg.visible - {h.id} == {}
    ensures r.fired.Some? ==> r.fired.value == h.onNoVisibleSections
    ensures h.id !in reg.visible ==> r == Step(reg, None)
  {
    if h.id in reg.visible then
      MaybeReset(reg.(visible := reg.visible - {h.id}), h)
    else
      Step(reg, None)
  }

  /** Unmounting a section is the same removal as hiding it. */
  function Destroy(reg: Registry, h: Handle): (r: Step)
    ensures r == MarkHidden(reg, h)
  {
    if h.id in reg.visible then
      MaybeReset(reg.(visible := reg.visible - {h.id}), h)
    else
      Step(reg, None)
  }

  // ---------------------------------------------------------------------------
  // Properties over several handles
  // ---------------------------------------------------------------------------

  /** Creates one handle per callback, in order. */
  function CreateHandles(reg: Registry, callbacks: seq<CallbackId>): (r: (Registry, seq<Handle>))
    ensures |r.1| == |callbacks|
    ensures r.0.visible == reg.visible
    ensures r.0.nextSectionId == reg.nextSectionId + |callbacks|
    ensures forall i :: 0 <= i < |callbacks| ==>
      r.1[i] == Handle(SectionIdText(reg.nextSectionId + i + 1), callbacks[i])
    decreases |callbacks|
  {
    if callbacks == [] then (reg, [])
    else
      var c := CreateIssueVisibilityHandle(reg, callbacks[0]);
      var rest := CreateHandles(c.registry, callbacks[1..]);
      (rest.0, [c.handle] + rest.1)
  }

  /** Handles created one after another carry pairwise distinct ids, new to the registry. */
  lemma CreatedIdsDistinct(reg: Registry, callbacks: seq<CallbackId>)
    ensures var hs := CreateHandles(reg, callbacks).1;
            forall i, j :: 0 <= i < j < |hs| ==> hs[i].id != hs[j].id
    ensures var hs := CreateHandles(reg, callbacks).1;
            forall i, n :: 0 <= i < |hs| && 0 <= n <= reg.nextSectionId ==> hs[i].id != SectionIdText(n)
  {
    forall i, j | 0 <= i < j < |callbacks|
      ensures CreateHandles(reg, callbacks).1[i].id != CreateHandles(reg, callbacks).1[j].id
    {
      CreatedIdsDiffer(reg, callbacks, i, j);
    }
    forall i, n | 0 <= i < |callbacks| && 0 <= n <= reg.nextSectionId
      ensures CreateHandles(reg, callbacks).1[i].id != SectionIdText(n)
    {
      CreatedIdIsNew(reg, callbacks, i, n);
    }
  }

  lemma CreatedIdsDiffer(reg: Registry, callbacks: seq<CallbackId>, i: nat, j: nat)
    requires i < j < |callbacks|
    ensures CreateHandles(reg, callbacks).1[i].id != CreateHandles(reg, callbacks).1[j].id
  {
    var hs := CreateHandles(reg, callbacks).1;
    if hs[i].id == hs[j].id {
      SectionIdTextInjective(reg.nextSectionId + i + 1, reg.nextSectionId + j + 1);
    }
  }

  lemma CreatedIdIsNew(reg: Registry, callbacks: seq<CallbackId>, i: nat, n: nat)
    requires i < |callbacks| && n <= reg.nextSectionId
    ensures CreateHandles(reg, callbacks).1[i].id != SectionIdText(n)
  {
    var hs := CreateHandles(reg, callbacks).1;
    if hs[i].id == SectionIdText(n) {
      SectionIdTextInjective(reg.nextSectionId + i + 1, n);
    }
  }

  /** Marking visible twice is marking visible once. */
  lemma MarkVisibleIdempotent(reg: Registry, h: Handle)
    ensures MarkVisible(MarkVisible(reg, h).registry, h) == MarkVisible(reg, h)
  {
  }

  /** Hiding right after showing leaves the visible set as before when the id was not visible. */
  lemma MarkVisibleThenHidden(reg: Registry, h: Handle)
    requires h.id !in reg.visible
    ensures MarkHidden(MarkVisible(reg, h).registry, h).registry == reg
    ensures MarkHidden(MarkVisible(reg, h).registry, h).fired.Some? <==> reg.visible == {}
  {
    assert reg.visible + {h.id} - {h.id} == reg.visible;
  }

  /**
   Three sections become visible and are hidden one at a time: only the third
   hide invokes a callback, and it is the third section's own.
   */
  lemma ScenarioThreeSections(a: CallbackId, b: CallbackId, c: CallbackId)
    ensures var made := CreateHandles(InitialRegistry, [a, b, c]);
            var h := made.1;
            var s1 := MarkVisible(made.0, h[0]);
            var s2 := MarkVisible(s1.registry, h[1]);
            var s3 := MarkVisible(s2.registry, h[2]);
            var d1 := MarkHidden(s3.registry, h[0]);
            var d2 := MarkHidden(d1.registry, h[1]);
            var d3 := MarkHidden(d2.registry, h[2]);
            && d1.fired == None && d2.fired == None && d3.fired == Some(c)
            && d3.registry.visible == {}
  {
    var made := CreateHandles(InitialRegistry, [a, b, c]);
    CreatedIdsDistinct(InitialRegistry, [a, b, c]);
    var h := made.1;
    assert h[0].id != h[1].id && h[1].id != h[2].id && h[0].id != h[2].id;
    var v := {h[0].id, h[1].id, h[2].id};
    assert v - {h[0].id} == {h[1].id, h[2].id};
    assert v - {h[0].id} - {h[1].id} == {h[2].id};
  }
}
