/**
 An independent description of the hover stack. Among the payloads made
 active since the last reset, keep the latest one of each article, oldest
 first, and of those only the `StackLimit` most recent: that is the stack
 every publication carries.
 */
module HoverRecency {
  import opened Common
  import opened HoverImageStore

  // ---------------------------------------------------------------------------
  // The reference
  // ---------------------------------------------------------------------------

  /** The article ids of payloads, in order. */
  function Ids(ps: seq<Payload>): (r: seq<string>)
    ensures |r| == |ps|
    ensures forall i :: 0 <= i < |ps| ==> r[i] == ps[i].articleId
  {
    seq(|ps|, i requires 0 <= i < |ps| => ps[i].articleId)
  }

  /** Every payload shown whose article is not shown again later, in the order shown. */
  function LatestShown(acts: seq<Payload>): seq<Payload> {
    if acts == [] then []
    else (if acts[0].articleId in Ids(acts[1..]) then [] else [acts[0]]) + LatestShown(acts[1..])
  }

  /** The last `n` elements, or all of them when there are fewer. */
  function Last<T>(xs: seq<T>, n: nat): (r: seq<T>)
    ensures |r| == if |xs| > n then n else |xs|
    ensures xs == xs[..|xs| - |r|] + r
  {
    if |xs| > n then xs[|xs| - n..] else xs
  }

  /** The reference stack after the payloads `acts` were shown, in that order. */
  function Recent(acts: seq<Payload>): seq<Payload> {
    Last(LatestShown(acts), StackLimit)
  }

  /** The payloads of other articles than `id`, in order. */
  function DropId(ps: seq<Payload>, id: string): seq<Payload> {
    if ps == [] then []
    else (if ps[0].articleId == id then [] else [ps[0]]) + DropId(ps[1..], id)
  }

  // ---------------------------------------------------------------------------
  // Facts about the reference
  // ---------------------------------------------------------------------------

  /** The latest payloads were all shown. */
  lemma LatestShownMembers(acts: seq<Payload>)
    ensures forall p :: p in LatestShown(acts) ==> p in acts
  {
  }

  /** Dropping an article keeps exactly the other articles' payloads. */
  lemma DropIdMembers(ps: seq<Payload>, id: string)
    ensures forall p :: p in DropId(ps, id) <==> p in ps && p.articleId != id
  {
  }

  lemma IdsAppend(a: seq<Payload>, b: seq<Payload>)
    ensures Ids(a + b) == Ids(a) + Ids(b)
  {
  }

  /** Dropping an article's payloads drops its id from the ids. */
  lemma {:induction false} DropIdIds(ps: seq<Payload>, id: string)
    ensures Ids(DropId(ps, id)) == Without(Ids(ps), id)
    decreases |ps|
  {
    if ps != [] {
      var head := if ps[0].articleId == id then [] else [ps[0]];
      DropIdIds(ps[1..], id);
      IdsAppend(head, DropId(ps[1..], id));
      assert Ids(ps)[1..] == Ids(ps[1..]);
    }
  }

  lemma {:induction false} DropIdAppend(a: seq<Payload>, b: seq<Payload>, id: string)
    ensures DropId(a + b, id) == DropId(a, id) + DropId(b, id)
    decreases |a|
  {
    if a == [] {
      assert a + b == b;
    } else {
      assert (a + b)[1..] == a[1..] + b;
      DropIdAppend(a[1..], b, id);
    }
  }

  /** The latest payloads name each article at most once. */
  lemma {:induction false} LatestShownDistinct(acts: seq<Payload>)
    ensures NoDup(Ids(LatestShown(acts)))
    decreases |acts|
  {
    if acts != [] {
      var head := if acts[0].articleId in Ids(acts[1..]) then [] else [acts[0]];
      var rest := LatestShown(acts[1..]);
      LatestShownDistinct(acts[1..]);
      LatestShownMembers(acts[1..]);
      IdsAppend(head, rest);
      if head != [] {
        forall j | 0 <= j < |rest|
          ensures rest[j].articleId != acts[0].articleId
        {
          assert rest[j] in acts[1..];
          var m :| 0 <= m < |acts[1..]| && acts[1..][m] == rest[j];
          assert Ids(acts[1..])[m] == rest[j].articleId;
        }
      }
    }
  }

  /** Whether the first showing survives is decided the same way once `p` is shown last. */
  lemma HeadStep(a: Payload, t: seq<Payload>, p: Payload)
    ensures DropId(if a.articleId in Ids(t) then [] else [a], p.articleId)
         == if a.articleId in Ids(t + [p]) then [] else [a]
  {
    IdsAppend(t, [p]);
    assert Ids([p]) == [p.articleId];
  }

  /** Showing `p` last moves its article to the end, with `p` as its latest payload. */
  lemma {:induction false} LatestShownAppend(acts: seq<Payload>, p: Payload)
    ensures LatestShown(acts + [p]) == DropId(LatestShown(acts), p.articleId) + [p]
    decreases |acts|
  {
    if acts == [] {
      assert LatestShown([p]) == [p];
    } else {
      var a := acts[0];
      var t := acts[1..];
      assert (acts + [p])[0] == a && (acts + [p])[1..] == t + [p];
      var head := if a.articleId in Ids(t) then [] else [a];
      var head' := if a.articleId in Ids(t + [p]) then [] else [a];
      LatestShownAppend(t, p);
      HeadStep(a, t, p);
      DropIdAppend(head, LatestShown(t), p.articleId);
      assert head' + (DropId(LatestShown(t), p.articleId) + [p])
          == (head' + DropId(LatestShown(t), p.articleId)) + [p];
    }
  }

  lemma NoDupSuffix(a: seq<string>, b: seq<string>)
    requires NoDup(a + b)
    ensures NoDup(b)
  {
    forall i, j | 0 <= i < j < |b|
      ensures b[i] != b[j]
    {
      assert b[i] == (a + b)[|a| + i] && b[j] == (a + b)[|a| + j];
    }
  }

  /** When `b` alone is long enough, what precedes it is cut off. */
  lemma LastOfLong<T>(a: seq<T>, b: seq<T>, n: nat)
    requires |b| >= n
    ensures Last(a + b, n) == Last(b, n)
  {
    assert (a + b)[|a + b| - n..] == b[|b| - n..];
  }

  /** Appending to a sequence at most `n` long pushes out at most its first element. */
  lemma LastAppendOne<T>(w: seq<T>, x: T, n: nat)
    requires 0 < n && |w| <= n
    ensures Last(w + [x], n) == (if |w| + 1 > n then w[1..] else w) + [x]
  {
    if |w| + 1 > n {
      assert (w + [x])[1..] == w[1..] + [x];
    }
  }

  /**
   Appending one element to `a + w` and keeping the last `n`: when `w` is
   nearly `n` long, or nothing precedes it, only `w` matters.
   */
  lemma LastOfJoin<T>(a: seq<T>, w: seq<T>, x: T, n: nat)
    requires 0 < n && |w| <= n
    requires |w| + 1 >= n || a == []
    ensures Last(a + w + [x], n) == (if |w| + 1 > n then w[1..] else w) + [x]
  {
    assert a + w + [x] == a + (w + [x]);
    if |w| + 1 >= n {
      LastOfLong(a, w + [x], n);
    } else {
      assert a + (w + [x]) == w + [x];
    }
    LastAppendOne(w, x, n);
  }

  /** Dropping an article from a repeat-free run loses at most one payload. */
  lemma DropIdLength(t: seq<Payload>, id: string)
    requires NoDup(Ids(t))
    ensures |t| - 1 <= |DropId(t, id)| <= |t|
  {
    DropIdIds(t, id);
    assert |Ids(DropId(t, id))| == |DropId(t, id)|;
  }

  /**
   Truncation commutes with a showing: cutting the whole history to the
   limit after `p` is shown is cutting the previous cut, as `Activated` does.
   */
  lemma LastStep(d: seq<Payload>, id: string, p: Payload)
    requires NoDup(Ids(d))
    ensures var w := DropId(Last(d, StackLimit), id);
      Last(DropId(d, id) + [p], StackLimit) == (if |w| + 1 > StackLimit then w[1..] else w) + [p]
  {
    var t := Last(d, StackLimit);
    var k := |d| - |t|;
    var a := DropId(d[..k], id);
    var w := DropId(t, id);
    DropIdAppend(d[..k], t, id);
    IdsAppend(d[..k], t);
    NoDupSuffix(Ids(d[..k]), Ids(t));
    DropIdLength(t, id);
    assert k == 0 ==> a == [];
    LastOfJoin(a, w, p, StackLimit);
  }

  // ---------------------------------------------------------------------------
  // The store follows the reference
  // ---------------------------------------------------------------------------

  /** The store's order and payloads are those of the reference stack of `acts`. */
  predicate Matches(s: Store, acts: seq<Payload>) {
    var rs := Recent(acts);
    && s.stackOrder == Ids(rs)
    && forall i :: 0 <= i < |rs| ==> rs[i].articleId in s.stackValues && s.stackValues[rs[i].articleId] == rs[i]
  }

  /** A store that follows the reference publishes the reference stack. */
  lemma MatchesStack(s: Store, acts: seq<Payload>)
    requires Matches(s, acts)
    ensures CurrentStack(s.stackOrder, s.stackValues) == Recent(acts)
  {
  }

  /** Cuts the oldest element when appending one more would pass the limit. */
  function Shift<T>(w: seq<T>): (r: seq<T>)
    ensures |w| + 1 > StackLimit ==> |w| > 0 && r == w[1..]
    ensures |w| + 1 <= StackLimit ==> r == w
  {
    if |w| + 1 > StackLimit then w[1..] else w
  }

  lemma ShiftIndex<T>(w: seq<T>, x: T, i: nat)
    requires i < |Shift(w)|
    ensures (Shift(w) + [x])[i] == w[if |w| + 1 > StackLimit then i + 1 else i]
  {
  }

  /** The reference stack after one more showing, from the one before. */
  lemma RecentStep(acts: seq<Payload>, p: Payload)
    ensures NoDup(Ids(Recent(acts)))
    ensures Ids(DropId(Recent(acts), p.articleId)) == Without(Ids(Recent(acts)), p.articleId)
    ensures Recent(acts + [p]) == Shift(DropId(Recent(acts), p.articleId)) + [p]
  {
    var d := LatestShown(acts);
    var t := Recent(acts);
    LatestShownDistinct(acts);
    var k := |d| - |t|;
    IdsAppend(d[..k], t);
    NoDupSuffix(Ids(d[..k]), Ids(t));
    DropIdIds(t, p.articleId);
    LatestShownAppend(acts, p);
    LastStep(d, p.articleId, p);
  }

  lemma ShiftIds(w: seq<Payload>)
    ensures Ids(Shift(w)) == Shift(Ids(w))
  {
  }

  /** An activation, as the store performs it, moves the order as a showing moves the reference. */
  lemma ActivatedOrder(s: Store, r: Store, acts: seq<Payload>, p: Payload)
    requires s.stackOrder == Ids(Recent(acts))
    requires Activated(s, r, p.articleId, p)
    ensures r.stackOrder == Ids(Recent(acts + [p]))
  {
    var w := DropId(Recent(acts), p.articleId);
    RecentStep(acts, p);
    ShiftIds(w);
    IdsAppend(Shift(w), [p]);
    assert Ids([p]) == [p.articleId];
  }

  /** A payload kept by an activation keeps its remembered value. */
  lemma ActivatedKeeps(s: Store, r: Store, id: string, p: Payload, x: string)
    requires NoDup(s.stackOrder) && Activated(s, r, id, p)
    requires x != id && x in s.stackValues
    requires var others := Without(s.stackOrder, id);
      |others| + 1 > StackLimit ==> x != others[0]
    ensures x in r.stackValues && r.stackValues[x] == s.stackValues[x]
  {
  }

  /** A payload of the reference stack that survives a showing keeps its remembered value. */
  lemma ActivatedKeepsShown(s: Store, r: Store, acts: seq<Payload>, p: Payload, j: nat)
    requires Matches(s, acts)
    requires Activated(s, r, p.articleId, p)
    requires j < |DropId(Recent(acts), p.articleId)|
    requires |DropId(Recent(acts), p.articleId)| + 1 > StackLimit ==> j > 0
    ensures var q := DropId(Recent(acts), p.articleId)[j];
      q.articleId in r.stackValues && r.stackValues[q.articleId] == q
  {
    var t := Recent(acts);
    var w := DropId(t, p.articleId);
    var q := w[j];
    RecentStep(acts, p);
    DropIdMembers(t, p.articleId);
    assert q in w;
    var m :| 0 <= m < |t| && t[m] == q;
    assert Ids(w)[j] == q.articleId;
    ActivatedKeeps(s, r, p.articleId, p, q.articleId);
  }

  /** After an activation, the store remembers the `i`-th payload of the new reference stack. */
  lemma ActivatedValueAt(s: Store, r: Store, acts: seq<Payload>, p: Payload, i: nat)
    requires Matches(s, acts)
    requires Activated(s, r, p.articleId, p)
    requires i < |Recent(acts + [p])|
    ensures var q := Recent(acts + [p])[i];
      q.articleId in r.stackValues && r.stackValues[q.articleId] == q
  {
    var w := DropId(Recent(acts), p.articleId);
    RecentStep(acts, p);
    if i < |Shift(w)| {
      ShiftIndex(w, p, i);
      ActivatedKeepsShown(s, r, acts, p, if |w| + 1 > StackLimit then i + 1 else i);
    }
  }

  /** An activation, as the store performs it, remembers what the reference stack holds. */
  lemma ActivatedValues(s: Store, r: Store, acts: seq<Payload>, p: Payload)
    requires Matches(s, acts)
    requires Activated(s, r, p.articleId, p)
    ensures var rs := Recent(acts + [p]);
      forall i :: 0 <= i < |rs| ==> rs[i].articleId in r.stackValues && r.stackValues[rs[i].articleId] == rs[i]
  {
    forall i | 0 <= i < |Recent(acts + [p])|
      ensures Recent(acts + [p])[i].articleId in r.stackValues
      ensures r.stackValues[Recent(acts + [p])[i].articleId] == Recent(acts + [p])[i]
    {
      ActivatedValueAt(s, r, acts, p, i);
    }
  }

  /** An activation, as the store performs it, is a showing in the reference. */
  lemma ActivatedMatches(s: Store, r: Store, acts: seq<Payload>, p: Payload)
    requires Matches(s, acts)
    requires Activated(s, r, p.articleId, p)
    ensures Matches(r, acts + [p])
  {
    ActivatedOrder(s, r, acts, p);
    ActivatedValues(s, r, acts, p);
  }

  /** What the public operations do to the recency bookkeeping, as three cases. */
  lemma OpRecency(s: Store, op: HoverOp)
    requires Valid(s) && WeightsBySource(s.entries)
    ensures var u := ApplyOp(s, op);
      && (u.emitted.Some? ==> u.emitted.value.stack == CurrentStack(u.store.stackOrder, u.store.stackValues))
      && (op.ResetOp? ==> u.store == EmptyStore)
      && (!op.ResetOp? && u.emitted.Some? && u.emitted.value.active.Some? ==>
            Activated(s, u.store, u.emitted.value.active.value.articleId, u.emitted.value.active.value))
      && (!op.ResetOp? && !(u.emitted.Some? && u.emitted.value.active.Some?) ==>
            u.store.stackOrder == s.stackOrder && u.store.stackValues == s.stackValues)
  {
    var u := ApplyOp(s, op);
    if op.ClearOp? && u.emitted.Some? && u.store.entries != [] {
      ApplyOpPreserves(s, op);
      var e := u.store.entries[SelectActive(u.store.entries, None)];
      assert e in u.store.entries;
    }
  }

  /** The reference history after one operation: a reset starts over, a newly active payload is shown. */
  function Next(acts: seq<Payload>, op: HoverOp, u: Update): seq<Payload> {
    if op.ResetOp? then []
    else if u.emitted.Some? && u.emitted.value.active.Some? then acts + [u.emitted.value.active.value]
    else acts
  }

  /** One step keeps the store following the reference. */
  lemma StepMatches(s: Store, acts: seq<Payload>, op: HoverOp)
    requires Valid(s) && WeightsBySource(s.entries) && Matches(s, acts)
    ensures Matches(ApplyOp(s, op).store, Next(acts, op, ApplyOp(s, op)))
    ensures ApplyOp(s, op).emitted.Some? ==>
      ApplyOp(s, op).emitted.value.stack == CurrentStack(ApplyOp(s, op).store.stackOrder, ApplyOp(s, op).store.stackValues)
  {
    var u := ApplyOp(s, op);
    OpRecency(s, op);
    if op.ResetOp? {
      assert Recent([]) == [];
    } else if u.emitted.Some? && u.emitted.value.active.Some? {
      ActivatedMatches(s, u.store, acts, u.emitted.value.active.value);
    }
  }

  /** The reference history at each publication of a run. */
  function Histories(s: Store, acts: seq<Payload>, ops: seq<HoverOp>): seq<seq<Payload>>
    decreases |ops|
  {
    if ops == [] then []
    else
      var u := ApplyOp(s, ops[0]);
      var next := Next(acts, ops[0], u);
      Recorded(u, next) + Histories(u.store, next, ops[1..])
  }

  /** Each published state carries the reference stack of the history beside it. */
  predicate StacksMatch(published: seq<HoverImageState>, histories: seq<seq<Payload>>) {
    && |published| == |histories|
    && forall i :: 0 <= i < |published| ==> published[i].stack == Recent(histories[i])
  }

  lemma StacksMatchAppend(a: seq<HoverImageState>, b: seq<HoverImageState>, c: seq<seq<Payload>>, d: seq<seq<Payload>>)
    requires StacksMatch(a, c) && StacksMatch(b, d)
    ensures StacksMatch(a + b, c + d)
  {
    forall i | 0 <= i < |a + b|
      ensures (a + b)[i].stack == Recent((c + d)[i])
    {
      if i >= |a| {
        assert (a + b)[i] == b[i - |a|] && (c + d)[i] == d[i - |a|];
      }
    }
  }

  /** What one update publishes, and the history recorded beside it. */
  function Published(u: Update): seq<HoverImageState> {
    if u.emitted.Some? then [u.emitted.value] else []
  }

  function Recorded(u: Update, acts: seq<Payload>): seq<seq<Payload>> {
    if u.emitted.Some? then [acts] else []
  }

  /** An update that follows the reference and publishes its current stack publishes the reference stack. */
  lemma PublishesReference(u: Update, acts: seq<Payload>)
    requires Matches(u.store, acts)
    requires u.emitted.Some? ==> u.emitted.value.stack == CurrentStack(u.store.stackOrder, u.store.stackValues)
    ensures StacksMatch(Published(u), Recorded(u, acts))
  {
    MatchesStack(u.store, acts);
  }

  /** Every stack a run publishes is the reference stack of the payloads shown so far. */
  lemma {:induction false} StacksAreRecent(s: Store, acts: seq<Payload>, ops: seq<HoverOp>)
    requires Valid(s) && WeightsBySource(s.entries) && Matches(s, acts)
    ensures StacksMatch(RunHoverOps(s, ops).1, Histories(s, acts, ops))
    decreases |ops|
  {
    if ops != [] {
      var u := ApplyOp(s, ops[0]);
      var next := Next(acts, ops[0], u);
      ApplyOpPreserves(s, ops[0]);
      StepMatches(s, acts, ops[0]);
      PublishesReference(u, next);
      StacksAreRecent(u.store, next, ops[1..]);
      StacksMatchAppend(Published(u), RunHoverOps(u.store, ops[1..]).1, Recorded(u, next), Histories(u.store, next, ops[1..]));
    }
  }

  /** From the empty store, every published stack is the reference stack of the payloads shown so far. */
  lemma PublishedStacksAreRecent(ops: seq<HoverOp>)
    ensures StacksMatch(RunHoverOps(EmptyStore, ops).1, Histories(EmptyStore, [], ops))
  {
    EmptyStoreValid();
    assert Recent([]) == [];
    StacksAreRecent(EmptyStore, [], ops);
  }
}
