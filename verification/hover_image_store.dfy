/**
 The hover-image store. It keeps three pieces of state:
 - weighted entries, keyed by source and article id, in the insertion order of a JS `Map`;
 - a most-recently-shown order of article ids, without repeats and at most `StackLimit` long;
 - the payload last shown for each article.
 Every public operation returns the new store and the state it published, if any.
 */
module HoverImageStore {
  import opened Common

  const StackLimit: nat := 12

  datatype Source = Viewport | Pointer

  /** Entry weights: a viewport's finite intersection ratio, or `+Infinity` for the pointer. */
  datatype Weight = Finite(r: real) | PosInf

  /** `a > b` on the weights that occur. */
  predicate Greater(a: Weight, b: Weight) {
    match (a, b)
    case (PosInf, Finite(_)) => true
    case (Finite(x), Finite(y)) => x > y
    case _ => false
  }

  /** An intersection ratio as the observer reports it; `NonFinite` is NaN or an infinity. */
  datatype Ratio = FiniteRatio(r: real) | NonFinite

  /** The fields of an article the store reads; an absent string field is "". */
  datatype Cover = Cover(url: string, scale: string, alt: string)
  datatype Article = Article(id: string, title: string, scale: string, cover: Option<Cover>)

  datatype Payload = Payload(articleId: string, scale: string, src: string, alt: string, title: string)

  datatype Entry = Entry(articleId: string, weight: Weight, source: Source, payload: Payload)

  /** The map key `${source}:${articleId}`. */
  datatype Key = Key(source: Source, articleId: string)

  function KeyOf(e: Entry): Key {
    Key(e.source, e.articleId)
  }

  function SourceName(src: Source): string {
    match src
    case Viewport => "viewport"
    case Pointer => "pointer"
  }

  /** The key as the text the `Map` is keyed by. */
  function KeyText(k: Key): string {
    SourceName(k.source) + ":" + k.articleId
  }

  /** Two keys have the same text only when they are the same key, so the pair models the text faithfully. */
  lemma KeyTextInjective(a: Key, b: Key)
    ensures KeyText(a) == KeyText(b) ==> a == b
  {
    if KeyText(a) == KeyText(b) {
      assert KeyText(a)[0] == SourceName(a.source)[0];
      assert KeyText(b)[0] == SourceName(b.source)[0];
      var n := |SourceName(a.source) + ":"|;
      assert a.articleId == KeyText(a)[n..];
      assert b.articleId == KeyText(b)[n..];
    }
  }

  /** `text.startsWith(prefix)` */
  predicate StartsWith(text: string, prefix: string) {
    |prefix| <= |text| && text[..|prefix|] == prefix
  }

  /** A key's text starts with `pointer:` exactly when it is a pointer key. */
  lemma PointerKeyText(k: Key)
    ensures StartsWith(KeyText(k), "pointer:") <==> k.source == Pointer
  {
    if k.source == Viewport {
      assert KeyText(k)[0] == 'v';
    } else {
      assert KeyText(k)[..8] == "pointer:";
    }
  }

  /** The published value. */
  datatype HoverImageState = HoverImageState(active: Option<Payload>, stack: seq<Payload>)

  const InitialState := HoverImageState(None, [])

  datatype Store = Store(entries: seq<Entry>, stackOrder: seq<string>, stackValues: map<string, Payload>)

  const EmptyStore := Store([], [], map[])

  /** The store after an operation and the value it published, if it published one. */
  datatype Update = Update(store: Store, emitted: Option<HoverImageState>)

  /** JavaScript `a || b` on strings: the empty string is falsy. */
  function Or(a: string, b: string): (r: string)
    ensures a != "" ==> r == a
    ensures a == "" ==> r == b
  {
    if a != "" then a else b
  }

  // ---------------------------------------------------------------------------
  // Entries
  // ---------------------------------------------------------------------------

  /** Builds an entry; an article without an id or without a cover url yields none. */
  function ToEntry(article: Article, weight: Weight, source: Source): (r: Option<Entry>)
    ensures r.None? <==> article.id == "" || article.cover.None? || article.cover.value.url == ""
    ensures r.Some? ==>
      && r.value.articleId == article.id
      && r.value.weight == weight
      && r.value.source == source
      && r.value.payload.articleId == article.id
      && r.value.payload.src == article.cover.value.url
      && r.value.payload.scale == Or(article.scale, Or(article.cover.value.scale, "medium"))
      && r.value.payload.alt == Or(article.cover.value.alt, Or(article.title, "Article cover"))
      && r.value.payload.title == Or(article.title, "Untitled")
  {
    if article.id == "" || article.cover.None? || article.cover.value.url == "" then None
    else
      var cover := article.cover.value;
      var scale := Or(article.scale, Or(cover.scale, "medium"));
      Some(Entry(article.id, weight, source,
        Payload(article.id, scale, cover.url, Or(cover.alt, Or(article.title, "Article cover")),
                Or(article.title, "Untitled"))))
  }

  /** No two entries share a key, as in a `Map`. */
  predicate UniqueKeys(es: seq<Entry>) {
    forall i, j :: 0 <= i < j < |es| ==> KeyOf(es[i]) != KeyOf(es[j])
  }

  /** Where `k` sits in insertion order. */
  function IndexOfKey(es: seq<Entry>, k: Key): (r: Option<nat>)
    ensures r.Some? ==> r.value < |es| && KeyOf(es[r.value]) == k
    ensures r.None? ==> forall j :: 0 <= j < |es| ==> KeyOf(es[j]) != k
  {
    if es == [] then None
    else if KeyOf(es[0]) == k then Some(0)
    else match IndexOfKey(es[1..], k)
      case Some(i) => Some(i + 1)
      case None => None
  }

  predicate HasKey(es: seq<Entry>, k: Key) {
    exists j :: 0 <= j < |es| && KeyOf(es[j]) == k
  }

  /** `entries.set(key, e)`: replaces in place when the key exists, otherwise appends. */
  function Put(es: seq<Entry>, e: Entry): (r: seq<Entry>)
    ensures UniqueKeys(es) ==> UniqueKeys(r)
    ensures UniqueKeys(es) && HasKey(es, KeyOf(e)) ==>
      |r| == |es| && forall j :: 0 <= j < |es| ==> r[j] == (if KeyOf(es[j]) == KeyOf(e) then e else es[j])
    ensures !HasKey(es, KeyOf(e)) ==> r == es + [e]
    ensures HasKey(r, KeyOf(e)) && e in r
    ensures forall x :: x in r ==> x in es || x == e
    ensures forall x :: x in es && KeyOf(x) != KeyOf(e) ==> x in r
  {
    match IndexOfKey(es, KeyOf(e))
    case Some(i) =>
      var r := es[i := e];
      assert forall j :: 0 <= j < |es| && j != i ==> r[j] == es[j];
      assert KeyOf(r[i]) == KeyOf(e);
      r
    case None =>
      var r := es + [e];
      assert KeyOf(r[|es|]) == KeyOf(e);
      r
  }

  /** `entries.delete(key)`: removes the entry with that key, keeping the others' order. */
  function RemoveKey(es: seq<Entry>, k: Key): (r: seq<Entry>)
    ensures UniqueKeys(es) ==> UniqueKeys(r) && !HasKey(r, k)
    ensures !HasKey(es, k) ==> r == es
    ensures |r| <= |es|
    ensures forall e :: e in r ==> e in es
    ensures forall e :: e in es && KeyOf(e) != k ==> e in r
    ensures forall k' :: !HasKey(es, k') ==> !HasKey(r, k')
    ensures forall k' :: k' != k && HasKey(es, k') ==> HasKey(r, k')
    ensures UniqueKeys(es) ==> forall i :: 0 <= i < |es| && KeyOf(es[i]) == k ==> r == es[..i] + es[i + 1..]
  {
    match IndexOfKey(es, k)
    case Some(i) =>
      RemoveAtMembers(es, i);
      RemoveAtKeys(es, i);
      es[..i] + es[i + 1..]
    case None => es
  }

  /** Removing position `i` keeps the other entries and brings in none. */
  lemma RemoveAtMembers(es: seq<Entry>, i: nat)
    requires i < |es|
    ensures var r := es[..i] + es[i + 1..];
      && |r| == |es| - 1
      && (forall e :: e in r ==> e in es)
      && (forall e :: e in es && KeyOf(e) != KeyOf(es[i]) ==> e in r)
  {
    var r := es[..i] + es[i + 1..];
    assert forall j :: 0 <= j < |r| ==> r[j] == (if j < i then es[j] else es[j + 1]);
    forall e | e in es && KeyOf(e) != KeyOf(es[i])
      ensures e in r
    {
      var j :| 0 <= j < |es| && es[j] == e;
      assert r[if j < i then j else j - 1] == e;
    }
  }

  /** Removing position `i` removes its key from a proper map and keeps every other key. */
  lemma RemoveAtKeys(es: seq<Entry>, i: nat)
    requires i < |es|
    ensures var r := es[..i] + es[i + 1..];
      && (UniqueKeys(es) ==> UniqueKeys(r) && !HasKey(r, KeyOf(es[i])))
      && (forall k' :: !HasKey(es, k') ==> !HasKey(r, k'))
      && (forall k' :: k' != KeyOf(es[i]) && HasKey(es, k') ==> HasKey(r, k'))
      && (UniqueKeys(es) ==> forall j :: 0 <= j < |es| && KeyOf(es[j]) == KeyOf(es[i]) ==> j == i)
  {
    var r := es[..i] + es[i + 1..];
    assert forall j :: 0 <= j < |r| ==> r[j] == (if j < i then es[j] else es[j + 1]);
    forall k' | k' != KeyOf(es[i]) && HasKey(es, k')
      ensures HasKey(r, k')
    {
      var j :| 0 <= j < |es| && KeyOf(es[j]) == k';
      assert KeyOf(r[if j < i then j else j - 1]) == k';
    }
  }

  /** Some entry comes from the pointer. */
  predicate HasPointerEntries(es: seq<Entry>) {
    exists e :: e in es && e.source == Pointer
  }

  /** The source's test: some key's text starts with `pointer:`. */
  lemma HasPointerEntriesByText(es: seq<Entry>)
    ensures HasPointerEntries(es) <==> exists j :: 0 <= j < |es| && StartsWith(KeyText(KeyOf(es[j])), "pointer:")
  {
    forall j | 0 <= j < |es|
      ensures StartsWith(KeyText(KeyOf(es[j])), "pointer:") <==> es[j].source == Pointer
    {
      PointerKeyText(KeyOf(es[j]));
    }
    if HasPointerEntries(es) {
      var e :| e in es && e.source == Pointer;
      var j :| 0 <= j < |es| && es[j] == e;
    }
  }

  /** Some other article than `id` has a pointer entry. */
  predicate PointerElsewhere(es: seq<Entry>, id: string) {
    exists e :: e in es && e.source == Pointer && e.articleId != id
  }

  // ---------------------------------------------------------------------------
  // Choosing the active entry
  // ---------------------------------------------------------------------------

  /** Weights are totally ordered by `Greater`: not-greater chains with greater. */
  lemma GreaterChain(a: Weight, b: Weight, c: Weight)
    ensures !Greater(a, b) && Greater(c, b) ==> Greater(c, a)
    ensures Greater(a, b) ==> !Greater(b, a)
  {
  }

  /**
   The loop `if (!best || entry.weight > best.weight) best = entry` from
   position `i` on, with `best` the winner among the first `i` entries.
   */
  function BestFrom(es: seq<Entry>, i: nat, best: nat): (k: nat)
    requires best < i <= |es|
    requires forall j :: 0 <= j < i ==> !Greater(es[j].weight, es[best].weight)
    requires forall j :: 0 <= j < best ==> Greater(es[best].weight, es[j].weight)
    ensures k < |es|
    ensures forall j :: 0 <= j < |es| ==> !Greater(es[j].weight, es[k].weight)
    ensures forall j :: 0 <= j < k ==> Greater(es[k].weight, es[j].weight)
    decreases |es| - i
  {
    if i == |es| then best
    else if Greater(es[i].weight, es[best].weight) then
      assert forall j :: 0 <= j < i ==> Greater(es[i].weight, es[j].weight) by {
        forall j | 0 <= j < i
          ensures Greater(es[i].weight, es[j].weight)
        {
          GreaterChain(es[j].weight, es[best].weight, es[i].weight);
        }
      }
      BestFrom(es, i + 1, i)
    else
      BestFrom(es, i + 1, best)
  }

  /** The first entry, in insertion order, of maximal weight. */
  function BestIndex(es: seq<Entry>): (k: nat)
    requires es != []
    ensures k < |es|
    ensures forall j :: 0 <= j < |es| ==> !Greater(es[j].weight, es[k].weight)
    ensures forall j :: 0 <= j < k ==> Greater(es[k].weight, es[j].weight)
  {
    BestFrom(es, 1, 0)
  }

  /** `[...entries.values()].find((e) => e.articleId === id)` */
  function FindArticle(es: seq<Entry>, id: string): (r: Option<nat>)
    ensures r.Some? ==> r.value < |es| && es[r.value].articleId == id
                        && forall j :: 0 <= j < r.value ==> es[j].articleId != id
    ensures r.None? ==> forall j :: 0 <= j < |es| ==> es[j].articleId != id
  {
    if es == [] then None
    else if es[0].articleId == id then Some(0)
    else match FindArticle(es[1..], id)
      case Some(i) => Some(i + 1)
      case None => None
  }

  /** A preferred id is honoured when it is truthy (non-empty). */
  predicate Preferring(preferred: Option<string>) {
    preferred.Some? && preferred.value != ""
  }

  /**
   The active entry: the first entry for the preferred article when one is
   asked for and present, otherwise the first entry of maximal weight.
   */
  function SelectActive(es: seq<Entry>, preferred: Option<string>): (k: nat)
    requires es != []
    ensures k < |es|
    ensures Preferring(preferred) && FindArticle(es, preferred.value).Some? ==>
      es[k].articleId == preferred.value && forall j :: 0 <= j < k ==> es[j].articleId != preferred.value
    ensures !(Preferring(preferred) && FindArticle(es, preferred.value).Some?) ==>
      && (forall j :: 0 <= j < |es| ==> !Greater(es[j].weight, es[k].weight))
      && (forall j :: 0 <= j < k ==> Greater(es[k].weight, es[j].weight))
  {
    var best := BestIndex(es);
    if Preferring(preferred) then
      match FindArticle(es, preferred.value)
      case Some(i) => i
      case None => best
    else best
  }

  // ---------------------------------------------------------------------------
  // The recency order
  // ---------------------------------------------------------------------------

  lemma NoDupTail<T>(xs: seq<T>)
    requires xs != []
    ensures NoDup(xs) ==> NoDup(xs[1..]) && xs[0] !in xs[1..]
  {
  }

  /** The sequence without any occurrence of `x`, others in their order. */
  function Without(xs: seq<string>, x: string): (r: seq<string>)
    ensures |r| <= |xs|
    ensures forall y :: y in r <==> y in xs && y != x
    ensures x !in xs ==> r == xs
    ensures NoDup(xs) ==> NoDup(r)
    ensures x in xs && NoDup(xs) ==> |r| == |xs| - 1
  {
    if xs == [] then []
    else
      var rest := Without(xs[1..], x);
      NoDupTail(xs);
      if xs[0] == x then rest else [xs[0]] + rest
  }

  /** `stackOrder.splice(stackOrder.indexOf(x), 1)` when `x` occurs. */
  function RemoveFirst(xs: seq<string>, x: string): (r: seq<string>)
    ensures NoDup(xs) ==> r == Without(xs, x)
  {
    if xs == [] then []
    else if xs[0] == x then
      NoDupTail(xs);
      xs[1..]
    else
      NoDupTail(xs);
      [xs[0]] + RemoveFirst(xs[1..], x)
  }

  /**
   `ensureOrder`: moves `id` to the most recent end, keeping the others in
   order; when that overflows the limit, the oldest id is dropped and its
   payload forgotten.
   */
  function EnsureOrder(order: seq<string>, values: map<string, Payload>, id: string): (r: (seq<string>, map<string, Payload>))
    ensures |r.0| > 0 && r.0[|r.0| - 1] == id
    ensures NoDup(order) ==>
      var others := Without(order, id);
      var overflow := |others| + 1 > StackLimit;
      && r.0 == (if overflow then others[1..] else others) + [id]
      && r.1 == (if overflow && others[0] != "" then values - {others[0]} else values)
    ensures NoDup(order) && |order| <= StackLimit ==> NoDup(r.0) && |r.0| <= StackLimit
  {
    var moved := RemoveFirst(order, id) + [id];
    if |moved| > StackLimit then
      var evicted := moved[0];
      (moved[1..], if evicted != "" then values - {evicted} else values)
    else
      (moved, values)
  }

  /** The payloads of the ordered ids that still have one. */
  function CurrentStack(order: seq<string>, values: map<string, Payload>): (r: seq<Payload>)
    ensures |r| <= |order|
    ensures forall p :: p in r ==> exists j :: 0 <= j < |order| && order[j] in values && values[order[j]] == p
    ensures (forall j :: 0 <= j < |order| ==> order[j] in values) ==>
      |r| == |order| && forall j :: 0 <= j < |order| ==> r[j] == values[order[j]]
  {
    if order == [] then []
    else
      var rest := CurrentStack(order[1..], values);
      StackTailWitnesses(order, values, rest);
      var head := if order[0] in values then [values[order[0]]] else [];
      head + rest
  }

  /** The stack of a joined order is the joined stacks: ids are filtered one by one. */
  lemma {:induction false} CurrentStackAppend(xs: seq<string>, ys: seq<string>, values: map<string, Payload>)
    ensures CurrentStack(xs + ys, values) == CurrentStack(xs, values) + CurrentStack(ys, values)
    decreases |xs|
  {
    if xs != [] {
      var head := if xs[0] in values then [values[xs[0]]] else [];
      assert (xs + ys)[0] == xs[0];
      assert (xs + ys)[1..] == xs[1..] + ys;
      assert CurrentStack(xs + ys, values) == head + CurrentStack(xs[1..] + ys, values);
      assert CurrentStack(xs, values) == head + CurrentStack(xs[1..], values);
      CurrentStackAppend(xs[1..], ys, values);
      assert head + (CurrentStack(xs[1..], values) + CurrentStack(ys, values))
          == (head + CurrentStack(xs[1..], values)) + CurrentStack(ys, values);
    } else {
      assert xs + ys == ys;
    }
  }

  /** A single id contributes its payload when it has one, and nothing otherwise. */
  lemma CurrentStackSingle(id: string, values: map<string, Payload>)
    ensures CurrentStack([id], values) == if id in values then [values[id]] else []
  {
  }

  /** A payload drawn from the tail of the order is drawn from the order. */
  lemma StackTailWitnesses(order: seq<string>, values: map<string, Payload>, rest: seq<Payload>)
    requires order != []
    requires forall p :: p in rest ==> exists j :: 0 <= j < |order[1..]| && order[1..][j] in values && values[order[1..][j]] == p
    ensures forall p :: p in rest ==> exists j :: 0 <= j < |order| && order[j] in values && values[order[j]] == p
  {
    forall p | p in rest
      ensures exists j :: 0 <= j < |order| && order[j] in values && values[order[j]] == p
    {
      var j :| 0 <= j < |order[1..]| && order[1..][j] in values && values[order[1..][j]] == p;
      assert order[j + 1] == order[1..][j];
    }
  }

  // ---------------------------------------------------------------------------
  // Operations
  // ---------------------------------------------------------------------------

  /**
   The store's own invariant: a proper map of entries, and a bounded,
   repeat-free order whose every id has a remembered payload.
   */
  predicate Valid(s: Store) {
    && UniqueKeys(s.entries)
    && (forall e :: e in s.entries ==> e.payload.articleId == e.articleId)
    && NoDup(s.stackOrder)
    && |s.stackOrder| <= StackLimit
    && (forall id :: id in s.stackOrder ==> id in s.stackValues)
  }

  /** On a valid store the published stack is exactly the remembered payloads, most recent last. */
  lemma ValidStack(s: Store)
    requires Valid(s)
    ensures |CurrentStack(s.stackOrder, s.stackValues)| == |s.stackOrder|
    ensures forall j :: 0 <= j < |s.stackOrder| ==>
      CurrentStack(s.stackOrder, s.stackValues)[j] == s.stackValues[s.stackOrder[j]]
  {
    assert forall j :: 0 <= j < |s.stackOrder| ==> s.stackOrder[j] in s.stackOrder;
  }

  /**
   The recency bookkeeping after `id` is shown with payload `p`: `id` moves
   to the recent end of the order, keeping the others in order; past
   `StackLimit` the oldest id is dropped and, when non-empty, its payload
   forgotten; and `p` is remembered for `id`.
   */
  predicate Activated(before: Store, after: Store, id: string, p: Payload) {
    NoDup(before.stackOrder) ==>
      var others := Without(before.stackOrder, id);
      var overflow := |others| + 1 > StackLimit;
      && after.stackOrder == (if overflow then others[1..] else others) + [id]
      && after.stackValues == (if overflow && others[0] != "" then before.stackValues - {others[0]} else before.stackValues)[id := p]
  }

  /** Writing `id` twice keeps only the last write, also around removing another key. */
  lemma MapOverwrite(m: map<string, Payload>, x: string, id: string, v: Payload, p: Payload)
    requires x != id
    ensures (m[id := v] - {x})[id := p] == (m - {x})[id := p]
  {
  }

  /** The payload remembered for `id` just before it is shown again does not matter. */
  lemma ActivatedOverwrites(s: Store, s1: Store, r: Store, id: string, v: Payload, p: Payload)
    requires s1.stackOrder == s.stackOrder && s1.stackValues == s.stackValues[id := v]
    requires Activated(s1, r, id, p)
    ensures Activated(s, r, id, p)
  {
    if NoDup(s.stackOrder) {
      var others := Without(s.stackOrder, id);
      if |others| + 1 > StackLimit && others[0] != "" {
        assert others[0] in others;
        MapOverwrite(s.stackValues, others[0], id, v, p);
      }
    }
  }

  /**
   Publishes the active payload and the stack. With no entries nothing is
   active and the order is untouched; otherwise the active entry becomes the
   most recent in the order and its payload is remembered.
   */
  function Emit(s: Store, preferred: Option<string>): (r: Update)
    ensures r.emitted.Some?
    ensures r.store.entries == s.entries
    ensures s.entries == [] ==>
      r == Update(s, Some(HoverImageState(None, CurrentStack(s.stackOrder, s.stackValues))))
    ensures s.entries != [] ==>
      var e := s.entries[SelectActive(s.entries, preferred)];
      && r.emitted.value.active == Some(e.payload)
      && |r.store.stackOrder| > 0 && r.store.stackOrder[|r.store.stackOrder| - 1] == e.articleId
      && e.articleId in r.store.stackValues && r.store.stackValues[e.articleId] == e.payload
      && r.emitted.value.stack == CurrentStack(r.store.stackOrder, r.store.stackValues)
    ensures s.entries != [] ==>
      var e := s.entries[SelectActive(s.entries, preferred)];
      Activated(s, r.store, e.articleId, e.payload)
    ensures Valid(s) ==> Valid(r.store) && |r.emitted.value.stack| <= StackLimit
  {
    if s.entries == [] then
      Update(s, Some(HoverImageState(None, CurrentStack(s.stackOrder, s.stackValues))))
    else
      var e := s.entries[SelectActive(s.entries, preferred)];
      var (order, values) := EnsureOrder(s.stackOrder, s.stackValues, e.articleId);
      var values' := values[e.articleId := e.payload];
      EnsureOrderKeepsValid(s, e.articleId, e.payload);
      Update(s.(stackOrder := order, stackValues := values'),
             Some(HoverImageState(Some(e.payload), CurrentStack(order, values'))))
  }

  /** Moving an id to the recent end and remembering its payload keeps the order part of `Valid`. */
  lemma EnsureOrderKeepsValid(s: Store, id: string, p: Payload)
    ensures Valid(s) ==>
      Valid(s.(stackOrder := EnsureOrder(s.stackOrder, s.stackValues, id).0,
               stackValues := EnsureOrder(s.stackOrder, s.stackValues, id).1[id := p]))
  {
    if Valid(s) {
      var order := EnsureOrder(s.stackOrder, s.stackValues, id).0;
      var values := EnsureOrder(s.stackOrder, s.stackValues, id).1;
      var others := Without(s.stackOrder, id);
      forall x | x in order
        ensures x in values[id := p]
      {
        if x != id {
          if |others| + 1 > StackLimit {
            assert x in others[1..];
            var j :| 1 <= j < |others| && others[j] == x;
            assert others[0] != x;
          }
        }
      }
    }
  }

  /** Recording an entry whose payload names its article keeps a store valid. */
  lemma PutKeepsValid(s: Store, e: Entry)
    requires e.payload.articleId == e.articleId
    ensures Valid(s) ==> Valid(s.(entries := Put(s.entries, e), stackValues := s.stackValues[e.articleId := e.payload]))
  {
  }

  /**
   Records an entry for the article and publishes with that article
   preferred; an article without id or cover url changes nothing.
   */
  function Upsert(s: Store, article: Article, weight: Weight, source: Source): (r: Update)
    ensures ToEntry(article, weight, source).None? ==> r == Update(s, None)
    ensures ToEntry(article, weight, source).Some? ==>
      && r.emitted.Some?
      && r.emitted.value.active.Some?
      && (Valid(s) ==> r.emitted.value.active.value.articleId == article.id)
      && r.store.entries == Put(s.entries, ToEntry(article, weight, source).value)
      && ToEntry(article, weight, source).value in r.store.entries
      && |r.store.stackOrder| > 0
      && (Valid(s) ==> r.store.stackOrder[|r.store.stackOrder| - 1] == article.id)
      && r.emitted.value.stack == CurrentStack(r.store.stackOrder, r.store.stackValues)
      && (Valid(s) ==> Activated(s, r.store, article.id, r.emitted.value.active.value))
      && FindArticle(r.store.entries, article.id).Some?
      && r.emitted.value.active == Some(r.store.entries[FindArticle(r.store.entries, article.id).value].payload)
    ensures Valid(s) ==> Valid(r.store)
    ensures r.emitted.Some? && Valid(s) ==> |r.emitted.value.stack| <= StackLimit
  {
    match ToEntry(article, weight, source)
    case None => Update(s, None)
    case Some(e) =>
      var entries := Put(s.entries, e);
      var s1 := s.(entries := entries, stackValues := s.stackValues[e.articleId := e.payload]);
      assert FindArticle(entries, e.articleId).Some?;
      PutKeepsValid(s, e);
      var r := Emit(s1, Some(e.articleId));
      ActivatedOverwrites(s, s1, r.store, e.articleId, e.payload, r.emitted.value.active.value);
      r
  }

  /** The weight a viewport ratio gets: the ratio itself, or 0 when it is not finite. */
  function ViewportWeight(ratio: Ratio): (w: Weight)
    ensures w.Finite?
    ensures ratio.FiniteRatio? ==> w.r == ratio.r
    ensures ratio.NonFinite? ==> w.r == 0.0
  {
    match ratio
    case FiniteRatio(x) => Finite(x)
    case NonFinite => Finite(0.0)
  }

  /** A viewport report: records the entry weighed by the ratio and publishes with the article preferred. */
  function SetFromViewport(s: Store, article: Article, ratio: Ratio): (r: Update)
    ensures ToEntry(article, Finite(0.0), Viewport).None? ==> r == Update(s, None)
    ensures ToEntry(article, Finite(0.0), Viewport).Some? ==>
      && ToEntry(article, ViewportWeight(ratio), Viewport).value in r.store.entries
      && r.emitted.Some? && r.emitted.value.active.Some?
      && (Valid(s) ==> r.emitted.value.active.value.articleId == article.id)
      && |r.store.stackOrder| > 0
      && (Valid(s) ==> r.store.stackOrder[|r.store.stackOrder| - 1] == article.id)
      && r.emitted.value.stack == CurrentStack(r.store.stackOrder, r.store.stackValues)
      && (Valid(s) ==> Activated(s, r.store, article.id, r.emitted.value.active.value))
      && r.store.entries == Put(s.entries, ToEntry(article, ViewportWeight(ratio), Viewport).value)
    ensures forall e :: e in s.entries && KeyOf(e) != Key(Viewport, article.id) ==> e in r.store.entries
    ensures Valid(s) ==> Valid(r.store)
  {
    Upsert(s, article, ViewportWeight(ratio), Viewport)
  }

  /** A pointer hover: records an entry of weight `+Infinity` and publishes with the article preferred. */
  function SetFromPointer(s: Store, article: Article): (r: Update)
    ensures ToEntry(article, PosInf, Pointer).None? ==> r == Update(s, None)
    ensures ToEntry(article, PosInf, Pointer).Some? ==>
      && ToEntry(article, PosInf, Pointer).value in r.store.entries
      && r.emitted.Some? && r.emitted.value.active.Some?
      && (Valid(s) ==> r.emitted.value.active.value.articleId == article.id)
      && |r.store.stackOrder| > 0
      && (Valid(s) ==> r.store.stackOrder[|r.store.stackOrder| - 1] == article.id)
      && r.emitted.value.stack == CurrentStack(r.store.stackOrder, r.store.stackValues)
      && (Valid(s) ==> Activated(s, r.store, article.id, r.emitted.value.active.value))
      && r.store.entries == Put(s.entries, ToEntry(article, PosInf, Pointer).value)
    ensures forall e :: e in s.entries && KeyOf(e) != Key(Pointer, article.id) ==> e in r.store.entries
    ensures Valid(s) ==> Valid(r.store)
  {
    Upsert(s, article, PosInf, Pointer)
  }

  /** Drops every entry and publishes "nothing active" over the unchanged stack. */
  function DropAll(s: Store): (r: Update)
    ensures r.store == s.(entries := [])
    ensures r.emitted == Some(HoverImageState(None, CurrentStack(s.stackOrder, s.stackValues)))
  {
    Update(s.(entries := []), Some(HoverImageState(None, CurrentStack(s.stackOrder, s.stackValues))))
  }

  /**
   What a clear that removed something publishes, from store `before`: when
   no entry is left, nothing active and the order and payloads untouched;
   otherwise the entry the weights pick among those left, shown as
   `Activated` says. The stack is the current one either way.
   */
  predicate PublishesBest(before: Store, u: Update) {
    && u.emitted.Some?
    && u.emitted.value.stack == CurrentStack(u.store.stackOrder, u.store.stackValues)
    && if u.store.entries == [] then
         && u.emitted.value.active.None?
         && u.store.stackOrder == before.stackOrder && u.store.stackValues == before.stackValues
       else
         var e := u.store.entries[SelectActive(u.store.entries, None)];
         u.emitted.value.active == Some(e.payload) && Activated(before, u.store, e.articleId, e.payload)
  }

  lemma EmitPublishesBest(s: Store, es: seq<Entry>)
    ensures PublishesBest(s, Emit(s.(entries := es), None))
  {
  }

  /** In a proper map, removing a key removes exactly the entry with that key. */
  lemma RemoveKeyExactly(es: seq<Entry>, k: Key)
    ensures UniqueKeys(es) ==> forall e :: e in RemoveKey(es, k) <==> e in es && KeyOf(e) != k
  {
    if UniqueKeys(es) {
      var r := RemoveKey(es, k);
      forall e | e in r
        ensures KeyOf(e) != k
      {
        var j :| 0 <= j < |r| && r[j] == e;
        assert !HasKey(r, k);
      }
    }
  }

  /** Both of an article's keys gone: what remains of a proper map. */
  function WithoutArticle(es: seq<Entry>, id: string): seq<Entry> {
    RemoveKey(RemoveKey(es, Key(Pointer, id)), Key(Viewport, id))
  }

  /** In a proper map, removing both of an article's keys leaves exactly the other articles' entries. */
  lemma WithoutArticleMembers(es: seq<Entry>, id: string)
    requires UniqueKeys(es)
    ensures forall e :: e in WithoutArticle(es, id) <==> e in es && e.articleId != id
  {
    var es1 := RemoveKey(es, Key(Pointer, id));
    RemoveKeyExactly(es, Key(Pointer, id));
    RemoveKeyExactly(es1, Key(Viewport, id));
    forall e
      ensures e in WithoutArticle(es, id) <==> e in es && e.articleId != id
    {
      assert KeyOf(e) == Key(e.source, e.articleId);
      assert e.source == Pointer || e.source == Viewport;
    }
  }

  /** ... and a pointer entry survives exactly when another article had one. */
  lemma WithoutArticlePointers(es: seq<Entry>, id: string)
    requires forall e :: e in WithoutArticle(es, id) <==> e in es && e.articleId != id
    ensures HasPointerEntries(WithoutArticle(es, id)) <==> PointerElsewhere(es, id)
  {
    var r := WithoutArticle(es, id);
    if HasPointerEntries(r) {
      var e :| e in r && e.source == Pointer;
      assert e in es && e.articleId != id;
    }
    if PointerElsewhere(es, id) {
      var e :| e in es && e.source == Pointer && e.articleId != id;
      assert e in r;
    }
  }

  lemma RemoveArticleIfProper(es: seq<Entry>, id: string)
    ensures UniqueKeys(es) ==>
      && (forall e :: e in WithoutArticle(es, id) <==> e in es && e.articleId != id)
      && (HasPointerEntries(WithoutArticle(es, id)) <==> PointerElsewhere(es, id))
  {
    if UniqueKeys(es) {
      WithoutArticleMembers(es, id);
      WithoutArticlePointers(es, id);
    }
  }

  /**
   The end of a clear that removed something: with `dropAll` every entry
   goes and nothing is active, otherwise `es` stays and is published from.
   */
  function Republish(s: Store, es: seq<Entry>, dropAll: bool): (r: Update)
    ensures PublishesBest(s, r)
    ensures dropAll ==> r == DropAll(s)
    ensures !dropAll ==> r.store.entries == es
    ensures forall e :: e in r.store.entries ==> e in es
    ensures Valid(s.(entries := es)) ==> Valid(r.store) && |r.emitted.value.stack| <= StackLimit
  {
    if dropAll then DropAll(s)
    else
      EmitPublishesBest(s, es);
      Emit(s.(entries := es), None)
  }

  /** `clear(articleId, { source })`: removes one keyed entry; a pointer removal also removes the viewport entry. */
  function ClearFromSource(s: Store, articleId: string, src: Source): (r: Update)
    ensures !HasKey(s.entries, Key(src, articleId)) ==> r == Update(s, None)
    ensures HasKey(s.entries, Key(src, articleId)) ==> PublishesBest(s, r)
    ensures HasKey(s.entries, Key(src, articleId)) && src == Viewport ==>
      r.store.entries == RemoveKey(s.entries, Key(Viewport, articleId))
    ensures HasKey(s.entries, Key(src, articleId)) && src == Pointer ==>
      r.store.entries == if HasPointerEntries(WithoutArticle(s.entries, articleId)) then WithoutArticle(s.entries, articleId) else []
    ensures forall e :: e in r.store.entries ==> e in s.entries
    ensures UniqueKeys(s.entries) ==> !HasKey(r.store.entries, Key(src, articleId))
    ensures UniqueKeys(s.entries) && src == Viewport ==>
      forall e :: e in r.store.entries <==> e in s.entries && KeyOf(e) != Key(Viewport, articleId)
    ensures UniqueKeys(s.entries) && src == Pointer && HasKey(s.entries, Key(Pointer, articleId)) ==>
      if PointerElsewhere(s.entries, articleId) then
        forall e :: e in r.store.entries <==> e in s.entries && e.articleId != articleId
      else r == DropAll(s)
    ensures Valid(s) ==> Valid(r.store)
    ensures r.emitted.Some? && Valid(s) ==> |r.emitted.value.stack| <= StackLimit
  {
    var key := Key(src, articleId);
    if !HasKey(s.entries, key) then Update(s, None)
    else
      var es := RemoveKey(s.entries, key);
      RemoveKeyKeepsValid(s, key);
      RemoveKeyExactly(s.entries, key);
      if src == Pointer then
        var es2 := RemoveKey(es, Key(Viewport, articleId));
        RemoveKeyKeepsValid(s.(entries := es), Key(Viewport, articleId));
        RemoveArticleIfProper(s.entries, articleId);
        Republish(s, es2, !HasPointerEntries(es2))
      else
        Republish(s, es, false)
  }

  /** Removing an entry keeps a store valid. */
  lemma RemoveKeyKeepsValid(s: Store, k: Key)
    ensures Valid(s) ==> Valid(s.(entries := RemoveKey(s.entries, k)))
  {
  }

  /** `clear(articleId)`: removes both of the article's entries; losing a pointer entry may drop all. */
  function ClearBoth(s: Store, articleId: string): (r: Update)
    ensures !HasKey(s.entries, Key(Pointer, articleId)) && !HasKey(s.entries, Key(Viewport, articleId)) ==>
      r == Update(s, None)
    ensures HasKey(s.entries, Key(Pointer, articleId)) || HasKey(s.entries, Key(Viewport, articleId)) ==>
      PublishesBest(s, r)
    ensures r.store.entries ==
      if HasKey(s.entries, Key(Pointer, articleId)) && !HasPointerEntries(WithoutArticle(s.entries, articleId)) then []
      else WithoutArticle(s.entries, articleId)
    ensures forall e :: e in r.store.entries ==> e in s.entries
    ensures UniqueKeys(s.entries) ==>
      !HasKey(r.store.entries, Key(Viewport, articleId)) && !HasKey(r.store.entries, Key(Pointer, articleId))
    ensures Valid(s) ==> Valid(r.store)
    ensures r.emitted.Some? && Valid(s) ==> |r.emitted.value.stack| <= StackLimit
  {
    var removedPointer := HasKey(s.entries, Key(Pointer, articleId));
    var es1 := RemoveKey(s.entries, Key(Pointer, articleId));
    var removedViewport := HasKey(es1, Key(Viewport, articleId));
    var es2 := WithoutArticle(s.entries, articleId);
    if removedPointer || removedViewport then
      RemoveKeyKeepsValid(s, Key(Pointer, articleId));
      RemoveKeyKeepsValid(s.(entries := es1), Key(Viewport, articleId));
      Republish(s, es2, !HasPointerEntries(es2) && removedPointer)
    else
      Update(s, None)
  }

  /**
   Clearing an article from a proper map either drops everything, when it
   held the only pointer entries, or leaves exactly the other articles' entries.
   */
  lemma ClearBothLeavesOthers(s: Store, articleId: string)
    requires UniqueKeys(s.entries)
    ensures var r := ClearBoth(s, articleId);
      if HasKey(s.entries, Key(Pointer, articleId)) && !PointerElsewhere(s.entries, articleId) then r == DropAll(s)
      else forall e :: e in r.store.entries <==> e in s.entries && e.articleId != articleId
  {
    RemoveArticleIfProper(s.entries, articleId);
    NoKeysNoArticle(s.entries, articleId);
  }

  /**
   `clear(articleId, options?)`: never adds an entry; with a source that
   key is gone, without one no entry of the article is left; clearing what
   is not there changes nothing and publishes nothing.
   */
  function Clear(s: Store, articleId: string, source: Option<Source>): (r: Update)
    ensures forall e :: e in r.store.entries ==> e in s.entries
    ensures UniqueKeys(s.entries) && source.Some? ==> !HasKey(r.store.entries, Key(source.value, articleId))
    ensures UniqueKeys(s.entries) && source.None? ==> forall e :: e in r.store.entries ==> e.articleId != articleId
    ensures source.Some? && !HasKey(s.entries, Key(source.value, articleId)) ==> r == Update(s, None)
    ensures source.None? && (forall e :: e in s.entries ==> e.articleId != articleId) ==> r == Update(s, None)
    ensures r.emitted.Some? ==> PublishesBest(s, r)
    ensures r.emitted.None? ==> r == Update(s, None)
    ensures source == Some(Viewport) ==> r.store.entries == RemoveKey(s.entries, Key(Viewport, articleId))
    ensures source.None? || (source == Some(Pointer) && HasKey(s.entries, Key(Pointer, articleId))) ==>
      r.store.entries ==
        if HasKey(s.entries, Key(Pointer, articleId)) && !HasPointerEntries(WithoutArticle(s.entries, articleId)) then []
        else WithoutArticle(s.entries, articleId)
    ensures Valid(s) ==> Valid(r.store)
  {
    match source
    case Some(src) => ClearFromSource(s, articleId, src)
    case None =>
      NoArticleNoKeys(s.entries, articleId);
      NoKeysNoArticle(ClearBoth(s, articleId).store.entries, articleId);
      ClearBoth(s, articleId)
  }

  /** An article with neither key has no entries. */
  lemma NoKeysNoArticle(es: seq<Entry>, id: string)
    ensures !HasKey(es, Key(Pointer, id)) && !HasKey(es, Key(Viewport, id)) ==>
      forall e :: e in es ==> e.articleId != id
  {
    if !HasKey(es, Key(Pointer, id)) && !HasKey(es, Key(Viewport, id)) {
      forall e | e in es
        ensures e.articleId != id
      {
        var j :| 0 <= j < |es| && es[j] == e;
        assert KeyOf(es[j]) == Key(e.source, e.articleId);
        assert e.source == Pointer || e.source == Viewport;
      }
    }
  }

  /** An article without entries has neither key. */
  lemma NoArticleNoKeys(es: seq<Entry>, id: string)
    ensures (forall e :: e in es ==> e.articleId != id) ==>
      !HasKey(es, Key(Pointer, id)) && !HasKey(es, Key(Viewport, id))
  {
    if forall e :: e in es ==> e.articleId != id {
      forall j | 0 <= j < |es|
        ensures es[j].articleId != id
      {
        assert es[j] in es;
      }
    }
  }

  /** Forgets everything and publishes the initial state. */
  function Reset(s: Store): (r: Update)
    ensures r.store.entries == [] && r.store.stackOrder == [] && r.store.stackValues == map[]
    ensures r.emitted == Some(HoverImageState(None, []))
  {
    Update(EmptyStore, Some(InitialState))
  }

  // ---------------------------------------------------------------------------
  // Properties over the public operations
  // ---------------------------------------------------------------------------

  /** The public operations of the store. */
  datatype HoverOp =
    | SetFromViewportOp(article: Article, ratio: Ratio)
    | SetFromPointerOp(article: Article)
    | ClearOp(articleId: string, source: Option<Source>)
    | ResetOp

  function ApplyOp(s: Store, op: HoverOp): (r: Update)
  {
    match op
    case SetFromViewportOp(a, ratio) => SetFromViewport(s, a, ratio)
    case SetFromPointerOp(a) => SetFromPointer(s, a)
    case ClearOp(id, src) => Clear(s, id, src)
    case ResetOp => Reset(s)
  }

  /** Pointer entries, and only they, weigh `+Infinity`. */
  predicate WeightsBySource(es: seq<Entry>) {
    forall e :: e in es ==> (e.source == Pointer <==> e.weight == PosInf)
  }

  /** Every public operation keeps the store valid and its weights tied to their sources. */
  lemma ApplyOpPreserves(s: Store, op: HoverOp)
    requires Valid(s) && WeightsBySource(s.entries)
    ensures Valid(ApplyOp(s, op).store)
    ensures WeightsBySource(ApplyOp(s, op).store.entries)
    ensures ApplyOp(s, op).emitted.Some? ==> |ApplyOp(s, op).emitted.value.stack| <= StackLimit
  {
  }

  /** Runs public operations in order, collecting what they publish. */
  function RunHoverOps(s: Store, ops: seq<HoverOp>): (r: (Store, seq<HoverImageState>))
    decreases |ops|
  {
    if ops == [] then (s, [])
    else
      var u := ApplyOp(s, ops[0]);
      var rest := RunHoverOps(u.store, ops[1..]);
      (rest.0, (if u.emitted.Some? then [u.emitted.value] else []) + rest.1)
  }

  /** From the empty store, every published stack holds at most `StackLimit` payloads. */
  lemma {:induction false} PublishedStacksBounded(s: Store, ops: seq<HoverOp>)
    requires Valid(s) && WeightsBySource(s.entries)
    ensures Valid(RunHoverOps(s, ops).0)
    ensures forall st :: st in RunHoverOps(s, ops).1 ==> |st.stack| <= StackLimit
    decreases |ops|
  {
    if ops != [] {
      ApplyOpPreserves(s, ops[0]);
      PublishedStacksBounded(ApplyOp(s, ops[0]).store, ops[1..]);
    }
  }

  lemma EmptyStoreValid()
    ensures Valid(EmptyStore) && WeightsBySource(EmptyStore.entries)
  {
  }

  /**
   Without a preferred id, a pointer entry, when there is one, wins: the
   first pointer entry in insertion order becomes active.
   */
  lemma PointerWins(es: seq<Entry>)
    requires es != [] && WeightsBySource(es) && HasPointerEntries(es)
    ensures es[SelectActive(es, None)].source == Pointer
    ensures forall j :: 0 <= j < SelectActive(es, None) ==> es[j].source == Viewport
  {
    var k := SelectActive(es, None);
    var p :| p in es && p.source == Pointer;
    assert es[k] in es;
    forall j | 0 <= j < k
      ensures es[j].source == Viewport
    {
      assert es[j] in es;
    }
  }

  /** With viewport entries only, the active one has the largest ratio, the first such on ties. */
  lemma LargestRatioWins(es: seq<Entry>)
    requires es != [] && WeightsBySource(es) && !HasPointerEntries(es)
    ensures var k := SelectActive(es, None);
            && (forall j :: 0 <= j < |es| ==> es[j].weight.r <= es[k].weight.r)
            && (forall j :: 0 <= j < k ==> es[j].weight.r < es[k].weight.r)
  {
    var k := SelectActive(es, None);
    forall j | 0 <= j < |es|
      ensures es[j].weight.Finite?
    {
      assert es[j] in es;
    }
  }

  /** Setting from the pointer makes that article active, whatever else is shown. */
  lemma PointerArticleBecomesActive(s: Store, a: Article)
    requires Valid(s)
    requires a.id != "" && a.cover.Some? && a.cover.value.url != ""
    ensures SetFromPointer(s, a).emitted.Some?
    ensures SetFromPointer(s, a).emitted.value.active.Some?
    ensures SetFromPointer(s, a).emitted.value.active.value.articleId == a.id
    ensures SetFromPointer(s, a).store.stackOrder[|SetFromPointer(s, a).store.stackOrder| - 1] == a.id
  {
  }

  /**
   `find` returns the article's first entry, so an older entry of the same
   article from the other source is what becomes active and is remembered,
   not the entry just set: here a viewport entry titled "Old" wins over a
   pointer entry titled "New".
   */
  lemma FirstEntryPayloadWins()
    ensures var c := Cover("a.jpg", "", "");
      var s := SetFromViewport(EmptyStore, Article("a", "Old", "", Some(c)), FiniteRatio(0.5)).store;
      var r := SetFromPointer(s, Article("a", "New", "", Some(c)));
      && r.emitted.Some? && r.emitted.value.active.Some?
      && r.emitted.value.active.value.title == "Old"
      && "a" in r.store.stackValues && r.store.stackValues["a"].title == "Old"
  {
    var c := Cover("a.jpg", "", "");
    var s := SetFromViewport(EmptyStore, Article("a", "Old", "", Some(c)), FiniteRatio(0.5)).store;
    assert s.entries == [ToEntry(Article("a", "Old", "", Some(c)), Finite(0.5), Viewport).value];
  }

  /** Clearing the last pointer entry drops every entry and shows nothing, keeping the stack. */
  lemma ClearLastPointer(s: Store, id: string)
    requires UniqueKeys(s.entries)
    requires HasKey(s.entries, Key(Pointer, id))
    requires forall j :: 0 <= j < |s.entries| && s.entries[j].source == Pointer ==> s.entries[j].articleId == id
    ensures Clear(s, id, Some(Pointer)) == DropAll(s)
    ensures Clear(s, id, Some(Pointer)).emitted == Some(HoverImageState(None, CurrentStack(s.stackOrder, s.stackValues)))
  {
    var es := RemoveKey(RemoveKey(s.entries, Key(Pointer, id)), Key(Viewport, id));
    assert !PointerElsewhere(s.entries, id) by {
      forall e | e in s.entries
        ensures !(e.source == Pointer && e.articleId != id)
      {
        var j :| 0 <= j < |s.entries| && s.entries[j] == e;
      }
    }
  }

}
