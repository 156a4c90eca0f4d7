/**
 The frame snapshot: a preorder walk over the page that lists interactive and
 semantic elements, numbered from one, until a cap is reached. The walk mutates a
 list and a counter; the reference below says, by child-index paths, which
 elements an uncapped walk would list and in which order.
 */
module SnapshotWalk {
  import opened Prelude
  import opened Numbers

  const MAX_WALK_DEPTH := 1000

  /** A page element; `emits` when it is interactive or has a semantic tag. */
  datatype Node = Node(id: nat, hasTag: bool, visible: bool, iframe: bool, emits: bool, children: seq<Node>)

  predicate Open(n: Node) {
    n.hasTag && n.visible && !n.iframe
  }

  /** A listed element before numbering; its path is relative to the node the walk started at. */
  datatype Item = Item(path: seq<nat>, depth: nat, id: nat)

  datatype Entry = Entry(ref: nat, depth: nat, id: nat)

  // --------------------------------------------------- what may be listed

  /** The node at `path` below `n`, with `raw` levels above `n`, is reached by the walk and emits. */
  predicate Listed(n: Node, path: seq<nat>, raw: nat)
    decreases |path|
  {
    n.hasTag && n.visible && !n.iframe && raw <= 1000 &&
    if path == [] then n.emits
    else path[0] < |n.children| && Listed(n.children[path[0]], path[1..], raw + 1)
  }

  /** How many emitting nodes lie strictly above the node at `path`. */
  function EmittersAbove(n: Node, path: seq<nat>): nat
    decreases |path|
  {
    if path == [] || path[0] >= |n.children| then 0
    else (if n.emits then 1 else 0) + EmittersAbove(n.children[path[0]], path[1..])
  }

  function IdAt(n: Node, path: seq<nat>): nat
    decreases |path|
  {
    if path == [] || path[0] >= |n.children| then n.id else IdAt(n.children[path[0]], path[1..])
  }

  /** Document order: an element comes before its descendants, and before what follows its parent's next child. */
  predicate Before(p: seq<nat>, q: seq<nat>)
    decreases |p|
  {
    q != [] && (p == [] || p[0] < q[0] || (p[0] == q[0] && Before(p[1..], q[1..])))
  }

  // --------------------------------------------------- the uncapped listing

  function Under(k: nat, items: seq<Item>): seq<Item> {
    seq(|items|, i requires 0 <= i < |items| => items[i].(path := [k] + items[i].path))
  }

  function OwnItem(n: Node, depth: nat): seq<Item> {
    if n.emits then [Item([], depth, n.id)] else []
  }

  /** Children are one level deeper below a listed element only. */
  function ChildDepth(n: Node, depth: nat): nat {
    if n.emits then depth + 1 else depth
  }

  function Preorder(n: Node, depth: nat, raw: nat): seq<Item>
    decreases n, 1, 0
  {
    if !Open(n) || raw > MAX_WALK_DEPTH then []
    else
      OwnItem(n, depth) + PreorderFrom(n, 0, ChildDepth(n, depth), raw + 1)
  }

  /** The listing of the children from number `k` on. */
  function PreorderFrom(n: Node, k: nat, depth: nat, raw: nat): seq<Item>
    requires k <= |n.children|
    decreases n, 0, |n.children| - k
  {
    if k == |n.children| then []
    else Under(k, Preorder(n.children[k], depth, raw)) + PreorderFrom(n, k + 1, depth, raw)
  }

  ghost predicate Ordered(items: seq<Item>) {
    forall i, j :: 0 <= i < j < |items| ==> Before(items[i].path, items[j].path)
  }

  predicate Names(n: Node, item: Item, depth: nat) {
    item.depth == depth + EmittersAbove(n, item.path) && item.id == IdAt(n, item.path)
  }

  /** An item of the listing of `n`'s children from number `k` on. */
  predicate NamesBelowChild(n: Node, k: nat, item: Item, depth: nat, raw: nat) {
    var p := item.path;
    && p != [] && k <= p[0] < |n.children| && Listed(n.children[p[0]], p[1..], raw)
    && Names(n.children[p[0]], item.(path := p[1..]), depth)
  }

  /** What `Under` does to one item, with the item's own path recovered. */
  lemma UnderAt(k: nat, items: seq<Item>, i: nat)
    requires i < |items|
    ensures var p := Under(k, items)[i].path;
            && p != [] && p[0] == k && p[1..] == items[i].path
            && Under(k, items)[i].(path := p[1..]) == items[i]
  {
    assert ([k] + items[i].path)[1..] == items[i].path;
  }

  lemma SamePath(p: seq<nat>, q: seq<nat>)
    requires p != [] && q != [] && p[0] == q[0] && p[1..] == q[1..]
    ensures p == q
  {
    assert p == [p[0]] + p[1..] && q == [q[0]] + q[1..];
  }

  lemma PreorderUnfolds(n: Node, depth: nat, raw: nat)
    ensures Preorder(n, depth, raw) == if Open(n) && raw <= MAX_WALK_DEPTH then
                                         OwnItem(n, depth) + PreorderFrom(n, 0, ChildDepth(n, depth), raw + 1)
                                       else []
  {
  }

  /** An item listed below a child is listed below the node. */
  lemma OneDown(n: Node, item: Item, depth: nat, raw: nat)
    requires Open(n) && raw <= MAX_WALK_DEPTH
    requires item.path != [] && item.path[0] < |n.children|
    requires var child := n.children[item.path[0]];
             && Listed(child, item.path[1..], raw + 1)
             && Names(child, item.(path := item.path[1..]), ChildDepth(n, depth))
    ensures Listed(n, item.path, raw) && Names(n, item, depth)
  {
  }

  // Membership and depth, item by item.

  lemma {:induction false} PreorderSound(n: Node, depth: nat, raw: nat, i: nat)
    requires i < |Preorder(n, depth, raw)|
    ensures var item := Preorder(n, depth, raw)[i];
            Listed(n, item.path, raw) && Names(n, item, depth)
    decreases n, 1, 0
  {
    PreorderUnfolds(n, depth, raw);
    var own := |OwnItem(n, depth)|;
    if i >= own {
      PreorderFromSound(n, 0, ChildDepth(n, depth), raw + 1, i - own);
      OneDown(n, Preorder(n, depth, raw)[i], depth, raw);
    }
  }

  lemma {:induction false} PreorderFromSound(n: Node, k: nat, depth: nat, raw: nat, i: nat)
    requires k <= |n.children| && i < |PreorderFrom(n, k, depth, raw)|
    ensures NamesBelowChild(n, k, PreorderFrom(n, k, depth, raw)[i], depth, raw)
    decreases n, 0, |n.children| - k
  {
    var first := Preorder(n.children[k], depth, raw);
    if i < |first| {
      UnderAt(k, first, i);
      PreorderSound(n.children[k], depth, raw, i);
    } else {
      PreorderFromSound(n, k + 1, depth, raw, i - |first|);
    }
  }

  // Document order, pair by pair.

  lemma {:induction false} PreorderOrdered(n: Node, depth: nat, raw: nat, i: nat, j: nat)
    requires i < j < |Preorder(n, depth, raw)|
    ensures Before(Preorder(n, depth, raw)[i].path, Preorder(n, depth, raw)[j].path)
    decreases n, 1, 0
  {
    PreorderUnfolds(n, depth, raw);
    var own := |OwnItem(n, depth)|;
    if i >= own {
      PreorderFromOrdered(n, 0, ChildDepth(n, depth), raw + 1, i - own, j - own);
    } else {
      PreorderFromSound(n, 0, ChildDepth(n, depth), raw + 1, j - own);
    }
  }

  lemma {:induction false} PreorderFromOrdered(n: Node, k: nat, depth: nat, raw: nat, i: nat, j: nat)
    requires k <= |n.children| && i < j < |PreorderFrom(n, k, depth, raw)|
    ensures Before(PreorderFrom(n, k, depth, raw)[i].path, PreorderFrom(n, k, depth, raw)[j].path)
    decreases n, 0, |n.children| - k
  {
    var first := Preorder(n.children[k], depth, raw);
    if i < |first| {
      UnderAt(k, first, i);
      if j < |first| {
        UnderAt(k, first, j);
        PreorderOrdered(n.children[k], depth, raw, i, j);
      } else {
        PreorderFromSound(n, k + 1, depth, raw, j - |first|);
      }
    } else {
      PreorderFromOrdered(n, k + 1, depth, raw, i - |first|, j - |first|);
    }
  }

  // Completeness, position by position.

  lemma {:induction false} PreorderComplete(n: Node, depth: nat, raw: nat, p: seq<nat>) returns (i: nat)
    requires Listed(n, p, raw)
    ensures i < |Preorder(n, depth, raw)| && Preorder(n, depth, raw)[i].path == p
    decreases n, 1, 0
  {
    PreorderUnfolds(n, depth, raw);
    if p == [] {
      i := 0;
    } else {
      var own, below := OwnItem(n, depth), PreorderFrom(n, 0, ChildDepth(n, depth), raw + 1);
      var k := PreorderFromComplete(n, 0, ChildDepth(n, depth), raw + 1, p);
      i := |own| + k;
      assert (own + below)[i] == below[k];
    }
  }

  lemma {:induction false} PreorderFromComplete(n: Node, k: nat, depth: nat, raw: nat, p: seq<nat>) returns (i: nat)
    requires p != [] && k <= p[0] < |n.children| && Listed(n.children[p[0]], p[1..], raw)
    ensures i < |PreorderFrom(n, k, depth, raw)| && PreorderFrom(n, k, depth, raw)[i].path == p
    decreases n, 0, |n.children| - k
  {
    var first := Preorder(n.children[k], depth, raw);
    if p[0] == k {
      i := PreorderComplete(n.children[k], depth, raw, p[1..]);
      UnderAt(k, first, i);
      SamePath(Under(k, first)[i].path, p);
    } else {
      i := PreorderFromComplete(n, k + 1, depth, raw, p);
      i := |first| + i;
    }
  }

  /** No position comes before itself, so an ordered listing repeats none. */
  lemma {:induction false} NeverBeforeItself(p: seq<nat>)
    ensures !Before(p, p)
  {
    if p != [] {
      NeverBeforeItself(p[1..]);
    }
  }

  /**
   The uncapped listing of a page is the list of exactly those elements that are
   reachable through visible, non-iframe elements within the depth limit and
   emit, in document order without repetition; each carries as its depth the
   number of listed elements above it.
   */
  lemma ListingIsExact(body: Node)
    ensures var items := Preorder(body, 0, 0);
            && Ordered(items)
            && (forall i, j :: 0 <= i < j < |items| ==> items[i].path != items[j].path)
            && (forall p :: Listed(body, p, 0) <==> exists i :: 0 <= i < |items| && items[i].path == p)
            && (forall i :: 0 <= i < |items| ==>
                  items[i].depth == EmittersAbove(body, items[i].path) && items[i].id == IdAt(body, items[i].path))
  {
    var items := Preorder(body, 0, 0);
    forall i, j | 0 <= i < j < |items|
      ensures Before(items[i].path, items[j].path) && items[i].path != items[j].path
    {
      PreorderOrdered(body, 0, 0, i, j);
      NeverBeforeItself(items[i].path);
    }
    forall i | 0 <= i < |items|
      ensures Listed(body, items[i].path, 0) && Names(body, items[i], 0)
    {
      PreorderSound(body, 0, 0, i);
    }
    forall p | Listed(body, p, 0)
      ensures exists i :: 0 <= i < |items| && items[i].path == p
    {
      var i := PreorderComplete(body, 0, 0, p);
    }
  }

  // ------------------------------------------------------- the capped walk

  function Room(cap: nat, refs: seq<Entry>): nat {
    if |refs| >= cap then 0 else cap - |refs|
  }

  /** `refs` followed by as many of `items` as the cap leaves room for, numbered on. */
  function Extended(cap: nat, refs: seq<Entry>, items: seq<Item>): seq<Entry>
    decreases |items|
  {
    if items == [] || |refs| >= cap then refs
    else Extended(cap, refs + [Entry(|refs| + 1, items[0].depth, items[0].id)], items[1..])
  }

  lemma {:induction false} ExtendedBy(cap: nat, refs: seq<Entry>, items: seq<Item>)
    ensures var all := Extended(cap, refs, items);
            && |all| == |refs| + Min(|items|, Room(cap, refs)) && refs <= all
            && forall i :: |refs| <= i < |all| ==>
                             all[i] == Entry(i + 1, items[i - |refs|].depth, items[i - |refs|].id)
    decreases |items|
  {
    if items != [] && |refs| < cap {
      ExtendedBy(cap, refs + [Entry(|refs| + 1, items[0].depth, items[0].id)], items[1..]);
    }
  }

  lemma {:induction false} ExtendedTwice(cap: nat, refs: seq<Entry>, a: seq<Item>, b: seq<Item>)
    ensures Extended(cap, Extended(cap, refs, a), b) == Extended(cap, refs, a + b)
    decreases |a|
  {
    if a == [] {
      assert a + b == b;
    } else if |refs| < cap {
      assert (a + b)[1..] == a[1..] + b;
      ExtendedTwice(cap, refs + [Entry(|refs| + 1, a[0].depth, a[0].id)], a[1..], b);
    }
  }

  lemma {:induction false} PathsDoNotMatter(cap: nat, refs: seq<Entry>, k: nat, items: seq<Item>)
    ensures Extended(cap, refs, Under(k, items)) == Extended(cap, refs, items)
    decreases |items|
  {
    if items != [] && |refs| < cap {
      assert Under(k, items)[1..] == Under(k, items[1..]);
      PathsDoNotMatter(cap, refs + [Entry(|refs| + 1, items[0].depth, items[0].id)], k, items[1..]);
    }
  }

  /** `normalizeMaxElements` followed by the walk's own bounds. */
  function CapOf(maxElements: F64): (cap: nat)
    ensures 1 <= cap <= 300
    ensures maxElements.NonFinite? ==> cap == 160
    ensures maxElements.Finite? && 1.0 <= maxElements.value <= 300.0 ==>
              cap as real <= maxElements.value < cap as real + 1.0
    ensures maxElements.Finite? && maxElements.value < 1.0 ==> cap == 1
    ensures maxElements.Finite? && maxElements.value > 300.0 ==> cap == 300
  {
    match maxElements
    case NonFinite => 160
    case Finite(v) => Max(1, Min(v.Floor, 300))
  }

  class Snapshot {
    const cap: nat
    var refs: seq<Entry>
    var refId: nat

    constructor (cap: nat)
      ensures this.cap == cap && refs == [] && refId == 0
    {
      this.cap := cap;
      refs, refId := [], 0;
    }

    method Walk(el: Node, depth: nat, rawDepth: nat)
      requires refId == |refs|
      modifies this
      ensures refId == |refs|
      ensures refs == Extended(cap, old(refs), Preorder(el, depth, rawDepth))
      decreases el
    {
      if refId >= cap || rawDepth > MAX_WALK_DEPTH {
        return;
      }
      if !el.hasTag || !el.visible || el.iframe {
        return;
      }
      ghost var own := if el.emits then [Item([], depth, el.id)] else [];
      var inner := depth + if el.emits then 1 else 0;
      ghost var target := Extended(cap, refs, Preorder(el, depth, rawDepth));
      OwnThenChildren(cap, refs, own, PreorderFrom(el, 0, inner, rawDepth + 1));
      if el.emits {
        refId := refId + 1;
        refs := refs + [Entry(refId, depth, el.id)];
      }
      for k := 0 to |el.children|
        invariant refId == |refs|
        invariant Extended(cap, refs, PreorderFrom(el, k, inner, rawDepth + 1)) == target
      {
        ChildThenOthers(cap, refs, k, Preorder(el.children[k], inner, rawDepth + 1),
                        PreorderFrom(el, k + 1, inner, rawDepth + 1));
        Walk(el.children[k], inner, rawDepth + 1);
      }
    }
  }

  lemma OwnThenChildren(cap: nat, refs: seq<Entry>, own: seq<Item>, below: seq<Item>)
    requires |refs| < cap && |own| <= 1
    ensures own == [] ==> Extended(cap, refs, own + below) == Extended(cap, refs, below)
    ensures |own| == 1 ==>
              Extended(cap, refs + [Entry(|refs| + 1, own[0].depth, own[0].id)], below)
              == Extended(cap, refs, own + below)
  {
    if own == [] {
      assert own + below == below;
    } else {
      assert (own + below)[1..] == below;
    }
  }

  lemma ChildThenOthers(cap: nat, refs: seq<Entry>, k: nat, child: seq<Item>, rest: seq<Item>)
    ensures Extended(cap, Extended(cap, refs, child), rest) == Extended(cap, refs, Under(k, child) + rest)
  {
    PathsDoNotMatter(cap, refs, k, child);
    ExtendedTwice(cap, refs, Under(k, child), rest);
  }

  /** `collectHopeFrameSnapshot` over the page's body, if it has one. */
  method CollectSnapshot(body: Option<Node>, maxElements: F64) returns (elements: seq<Entry>, truncated: bool)
    ensures var items := if body.Some? then Preorder(body.value, 0, 0) else [];
            var cap := CapOf(maxElements);
            && |elements| == Min(|items|, cap)
            && (forall i :: 0 <= i < |elements| ==> elements[i] == Entry(i + 1, items[i].depth, items[i].id))
            && (truncated <==> |items| >= cap)
            && (!truncated ==> |elements| == |items|)
  {
    var snapshot := new Snapshot(CapOf(maxElements));
    if body.Some? {
      snapshot.Walk(body.value, 0, 0);
      ExtendedBy(snapshot.cap, [], Preorder(body.value, 0, 0));
    }
    return snapshot.refs, snapshot.refId >= snapshot.cap;
  }
}
