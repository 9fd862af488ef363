/** The part of the compositor's scene graph the overlay touches: the
    children of the window group, listed back to front (a later child is
    drawn above an earlier one), and the host primitives that add a child
    and move a child directly above a sibling. */
module SceneGraph {
  import opened Seqs

  /** A node among the window group's children: the backing actor of a
      managed window (named by the window's id) or an overlay surface. */
  datatype Actor = WindowActor(window: nat) | OverlayActor(overlay: nat)

  /** `c` is drawn immediately above `a`: `a` is a child and `c` is the
      next child after it. */
  ghost predicate DirectlyAbove(s: seq<Actor>, c: Actor, a: Actor) {
    a in s && IndexOf(s, c) == IndexOf(s, a) + 1
  }

  /** The order after `set_child_above_sibling(c, a)`: `c` is taken out and
      put back right after `a`. When `c` and `a` are the same node, or one
      of them is not a child, the host refuses the request and the order
      stays as it was. */
  function PlaceAbove(s: seq<Actor>, c: Actor, a: Actor): seq<Actor>
  {
    if c == a || c !in s || a !in s then s
    else
      var t := Without(s, c);
      var k := IndexOf(t, a);
      t[..k + 1] + [c] + t[k + 1..]
  }

  /** The order after `set_child_above_sibling(c, NULL)`: `c` is taken out
      and put back on top. When `c` is not a child the host refuses and the
      order stays as it was. */
  function PlaceOnTop(s: seq<Actor>, c: Actor): seq<Actor>
  {
    if c !in s then s else Without(s, c) + [c]
  }

  /** Taking `c` back out of `lo + [c] + hi` leaves `lo + hi`. */
  lemma WithoutInserted(lo: seq<Actor>, c: Actor, hi: seq<Actor>)
    requires c !in lo && c !in hi
    ensures Without(lo + [c] + hi, c) == lo + hi
  {
    assert Without([c], c) == [] by {
      assert [c][1..] == [];
    }
    WithoutAppend(lo, [c], c);
    WithoutAbsent(lo, c);
    assert Without(lo + [c], c) == lo;
    WithoutAppend(lo + [c], hi, c);
    WithoutAbsent(hi, c);
  }

  /** Inserting a new element into a list without duplicates keeps it
      without duplicates. */
  lemma InsertedDistinct(lo: seq<Actor>, c: Actor, hi: seq<Actor>)
    requires Distinct(lo + hi) && c !in lo && c !in hi
    ensures Distinct(lo + [c] + hi)
  {
    var t, r := lo + hi, lo + [c] + hi;
    forall i, j | 0 <= i < j < |r| ensures r[i] != r[j] {
      if j < |lo| {
        assert r[i] == t[i] && r[j] == t[j];
      } else if j == |lo| {
        assert r[i] == lo[i];
      } else if i == |lo| {
        assert r[j] == hi[j - |lo| - 1];
      } else if i < |lo| {
        assert r[i] == t[i] && r[j] == t[j - 1];
      } else {
        assert r[i] == t[i - 1] && r[j] == t[j - 1];
      }
    }
  }

  /** The reordered list is the list without `c`, cut right after `a`,
      with `c` put in the cut. */
  lemma PlaceAboveShape(s: seq<Actor>, c: Actor, a: Actor) returns (lo: seq<Actor>, hi: seq<Actor>)
    requires c in s && a in s && c != a
    ensures PlaceAbove(s, c, a) == lo + [c] + hi && lo + hi == Without(s, c)
    ensures c !in lo && c !in hi
    ensures |lo| > 0 && lo[|lo| - 1] == a && a !in lo[..|lo| - 1]
  {
    var t := Without(s, c);
    var k := IndexOf(t, a);
    lo, hi := t[..k + 1], t[k + 1..];
    assert t == lo + hi;
    assert lo[..k] == t[..k];
  }

  /** Reordering keeps the same children, each once, puts `c` directly
      above `a`, and leaves every other child in its former relative
      order. */
  lemma PlaceAboveCorrect(s: seq<Actor>, c: Actor, a: Actor)
    requires Distinct(s) && c in s && a in s && c != a
    ensures Distinct(PlaceAbove(s, c, a))
    ensures multiset(PlaceAbove(s, c, a)) == multiset(s)
    ensures DirectlyAbove(PlaceAbove(s, c, a), c, a)
    ensures Without(PlaceAbove(s, c, a), c) == Without(s, c)
  {
    var lo, hi := PlaceAboveShape(s, c, a);
    WithoutInserted(lo, c, hi);
    WithoutDistinct(s, c);
    InsertedDistinct(lo, c, hi);
    MultisetInserted(s, c, lo, hi);
    InsertedAbove(lo, c, hi, a);
  }

  /** `c` inserted right after the first occurrence of `a` sits directly
      above it. */
  lemma InsertedAbove(lo: seq<Actor>, c: Actor, hi: seq<Actor>, a: Actor)
    requires c !in lo && c != a
    requires |lo| > 0 && lo[|lo| - 1] == a && a !in lo[..|lo| - 1]
    ensures DirectlyAbove(lo + [c] + hi, c, a)
  {
    var r := lo + [c] + hi;
    var k := |lo| - 1;
    assert r[..k] == lo[..k];
    assert r[..k + 1] == lo;
    IndexOfUnique(r, a, k);
    IndexOfUnique(r, c, k + 1);
  }

  lemma MultisetInserted(s: seq<Actor>, c: Actor, lo: seq<Actor>, hi: seq<Actor>)
    requires Distinct(s) && c in s && lo + hi == Without(s, c)
    ensures multiset(lo + [c] + hi) == multiset(s)
  {
    WithoutMultiset(s, c);
    DistinctOnce(s, c);
    assert multiset(lo + [c] + hi) == multiset(lo + hi) + multiset{c};
  }

  /** Re-asserting the same placement is a no-op: reordering twice gives
      the order of reordering once. */
  lemma PlaceAboveIdempotent(s: seq<Actor>, c: Actor, a: Actor)
    ensures PlaceAbove(PlaceAbove(s, c, a), c, a) == PlaceAbove(s, c, a)
  {
    if c != a && c in s && a in s {
      var lo, hi := PlaceAboveShape(s, c, a);
      var r := lo + [c] + hi;
      assert r[|lo|] == c && r[|lo| - 1] == a;
      WithoutInserted(lo, c, hi);
      PlaceAboveOfRest(r, s, c, a);
    }
  }

  /** The reorder depends only on the children other than `c`. */
  lemma PlaceAboveOfRest(s1: seq<Actor>, s2: seq<Actor>, c: Actor, a: Actor)
    requires c != a && c in s1 && a in s1 && c in s2 && a in s2
    requires Without(s1, c) == Without(s2, c)
    ensures PlaceAbove(s1, c, a) == PlaceAbove(s2, c, a)
  {
  }

  /** When `c` already sits directly above `a`, the reorder changes
      nothing. */
  lemma PlaceAboveStable(s: seq<Actor>, c: Actor, a: Actor)
    requires Distinct(s) && c != a && DirectlyAbove(s, c, a)
    ensures PlaceAbove(s, c, a) == s
  {
    var i := IndexOf(s, a);
    var lo, hi := s[..i + 1], s[i + 2..];
    assert s == lo + [c] + hi;
    assert c !in lo;
    assert c !in hi by {
      forall j | 0 <= j < |hi| ensures hi[j] != c {
        assert hi[j] == s[i + 2 + j];
      }
    }
    WithoutInserted(lo, c, hi);
    var t := lo + hi;
    assert t[i] == a && t[..i] == s[..i];
    IndexOfUnique(t, a, i);
    assert t[..i + 1] == lo && t[i + 1..] == hi;
  }

  /** Raising to the top keeps the same children, each once, makes `c` the
      topmost child and leaves every other child in its former relative
      order. */
  lemma PlaceOnTopCorrect(s: seq<Actor>, c: Actor)
    requires Distinct(s) && c in s
    ensures Distinct(PlaceOnTop(s, c))
    ensures multiset(PlaceOnTop(s, c)) == multiset(s)
    ensures |PlaceOnTop(s, c)| == |s| && PlaceOnTop(s, c)[|s| - 1] == c
    ensures Without(PlaceOnTop(s, c), c) == Without(s, c)
  {
    var t := Without(s, c);
    assert t + [c] + [] == t + [c];
    assert c !in [];
    WithoutInserted(t, c, []);
    WithoutDistinct(s, c);
    InsertedDistinct(t, c, []);
    MultisetInserted(s, c, t, []);
    assert |t + [c]| == |s| by {
      WithoutMultiset(s, c);
      DistinctOnce(s, c);
      assert |multiset(t + [c])| == |multiset(s)|;
    }
  }

  /** `global.window_group`: the container whose children the host
      rewrites on every window restack and into which the overlays are
      parented. */
  class WindowGroup {
    var children: seq<Actor>

    ghost predicate Valid()
      reads this
    {
      Distinct(children)
    }

    constructor (initial: seq<Actor>)
      requires Distinct(initial)
      ensures Valid() && children == initial
    {
      children := initial;
    }

    /** `add_child`: a new child goes on top; a node that is already a
        child is refused. */
    method AddChild(c: Actor)
      requires Valid()
      modifies this
      ensures Valid()
      ensures c in children
      ensures children == if c in old(children) then old(children) else old(children) + [c]
    {
      if c !in children {
        children := children + [c];
      }
    }

    /** `set_child_above_sibling`: with a sibling, move `c` directly above
        it; with a null sibling, move `c` to the top. */
    method SetChildAboveSibling(c: Actor, sibling: Option<Actor>)
      requires Valid()
      modifies this
      ensures Valid()
      ensures children == match sibling
                          case Some(a) => PlaceAbove(old(children), c, a)
                          case None => PlaceOnTop(old(children), c)
      ensures c in children <==> c in old(children)
      ensures multiset(children) == multiset(old(children))
      ensures Without(children, c) == Without(old(children), c)
      ensures sibling.Some? && c in children && sibling.value in children && c != sibling.value ==>
        DirectlyAbove(children, c, sibling.value)
      ensures sibling.None? && c in children ==> children[|children| - 1] == c
    {
      match sibling {
        case Some(a) =>
          if c != a && c in children && a in children {
            PlaceAboveCorrect(children, c, a);
          }
          children := PlaceAbove(children, c, a);
        case None =>
          if c in children {
            PlaceOnTopCorrect(children, c);
          }
          children := PlaceOnTop(children, c);
      }
    }
  }
}
