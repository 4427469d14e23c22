/** Circular doubly linked lists, and moving one to the end of another. */
module ListSplice {
  class ListHead {
    var next: ListHead
    var prev: ListHead

    /** INIT_LIST_HEAD: a list of nothing points at itself. */
    constructor ()
      ensures next == this && prev == this
    {
      next := this;
      prev := this;
    }
  }

  /** The nodes are all different and linked one to the next; the ends are open. */
  ghost predicate Path(ns: seq<ListHead>)
    reads ns
  {
    && |ns| > 0
    && (forall i, j :: 0 <= i < j < |ns| ==> ns[i] != ns[j])
    && (forall i :: 0 <= i < |ns| - 1 ==> ns[i].next == ns[i + 1])
    && (forall i :: 1 <= i < |ns| ==> ns[i].prev == ns[i - 1])
  }

  /** The nodes, head first, are all different and linked round in this order. */
  ghost predicate Ring(ns: seq<ListHead>)
    reads ns
  {
    Path(ns) && ns[|ns| - 1].next == ns[0] && ns[0].prev == ns[|ns| - 1]
  }

  /** `es` are the entries of the list with this head. */
  ghost predicate IsList(head: ListHead, es: seq<ListHead>)
    reads head, es
  {
    Ring([head] + es)
  }

  /** In a list next and prev undo each other. */
  lemma {:induction false} NextPrevInverse(head: ListHead, es: seq<ListHead>, i: nat)
    requires IsList(head, es) && i <= |es|
    ensures var n := ([head] + es)[i];
      n.next.prev == n && n.prev.next == n
  {
    var ns := [head] + es;
    if i + 1 < |ns| { assert ns[i + 1].prev == ns[i]; }
    if i > 0 { assert ns[i - 1].next == ns[i]; }
  }

  /** The links determine the entries and their order. */
  lemma {:induction false} EntriesUnique(head: ListHead, es: seq<ListHead>, fs: seq<ListHead>)
    requires IsList(head, es) && IsList(head, fs)
    ensures es == fs
  {
    var ns, ms := [head] + es, [head] + fs;
    var i := 0;
    while i + 1 < |ns| && i + 1 < |ms|
      invariant i < |ns| && i < |ms|
      invariant forall j :: 0 <= j <= i ==> ns[j] == ms[j]
    {
      assert ns[i].next == ns[i + 1] && ms[i].next == ms[i + 1];
      i := i + 1;
    }
    assert ns[i].next == ms[i].next && ns[0] == ms[0];
    assert |ns| == |ms|;
    assert ns == ms;
    assert es == ns[1..] && fs == ms[1..];
  }

  /** Which nodes the splice writes to, and that no other is one of them. */
  lemma {:induction false} SpliceFacts(a: seq<ListHead>, b: seq<ListHead>)
    requires Ring(a) && Ring(b) && |b| > 1
    requires forall n :: n in a ==> n !in b
    ensures b[0].next == b[1] && b[0].prev == b[|b| - 1] && b[1].prev == b[0] && b[|b| - 1].next == b[0]
    ensures a[0].prev == a[|a| - 1]
    ensures forall i :: 0 <= i < |a| ==> a[i] != b[0] && a[i] != b[1] && a[i] != b[|b| - 1]
    ensures forall i :: 0 <= i < |a| - 1 ==> a[i] != a[|a| - 1]
    ensures forall i :: 1 <= i < |a| ==> a[i] != a[0]
    ensures forall i :: 1 <= i < |b| ==> b[i] != b[0] && b[i] !in a
    ensures forall i :: 1 <= i < |b| - 1 ==> b[i] != b[|b| - 1]
    ensures forall i :: 2 <= i < |b| ==> b[i] != b[1]
  {
    assert b[0] in b && b[1] in b && b[|b| - 1] in b;
    forall i | 0 <= i < |a| ensures a[i] != b[0] && a[i] != b[1] && a[i] != b[|b| - 1] { assert a[i] in a; }
    forall i | 1 <= i < |b| ensures b[i] !in a { assert b[i] in b; }
  }

  /** Two runs of nodes linked inside, to each other and round make one ring. */
  lemma {:induction false} Joined(a: seq<ListHead>, c: seq<ListHead>)
    requires Path(a) && Path(c) && forall n :: n in a ==> n !in c
    requires a[|a| - 1].next == c[0] && c[0].prev == a[|a| - 1]
    requires c[|c| - 1].next == a[0] && a[0].prev == c[|c| - 1]
    ensures Ring(a + c)
  {
    var ns := a + c;
    forall i, j | 0 <= i < j < |ns| ensures ns[i] != ns[j] {
      if i < |a| <= j { assert a[i] in a; }
    }
    forall i | 0 <= i < |ns| - 1 ensures ns[i].next == ns[i + 1] {
      if i >= |a| { assert ns[i] == c[i - |a|] && ns[i + 1] == c[i - |a| + 1]; }
    }
    forall i | 1 <= i < |ns| ensures ns[i].prev == ns[i - 1] {
      if i > |a| { assert ns[i] == c[i - |a|] && ns[i - 1] == c[i - |a| - 1]; }
    }
  }

  /** Two nodes made neighbours. */
  method Link(p: ListHead, q: ListHead)
    modifies p`next, q`prev
    ensures p.next == q && q.prev == p
  {
    p.next := q;
    q.prev := p;
  }

  /** x_list_move_all_tail: everything on `src` goes to the end of `head`'s
      list, in order, and `src` is left empty. */
  method MoveAllTail(head: ListHead, src: ListHead, ghost ds: seq<ListHead>, ghost ss: seq<ListHead>)
    requires IsList(head, ds) && IsList(src, ss)
    requires forall n :: n in [head] + ds ==> n !in [src] + ss
    modifies [head] + ds, [src] + ss
    ensures IsList(head, ds + ss) && IsList(src, [])
  {
    var first := src.next;
    var last := src.prev;
    ghost var a, b := [head] + ds, [src] + ss;
    assert |b| > 1 ==> b[0].next == b[1] && b[0] != b[1];
    if src.next == src {
      assert ds + ss == ds;
      return;
    }
    SpliceFacts(a, b);
    Link(first.prev, last.next);
    Link(head.prev, first);
    Link(last, head);
    assert a + b[1..] == [head] + (ds + ss);
    assert Path(a) && Path(b[1..]);
    Joined(a, b[1..]);
  }
}
