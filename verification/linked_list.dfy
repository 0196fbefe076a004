/**
 * A singly linked list built from mutable nodes, modelled on linked-list.js.
 *
 * The list keeps three pieces of real state, `size`, `head` and `tail`, and
 * every node keeps a `value` and a `next` link. The ghost fields `contents`
 * (the values in order) and `nodes` (the node objects in order) give the
 * abstract view that every operation is specified against.
 */
module LinkedLists {

  /** The argument of `removeAt`, which a caller may leave out. */
  datatype Option<T> = None | Some(value: T)

  /** The failures the list reports instead of changing its state. */
  datatype Error =
    | IndexAboveSize(size: nat)  // index at or beyond the bound (insertAt: > size, at: >= size)
    | NegativeIndex              // negative index (insertAt, at)
    | UndefinedIndex             // removeAt called without an index
    | IndexOutOfBounds           // removeAt with an index outside [0, size)
    | EmptyList                  // pop on an empty list

  /** Result of an operation that returns nothing when it succeeds. */
  datatype Outcome = Pass | Fail(error: Error)

  /** Result of an operation that returns a value when it succeeds. */
  datatype Result<T> = Ok(value: T) | Err(error: Error)

  // ---------------------------------------------------------------------
  // Rendering (the text that toString builds)
  // ---------------------------------------------------------------------

  const Prefix: string := "(head) => "
  const Suffix: string := "(null)"

  /** The text one element contributes: its value in parentheses and an arrow. */
  function Cell(text: string): string {
    "(" + text + ") => "
  }

  /** The cells of all elements, in list order. */
  function Cells<T>(s: seq<T>, show: T -> string): string {
    if s == [] then "" else Cell(show(s[0])) + Cells(s[1..], show)
  }

  /** The full rendering of a list whose values are `s`. */
  function Render<T>(s: seq<T>, show: T -> string): string {
    Prefix + Cells(s, show) + Suffix
  }

  /** The cells of a concatenation are the cells of each part, in order. */
  lemma {:induction false} CellsAppend<T>(s: seq<T>, t: seq<T>, show: T -> string)
    ensures Cells(s + t, show) == Cells(s, show) + Cells(t, show)
  {
    if s == [] {
      assert s + t == t;
    } else {
      assert (s + t)[1..] == s[1..] + t;
      CellsAppend(s[1..], t, show);
    }
  }

  /** An empty list renders as the prefix followed directly by the suffix. */
  lemma RenderEmpty<T>(show: T -> string)
    ensures Render([], show) == "(head) => (null)"
  {
  }

  /** A one-element list has exactly one cell. */
  lemma CellsSingle<T>(v: T, show: T -> string)
    ensures Cells([v], show) == Cell(show(v))
  {
    assert Cells([v], show) == Cell(show(v)) + Cells([], show);
  }

  /** Appending a value adds exactly its cell just before "(null)". */
  lemma RenderAppend<T>(s: seq<T>, v: T, show: T -> string)
    ensures Render(s + [v], show) == Prefix + (Cells(s, show) + Cell(show(v))) + Suffix
  {
    CellsAppend(s, [v], show);
    CellsSingle(v, show);
  }

  /** Removing the element at `i` cuts exactly its cell out of the rendering. */
  lemma RenderRemoveAt<T>(s: seq<T>, i: nat, show: T -> string)
    requires i < |s|
    ensures Render(s, show)
         == Prefix + (Cells(s[..i], show) + (Cell(show(s[i])) + Cells(s[i + 1..], show))) + Suffix
    ensures Render(s[..i] + s[i + 1..], show)
         == Prefix + (Cells(s[..i], show) + Cells(s[i + 1..], show)) + Suffix
  {
    assert s == s[..i] + ([s[i]] + s[i + 1..]);
    CellsAppend(s[..i], [s[i]] + s[i + 1..], show);
    CellsAppend([s[i]], s[i + 1..], show);
    CellsSingle(s[i], show);
    CellsAppend(s[..i], s[i + 1..], show);
  }

  /** Inserting `v` at `i` puts exactly its cell between those of s[..i] and s[i..]. */
  lemma RenderInsertAt<T>(s: seq<T>, i: nat, v: T, show: T -> string)
    requires i <= |s|
    ensures Render(s[..i] + [v] + s[i..], show)
         == Prefix + ((Cells(s[..i], show) + Cell(show(v))) + Cells(s[i..], show)) + Suffix
  {
    CellsAppend(s[..i] + [v], s[i..], show);
    CellsAppend(s[..i], [v], show);
    CellsSingle(v, show);
  }

  // ---------------------------------------------------------------------
  // Sequences of distinct elements
  // ---------------------------------------------------------------------

  /** Putting an element that is not yet in `s` into it keeps the elements pairwise distinct. */
  lemma SpliceDistinct<X>(s: seq<X>, x: X, i: nat)
    requires i <= |s| && x !in s
    requires forall a, b :: 0 <= a < b < |s| ==> s[a] != s[b]
    ensures var t := s[..i] + [x] + s[i..];
      forall a, b :: 0 <= a < b < |t| ==> t[a] != t[b]
  {
  }

  // ---------------------------------------------------------------------
  // Nodes and the list
  // ---------------------------------------------------------------------

  /** A list cell: a value and the link to the following cell, if any. */
  class Node<T> {
    var value: T
    var next: Node?<T>

    constructor (data: T)
      ensures value == data && next == null
    {
      value := data;
      next := null;
    }
  }

  /** The node reached from `n` by following `next` `k` times (null once the chain ends). */
  ghost function Follow<T>(n: Node?<T>, k: nat): Node?<T>
    reads *
    decreases k
  {
    if k == 0 || n == null then n else Follow(n.next, k - 1)
  }

  class LinkedList<T(==)> {
    var size: nat
    var head: Node?<T>
    var tail: Node?<T>

    ghost var contents: seq<T>
    ghost var nodes: seq<Node<T>>
    ghost var Repr: set<object>

    /**
     * The list invariant: `nodes` is the chain from `head`, each node linked to
     * the next and the last one to null, no node twice; `contents` holds their
     * values; `size` counts them; `head` and `tail` are null exactly when the
     * list is empty and otherwise are the first and the last node.
     */
    ghost predicate Valid()
      reads this, Repr
      ensures Valid() ==> this in Repr
    {
      this in Repr &&
      |nodes| == |contents| == size &&
      (forall i :: 0 <= i < |nodes| ==> nodes[i] in Repr) &&
      (forall i :: 0 <= i < |nodes| ==> nodes[i].value == contents[i]) &&
      (forall i :: 0 <= i < |nodes| - 1 ==> nodes[i].next == nodes[i + 1]) &&
      (forall i, j :: 0 <= i < j < |nodes| ==> nodes[i] != nodes[j]) &&
      (size == 0 ==> head == null && tail == null) &&
      (size > 0 ==> head == nodes[0] && tail == nodes[size - 1] && tail.next == null)
    }

    constructor ()
      ensures Valid() && fresh(Repr)
      ensures contents == [] && nodes == [] && size == 0
      ensures head == null && tail == null
    {
      size := 0;
      head, tail := null, null;
      contents, nodes := [], [];
      Repr := {this};
    }

    /**
     * Following `next` from the node at position k visits the later nodes in
     * order and reaches null exactly after the last one: the chain has no cycle.
     */
    lemma {:induction false} FollowChain(k: nat, i: nat)
      requires Valid()
      requires k < |nodes| && k + i <= |nodes|
      ensures Follow(nodes[k], i) == if k + i < |nodes| then nodes[k + i] else null
      decreases i
    {
      if i > 0 {
        if k + 1 < |nodes| {
          FollowChain(k + 1, i - 1);
        } else {
          assert nodes[k] == tail;
        }
      }
    }

    /** The cached size is the number of values in the list. */
    function Size(): (n: nat)
      reads this, Repr
      requires Valid()
      ensures n == |contents| == |nodes|
    {
      size
    }

    /** The node `index` hops after `start`, where `start` is the node at position k. */
    method FindAt(index: nat, start: Node<T>, ghost k: nat) returns (p: Node<T>)
      requires Valid()
      requires k + index < |nodes| && start == nodes[k]
      ensures p == nodes[k + index] && p.value == contents[k + index]
      ensures p == Follow(start, index)
    {
      p := start;
      var n: nat := index;
      while n > 0
        invariant n <= index
        invariant p == nodes[k + index - n]
        decreases n
      {
        assert p.next == nodes[k + index - n + 1];
        p := p.next;
        n := n - 1;
      }
      FollowChain(k, index);
    }

    /** Adds `v` after the last node; the new node becomes the tail. */
    method Append(v: T)
      requires Valid()
      modifies Repr
      ensures Valid() && fresh(Repr - old(Repr))
      ensures contents == old(contents) + [v] && size == old(size) + 1
      ensures |nodes| == size && nodes[..old(size)] == old(nodes) && fresh(nodes[old(size)])
      ensures tail == nodes[old(size)] && tail.value == v && tail.next == null
    {
      var n := new Node(v);
      if head == null {
        head := n;
        tail := n;
      } else {
        tail.next := n;
        tail := n;
      }
      size := size + 1;
      contents := contents + [v];
      nodes := nodes + [n];
      Repr := Repr + {n};
    }

    /** Adds `v` before the first node; the new node becomes the head. */
    method Prepend(v: T)
      requires Valid()
      modifies Repr
      ensures Valid() && fresh(Repr - old(Repr))
      ensures contents == [v] + old(contents) && size == old(size) + 1
      ensures |nodes| == size && nodes[1..] == old(nodes) && fresh(nodes[0])
      ensures head == nodes[0] && head.value == v
    {
      var n := new Node(v);
      if head == null {
        head := n;
        tail := n;
      } else {
        n.next := head;
        head := n;
      }
      size := size + 1;
      contents := [v] + contents;
      nodes := [n] + nodes;
      Repr := Repr + {n};
    }

    /**
     * Inserts `v` so that it becomes element `index`; an index outside
     * [0, size] is reported and leaves the list as it was.
     */
    method InsertAt(v: T, index: int) returns (r: Outcome)
      requires Valid()
      modifies Repr
      ensures Valid() && fresh(Repr - old(Repr))
      ensures index > old(size) ==> r == Fail(IndexAboveSize(old(size)))
      ensures index < 0 ==> r == Fail(NegativeIndex)
      ensures r.Pass? <==> 0 <= index <= old(size)
      ensures r.Fail? ==> unchanged(old(Repr)) && Repr == old(Repr)
      ensures r.Pass? ==>
        && contents == old(contents[..index]) + [v] + old(contents[index..])
        && size == old(size) + 1
        && |nodes| == size
        && nodes[..index] == old(nodes[..index])
        && nodes[index + 1..] == old(nodes[index..])
        && fresh(nodes[index])
    {
      if index > size {
        return Fail(IndexAboveSize(size));
      }
      if index < 0 {
        return Fail(NegativeIndex);
      }
      if index == 0 {
        Prepend(v);
        return Pass;
      }
      if index == size {
        Append(v);
        return Pass;
      }
      var before := FindAt(index - 1, head, 0);
      LinkAfter(before, v, index);
      return Pass;
    }

    /**
     * The middle case of InsertAt: a new node holding `v` is linked in right
     * after `before`, the node at position i - 1.
     */
    method LinkAfter(before: Node<T>, v: T, ghost i: nat)
      requires Valid()
      requires 0 < i < |nodes| && before == nodes[i - 1]
      modifies this, before
      ensures Valid() && fresh(Repr - old(Repr))
      ensures contents == old(contents[..i]) + [v] + old(contents[i..])
      ensures size == old(size) + 1 && |nodes| == size
      ensures nodes[..i] == old(nodes[..i]) && nodes[i + 1..] == old(nodes[i..])
      ensures fresh(nodes[i])
    {
      ghost var was := nodes;
      var n := new Node(v);
      n.next := before.next;
      before.next := n;
      size := size + 1;
      contents := contents[..i] + [v] + contents[i..];
      nodes := nodes[..i] + [n] + nodes[i..];
      Repr := Repr + {n};
      forall j | 0 <= j < |nodes|
        ensures nodes[j] == if j < i then was[j] else if j == i then n else was[j - 1]
      {
      }
      forall j | 0 <= j < |nodes|
        ensures nodes[j] in Repr && nodes[j].value == contents[j]
      {
      }
      SpliceDistinct(was, n, i);
      forall j | 0 <= j < |nodes| - 1
        ensures nodes[j].next == nodes[j + 1]
      {
        if j < i - 1 {
          assert nodes[j] == was[j] != before;
        } else if j > i {
          assert nodes[j] == was[j - 1] != before;
        }
      }
    }

    /**
     * Removes the element at `index`; a missing index or one outside
     * [0, size) is reported and leaves the list as it was.
     */
    method RemoveAt(index: Option<int>) returns (r: Outcome)
      requires Valid()
      modifies Repr
      ensures Valid() && Repr == old(Repr)
      ensures index.None? ==> r == Fail(UndefinedIndex)
      ensures index.Some? && !(0 <= index.value < old(size)) ==> r == Fail(IndexOutOfBounds)
      ensures r.Pass? <==> index.Some? && 0 <= index.value < old(size)
      ensures r.Fail? ==> unchanged(old(Repr))
      ensures r.Pass? ==>
        && contents == old(contents[..index.value]) + old(contents[index.value + 1..])
        && size == old(size) - 1
        && nodes == old(nodes[..index.value]) + old(nodes[index.value + 1..])
    {
      if index.None? {
        return Fail(UndefinedIndex);
      }
      var i := index.value;
      if i < 0 || i >= size {
        return Fail(IndexOutOfBounds);
      }
      ghost var c0, n0 := contents, nodes;
      if i == 0 {
        UnlinkHead();
        assert contents == c0[..i] + c0[i + 1..];
        assert nodes == n0[..i] + n0[i + 1..];
      } else {
        var before := FindAt(i - 1, head, 0);
        UnlinkAfter(before, i);
      }
      return Pass;
    }

    /**
     * The index-0 case of RemoveAt: `head` moves to its successor, and `tail`
     * becomes null when that empties the list.
     */
    method UnlinkHead()
      requires Valid() && size > 0
      modifies this
      ensures Valid() && Repr == old(Repr)
      ensures contents == old(contents[1..]) && nodes == old(nodes[1..])
      ensures size == old(size) - 1
    {
      ghost var was := nodes;
      head := head.next;
      if head == null {
        tail := null;
      }
      size := size - 1;
      contents := contents[1..];
      nodes := nodes[1..];
      forall j | 0 <= j < |nodes| - 1
        ensures nodes[j].next == nodes[j + 1]
      {
        assert nodes[j] == was[j + 1] && nodes[j + 1] == was[j + 2];
      }
    }

    /**
     * The middle and last cases of RemoveAt: the node at position i, which
     * follows `before`, is unlinked; `tail` moves back when it was that node.
     */
    method UnlinkAfter(before: Node<T>, ghost i: nat)
      requires Valid()
      requires 0 < i < |nodes| && before == nodes[i - 1]
      modifies this, before
      ensures Valid() && Repr == old(Repr)
      ensures contents == old(contents[..i]) + old(contents[i + 1..])
      ensures size == old(size) - 1
      ensures nodes == old(nodes[..i]) + old(nodes[i + 1..])
    {
      ghost var was := nodes;
      var doomed := before.next;
      assert doomed == was[i];
      var after := doomed.next;
      before.next := after;
      if doomed == tail {
        tail := before;
      }
      size := size - 1;
      contents := contents[..i] + contents[i + 1..];
      nodes := nodes[..i] + nodes[i + 1..];
      forall j | 0 <= j < |nodes|
        ensures nodes[j] == if j < i then was[j] else was[j + 1]
      {
      }
      forall j | 0 <= j < |nodes|
        ensures nodes[j] in Repr && nodes[j].value == contents[j]
      {
      }
      forall a, b | 0 <= a < b < |nodes|
        ensures nodes[a] != nodes[b]
      {
      }
      forall j | 0 <= j < |nodes| - 1
        ensures nodes[j].next == nodes[j + 1]
      {
        if j != i - 1 {
          assert nodes[j] != before;
        }
      }
    }

    /** The value at `index`, or the reason there is none. */
    method At(index: int) returns (r: Result<T>)
      requires Valid()
      ensures index >= |contents| ==> r == Err(IndexAboveSize(|contents|))
      ensures index < 0 ==> r == Err(NegativeIndex)
      ensures 0 <= index < |contents| ==> r == Ok(contents[index])
    {
      if index >= size {
        return Err(IndexAboveSize(size));
      }
      if index < 0 {
        return Err(NegativeIndex);
      }
      var p := FindAt(index, head, 0);
      return Ok(p.value);
    }

    /** Removes the last element; the node before it becomes the tail. */
    method Pop() returns (r: Outcome)
      requires Valid()
      modifies Repr
      ensures Valid() && Repr == old(Repr)
      ensures r.Pass? <==> old(size) > 0
      ensures r.Fail? ==> r == Fail(EmptyList) && unchanged(old(Repr))
      ensures r.Pass? ==>
        && contents == old(contents[..|contents| - 1])
        && size == old(size) - 1
        && nodes == old(nodes[..|nodes| - 1])
      ensures r.Pass? && old(size) == 1 ==> head == null && tail == null
      ensures r.Pass? && old(size) > 1 ==> tail == old(nodes[|nodes| - 2]) && tail.next == null
    {
      if size == 0 {
        return Fail(EmptyList);
      }
      if size == 1 {
        head := null;
        tail := null;
        size := size - 1;
        contents, nodes := [], [];
        return Pass;
      }
      var newTail := FindAt(size - 2, head, 0);
      newTail.next := null;
      tail := newTail;
      size := size - 1;
      contents := contents[..size];
      nodes := nodes[..size];
      return Pass;
    }

    /** Whether some element equals `v`. */
    method Contains(v: T) returns (found: bool)
      requires Valid()
      ensures found <==> v in contents
    {
      var p := head;
      if p == null {
        return false;
      }
      ghost var i := 0;
      while p.value != v
        invariant i < |nodes| && p == nodes[i]
        invariant v !in contents[..i]
        decreases |nodes| - i
      {
        assert contents[..i + 1] == contents[..i] + [contents[i]];
        assert i < |nodes| - 1 ==> p.next == nodes[i + 1];
        p := p.next;
        i := i + 1;
        if p == null {
          assert contents[..i] == contents;
          return false;
        }
      }
      return true;
    }

    /** The position of the first element equal to `v`, or -1 when there is none. */
    method Find(v: T) returns (k: int)
      requires Valid()
      ensures -1 <= k < |contents|
      ensures k == -1 <==> v !in contents
      ensures k >= 0 ==> contents[k] == v && v !in contents[..k]
    {
      var index := 0;
      var p := head;
      if p == null {
        return -1;
      }
      while p.value != v
        invariant index < |nodes| && p == nodes[index]
        invariant v !in contents[..index]
        decreases |nodes| - index
      {
        assert contents[..index + 1] == contents[..index] + [contents[index]];
        assert index < |nodes| - 1 ==> p.next == nodes[index + 1];
        p := p.next;
        index := index + 1;
        if p == null {
          assert contents[..index] == contents;
          return -1;
        }
      }
      return index;
    }

    /** The text "(head) => (v0) => ... => (null)" for the current values. */
    method ToString(show: T -> string) returns (s: string)
      requires Valid()
      ensures s == Render(contents, show)
    {
      s := Prefix;
      var p := head;
      if p == null {
        s := s + Suffix;
        return;
      }
      ghost var i := 0;
      while p != null
        invariant i <= |nodes|
        invariant p == if i < |nodes| then nodes[i] else null
        invariant s == Prefix + Cells(contents[..i], show)
        decreases |nodes| - i
      {
        CellsAppend(contents[..i], [contents[i]], show);
        assert contents[..i + 1] == contents[..i] + [contents[i]];
        s := s + Cell(show(p.value));
        p := p.next;
        i := i + 1;
      }
      assert contents[..i] == contents;
      s := s + Suffix;
    }
  }

  /** Values that are already text render as themselves. */
  function Verbatim(s: string): string {
    s
  }

  /**
   * The removeAt example: dog, cat and parrot appended, then index 1 removed.
   * The contracts alone determine both renderings and the final size.
   */
  method RemoveMiddleExample() returns (before: string, after: string, n: nat)
    ensures before == Prefix + (Cell("dog") + (Cell("cat") + Cell("parrot"))) + Suffix
    ensures after == Prefix + (Cell("dog") + Cell("parrot")) + Suffix
    ensures n == 2
  {
    var list := new LinkedList<string>();
    list.Append("dog");
    list.Append("cat");
    list.Append("parrot");
    assert list.contents == ["dog", "cat", "parrot"];
    before := list.ToString(Verbatim);
    var r := list.RemoveAt(Some(1));
    assert list.contents == ["dog", "parrot"];
    after := list.ToString(Verbatim);
    n := list.Size();
    assert ["dog", "cat", "parrot"][1..] == ["cat", "parrot"];
    assert ["cat", "parrot"][1..] == ["parrot"];
    assert ["dog", "parrot"][1..] == ["parrot"];
    CellsSingle("parrot", Verbatim);
  }
}
