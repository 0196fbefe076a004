/**
 * `findAt`, `append`, `prepend`, `removeAt`, `pop` and `at` of linked-list.js
 * as they are written, on an arena of nodes: node k holds values[k] and
 * next[k], and -1 stands for null. `Chain` is the sequence of values that
 * `toString` would show. Nothing here keeps the list invariant. The lemmas at
 * the end exhibit one input per defect: a null `tail` after `append`, two
 * call sequences after which the chain from `head` no longer matches `size`,
 * two stale-`tail` sequences, and two null dereferences.
 * LinkedLists holds the corrected model.
 */
module AsWritten {
  import opened LinkedLists

  const Null: int := -1

  /** The three captured variables of the list and the arena of its nodes. */
  datatype Raw<T> = Raw(size: int, head: int, tail: int, values: seq<T>, next: seq<int>)

  /** The initial state: no nodes, null `head` and `tail`. */
  function Empty<T>(): (r: Raw<T>)
    ensures r.size == |Chain(r)| == 0
  {
    Raw(0, Null, Null, [], [])
  }

  /** Whether `p` names a node of the arena (dereferencing anything else crashes). */
  predicate IsNode<T>(l: Raw<T>, p: int) {
    0 <= p < |l.values| && p < |l.next|
  }

  /** `p.nextNode`, with null for a node outside the arena. */
  function NextOf(next: seq<int>, p: int): int {
    if 0 <= p < |next| then next[p] else Null
  }

  /** `p.nextNode = q`. */
  function SetNext(next: seq<int>, p: int, q: int): seq<int> {
    if 0 <= p < |next| then next[p := q] else next
  }

  /**
   * findAt(index, p); None when it dereferences null. `fuel` only bounds the
   * recursion so that the function terminates; callers pass the number of
   * nodes in the arena. A negative index never reaches 0, so it always ends
   * in None.
   */
  function FindAt(next: seq<int>, index: int, p: int, fuel: nat): (r: Option<int>)
    ensures index < 0 ==> r == None
    ensures index == 0 ==> r == Some(p)
    decreases fuel
  {
    if index == 0 then Some(p)
    else if p == Null || fuel == 0 then None
    else FindAt(next, index - 1, NextOf(next, p), fuel - 1)
  }

  /** append(value): three branches, the first of which leaves `tail` null. */
  function Append<T>(l: Raw<T>, v: T): (r: Raw<T>)
    ensures r.size == l.size + 1 && r.values == l.values + [v]
    ensures l.head == Null ==> r.head != Null && r.tail == l.tail
  {
    var n := |l.values|;
    var next := l.next + [Null];
    if l.head == Null then
      Raw(l.size + 1, n, l.tail, l.values + [v], SetNext(next, n, l.tail))
    else if l.tail == Null then
      Raw(l.size + 1, l.head, n, l.values + [v], SetNext(next, l.head, n))
    else
      Raw(l.size + 1, l.head, n, l.values + [v], SetNext(next, l.tail, n))
  }

  /** prepend(value): on an empty list `tail` is never set. */
  function Prepend<T>(l: Raw<T>, v: T): (r: Raw<T>)
    ensures r.size == l.size + 1 && r.values == l.values + [v] && r.tail == l.tail
  {
    var n := |l.values|;
    var next := l.next + [Null];
    if l.head == Null then
      Raw(l.size + 1, n, l.tail, l.values + [v], SetNext(next, n, l.tail))
    else
      Raw(l.size + 1, n, l.tail, l.values + [v], SetNext(next, n, l.head))
  }

  /** removeAt(index): neither the index-0 branch nor the splice ever touches `tail`. */
  function RemoveAt<T>(l: Raw<T>, index: Option<int>): (r: Option<Raw<T>>)
    ensures r.Some? ==> r.value.tail == l.tail && r.value.values == l.values
  {
    if index.None? then Some(l)
    else if index.value < 0 || index.value >= l.size then Some(l)
    else if index.value == 0 then
      if IsNode(l, l.head) then Some(l.(head := NextOf(l.next, l.head), size := l.size - 1))
      else None
    else
      match FindAt(l.next, index.value - 1, l.head, |l.next|)
      case None => None
      case Some(before) =>
        var doomed := NextOf(l.next, before);
        if IsNode(l, before) && IsNode(l, doomed) then
          var after := NextOf(l.next, doomed);
          Some(l.(next := SetNext(l.next, before, after), size := l.size - 1))
        else None
  }

  /** pop(): on an empty list it searches for the node at -2 and crashes. */
  function Pop<T>(l: Raw<T>): (r: Option<Raw<T>>)
    ensures r.Some? ==> r.value.values == l.values
    ensures l.size < 1 ==> r == None
  {
    if l.size == 1 then Some(l.(head := Null, tail := Null, size := 0))
    else
      match FindAt(l.next, l.size - 2, l.head, |l.next|)
      case None => None
      case Some(t) =>
        if IsNode(l, t) then Some(l.(next := SetNext(l.next, t, Null), tail := t, size := l.size - 1))
        else None
  }

  /** at(index): None when the source crashes, Some(None) for the reported error. */
  function At<T>(l: Raw<T>, index: int): (r: Option<Option<T>>)
    ensures r == Some(None) <==> index >= l.size
    ensures index < 0 && index < l.size ==> r == None
  {
    if index >= l.size then Some(None)
    else
      match FindAt(l.next, index, l.head, |l.next|)
      case None => None
      case Some(p) => if IsNode(l, p) then Some(Some(l.values[p])) else None
  }

  /** The values met by following `next` from `p`, for at most `fuel` nodes. */
  function Walk<T>(l: Raw<T>, p: int, fuel: nat): (r: seq<T>)
    ensures |r| <= fuel
    ensures forall k :: 0 <= k < |r| ==> r[k] in l.values
    decreases fuel
  {
    if fuel == 0 || !(0 <= p < |l.values|) then []
    else [l.values[p]] + Walk(l, NextOf(l.next, p), fuel - 1)
  }

  /** What toString prints: the values on the chain from `head`. */
  function Chain<T>(l: Raw<T>): (r: seq<T>)
    ensures |r| <= |l.values|
    ensures l.head == Null ==> r == []
  {
    Walk(l, l.head, |l.values|)
  }

  /** Whether `p` indexes a value of the arena. */
  predicate IsNodeValue<T>(l: Raw<T>, p: int) {
    0 <= p < |l.values|
  }

  /**
   * Within the chain's length, findAt reaches a node, and that node holds the
   * value `Walk` lists at the same position.
   */
  lemma {:induction false} FindAtWalk<T>(l: Raw<T>, index: nat, p: int, fuel: nat)
    requires index < |Walk(l, p, fuel)|
    ensures FindAt(l.next, index, p, fuel).Some?
    ensures IsNodeValue(l, FindAt(l.next, index, p, fuel).value)
    ensures l.values[FindAt(l.next, index, p, fuel).value] == Walk(l, p, fuel)[index]
  {
    if index > 0 {
      FindAtWalk(l, index - 1, NextOf(l.next, p), fuel - 1);
    }
  }

  // ---------------------------------------------------------------------
  // Where the code as written breaks the list invariant
  // ---------------------------------------------------------------------

  /** append on an empty list leaves `tail` null although the list has a last node. */
  lemma AppendToEmptyLeavesTailNull()
    ensures Append(Empty<int>(), 1).size == 1
    ensures Append(Empty<int>(), 1).head == 0
    ensures Append(Empty<int>(), 1).tail == Null
  {
  }

  /**
   * prepend(1), prepend(2), append(3): the append sees a null tail and
   * overwrites head.nextNode, so node 1 is lost while size says 3.
   */
  lemma PrependPrependAppendLosesNode()
    ensures var l := Append(Prepend(Prepend(Empty<int>(), 1), 2), 3);
      l.size == 3 && Chain(l) == [2, 3]
  {
    // Final arena: head is node 1, next == [-1, 2, -1]; node 0 is unreachable.
  }

  /**
   * append(1), append(2), removeAt(0) twice, append(3): the stale tail
   * becomes the successor of the new head, so the removed 2 reappears.
   */
  lemma RemoveHeadKeepsStaleTail()
    ensures var l0 := Append(Append(Empty<int>(), 1), 2);
      RemoveAt(l0, Some(0)).Some? &&
      RemoveAt(RemoveAt(l0, Some(0)).value, Some(0)).Some? &&
      var l := Append(RemoveAt(RemoveAt(l0, Some(0)).value, Some(0)).value, 3);
      l.size == 1 && Chain(l) == [3, 2]
  {
    // After both removals: size 0, head null, tail still node 1.
    // The final append sets next[2] := tail, giving the chain 2 -> 1.
  }

  /**
   * append(1), append(2), append(3), removeAt(2), append(4): the tail still
   * names the removed node, so 4 is linked after it and never reached.
   */
  lemma RemoveLastKeepsStaleTail()
    ensures var l0 := Append(Append(Append(Empty<int>(), 1), 2), 3);
      RemoveAt(l0, Some(2)).Some? &&
      var l := Append(RemoveAt(l0, Some(2)).value, 4);
      l.size == 3 && Chain(l) == [1, 2]
  {
    // After removeAt(2): next == [1, -1, -1] but tail is still node 2,
    // so append(4) sets next[2] := 3, off the chain 0 -> 1.
  }

  /** pop on an empty list dereferences null. */
  lemma PopOnEmptyCrashes()
    ensures Pop(Empty<int>()) == None
  {
  }

  /** at(-1) passes the bound check and walks off the end of the chain. */
  lemma AtNegativeCrashes()
    ensures At(Append(Empty<int>(), 1), -1) == None
  {
    // findAt(-1, node 0) steps to null and then dereferences it.
  }
}
