/*
 * The circular doubly-linked list of Utils/Structure.cs: a sentinel head node,
 * a `size` counter and nodes rewired in place by Append, Insert and Delete.
 *
 * The class keeps ghost `Nodes`/`Contents` in step with the pointers, so every
 * mutating method is specified by what it does to the sequence of elements.
 * The same sequence operations, as functions, are what the polygon engine uses
 * for its rings.
 */
module Structure {

  /** The two exceptions the list raises. */
  datatype ListError =
    | IndexOutOfRange   // GetNode's IndexOutOfRangeException (also raised by Append)
    | NoInsertPoint     // the plain Exception raised by Insert

  /** Result of an operation that returns a value or throws. */
  datatype Outcome<T> = Ok(value: T) | Thrown(error: ListError)

  /** Result of an operation that returns nothing or throws. */
  datatype Status = Success | Failure(error: ListError)

  // ---------------------------------------------------------------------------
  // Index arithmetic and the sequence effect of each mutation
  // ---------------------------------------------------------------------------

  lemma MulAtLeast(x: int, n: int)
    requires x >= 1 && n > 0
    ensures x * n >= n
  {
  }

  /** The Euclidean remainder is the unique `r` in [0, n) with a == q * n + r. */
  lemma ModUnique(a: int, n: int, q: int, r: int)
    requires n > 0 && 0 <= r < n && a == q * n + r
    ensures a % n == r
  {
    var q0, r0 := a / n, a % n;
    assert a == q0 * n + r0;
    assert (q - q0) * n == r0 - r;
    if q > q0 { MulAtLeast(q - q0, n); }
    if q < q0 { MulAtLeast(q0 - q, n); }
  }

  /** Adding or subtracting the modulus does not change a Euclidean remainder. */
  lemma ModShift(index: int, size: int)
    requires size > 0
    ensures (index - size) % size == index % size
    ensures (index + size) % size == index % size
  {
    var q, r := index / size, index % size;
    assert index == q * size + r;
    ModUnique(index - size, size, q - 1, r);
    ModUnique(index + size, size, q + 1, r);
  }

  /** Wrap-around index: steps by `size` until the index is in range. */
  function NormalIndex(size: int, index: int): (r: int)
    requires size > 0
    ensures 0 <= r < size
    ensures 0 <= index < size ==> r == index
    decreases index < 0, if index < 0 then -index else index
  {
    if index > size - 1 then NormalIndex(size, index - size)
    else if index < 0 then NormalIndex(size, size + index)
    else index
  }

  /** The stepping loop computes the Euclidean remainder. */
  lemma {:induction false} NormalIndexIsMod(size: int, index: int)
    requires size > 0
    ensures NormalIndex(size, index) == index % size
    decreases index < 0, if index < 0 then -index else index
  {
    if index > size - 1 {
      ModShift(index, size);
      NormalIndexIsMod(size, index - size);
    } else if index < 0 {
      ModShift(index, size);
      NormalIndexIsMod(size, size + index);
    } else {
      ModUnique(index, size, 0, index);
    }
  }

  /** The indices `Append` accepts: 0 on an empty list, otherwise an existing position. */
  predicate AppendAccepts(size: int, index: int)
  {
    (size == 0 && index == 0) || (0 <= index < size)
  }

  /** The indices `Insert` accepts: the ones after the first. */
  predicate InsertAccepts(size: int, index: int)
  {
    0 < index < size
  }

  /** The list after `Append(index, t)`: `t` right after position `index`. */
  function Spliced<T>(s: seq<T>, index: int, t: T): seq<T>
    requires AppendAccepts(|s|, index)
  {
    if s == [] then [t] else s[..index + 1] + [t] + s[index + 1..]
  }

  /** The list after `Insert(index, t)`: `t` at position `index`. */
  function InsertedAt<T>(s: seq<T>, index: int, t: T): seq<T>
    requires 0 <= index <= |s|
  {
    s[..index] + [t] + s[index..]
  }

  /** The list after `Delete(index)`. */
  function Removed<T>(s: seq<T>, index: int): seq<T>
    requires 0 <= index < |s|
  {
    s[..index] + s[index + 1..]
  }

  /** Position at which `Append(index, _)` places the new element. */
  function AppendPosition(size: int, index: int): int
  {
    if size == 0 then 0 else index + 1
  }

  /** Append places `t` at AppendPosition and shifts the rest right by one. */
  lemma SplicedAt<T>(s: seq<T>, index: int, t: T, k: int)
    requires AppendAccepts(|s|, index) && 0 <= k <= |s|
    ensures |Spliced(s, index, t)| == |s| + 1
    ensures Spliced(s, index, t)[k] ==
      if k < AppendPosition(|s|, index) then s[k]
      else if k == AppendPosition(|s|, index) then t
      else s[k - 1]
  {
  }

  /** Deleting the appended element gives the original list back. */
  lemma SplicedThenRemoved<T>(s: seq<T>, index: int, t: T)
    requires AppendAccepts(|s|, index)
    ensures var p := AppendPosition(|s|, index);
      p < |Spliced(s, index, t)| && Removed(Spliced(s, index, t), p) == s
  {
    if s != [] {
      var r := Spliced(s, index, t);
      assert r[..index + 1] == s[..index + 1];
      assert r[index + 2..] == s[index + 1..];
      assert s == s[..index + 1] + s[index + 1..];
    }
  }

  /** Insert before position `index` is Append after position `index - 1`. */
  lemma InsertIsAppendBefore<T>(s: seq<T>, index: int, t: T)
    requires InsertAccepts(|s|, index)
    ensures InsertedAt(s, index, t) == Spliced(s, index - 1, t)
  {
  }

  /** AppendLast's index `Max(size - 1, 0)` always puts `t` at the end. */
  lemma AppendLastAtEnd<T>(s: seq<T>, t: T)
    ensures AppendAccepts(|s|, if |s| - 1 > 0 then |s| - 1 else 0)
    ensures Spliced(s, if |s| - 1 > 0 then |s| - 1 else 0, t) == s + [t]
  {
  }

  // ---------------------------------------------------------------------------
  // The node and the list
  // ---------------------------------------------------------------------------

  /** The position Next reads for `index` in a list of `size` elements: `index` itself, the last wrapping to 0. */
  function NextPosAsWritten(size: int, index: int): int
  {
    if index == size - 1 then 0 else index
  }

  /** The position Last reads: `index` itself, 0 wrapping to the last. */
  function LastPosAsWritten(size: int, index: int): int
  {
    if index == 0 then size - 1 else index
  }

  /** The position after `index` in a ring of `size` elements, as Next's documentation describes it. */
  function FollowingPos(size: int, index: int): int
  {
    if index == size - 1 then 0 else index + 1
  }

  /** The position before `index` in a ring of `size` elements, as Last's documentation describes it. */
  function PrecedingPos(size: int, index: int): int
  {
    if index == 0 then size - 1 else index - 1
  }

  /**
   * Next as written does not move: on a list of three elements, Next(1)
   * reads element 1 rather than element 2, and Last(1) reads element 1
   * rather than element 0.
   */
  lemma NextLastStayPut()
    ensures NextPosAsWritten(3, 1) == 1 && FollowingPos(3, 1) == 2
    ensures LastPosAsWritten(3, 1) == 1 && PrecedingPos(3, 1) == 0
  {
  }

  /** The corrected positions stay in range, agree with the wrapped index arithmetic, and undo one another. */
  lemma FollowingPrecedingInverse(size: int, index: int)
    requires 0 <= index < size
    ensures 0 <= FollowingPos(size, index) < size && 0 <= PrecedingPos(size, index) < size
    ensures FollowingPos(size, index) == (index + 1) % size && PrecedingPos(size, index) == (index - 1) % size
    ensures PrecedingPos(size, FollowingPos(size, index)) == index
    ensures FollowingPos(size, PrecedingPos(size, index)) == index
  {
    if index == size - 1 {
      ModUnique(index + 1, size, 1, 0);
    } else {
      ModUnique(index + 1, size, 0, index + 1);
    }
    if index == 0 {
      ModUnique(index - 1, size, -1, size - 1);
    } else {
      ModUnique(index - 1, size, 0, index - 1);
    }
  }

  class LinkNode<T> {
    var data: T
    var next: LinkNode?<T>
    var last: LinkNode?<T>

    constructor (val: T, last: LinkNode?<T>, next: LinkNode?<T>)
      ensures data == val && this.last == last && this.next == next
    {
      data := val;
      this.last := last;
      this.next := next;
    }
  }

  class DoubleLink<T(0)> {
    /** The elements, in index order. */
    ghost var Contents: seq<T>
    /** The nodes holding them, in index order (the head is not among them). */
    ghost var Nodes: seq<LinkNode<T>>
    ghost var Repr: set<object>

    var head: LinkNode<T>
    var size: int

    /** The node at ring position `k`, where positions -1 and `size` are the head. */
    ghost function At(k: int): LinkNode<T>
      reads this
    {
      if 0 <= k < |Nodes| then Nodes[k] else head
    }

    /** Ring invariant: every node's neighbours are its index neighbours, the head closes the ring. */
    ghost predicate Valid()
      reads this, Repr
    {
      && this in Repr && head in Repr
      && size == |Nodes| == |Contents|
      && (forall k :: 0 <= k < |Nodes| ==> Nodes[k] in Repr && Nodes[k] != head && Nodes[k].data == Contents[k])
      && (forall j, k :: 0 <= j < k < |Nodes| ==> Nodes[j] != Nodes[k])
      && head.next == At(0) && head.last == At(|Nodes| - 1)
      && (|Nodes| > 0 ==> Nodes[0].last == head && Nodes[|Nodes| - 1].next == head)
      && (forall j, k :: 0 <= j < k < |Nodes| && j + 1 == k ==> Nodes[j].next == Nodes[k] && Nodes[k].last == Nodes[j])
    }

    constructor ()
      ensures Valid() && fresh(Repr)
      ensures Contents == []
    {
      var d: T := *;
      var h := new LinkNode<T>(d, null, null);
      head := h;
      size := 0;
      Nodes := [];
      Contents := [];
      new;
      h.last := h;
      h.next := h;
      Repr := {this, h};
    }

    /**
     * `tnode` has been linked between the nodes at ring positions q - 1 and q
     * and recorded at position q of Nodes and Contents; no other field of a
     * node changed.
     */
    twostate predicate SpliceDone(q: int, new tnode: LinkNode<T>)
      reads this, Repr, tnode
    {
      && old(Valid()) && 0 <= q <= old(|Nodes|) && Repr == old(Repr) + {tnode}
      && fresh(tnode) && tnode.next == old(At(q)) && tnode.last == old(At(q - 1))
      && old(At(q - 1)).next == tnode && old(At(q)).last == tnode
      && head == old(head) && Nodes == old(Nodes)[..q] + [tnode] + old(Nodes)[q..]
      && |Contents| == |Nodes| && size == |Nodes|
      && Contents[..q] == old(Contents)[..q] && Contents[q + 1..] == old(Contents)[q..] && Contents[q] == tnode.data
      && (forall o: LinkNode<T> :: o in old(Repr) ==> o.data == old(o.data))
      && (forall o: LinkNode<T> :: o in old(Repr) && o != old(At(q - 1)) ==> o.next == old(o.next))
      && (forall o: LinkNode<T> :: o in old(Repr) && o != old(At(q)) ==> o.last == old(o.last))
    }

    /** After a splice the ring invariant holds again. */
    twostate lemma SplicedRing(q: int, new tnode: LinkNode<T>)
      requires SpliceDone(q, tnode)
      ensures Valid()
    {
      SplicedMembers(q, tnode);
      SplicedEnds(q, tnode);
      SplicedLinks(q, tnode);
    }

    /** The nodes of the spliced ring are distinct members of Repr, none is the head, and each holds its element. */
    twostate lemma SplicedMembers(q: int, new tnode: LinkNode<T>)
      requires SpliceDone(q, tnode)
      ensures forall k :: 0 <= k < |Nodes| ==> Nodes[k] in Repr && Nodes[k] != head && Nodes[k].data == Contents[k]
      ensures forall j, k :: 0 <= j < k < |Nodes| ==> Nodes[j] != Nodes[k]
    {
      var oldNodes := old(Nodes);
      assert Nodes[q] == tnode;
      forall k | 0 <= k < |Nodes| && k != q
        ensures Nodes[k] == if k < q then oldNodes[k] else oldNodes[k - 1]
      {
      }
      assert forall k :: 0 <= k < |oldNodes| ==> oldNodes[k] != tnode;
      forall k | 0 <= k < |Nodes|
        ensures Nodes[k] in Repr && Nodes[k] != head && Nodes[k].data == Contents[k]
      {
        if k < q {
          assert Nodes[k] == oldNodes[k];
        } else if k > q {
          assert Nodes[k] == oldNodes[k - 1];
        }
      }
    }

    /** The head still closes the spliced ring at both ends. */
    twostate lemma SplicedEnds(q: int, new tnode: LinkNode<T>)
      requires SpliceDone(q, tnode)
      ensures head.next == At(0) && head.last == At(|Nodes| - 1)
      ensures |Nodes| > 0 ==> Nodes[0].last == head && Nodes[|Nodes| - 1].next == head
    {
      var oldNodes, n := old(Nodes), old(|Nodes|);
      assert Nodes[q] == tnode;
      if q > 0 {
        assert Nodes[0] == oldNodes[0] && oldNodes[q - 1] != head;
      }
      if q < n {
        assert Nodes[n] == oldNodes[n - 1] && oldNodes[q] != head;
      }
    }

    /** Index neighbours are ring neighbours in the spliced ring. */
    twostate lemma SplicedLinks(q: int, new tnode: LinkNode<T>)
      requires SpliceDone(q, tnode)
      ensures forall j, k :: 0 <= j < k < |Nodes| && j + 1 == k ==> Nodes[j].next == Nodes[k] && Nodes[k].last == Nodes[j]
    {
      var oldNodes := old(Nodes);
      assert Nodes[q] == tnode;
      forall k | 0 <= k < |Nodes| && k != q
        ensures Nodes[k] == if k < q then oldNodes[k] else oldNodes[k - 1]
      {
      }
      forall j, k | 0 <= j < k < |Nodes| && j + 1 == k
        ensures Nodes[j].next == Nodes[k] && Nodes[k].last == Nodes[j]
      {
        if k < q {
          assert Nodes[j] == oldNodes[j] && Nodes[k] == oldNodes[k];
        } else if j > q {
          assert Nodes[j] == oldNodes[j - 1] && Nodes[k] == oldNodes[k - 1];
        }
      }
    }

    /** After the node at position q is bypassed and dropped from Nodes, the ring invariant holds again. */
    twostate lemma RemovedRing(q: int)
      requires old(Valid()) && 0 <= q < old(|Nodes|)
      requires old(At(q - 1)).next == old(At(q + 1)) && old(At(q + 1)).last == old(At(q - 1))
      requires head == old(head) && Nodes == old(Nodes)[..q] + old(Nodes)[q + 1..]
      requires |Contents| == |Nodes| && size == |Nodes| && Repr == old(Repr)
      requires Contents == old(Contents)[..q] + old(Contents)[q + 1..]
      requires forall o: LinkNode<T> :: o in old(Repr) ==> o.data == old(o.data)
      requires forall o: LinkNode<T> :: o in old(Repr) && o != old(At(q - 1)) ==> o.next == old(o.next)
      requires forall o: LinkNode<T> :: o in old(Repr) && o != old(At(q + 1)) ==> o.last == old(o.last)
      ensures Valid()
    {
      var oldNodes, prev, nxt := old(Nodes), old(At(q - 1)), old(At(q + 1));
      forall k | 0 <= k < |Nodes|
        ensures Nodes[k] == if k < q then oldNodes[k] else oldNodes[k + 1]
      {
      }
      forall j, k | 0 <= j < k < |Nodes| && j + 1 == k
        ensures Nodes[j].next == Nodes[k] && Nodes[k].last == Nodes[j]
      {
        if k < q {
          assert Nodes[j] == oldNodes[j] && Nodes[k] == oldNodes[k];
        } else if j >= q {
          assert Nodes[j] == oldNodes[j + 1] && Nodes[k] == oldNodes[k + 1];
        } else {
          assert Nodes[j] == prev && Nodes[k] == nxt;
        }
      }
      forall k | 0 <= k < |Nodes|
        ensures Nodes[k] in Repr && Nodes[k].data == Contents[k]
      {
        if k < q {
          assert Nodes[k] == oldNodes[k];
        } else {
          assert Nodes[k] == oldNodes[k + 1];
        }
      }
    }

    /** Strict node lookup: forward from the head for the first half, backward otherwise. */
    method GetNode(index: int) returns (r: Outcome<LinkNode<T>>)
      requires Valid()
      ensures r == if 0 <= index < |Nodes| then Ok(Nodes[index]) else Thrown(IndexOutOfRange)
    {
      if index < 0 || index >= size {
        return Thrown(IndexOutOfRange);
      }
      if index < size / 2 {
        var node := head.next;
        for i := 0 to index
          invariant node == Nodes[i]
        {
          node := node.next;
        }
        return Ok(node);
      }
      var rnode := head.last;
      var rindex := size - index - 1;
      for i := 0 to rindex
        invariant rnode == Nodes[size - 1 - i]
      {
        rnode := rnode.last;
      }
      return Ok(rnode);
    }

    method GetSize() returns (n: int)
      requires Valid()
      ensures n == |Contents|
    {
      return size;
    }

    method IsEmpty() returns (b: bool)
      requires Valid()
      ensures b <==> Contents == []
    {
      return size == 0;
    }

    /** NormalIndex on this list's size; on an empty list it would recurse forever, hence size > 0. */
    method NormalIndexOf(index: int) returns (r: int)
      requires Valid() && size > 0
      ensures 0 <= r < |Contents| && r == NormalIndex(|Contents|, index)
      decreases index < 0, if index < 0 then -index else index
    {
      if index > size - 1 {
        r := NormalIndexOf(index - size);
      } else if index < 0 {
        r := NormalIndexOf(size + index);
      } else {
        r := index;
      }
    }

    method Get(index: int) returns (r: Outcome<T>)
      requires Valid()
      ensures r == if 0 <= index < |Contents| then Ok(Contents[index]) else Thrown(IndexOutOfRange)
    {
      var n := GetNode(index);
      if n.Thrown? {
        return Thrown(n.error);
      }
      return Ok(n.value.data);
    }

    /** Wrap-around access; never throws on a non-empty list. */
    method GetSafe(index: int) returns (r: T)
      requires Valid() && size > 0
      ensures r == Contents[NormalIndex(|Contents|, index)]
      decreases index < 0, if index < 0 then -index else index
    {
      if index > size - 1 {
        r := GetSafe(index - size);
      } else if index < 0 {
        r := GetSafe(size + index);
      } else {
        var n := GetNode(index);
        r := n.value.data;
      }
    }

    /** Element `index` itself, except that the last index gives the first element. */
    method Next(index: int) returns (r: Outcome<T>)
      requires Valid()
      ensures var k := NextPosAsWritten(|Contents|, index);
        r == if 0 <= k < |Contents| then Ok(Contents[k]) else Thrown(IndexOutOfRange)
    {
      var k := index;
      if k == size - 1 {
        k := 0;
      }
      var n := GetNode(k);
      if n.Thrown? {
        return Thrown(n.error);
      }
      return Ok(n.value.data);
    }

    /** Element `index` itself, except that index 0 gives the last element. */
    method Last(index: int) returns (r: Outcome<T>)
      requires Valid()
      ensures var k := LastPosAsWritten(|Contents|, index);
        r == if 0 <= k < |Contents| then Ok(Contents[k]) else Thrown(IndexOutOfRange)
    {
      var k := index;
      if k == 0 {
        k := size - 1;
      }
      var n := GetNode(k);
      if n.Thrown? {
        return Thrown(n.error);
      }
      return Ok(n.value.data);
    }

    /** Next as documented: the element after `index`, cyclically; an index out of range throws. */
    method Following(index: int) returns (r: Outcome<T>)
      requires Valid()
      ensures r == if 0 <= index < |Contents| then Ok(Contents[FollowingPos(|Contents|, index)]) else Thrown(IndexOutOfRange)
    {
      if index < 0 || index >= size {
        return Thrown(IndexOutOfRange);
      }
      var k := index + 1;
      if index == size - 1 {
        k := 0;
      }
      var n := GetNode(k);
      r := Ok(n.value.data);
    }

    /** Last as documented: the element before `index`, cyclically; an index out of range throws. */
    method Preceding(index: int) returns (r: Outcome<T>)
      requires Valid()
      ensures r == if 0 <= index < |Contents| then Ok(Contents[PrecedingPos(|Contents|, index)]) else Thrown(IndexOutOfRange)
    {
      if index < 0 || index >= size {
        return Thrown(IndexOutOfRange);
      }
      var k := index - 1;
      if index == 0 {
        k := size - 1;
      }
      var n := GetNode(k);
      r := Ok(n.value.data);
    }

    method GetFirst() returns (r: Outcome<T>)
      requires Valid()
      ensures r == if Contents != [] then Ok(Contents[0]) else Thrown(IndexOutOfRange)
    {
      r := Get(0);
    }

    method GetLast() returns (r: Outcome<T>)
      requires Valid()
      ensures r == if Contents != [] then Ok(Contents[|Contents| - 1]) else Thrown(IndexOutOfRange)
    {
      r := Get(size - 1);
    }

    /** Splices `t` in right after the element at `index` (or as the only element of an empty list). */
    method Append(index: int, t: T) returns (status: Status)
      requires Valid()
      modifies Repr
      ensures Valid() && fresh(Repr - old(Repr))
      ensures status == if AppendAccepts(old(|Contents|), index) then Success else Failure(IndexOutOfRange)
      ensures Contents == if status.Success? then Spliced(old(Contents), index, t) else old(Contents)
    {
      var inode: LinkNode<T>;
      if index == 0 && size == 0 {
        inode := head;
      } else {
        if index < 0 {
          return Failure(IndexOutOfRange);
        }
        var n := GetNode(index);
        if n.Thrown? {
          return Failure(n.error);
        }
        inode := n.value;
      }
      status := Success;
      SpliceAfter(inode, AppendPosition(size, index), t);
    }

    /** The rewiring of Append: a new node for `t` between `inode` (ring position q - 1) and its successor. */
    method SpliceAfter(inode: LinkNode<T>, q: int, t: T)
      requires Valid() && 0 <= q <= |Contents| && inode == At(q - 1)
      modifies Repr
      ensures Valid() && fresh(Repr - old(Repr))
      ensures Contents == old(Contents)[..q] + [t] + old(Contents)[q..]
    {
      var after := inode.next;
      assert after == At(q);
      var tnode := new LinkNode<T>(t, inode, after);
      after.last := tnode;
      inode.next := tnode;
      size := size + 1;
      Nodes := Nodes[..q] + [tnode] + Nodes[q..];
      Contents := Contents[..q] + [t] + Contents[q..];
      Repr := Repr + {tnode};
      SplicedRing(q, tnode);
    }

    /** Appends after the last element, or as the first element of an empty list. */
    method AppendLast(t: T)
      requires Valid()
      modifies Repr
      ensures Valid() && fresh(Repr - old(Repr))
      ensures Contents == old(Contents) + [t]
    {
      AppendLastAtEnd(Contents, t);
      var status := Append(if size - 1 > 0 then size - 1 else 0, t);
    }

    /**
     * Splices `t` in before the element at `index`. Index 0 always fails:
     * it is delegated to Append(size, t), which is out of range.
     */
    method Insert(index: int, t: T) returns (status: Status)
      requires Valid()
      modifies Repr
      ensures Valid() && fresh(Repr - old(Repr))
      ensures status ==
        if old(|Contents|) < 1 || index >= old(|Contents|) then Failure(NoInsertPoint)
        else if index <= 0 then Failure(IndexOutOfRange)
        else Success
      ensures Contents == if status.Success? then InsertedAt(old(Contents), index, t) else old(Contents)
    {
      if size < 1 || index >= size {
        return Failure(NoInsertPoint);
      }
      if index == 0 {
        status := Append(size, t);
        return;
      }
      var n := GetNode(index);
      if n.Thrown? {
        return Failure(n.error);
      }
      status := Success;
      SpliceBefore(n.value, index, t);
    }

    /**
     * The rewiring of Insert: a new node for `t` between `inode` (ring
     * position q) and its predecessor, which links the same four pointers as
     * Append after that predecessor.
     */
    method SpliceBefore(inode: LinkNode<T>, q: int, t: T)
      requires Valid() && 0 <= q < |Contents| && inode == At(q)
      modifies Repr
      ensures Valid() && fresh(Repr - old(Repr))
      ensures Contents == old(Contents)[..q] + [t] + old(Contents)[q..]
    {
      var before := inode.last;
      assert before == At(q - 1) by {
        if q > 0 {
          assert Nodes[q - 1].next == Nodes[q] && Nodes[q].last == Nodes[q - 1];
        }
      }
      SpliceAfter(before, q, t);
    }

    /** Unlinks the node at `index`. */
    method Delete(index: int) returns (status: Status)
      requires Valid()
      modifies Repr
      ensures Valid() && Repr == old(Repr)
      ensures status == if 0 <= index < old(|Contents|) then Success else Failure(IndexOutOfRange)
      ensures Contents == if status.Success? then Removed(old(Contents), index) else old(Contents)
    {
      var n := GetNode(index);
      if n.Thrown? {
        return Failure(n.error);
      }
      var inode := n.value;
      assert inode.last == At(index - 1) && inode.next == At(index + 1);
      inode.last.next := inode.next;
      inode.next.last := inode.last;
      size := size - 1;
      Nodes := Nodes[..index] + Nodes[index + 1..];
      Contents := Contents[..index] + Contents[index + 1..];
      RemovedRing(index);
      return Success;
    }

    method DeleteFirst() returns (status: Status)
      requires Valid()
      modifies Repr
      ensures Valid() && Repr == old(Repr)
      ensures status == if old(Contents) != [] then Success else Failure(IndexOutOfRange)
      ensures Contents == if status.Success? then old(Contents)[1..] else old(Contents)
    {
      status := Delete(0);
    }

    method DeleteLast() returns (status: Status)
      requires Valid()
      modifies Repr
      ensures Valid() && Repr == old(Repr)
      ensures status == if old(Contents) != [] then Success else Failure(IndexOutOfRange)
      ensures Contents == if status.Success? then old(Contents)[..|old(Contents)| - 1] else old(Contents)
    {
      status := Delete(size - 1);
    }

    /** The elements in index order. */
    method Convert2List() returns (ts: seq<T>)
      requires Valid()
      ensures ts == Contents
    {
      ts := [];
      for i := 0 to size
        invariant ts == Contents[..i]
      {
        var r := Get(i);
        ts := ts + [r.value];
      }
    }
  }
}
