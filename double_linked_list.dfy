/** The recency list: the cache's nodes, doubly linked, from the most recently
  * used (head) to the least recently used (tail), with a running count. */
module Lists {
  import opened Nodes

  /** No element occurs twice in `s`: the first element is not among the
    * rest, and the rest has no repeats either. */
  ghost predicate Distinct<T>(s: seq<T>)
  {
    s == [] || (s[0] !in s[1..] && Distinct(s[1..]))
  }

  /** `Distinct` means exactly that any two positions hold different elements. */
  lemma {:induction false} DistinctIff<T>(s: seq<T>)
    ensures Distinct(s) <==> forall i, j :: 0 <= i < j < |s| ==> s[i] != s[j]
  {
    if s != [] {
      var t := s[1..];
      DistinctIff(t);
      if Distinct(s) {
        forall i, j | 0 <= i < j < |s| ensures s[i] != s[j] {
          assert s[j] == t[j - 1];
          if i > 0 {
            assert s[i] == t[i - 1];
          }
        }
      }
      if forall i, j :: 0 <= i < j < |s| ==> s[i] != s[j] {
        forall a, b | 0 <= a < b < |t| ensures t[a] != t[b] {
          assert t[a] == s[a + 1] && t[b] == s[b + 1];
        }
        forall j | 0 <= j < |t| ensures t[j] != s[0] {
          assert t[j] == s[j + 1];
        }
      }
    }
  }

  /** `s` with every occurrence of `x` taken out, the rest in their order. */
  ghost function Without<T>(s: seq<T>, x: T): (r: seq<T>)
    ensures x !in r && |r| <= |s|
  {
    if s == [] then []
    else if s[0] == x then Without(s[1..], x)
    else [s[0]] + Without(s[1..], x)
  }

  /** In a sequence without repeats, taking out the element at `i` removes
    * exactly position `i`. */
  lemma {:induction false} WithoutAt<T>(s: seq<T>, i: nat)
    requires Distinct(s) && i < |s|
    ensures Without(s, s[i]) == s[..i] + s[i + 1..]
  {
    var t := s[1..];
    if i == 0 {
      WithoutAbsent(t, s[0]);
    } else {
      assert t[i - 1] == s[i] && s[0] != s[i];
      assert Without(s, s[i]) == [s[0]] + Without(t, s[i]);
      WithoutAt(t, i - 1);
      assert t[..i - 1] + t[i..] == s[1..i] + s[i + 1..];
      assert s[..i] + s[i + 1..] == [s[0]] + (s[1..i] + s[i + 1..]);
    }
  }

  /** Moving the front element of a sequence without repeats to the front
    * changes nothing. */
  lemma MoveOfFrontKeepsOrder<T>(s: seq<T>)
    requires Distinct(s) && s != []
    ensures [s[0]] + Without(s, s[0]) == s
  {
    WithoutAt(s, 0);
    assert s[..0] + s[1..] == s[1..];
  }

  /** Moving position `i` of a sequence without repeats to the front keeps
    * the same elements and still has no repeats. */
  lemma MovedToFront<T>(s: seq<T>, i: nat)
    requires Distinct(s) && i < |s|
    ensures var m := [s[i]] + (s[..i] + s[i + 1..]);
      |m| == |s| && Distinct(m) && (set x | x in m) == (set x | x in s)
  {
    var m := [s[i]] + (s[..i] + s[i + 1..]);
    DistinctIff(s);
    DistinctIff(m);
    forall a, b | 0 <= a < b < |m| ensures m[a] != m[b] {
      var a' := if a == 0 then i else if a <= i then a - 1 else a;
      var b' := if b == 0 then i else if b <= i then b - 1 else b;
      assert m[a] == s[a'] && m[b] == s[b'];
    }
    forall x | x in s ensures x in m {
      var k :| 0 <= k < |s| && s[k] == x;
      if k < i {
        assert m[k + 1] == x;
      } else if k > i {
        assert m[k] == x;
      }
    }
  }

  /** The links after `MoveToFront` has unlinked position `i` (which is not the
    * front) and relinked it before position 0 spell out the moved sequence. */
  lemma RelinkedAtFront<K, V>(s: seq<Node<K, V>>, i: nat)
    requires Distinct(s) && 0 < i < |s|
    requires s[i].previous == null && s[i].next == s[0] && s[0].previous == s[i]
    requires s[i - 1].next == if i + 1 < |s| then s[i + 1] else null
    requires i + 1 < |s| ==> s[i + 1].previous == s[i - 1] && s[|s| - 1].next == null
    requires forall j {:trigger s[j].next} :: 0 <= j < |s| - 1 && s[j] != s[i] && s[j + 1] != s[i] ==> s[j].next == s[j + 1]
    requires forall j {:trigger s[j].previous} :: 0 < j < |s| && s[j] != s[i] && s[j - 1] != s[i] ==> s[j].previous == s[j - 1]
    ensures var m := [s[i]] + (s[..i] + s[i + 1..]);
      m[0].previous == null && m[|m| - 1].next == null &&
      (forall j {:trigger m[j].next} :: 0 <= j < |m| - 1 ==> m[j].next == m[j + 1]) &&
      (forall j {:trigger m[j].previous} :: 0 < j < |m| ==> m[j].previous == m[j - 1])
  {
    var m := [s[i]] + (s[..i] + s[i + 1..]);
    assert |m| == |s|;
    assert forall j :: 0 < j <= i ==> m[j] == s[j - 1];
    assert forall j :: i < j < |m| ==> m[j] == s[j];
    DistinctIff(s);
    forall j | 0 <= j < |m| - 1 ensures m[j].next == m[j + 1] {
      if 0 < j < i {
        assert m[j] == s[j - 1] && m[j + 1] == s[j];
        assert s[j - 1] != s[i] && s[j] != s[i];
      } else if j == i {
        assert m[j] == s[i - 1] && m[j + 1] == s[i + 1];
      } else if j > i {
        assert m[j] == s[j] && m[j + 1] == s[j + 1];
        assert s[j] != s[i] && s[j + 1] != s[i];
      }
    }
    forall j | 0 < j < |m| ensures m[j].previous == m[j - 1] {
      if 1 < j <= i {
        assert m[j] == s[j - 1] && m[j - 1] == s[j - 2];
        assert s[j - 1] != s[i] && s[j - 2] != s[i];
      } else if j == i + 1 {
        assert m[j] == s[i + 1] && m[j - 1] == s[i - 1];
      } else if j > i + 1 {
        assert m[j] == s[j] && m[j - 1] == s[j - 1];
        assert s[j] != s[i] && s[j - 1] != s[i];
      }
    }
    if i + 1 == |s| {
      assert m[|m| - 1] == s[i - 1];
    } else {
      assert m[|m| - 1] == s[|s| - 1];
    }
  }

  /** Dropping the last element keeps a sequence free of repeats. */
  lemma DistinctButLast<T>(s: seq<T>)
    requires Distinct(s) && s != []
    ensures Distinct(s[..|s| - 1])
  {
    var t := s[..|s| - 1];
    DistinctIff(s);
    DistinctIff(t);
    forall a, b | 0 <= a < b < |t| ensures t[a] != t[b] {
      assert t[a] == s[a] && t[b] == s[b];
    }
  }

  lemma {:induction false} WithoutAbsent<T>(s: seq<T>, x: T)
    requires x !in s
    ensures Without(s, x) == s
  {
    if s != [] {
      WithoutAbsent(s[1..], x);
      assert s == [s[0]] + s[1..];
    }
  }

  class DoubleLinkedList<K, V> {
    var head: Node?<K, V>
    var tail: Node?<K, V>
    var size: int

    /** The nodes, front to back. */
    ghost var Nodes: seq<Node<K, V>>
    /** The nodes, as a set: what the list's invariant reads. */
    ghost var Repr: set<Node<K, V>>

    /** The links spell out `Nodes`: `head` and `tail` are its ends, each node's
      * `next` and `previous` are its neighbours in `Nodes`, the links at the
      * two ends are null, no node occurs twice, and `size` is the length. */
    ghost predicate Valid()
      reads this, Repr`previous, Repr`next
    {
      Repr == (set n | n in Nodes) &&
      Distinct(Nodes) &&
      size == |Nodes| &&
      (if Nodes == [] then head == null && tail == null
       else head == Nodes[0] && tail == Nodes[|Nodes| - 1] &&
            Nodes[0].previous == null && Nodes[|Nodes| - 1].next == null) &&
      (forall i {:trigger Nodes[i].next} :: 0 <= i < |Nodes| - 1 ==> Nodes[i].next == Nodes[i + 1]) &&
      (forall i {:trigger Nodes[i].previous} :: 0 < i < |Nodes| ==> Nodes[i].previous == Nodes[i - 1])
    }

    constructor ()
      ensures Valid() && Nodes == [] && Repr == {}
    {
      head := null;
      tail := null;
      size := 0;
      Nodes := [];
      Repr := {};
    }

    /** Links a node that is in no list at the front. */
    method AddFirst(node: Node<K, V>)
      requires Valid()
      requires node !in Repr && node.previous == null && node.next == null
      modifies this, Repr`previous, node`next
      ensures Valid()
      ensures Nodes == [node] + old(Nodes) && Repr == old(Repr) + {node}
      ensures head == node
      ensures old(Nodes) == [] ==> tail == node
      ensures old(Nodes) != [] ==> tail == old(tail) && old(head).previous == node
      ensures size == old(size) + 1
    {
      if head == null {
        head := node;
        tail := node;
      } else {
        node.SetNext(head);
        head.SetPrevious(node);
        head := node;
      }
      size := size + 1;
      Nodes := [node] + Nodes;
      Repr := Repr + {node};
    }

    /** Moves a node of the list to the front; the other nodes keep their order. */
    method MoveToFront(node: Node<K, V>)
      requires Valid() && node in Repr
      modifies this, Repr`previous, Repr`next
      ensures Valid()
      ensures Nodes == [node] + Without(old(Nodes), node) && Repr == old(Repr)
      ensures size == old(size)
      ensures old(head) != node && old(tail) == node ==> tail == old(node.previous)
    {
      if node == head {
        WithoutAt(Nodes, 0);
        return;
      }
      ghost var N := Nodes;
      ghost var i :| 0 <= i < |N| && N[i] == node;
      assert 0 < i && head == N[0] && node.previous == N[i - 1] && N[i - 1] in Repr;
      assert N[i - 1] != N[i] && N[0] != N[i] &&
        (i + 1 < |N| ==> N[i + 1] != N[i] && N[i + 1] != N[0]) by {
        DistinctIff(N);
      }
      assert i + 1 < |N| ==> node.next == N[i + 1] && N[i + 1] in Repr;
      assert i + 1 == |N| ==> node.next == null && tail == node;
      if node.GetPrevious() != null {
        node.GetPrevious().SetNext(node.GetNext());
      }
      if node.GetNext() != null {
        node.GetNext().SetPrevious(node.GetPrevious());
      }
      if node == tail {
        tail := node.GetPrevious();
      }
      node.SetPrevious(null);
      node.SetNext(head);
      if head != null {
        head.SetPrevious(node);
      }
      head := node;
      if tail == null {
        // a node other than the head leaves at least two nodes: never taken
        assert false;
      }
      KeptLinks(node);
      Nodes := [node] + (N[..i] + N[i + 1..]);
      ValidAfterMove(N, i);
      WithoutAt(N, i);
    }

    /** Relinking touches only the moved node, its two neighbours and the old
      * head, so every other link between neighbours in the old order stays. */
    twostate lemma KeptLinks(node: Node<K, V>)
      requires old(Valid()) && Repr == old(Repr) && node in Repr && node != old(head)
      requires forall n :: n in Repr && n != old(node.previous) && n != node ==> n.next == old(n.next)
      requires forall n :: n in Repr && n != old(node.next) && n != node && n != old(head) ==>
        n.previous == old(n.previous)
      ensures var N := old(Nodes);
        forall j :: 0 <= j < |N| - 1 && N[j] != node && N[j + 1] != node ==> N[j].next == N[j + 1]
      ensures var N := old(Nodes);
        forall j :: 0 < j < |N| && N[j] != node && N[j - 1] != node ==> N[j].previous == N[j - 1]
    {
      var N := old(Nodes);
      var i :| 0 <= i < |N| && N[i] == node;
      DistinctIff(N);
      forall j | 0 <= j < |N| - 1 && N[j] != node && N[j + 1] != node ensures N[j].next == N[j + 1] {
        assert N[j] in Repr && N[j] != N[i - 1];
      }
      forall j | 0 < j < |N| && N[j] != node && N[j - 1] != node ensures N[j].previous == N[j - 1] {
        assert N[j] in Repr && N[j] != N[0];
        assert i + 1 < |N| ==> N[j] != N[i + 1];
      }
    }

    /** The state `MoveToFront` leaves behind satisfies the invariant. */
    lemma ValidAfterMove(N: seq<Node<K, V>>, i: nat)
      requires Distinct(N) && 0 < i < |N|
      requires Repr == (set n | n in N) && size == |N|
      requires Nodes == [N[i]] + (N[..i] + N[i + 1..])
      requires head == N[i] && tail == if i + 1 == |N| then N[i - 1] else N[|N| - 1]
      requires N[i].previous == null && N[i].next == N[0] && N[0].previous == N[i]
      requires N[i - 1].next == if i + 1 < |N| then N[i + 1] else null
      requires i + 1 < |N| ==> N[i + 1].previous == N[i - 1] && N[|N| - 1].next == null
      requires forall j {:trigger N[j].next} :: 0 <= j < |N| - 1 && N[j] != N[i] && N[j + 1] != N[i] ==> N[j].next == N[j + 1]
      requires forall j {:trigger N[j].previous} :: 0 < j < |N| && N[j] != N[i] && N[j - 1] != N[i] ==> N[j].previous == N[j - 1]
      ensures Valid()
    {
      assert Repr == (set n | n in Nodes) && Distinct(Nodes) && size == |Nodes| by {
        MovedToFront(N, i);
      }
      assert Nodes[0] == N[i] && Nodes[|Nodes| - 1] == (if i + 1 == |N| then N[i - 1] else N[|N| - 1]);
      RelinkedAtFront(N, i);
    }

    /** Unlinks the back node and returns it, or returns null on an empty list.
      * The unlinked node's own links are left as they were. */
    method RemoveLast() returns (last: Node?<K, V>)
      requires Valid()
      modifies this, Repr`next
      ensures Valid()
      ensures old(Nodes) == [] ==> last == null && unchanged(this)
      ensures old(Nodes) != [] ==>
        last == old(tail) && Nodes == old(Nodes[..|Nodes| - 1]) &&
        Repr == old(Repr) - {last} && size == old(size) - 1
    {
      if tail == null {
        return null;
      }
      ghost var n := |Nodes| - 1;
      assert n > 0 ==> tail.previous == Nodes[n - 1] && Nodes[n - 1] in Repr;
      DistinctIff(Nodes);
      DistinctButLast(Nodes);
      last := tail;
      tail := tail.GetPrevious();
      if tail != null {
        tail.SetNext(null);
      } else {
        head := null;
      }
      size := size - 1;
      Nodes := Nodes[..|Nodes| - 1];
      Repr := Repr - {last};
    }

    /** The number of nodes in the list. */
    function Size(): (n: int)
      reads this, Repr
      requires Valid()
      ensures n == |Nodes|
    {
      size
    }

    /** Forgets every node; the nodes themselves are not touched. */
    method Clear()
      modifies this
      ensures Valid() && Nodes == [] && Repr == {}
      ensures head == null && tail == null && size == 0
    {
      head := null;
      tail := null;
      size := 0;
      Nodes := [];
      Repr := {};
    }
  }
}
