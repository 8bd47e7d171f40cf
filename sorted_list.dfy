// The shared sorted singly-linked list of ints (pthreads.c; stuff.c and past.c carry the same
// Insert, Delete and Member without the return codes). The list holds each value at most once,
// in strictly ascending order, and is reached through the global `head`.

module SortedIntList {
  import opened SeqFacts

  predicate StrictlySorted(s: seq<int>)
  {
    forall i, j :: 0 <= i < j < |s| ==> s[i] < s[j]
  }

  /** Where the search loop `while (curr != NULL && curr->data < value)` stops: the number of
      leading values below v. */
  function Stop(s: seq<int>, v: int): (k: nat)
    ensures k <= |s|
    ensures forall i :: 0 <= i < k ==> s[i] < v
    ensures k < |s| ==> v <= s[k]
  {
    if |s| == 0 || v <= s[0] then 0 else 1 + Stop(s[1..], v)
  }

  /** The search finds v: it stops at a node that holds v. */
  predicate Found(s: seq<int>, v: int)
  {
    Stop(s, v) < |s| && s[Stop(s, v)] == v
  }

  /** The list after `Insert(v)`: unchanged when the search finds v, otherwise v linked in where
      the search stopped. */
  function InsertSpec(s: seq<int>, v: int): seq<int>
  {
    var k := Stop(s, v);
    if Found(s, v) then s else s[..k] + [v] + s[k..]
  }

  /** The list after `Delete(v)`: the node where the search stopped unlinked when it holds v,
      otherwise unchanged. */
  function DeleteSpec(s: seq<int>, v: int): seq<int>
  {
    var k := Stop(s, v);
    if Found(s, v) then s[..k] + s[k + 1..] else s
  }

  /** A loop that has passed exactly the values below v and stands at the end or at a value
      >= v has stopped where Stop says. */
  lemma {:induction false} StopAt(s: seq<int>, v: int, i: nat)
    requires i <= |s|
    requires forall k :: 0 <= k < i ==> s[k] < v
    requires i < |s| ==> v <= s[i]
    ensures Stop(s, v) == i
    decreases i
  {
    if i > 0 {
      StopAt(s[1..], v, i - 1);
    }
  }

  /** On a strictly ascending list the early stop is sound: the search finds v exactly when v is
      in the list. */
  lemma FoundIffIn(s: seq<int>, v: int)
    requires StrictlySorted(s)
    ensures Found(s, v) <==> v in s
  {
    var k := Stop(s, v);
    if v in s {
      var p :| 0 <= p < |s| && s[p] == v;
      assert k <= p;
      assert k == p;
    }
  }

  /** Insert keeps the list strictly ascending; when v was absent it adds exactly v, and when v
      was present it changes nothing. */
  lemma InsertSpecCorrect(s: seq<int>, v: int)
    requires StrictlySorted(s)
    ensures StrictlySorted(InsertSpec(s, v))
    ensures v !in s ==> multiset(InsertSpec(s, v)) == multiset(s) + multiset{v}
    ensures v in s ==> InsertSpec(s, v) == s
  {
    FoundIffIn(s, v);
    var k := Stop(s, v);
    if !Found(s, v) {
      InsertedSorted(s, k, v);
      assert s == s[..k] + s[k..];
    }
  }

  /** Linking v in at a position with smaller values before it and larger after it keeps the
      list strictly ascending. */
  lemma InsertedSorted(s: seq<int>, k: nat, v: int)
    requires StrictlySorted(s) && k <= |s|
    requires forall i :: 0 <= i < k ==> s[i] < v
    requires k < |s| ==> v < s[k]
    ensures StrictlySorted(s[..k] + [v] + s[k..])
  {
    var r := s[..k] + [v] + s[k..];
    forall i, j | 0 <= i < j < |r|
      ensures r[i] < r[j]
    {
      assert r[i] == if i < k then s[i] else if i == k then v else s[i - 1];
      assert r[j] == if j < k then s[j] else if j == k then v else s[j - 1];
    }
  }

  /** Delete keeps the list strictly ascending; when v was present it removes exactly v, and
      when v was absent it changes nothing. */
  lemma DeleteSpecCorrect(s: seq<int>, v: int)
    requires StrictlySorted(s)
    ensures StrictlySorted(DeleteSpec(s, v))
    ensures v in s ==> multiset(DeleteSpec(s, v)) == multiset(s) - multiset{v}
    ensures v !in s ==> DeleteSpec(s, v) == s
  {
    FoundIffIn(s, v);
    var k := Stop(s, v);
    if Found(s, v) {
      UnlinkedSorted(s, k);
      assert s == s[..k] + [s[k]] + s[k + 1..];
    }
  }

  /** Dropping one value keeps the list strictly ascending. */
  lemma UnlinkedSorted(s: seq<int>, k: nat)
    requires StrictlySorted(s) && k < |s|
    ensures StrictlySorted(s[..k] + s[k + 1..])
  {
    var r := s[..k] + s[k + 1..];
    forall i, j | 0 <= i < j < |r|
      ensures r[i] < r[j]
    {
      assert r[i] == if i < k then s[i] else s[i + 1];
      assert r[j] == if j < k then s[j] else s[j + 1];
    }
  }

  /** The node after position k of a chain, null after the last. */
  function NextOf(s: seq<Node>, k: int): Node?
    requires 0 <= k < |s|
  {
    if k + 1 < |s| then s[k + 1] else null
  }

  /** The successor of position j once t is put in at position i. */
  lemma NextOfInserted(s: seq<Node>, i: nat, t: Node, j: nat)
    requires i <= |s| && j <= |s|
    ensures NextOf(s[..i] + [t] + s[i..], j) ==
      if j + 1 < i then NextOf(s, j)
      else if j + 1 == i then t
      else if j == i then (if i < |s| then s[i] else null)
      else NextOf(s, j - 1)
  {
    if j + 1 <= |s| {
      InsertedAt(s, i, t, j + 1);
    }
  }

  /** The successor of position j once position i is taken out. */
  lemma NextOfRemoved(s: seq<Node>, i: nat, j: nat)
    requires i < |s| && j < |s| - 1
    ensures NextOf(s[..i] + s[i + 1..], j) ==
      if j + 1 < i then NextOf(s, j)
      else if j + 1 == i then NextOf(s, i)
      else NextOf(s, j + 1)
  {
    if j + 1 < |s| - 1 {
      RemovedAt(s, i, j + 1);
    }
  }

  class Node {
    var data: int
    var next: Node?

    constructor (data: int, next: Node?)
      ensures this.data == data && this.next == next
    {
      this.data := data;
      this.next := next;
    }
  }

  /** The list rooted at `head`. Spine is the chain of nodes from head, Contents their values. */
  class SortedList {
    var head: Node?
    ghost var Contents: seq<int>
    ghost var Spine: seq<Node>
    ghost var Repr: set<object>

    ghost predicate Valid()
      reads this, Repr
    {
      this in Repr &&
      |Spine| == |Contents| &&
      (forall i :: 0 <= i < |Spine| ==> Spine[i] in Repr) &&
      head == (if |Spine| == 0 then null else Spine[0]) &&
      (forall i :: 0 <= i < |Spine| ==> Spine[i].data == Contents[i]) &&
      (forall i {:trigger NextOf(Spine, i)} :: 0 <= i < |Spine| ==> Spine[i].next == NextOf(Spine, i)) &&
      StrictlySorted(Contents)
    }

    /** `struct list_node_s* head = NULL;` */
    constructor ()
      ensures Valid() && fresh(Repr) && Contents == []
    {
      head := null;
      Contents, Spine := [], [];
      Repr := {this};
    }

    /** The search loop shared by `Insert` and `Delete`: walk `pred`/`curr` down the list while
        `curr->data < value`. It stops at the first node holding a value >= value (or at the end),
        with pred on the node before it. */
    method Search(value: int) returns (pred: Node?, curr: Node?, ghost i: nat)
      requires Valid()
      ensures i == Stop(Contents, value)
      ensures curr == if i < |Spine| then Spine[i] else null
      ensures pred == if i == 0 then null else Spine[i - 1]
    {
      curr := head;
      pred := null;
      i := 0;
      while curr != null && curr.data < value
        invariant 0 <= i <= |Spine|
        invariant curr == if i < |Spine| then Spine[i] else null
        invariant pred == if i == 0 then null else Spine[i - 1]
        invariant forall k :: 0 <= k < i ==> Contents[k] < value
        decreases |Spine| - i
      {
        assert Spine[i].next == NextOf(Spine, i);
        pred := curr;
        curr := curr.next;
        i := i + 1;
      }
      StopAt(Contents, value, i);
    }

    /** `Insert(value)`: returns 1 and links a new node in at the sorted position when value is
        absent; returns 0 and changes nothing when it is present. */
    method Insert(value: int) returns (rv: int)
      requires Valid()
      modifies Repr
      ensures Valid() && fresh(Repr - old(Repr))
      ensures Contents == InsertSpec(old(Contents), value)
      ensures rv == if value in old(Contents) then 0 else 1
    {
      var pred, curr, i := Search(value);
      FoundIffIn(Contents, value);
      rv := 1;
      if curr == null || curr.data > value {
        var temp := new Node(value, curr);
        LinkIn(pred, temp, i);
      } else {
        rv := 0;
      }
    }

    /** The linking step of `Insert`: the new node temp goes between pred and the node it points
        to, and becomes head when pred is null. */
    method LinkIn(pred: Node?, temp: Node, ghost i: nat)
      requires Valid() && temp !in Repr
      requires i <= |Spine| && temp.next == (if i < |Spine| then Spine[i] else null)
      requires pred == if i == 0 then null else Spine[i - 1]
      requires forall k :: 0 <= k < i ==> Contents[k] < temp.data
      requires i < |Contents| ==> temp.data < Contents[i]
      modifies Repr
      ensures Valid() && Repr == old(Repr) + {temp}
      ensures Contents == old(Contents[..i]) + [temp.data] + old(Contents[i..])
    {
      ghost var S, C, value := Spine, Contents, temp.data;
      OnlyNodeAt(i - 1);
      label Before:
      if pred == null {
        head := temp;
      } else {
        pred.next := temp;
      }
      Spine := S[..i] + [temp] + S[i..];
      Contents := C[..i] + [value] + C[i..];
      Repr := Repr + {temp};
      forall j | 0 <= j < |Spine|
        ensures Spine[j] in Repr && Spine[j].data == Contents[j]
        ensures Spine[j].next == NextOf(Spine, j)
      {
        InsertedAt(S, i, temp, j);
        InsertedAt(C, i, value, j);
        NextOfInserted(S, i, temp, j);
        if j < i - 1 {
          assert S[j] != pred && old@Before(S[j].next) == NextOf(S, j);
        } else if i < j {
          assert S[j - 1] != pred && old@Before(S[j - 1].next) == NextOf(S, j - 1);
        }
      }
      InsertedSorted(C, i, value);
    }

    /** `Delete(value)`: returns 1 and unlinks the node holding value when it is present (moving
        head on when that is the first node); returns 0 and changes nothing otherwise. */
    method Delete(value: int) returns (rv: int)
      requires Valid()
      modifies Repr
      ensures Valid() && fresh(Repr - old(Repr))
      ensures Contents == DeleteSpec(old(Contents), value)
      ensures rv == if value in old(Contents) then 1 else 0
      ensures old(head) != null && old(head.data) == value ==> head == old(head.next)
    {
      var pred, curr, i := Search(value);
      FoundIffIn(Contents, value);
      DeleteSpecCorrect(Contents, value);
      rv := 1;
      if curr != null && curr.data == value {
        Unlink(pred, curr, i);
      } else {
        rv := 0;
      }
    }

    /** The unlinking step of `Delete`: curr is bypassed, by pred's next or by head when pred
        is null. */
    method Unlink(pred: Node?, curr: Node, ghost i: nat)
      requires Valid()
      requires i < |Spine| && curr == Spine[i]
      requires pred == if i == 0 then null else Spine[i - 1]
      requires StrictlySorted(Contents[..i] + Contents[i + 1..])
      modifies Repr
      ensures Valid() && Repr == old(Repr)
      ensures Contents == old(Contents[..i]) + old(Contents[i + 1..])
      ensures pred == null ==> head == old(curr.next)
    {
      ghost var S, C := Spine, Contents;
      OnlyNodeAt(i - 1);
      assert curr.next == NextOf(S, i);
      label Before:
      if pred == null {
        head := curr.next;
      } else {
        pred.next := curr.next;
      }
      Spine := S[..i] + S[i + 1..];
      Contents := C[..i] + C[i + 1..];
      forall j | 0 <= j < |Spine|
        ensures Spine[j] in Repr && Spine[j].data == Contents[j]
        ensures Spine[j].next == NextOf(Spine, j)
      {
        RemovedAt(S, i, j);
        RemovedAt(C, i, j);
        NextOfRemoved(S, i, j);
        if j < i - 1 {
          assert S[j] != pred && old@Before(S[j].next) == NextOf(S, j);
        } else if j == i - 1 {
          assert old@Before(curr.next) == NextOf(S, i);
        } else {
          assert S[j + 1] != pred && old@Before(S[j + 1].next) == NextOf(S, j + 1);
        }
      }
    }

    /** No node of the spine other than the one at position p is that node (the values are
        distinct, so the nodes are). */
    lemma OnlyNodeAt(p: int)
      requires Valid()
      ensures 0 <= p < |Spine| ==> forall k :: 0 <= k < |Spine| && k != p ==> Spine[k] != Spine[p]
    {
      if 0 <= p < |Spine| {
        forall k | 0 <= k < |Spine| && k != p
          ensures Spine[k] != Spine[p]
        {
          assert Spine[k].data == Contents[k] != Contents[p] == Spine[p].data;
        }
      }
    }

    /** `Member(value)`: returns 1 when value is in the list and 0 otherwise, changing nothing.
        The walk stops at the first value >= value. */
    method Member(value: int) returns (rv: int)
      requires Valid()
      ensures rv == if value in Contents then 1 else 0
    {
      var temp := head;
      ghost var i := 0;
      while temp != null && temp.data < value
        invariant 0 <= i <= |Spine|
        invariant temp == if i < |Spine| then Spine[i] else null
        invariant forall k :: 0 <= k < i ==> Contents[k] < value
        decreases |Spine| - i
      {
        assert Spine[i].next == NextOf(Spine, i);
        temp := temp.next;
        i := i + 1;
      }
      StopAt(Contents, value, i);
      FoundIffIn(Contents, value);
      if temp == null || temp.data > value {
        rv := 0;
      } else {
        rv := 1;
      }
    }

    /** `Is_empty()`: 1 exactly when the list holds nothing. */
    function IsEmpty(): (r: int)
      reads this, Repr
      requires Valid()
      ensures r == if |Contents| == 0 then 1 else 0
    {
      if head == null then 1 else 0
    }
  }
}
