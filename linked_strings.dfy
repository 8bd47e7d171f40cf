// The linked list of strings of linkedlist.c: a list record holding head and tail pointers,
// tail append, the pointer to the right half of a list, the half-by-half `Merge` and the
// doubling merge sort the exercise asks for.

module LinkedStrings {
  import opened StrOrder
  import opened SeqFacts
  import StringMergeSort

  /** `struct node`: a string and the next node. */
  class SNode {
    var str: string
    var next: SNode?

    constructor (str: string)
      ensures this.str == str && next == null
    {
      this.str := str;
      next := null;
    }
  }

  /** The node after position k of a chain, null after the last. */
  function Successor(s: seq<SNode>, k: int): SNode?
    requires 0 <= k < |s|
  {
    if k + 1 < |s| then s[k + 1] else null
  }

  /** C's `size / 2`, which truncates toward zero. */
  function CHalf(size: int): int
  {
    if size >= 0 then size / 2 else -((-size) / 2)
  }

  /** `struct list_s`: the first and the last node. Spine is the chain of nodes from head,
      Contents their strings. */
  class StringList {
    var head: SNode?
    var tail: SNode?
    ghost var Contents: seq<string>
    ghost var Spine: seq<SNode>
    ghost var Repr: set<object>

    ghost predicate Valid()
      reads this, Repr
    {
      this in Repr && Linked()
    }

    /** The nodes of Spine lie in Repr and are chained from head to tail, holding Contents. */
    ghost predicate Linked()
      reads this, Repr
    {
      |Spine| == |Contents| &&
      (forall i :: 0 <= i < |Spine| ==> Spine[i] in Repr) &&
      head == (if |Spine| == 0 then null else Spine[0]) &&
      tail == (if |Spine| == 0 then null else Spine[|Spine| - 1]) &&
      (forall i :: 0 <= i < |Spine| ==> Spine[i].str == Contents[i]) &&
      (forall i {:trigger Successor(Spine, i)} :: 0 <= i < |Spine| ==> Spine[i].next == Successor(Spine, i))
    }

    /** `list->head = list->tail = NULL`: the empty list. */
    constructor ()
      ensures Valid() && fresh(Repr) && Contents == []
    {
      head, tail := null, null;
      Contents, Spine := [], [];
      Repr := {this};
    }

    /** `Insert`: a new node holding a copy of s goes after the tail. The nodes already in the
        list keep their order; an empty list gets the new node as both head and tail. */
    method Insert(s: string)
      requires Valid()
      modifies Repr
      ensures Valid() && fresh(Repr - old(Repr))
      ensures Contents == old(Contents) + [s]
      ensures Spine[..|old(Spine)|] == old(Spine) && fresh(tail) && tail == Spine[|Spine| - 1]
      ensures old(Spine) == [] ==> head == tail
      ensures old(Spine) != [] ==> head == old(head)
    {
      var temp := new SNode(s);
      LinkAtTail(temp);
    }

    /** The pointer updates of `Insert` for its new node temp. */
    method LinkAtTail(temp: SNode)
      requires Valid() && temp !in Repr && temp.next == null
      modifies Repr, temp
      ensures Valid() && Repr == old(Repr) + {temp}
      ensures Contents == old(Contents) + [temp.str] && temp.str == old(temp.str)
      ensures Spine == old(Spine) + [temp] && tail == temp
      ensures old(Spine) == [] ==> head == temp
      ensures old(Spine) != [] ==> head == old(head)
    {
      ghost var S, C := Spine, Contents;
      label Before:
      if head == null && tail == null {
        head, tail := temp, temp;
      } else {
        tail.next := temp;
        tail := temp;
      }
      Spine, Contents, Repr := S + [temp], C + [temp.str], Repr + {temp};
      forall j | 0 <= j < |Spine|
        ensures Spine[j] in Repr && Spine[j].str == Contents[j]
        ensures Spine[j].next == Successor(Spine, j)
      {
        if j < |S| - 1 {
          assert old@Before(S[j].next) == Successor(S, j);
          assert old@Before(S[|S| - 1].next) == Successor(S, |S| - 1);
        } else if j == |S| - 1 {
          assert S[j] == old@Before(tail);
        }
      }
    }

    /** `RightSide`: the node reached after `size / 2` steps from head, where the right half of
        a list of size nodes starts. The walk needs that many nodes. */
    method RightSide(size: int) returns (n: SNode?)
      requires Valid()
      requires CHalf(size) <= |Spine|
      ensures CHalf(size) <= 0 ==> n == head
      ensures 0 <= CHalf(size) ==> n == if CHalf(size) < |Spine| then Spine[CHalf(size)] else null
    {
      var temp := head;
      var right := 0;
      while right < CHalf(size)
        invariant 0 <= right <= |Spine| && (right == 0 || right <= CHalf(size))
        invariant temp == if right < |Spine| then Spine[right] else null
      {
        assert Spine[right].next == Successor(Spine, right);
        temp := temp.next;
        right := right + 1;
      }
      n := temp;
    }

    /** `Free`: the list record is reset to the empty list. */
    method Free()
      requires Valid()
      modifies this
      ensures Valid() && head == null && tail == null && Contents == []
    {
      head, tail := null, null;
      Contents, Spine := [], [];
      Repr := {this};
    }
  }

  /** What `Merge` produces from some point of its loop on: the strings appended and how many
      nodes it has taken from the left chain and from the right chain by the end. */
  datatype MergeRun = MergeRun(out: seq<string>, left_taken: nat, right_taken: nat)

  /** What one pass of `Merge` does. */
  datatype Pass = Done | TakeRight | TakeLeft | TakeBoth

  /** The pass of `Merge` with l strings taken from the left chain L and r from the right
      chain R (a null `current` or `temp` is the end of its chain): it returns once the left half
      is used up and R has ended, takes from the right once the left half is used up, from the
      left once the right half is used up or R has ended, both strings when they are equal,
      and otherwise the one first in `strcmp` order. */
  function PassAt(L: seq<string>, R: seq<string>, size: int, l: nat, r: nat): (p: Pass)
    requires l <= |L| && r <= |R| && CHalf(size) <= |L| && l <= CHalf(size)
    ensures p == TakeRight ==> r < |R|
    ensures p == TakeLeft || p == TakeBoth ==> l < CHalf(size)
    ensures p == TakeBoth ==> r < |R|
  {
    var h := CHalf(size);
    if l == h && r == |R| then Done
    else if l == |L| || l == h then TakeRight
    else if r == |R| || r == h then TakeLeft
    else if Compare(L[l], R[r]) == 0 then TakeBoth
    else if Compare(L[l], R[r]) < 0 then TakeLeft
    else TakeRight
  }

  /** How many strings a pass takes from the left chain. */
  function LeftStep(p: Pass): nat
  {
    if p == TakeLeft || p == TakeBoth then 1 else 0
  }

  /** How many strings a pass takes from the right chain. */
  function RightStep(p: Pass): nat
  {
    if p == TakeRight || p == TakeBoth then 1 else 0
  }

  /** The strings a pass appends: the left one before the right one when it takes both. */
  function Emitted(L: seq<string>, R: seq<string>, l: nat, r: nat, p: Pass): seq<string>
    requires l + LeftStep(p) <= |L| && r + RightStep(p) <= |R|
  {
    match p
    case Done => []
    case TakeRight => [R[r]]
    case TakeLeft => [L[l]]
    case TakeBoth => [L[l], R[r]]
  }

  /** A pass appends one string for each node it steps over. */
  lemma EmittedLength(L: seq<string>, R: seq<string>, l: nat, r: nat, p: Pass)
    requires l + LeftStep(p) <= |L| && r + RightStep(p) <= |R|
    ensures |Emitted(L, R, l, r, p)| == LeftStep(p) + RightStep(p)
  {
  }

  /** `Merge(left, right, size)` as written, from pass i with l strings taken from the left
      chain L and r from the right chain R: the strings it appends from there on and how many
      it has taken from each chain when it returns. */
  function Written(L: seq<string>, R: seq<string>, size: int, i: nat, l: nat, r: nat): MergeRun
    requires l <= |L| && r <= |R| && CHalf(size) <= |L|
    requires i < size ==> l <= CHalf(size)
    decreases size - i
  {
    if size <= i then MergeRun([], l, r)
    else
      var p := PassAt(L, R, size, l, r);
      if p == Done then MergeRun([], l, r)
      else
        var m := Written(L, R, size, i + 1, l + LeftStep(p), r + RightStep(p));
        MergeRun(Emitted(L, R, l, r, p) + m.out, m.left_taken, m.right_taken)
  }

  /** `Merge` stops within both chains, and never takes more than size / 2 strings from the
      left chain; it appends one string for each node it takes. */
  lemma {:induction false} WrittenBounds(L: seq<string>, R: seq<string>, size: int, i: nat, l: nat, r: nat)
    requires l <= |L| && r <= |R| && CHalf(size) <= |L|
    requires i < size ==> l <= CHalf(size)
    ensures var m := Written(L, R, size, i, l, r);
      l <= m.left_taken <= |L| && r <= m.right_taken <= |R| &&
      (l <= CHalf(size) ==> m.left_taken <= CHalf(size)) &&
      |m.out| == (m.left_taken - l) + (m.right_taken - r)
    decreases size - i
  {
    if i < size {
      var p := PassAt(L, R, size, l, r);
      if p != Done {
        WrittenBounds(L, R, size, i + 1, l + LeftStep(p), r + RightStep(p));
        EmittedLength(L, R, l, r, p);
      }
    }
  }

  /** One pass of `Merge` that does not return appends what it steps over, then the rest of
      the passes follow. */
  lemma WrittenStep(L: seq<string>, R: seq<string>, size: int, i: nat, l: nat, r: nat, l': nat, r': nat)
    requires l <= |L| && r <= |R| && CHalf(size) <= |L|
    requires i < size && l <= CHalf(size) && PassAt(L, R, size, l, r) != Done
    requires l' == l + LeftStep(PassAt(L, R, size, l, r)) && r' == r + RightStep(PassAt(L, R, size, l, r))
    ensures Written(L, R, size, i, l, r).out == Emitted(L, R, l, r, PassAt(L, R, size, l, r)) + Written(L, R, size, i + 1, l', r').out
  {
  }

  /** On two equal strings one pass appends the left one and then the right one, taking a node
      from each chain. */
  lemma WrittenTie(L: seq<string>, R: seq<string>, size: int, i: nat, l: nat, r: nat)
    requires i < size && l < CHalf(size) && r < CHalf(size) && CHalf(size) <= |L| && r < |R|
    requires L[l] == R[r]
    ensures Written(L, R, size, i, l, r).out == [L[l], R[r]] + Written(L, R, size, i + 1, l + 1, r + 1).out
  {
    CompareZero(L[l], R[r]);
  }

  /** The merge `Merge` is meant to perform: the first size / 2 strings of the left chain with
      the next size - size / 2 of the right chain, in `strcmp` order. Equal strings are the same
      value, so which of two equal strings goes first makes no difference to the result. */
  function MergeHalves(L: seq<string>, R: seq<string>, size: nat): seq<string>
    requires size / 2 <= |L| && size - size / 2 <= |R|
  {
    StringMergeSort.Merge(L[..size / 2], R[..size - size / 2])
  }

  /** Merging two sorted halves gives the size strings of both halves in `strcmp` order. */
  lemma MergeHalvesCorrect(L: seq<string>, R: seq<string>, size: nat)
    requires size / 2 <= |L| && size - size / 2 <= |R|
    requires StringMergeSort.Sorted(L[..size / 2]) && StringMergeSort.Sorted(R[..size - size / 2])
    ensures StringMergeSort.Sorted(MergeHalves(L, R, size))
    ensures |MergeHalves(L, R, size)| == size
    ensures multiset(MergeHalves(L, R, size)) == multiset(L[..size / 2]) + multiset(R[..size - size / 2])
  {
    StringMergeSort.MergeSorted(L[..size / 2], R[..size - size / 2]);
    StringMergeSort.MergePermutes(L[..size / 2], R[..size - size / 2]);
  }

  /** No string of L[..h] occurs in R[..h]. */
  predicate NoShared(L: seq<string>, R: seq<string>, h: nat)
    requires h <= |L| && h <= |R|
  {
    forall p, q :: 0 <= p < h && 0 <= q < h ==> L[p] != R[q]
  }

  /** C's `size / 2` of an even size 2 * h is h. */
  lemma CHalfDouble(h: nat)
    ensures CHalf(2 * h) == h
  {
  }

  /** Where the two halves of h strings share no string and size is 2 * h, `Merge` as written
      performs the intended merge from any pass that has taken l + r strings so far. */
  lemma {:induction false} WrittenAgreesFrom(L: seq<string>, R: seq<string>, h: nat, i: nat, l: nat, r: nat)
    requires h <= |L| && h <= |R| && CHalf(2 * h) == h
    requires l <= h && r <= h && i == l + r
    requires NoShared(L, R, h)
    ensures Written(L, R, 2 * h, i, l, r).out == StringMergeSort.MergeFrom(L[..h], R[..h], l, r)
    decreases 2 * h - i
  {
    if i < 2 * h {
      PassWithoutTies(L, R, h, l, r);
      var p := PassAt(L, R, 2 * h, l, r);
      var l', r' := l + LeftStep(p), r + RightStep(p);
      WrittenAgreesFrom(L, R, h, i + 1, l', r');
      AgreeStep(L, R, h, i, l, r, l', r');
    } else {
      AgreeAtEnd(L, R, h, i);
    }
  }

  /** The step of `WrittenAgreesFrom`: a pass that takes one front, from l and r to l' and r'. */
  lemma AgreeStep(L: seq<string>, R: seq<string>, h: nat, i: nat, l: nat, r: nat, l': nat, r': nat)
    requires h <= |L| && h <= |R| && CHalf(2 * h) == h && i < 2 * h && l <= h && r <= h
    requires var p := PassAt(L, R, 2 * h, l, r);
      ((p == TakeRight && r < h) || (p == TakeLeft && l < h)) &&
      l' == l + LeftStep(p) && r' == r + RightStep(p)
    requires Written(L, R, 2 * h, i + 1, l', r').out == StringMergeSort.MergeFrom(L[..h], R[..h], l', r')
    ensures Written(L, R, 2 * h, i, l, r).out == StringMergeSort.MergeFrom(L[..h], R[..h], l, r)
  {
    WrittenStep(L, R, 2 * h, i, l, r, l', r');
    if l < h && r < h {
      PassOrder(L, R, h, l, r);
    }
    if PassAt(L, R, 2 * h, l, r) == TakeRight {
      MergeFromTakesRight(L[..h], R[..h], l, r);
    } else {
      MergeFromTakesLeft(L[..h], R[..h], l, r);
    }
  }

  /** After 2 * h passes both halves are used up: nothing more is written or merged. */
  lemma AgreeAtEnd(L: seq<string>, R: seq<string>, h: nat, i: nat)
    requires h <= |L| && h <= |R| && CHalf(2 * h) == h && 2 * h <= i
    ensures Written(L, R, 2 * h, i, h, h).out == StringMergeSort.MergeFrom(L[..h], R[..h], h, h)
  {
    assert R[..h][h..] == [];
  }

  /** Within the halves of h strings, before the last of 2 * h passes, `Merge` takes one string
      per pass when the two fronts differ. */
  lemma PassWithoutTies(L: seq<string>, R: seq<string>, h: nat, l: nat, r: nat)
    requires h <= |L| && h <= |R| && CHalf(2 * h) == h
    requires l <= h && r <= h && l + r < 2 * h
    requires NoShared(L, R, h)
    ensures var p := PassAt(L, R, 2 * h, l, r);
      (p == TakeRight && r < h) || (p == TakeLeft && l < h)
  {
    if l < h && r < h {
      CompareZero(L[l], R[r]);
    }
  }


  /** Which front a pass between two fronts takes is their `strcmp` order. */
  lemma PassOrder(L: seq<string>, R: seq<string>, h: nat, l: nat, r: nat)
    requires h <= |L| && CHalf(2 * h) == h && l < h && r < h && r < |R|
    ensures PassAt(L, R, 2 * h, l, r) == TakeRight ==> Compare(L[l], R[r]) > 0
    ensures PassAt(L, R, 2 * h, l, r) == TakeLeft ==> Compare(L[l], R[r]) < 0
  {
  }

  /** The intended merge takes the right front once the left is used up or is not before it. */
  lemma MergeFromTakesRight(a: seq<string>, b: seq<string>, i: nat, j: nat)
    requires i <= |a| && j < |b|
    requires i < |a| ==> Compare(a[i], b[j]) >= 0
    ensures StringMergeSort.MergeFrom(a, b, i, j) == [b[j]] + StringMergeSort.MergeFrom(a, b, i, j + 1)
  {
    if i == |a| {
      assert b[j..] == [b[j]] + b[j + 1..];
    }
  }

  /** The intended merge takes the left front once the right is used up or when it comes
      first. */
  lemma MergeFromTakesLeft(a: seq<string>, b: seq<string>, i: nat, j: nat)
    requires i < |a| && j <= |b|
    requires j < |b| ==> Compare(a[i], b[j]) < 0
    ensures StringMergeSort.MergeFrom(a, b, i, j) == [a[i]] + StringMergeSort.MergeFrom(a, b, i + 1, j)
  {
    if j == |b| {
      assert a[i..] == [a[i]] + a[i + 1..];
    }
  }


  /** Where the two halves share no string and size is even, `Merge` as written gives the
      intended merge, hence a sorted arrangement of both halves when each half is sorted. */
  lemma WrittenAgrees(L: seq<string>, R: seq<string>, size: nat)
    requires size % 2 == 0 && size / 2 <= |L| && size / 2 <= |R|
    requires NoShared(L, R, size / 2)
    ensures Written(L, R, size, 0, 0, 0).out == MergeHalves(L, R, size)
  {
    var h := size / 2;
    assert size == 2 * h;
    CHalfDouble(h);
    WrittenAgreesFrom(L, R, h, 0, 0, 0);
  }

  /** A list of five nodes a z a b c whose halves of four, a z and a b, are sorted: `Merge` with
      size 4 takes three nodes from the right chain, the c from beyond the right half among
      them, and appends a a b z c, which is out of order. */
  lemma WrittenOvershoots()
    ensures var L := ["a", "z", "a", "b", "c"];
      var m := Written(L, L[2..], 4, 0, 0, 0);
      m == MergeRun(["a", "a", "b", "z", "c"], 2, 3) &&
      m.right_taken > 4 / 2 && !StringMergeSort.Sorted(m.out)
  {
    var L := ["a", "z", "a", "b", "c"];
    var R := L[2..];
    assert R == ["a", "b", "c"];
    assert Compare("a", "a") == 0 by {
      CompareZero("a", "a");
    }
    OvershootsLastPasses();
    assert Written(L, R, 4, 1, 1, 1) == MergeRun(["b", "z", "c"], 2, 3);
    var out := ["a", "a", "b", "z", "c"];
    assert Compare(out[3], out[4]) == 1;
  }

  /** The last three passes of `WrittenOvershoots`: with the left half used up, z is written
      and then c, the string after the right half. */
  lemma OvershootsLastPasses()
    ensures var L := ["a", "z", "a", "b", "c"];
      Written(L, L[2..], 4, 2, 1, 2) == MergeRun(["z", "c"], 2, 3)
  {
    var L := ["a", "z", "a", "b", "c"];
    var R := L[2..];
    assert R == ["a", "b", "c"];
    assert Compare("z", "b") == 1;
    assert Written(L, R, 4, 4, 2, 3) == MergeRun([], 2, 3);
    assert Written(L, R, 4, 3, 2, 2) == MergeRun(["c"], 2, 3);
  }

  /** `Merge`: builds a new list from the left and right chains (their strings as L and R),
      with the counters l and r standing for the `current` and `temp` pointers. */
  method Merge(L: seq<string>, R: seq<string>, size: int) returns (tempList: StringList)
    requires CHalf(size) <= |L|
    ensures tempList.Valid() && fresh(tempList.Repr)
    ensures tempList.Contents == Written(L, R, size, 0, 0, 0).out
  {
    tempList := new StringList();
    MergeInto(tempList, L, R, size);
  }

  /** The loop of `Merge`, appending to tempList what the passes write. */
  method MergeInto(tempList: StringList, L: seq<string>, R: seq<string>, size: int)
    requires tempList.Valid() && tempList.Contents == []
    requires CHalf(size) <= |L|
    modifies tempList.Repr
    ensures tempList.Valid() && fresh(tempList.Repr - old(tempList.Repr))
    ensures tempList.Contents == Written(L, R, size, 0, 0, 0).out
  {
    ghost var total := Written(L, R, size, 0, 0, 0).out;
    var i: nat, l: nat, r: nat := 0, 0, 0;
    var half := CHalf(size);
    // The loop's first test, which returns the list, ends the loop here.
    while i < size && !(l == half && r == |R|)
      invariant l <= |L| && r <= |R|
      invariant i < size ==> l <= half
      invariant tempList.Valid() && fresh(tempList.Repr - old(tempList.Repr))
      invariant tempList.Contents + Written(L, R, size, i, l, r).out == total
      decreases size - i
    {
      i, l, r := MergeStep(tempList, L, R, size, half, i, l, r, total);
    }
    WrittenReturns(L, R, size, i, l, r, tempList.Contents, total);
  }

  /** Once the left half is used up and the right chain has ended, or after size passes,
      `Merge` appends nothing more. */
  lemma WrittenReturns(L: seq<string>, R: seq<string>, size: int, i: nat, l: nat, r: nat,
    out: seq<string>, total: seq<string>)
    requires l <= |L| && r <= |R| && CHalf(size) <= |L|
    requires i < size ==> l <= CHalf(size)
    requires size <= i || (l == CHalf(size) && r == |R|)
    requires out + Written(L, R, size, i, l, r).out == total
    ensures out == total
  {
    assert Written(L, R, size, i, l, r).out == [];
  }

  /** A pass of the `Merge` loop that does not return: what it appends and what the passes
      after it append still make up the whole output total. */
  method MergeStep(tempList: StringList, L: seq<string>, R: seq<string>, size: int, half: int, i: nat, l: nat, r: nat,
    ghost total: seq<string>)
    returns (i': nat, l': nat, r': nat)
    requires tempList.Valid() && half == CHalf(size)
    requires l <= |L| && r <= |R| && half <= |L| && l <= half && i < size
    requires !(l == half && r == |R|)
    requires tempList.Contents + Written(L, R, size, i, l, r).out == total
    modifies tempList.Repr
    ensures tempList.Valid() && fresh(tempList.Repr - old(tempList.Repr))
    ensures i' == i + 1 && l' <= |L| && r' <= |R| && (i' < size ==> l' <= half)
    ensures tempList.Contents + Written(L, R, size, i', l', r').out == total
  {
    i' := i + 1;
    ghost var before := tempList.Contents;
    ghost var e := Emitted(L, R, l, r, PassAt(L, R, size, l, r));
    l', r' := MergePass(tempList, L, R, size, l, r);
    WrittenStep(L, R, size, i, l, r, l', r');
    AppendAssoc(before, e, Written(L, R, size, i + 1, l', r').out);
  }

  lemma AppendAssoc(a: seq<string>, b: seq<string>, c: seq<string>)
    ensures (a + b) + c == a + (b + c)
  {
  }

  /** One pass of the `Merge` loop that does not return: the strings it appends to tempList
      and how far it moves along each chain. */
  method MergePass(tempList: StringList, L: seq<string>, R: seq<string>, size: int, l: nat, r: nat)
    returns (l': nat, r': nat)
    requires tempList.Valid()
    requires l <= |L| && r <= |R| && CHalf(size) <= |L| && l <= CHalf(size)
    requires PassAt(L, R, size, l, r) != Done
    modifies tempList.Repr
    ensures tempList.Valid() && fresh(tempList.Repr - old(tempList.Repr))
    ensures l' <= CHalf(size) && r' <= |R|
    ensures var p := PassAt(L, R, size, l, r);
      l' == l + LeftStep(p) && r' == r + RightStep(p) &&
      tempList.Contents == old(tempList.Contents) + Emitted(L, R, l, r, p)
  {
    if l == |L| || l == CHalf(size) {
      tempList.Insert(R[r]);
      l', r' := l, r + 1;
    } else if r == |R| || r == CHalf(size) {
      tempList.Insert(L[l]);
      l', r' := l + 1, r;
    } else {
      l', r' := CompareFronts(tempList, L, R, size, l, r);
    }
  }

  /** The passes of `Merge` that compare the two front strings with `strcmp`. */
  method CompareFronts(tempList: StringList, L: seq<string>, R: seq<string>, size: int, l: nat, r: nat)
    returns (l': nat, r': nat)
    requires tempList.Valid()
    requires l < |L| && r < |R| && CHalf(size) <= |L| && l < CHalf(size) && r != CHalf(size)
    modifies tempList.Repr
    ensures tempList.Valid() && fresh(tempList.Repr - old(tempList.Repr))
    ensures var p := PassAt(L, R, size, l, r);
      l' == l + LeftStep(p) && r' == r + RightStep(p) &&
      tempList.Contents == old(tempList.Contents) + Emitted(L, R, l, r, p)
  {
    if Compare(L[l], R[r]) == 0 {
      tempList.Insert(L[l]);
      tempList.Insert(R[r]);
      l', r' := l + 1, r + 1;
    } else if Compare(L[l], R[r]) < 0 {
      tempList.Insert(L[l]);
      l', r' := l + 1, r;
    } else {
      tempList.Insert(R[r]);
      l', r' := l, r + 1;
    }
  }

  /** The doubling merge sort the exercise describes, for a list of any length: for
      list_size = 2, 4, ... while it fits, the strings at list_size / 2 .. list_size are sorted
      and merged with the sorted first half; a final merge takes in the strings beyond the
      last power of two. The result is the input in `strcmp` order. */
  method Sort(s: seq<string>) returns (t: seq<string>)
    ensures StringMergeSort.Sorted(t) && multiset(t) == multiset(s) && |t| == |s|
    decreases |s|
  {
    t := s;
    if |t| <= 1 {
      return;
    }
    var list_size := 2;
    while list_size <= |t|
      invariant 2 <= list_size && list_size % 2 == 0 && list_size / 2 <= |t| == |s|
      invariant StringMergeSort.Sorted(t[..list_size / 2]) && multiset(t) == multiset(s)
    {
      var half := list_size / 2;
      var right := Sort(t[half..list_size]);
      var rest := t[list_size..];
      assert (right + rest)[..list_size - half] == right;
      MergeHalvesCorrect(t, right + rest, list_size);
      assert t == t[..half] + t[half..list_size] + rest;
      var merged := MergeHalves(t, right + rest, list_size);
      t := merged + rest;
      assert t[..list_size] == merged;
      list_size := list_size * 2;
    }
    var half := list_size / 2;
    if half < |t| {
      var right := Sort(t[half..]);
      assert t == t[..half] + t[half..];
      StringMergeSort.MergeSorted(t[..half], right);
      StringMergeSort.MergePermutes(t[..half], right);
      t := StringMergeSort.Merge(t[..half], right);
    } else {
      assert t[..half] == t;
    }
  }
}
