// The lists of list.c: items linked through a field of their own, walked and
// relinked in place.
module LinkedList {

  /** A list element: the link every item begins with, and what the item holds. */
  class Item<T> {
    var next: Item?<T>
    var value: T

    constructor (value: T)
      ensures this.value == value && next == null
    {
      this.value, next := value, null;
    }
  }

  /** The items without `x`. */
  ghost function Without<T>(s: seq<Item<T>>, x: Item<T>): (r: seq<Item<T>>)
    ensures x !in r && (x !in s ==> r == s)
    ensures forall i :: 0 <= i < |r| ==> r[i] in s
    ensures forall i :: 0 <= i < |s| && s[i] != x ==> s[i] in r
  {
    if |s| == 0 then [] else if s[0] == x then Without(s[1..], x) else [s[0]] + Without(s[1..], x)
  }

  /** What a link in front of position `i` points to. */
  ghost function LinkTo<T>(s: seq<Item<T>>, i: nat): Item?<T> { if i < |s| then s[i] else null }

  class List<T> {
    var head: Item?<T>
    ghost var items: seq<Item<T>>

    ghost predicate Valid()
      reads this, items`next
    {
      && (forall i, j :: 0 <= i < j < |items| ==> items[i] != items[j])
      && head == LinkTo(items, 0)
      && (forall i :: 0 <= i < |items| ==> items[i].next == LinkTo(items, i + 1))
    }

    /** `list_init`. */
    constructor ()
      ensures Valid() && items == []
    {
      head, items := null, [];
    }

    /** `list_tail`: the last item. */
    method Tail() returns (l: Item?<T>)
      requires Valid()
      ensures l == if |items| == 0 then null else items[|items| - 1]
    {
      if head == null { return null; }
      l := head;
      ghost var i := 0;
      while l.next != null
        invariant 0 <= i < |items| && l == items[i]
        decreases |items| - i
      {
        l := l.next;
        i := i + 1;
      }
    }

    /** `list_length`. */
    method Length() returns (n: nat)
      requires Valid()
      ensures n == |items|
    {
      n := 0;
      var l := head;
      while l != null
        invariant n <= |items| && l == LinkTo(items, n)
        decreases |items| - n
      {
        n := n + 1;
        l := l.next;
      }
    }

    /** The relinking in `list_remove`; `r` is the item before `l`, the one at position `i`. */
    method Unlink(r: Item?<T>, l: Item<T>, ghost i: nat)
      requires Valid() && i < |items| && l == items[i] && (if i == 0 then r == null else r == items[i - 1])
      modifies `head, `items, items`next
      ensures Valid() && items == Cut(old(items), i) && l.next == null
    {
      if r == null {
        head := l.next;
      } else {
        r.next := l.next;
      }
      l.next := null;
      assert i > 0 ==> items[i - 1].next == LinkTo(items, i + 1);
      CutLinks(items, i);
      items := Cut(items, i);
      hide Cut, LinkTo;
    }

    /** `list_remove`: the items around it are linked to each other, its own link is cleared. */
    method Remove(item: Item<T>)
      requires Valid()
      modifies `head, `items, items`next
      ensures Valid() && items == Without(old(items), item)
      ensures item in old(items) ==> item.next == null
    {
      var r: Item?<T> := null;
      var l := head;
      ghost var i := 0;
      while l != null
        invariant 0 <= i <= |items| && l == LinkTo(items, i)
        invariant if i == 0 then r == null else r == items[i - 1]
        invariant forall j :: 0 <= j < i ==> items[j] != item
        decreases |items| - i
      {
        if l == item {
          WithoutAt(items, item, i);
          Unlink(r, l, i);
          return;
        }
        r := l;
        l := l.next;
        i := i + 1;
      }
      assert item !in items;
    }

    /** `list_push`: at the front, and nowhere else. */
    method Push(item: Item<T>)
      requires Valid()
      modifies `head, `items, items`next, item`next
      ensures Valid() && items == [item] + Without(old(items), item)
    {
      Remove(item);
      Prepend(item);
    }

    /** The second half of `list_push`. */
    method Prepend(item: Item<T>)
      requires Valid() && item !in items
      modifies `head, `items, item`next
      ensures Valid() && items == [item] + old(items)
    {
      item.next := head;
      head := item;
      items := [item] + items;
    }

    /** `list_add`: at the end, and nowhere else. */
    method Add(item: Item<T>)
      requires Valid()
      modifies `head, `items, items`next, item`next
      ensures Valid() && items == Without(old(items), item) + [item]
    {
      Remove(item);
      Append(item);
    }

    /** The second half of `list_add`. */
    method Append(item: Item<T>)
      requires Valid() && item !in items
      modifies `head, `items, items`next, item`next
      ensures Valid() && items == old(items) + [item]
    {
      item.next := null;
      var l := Tail();
      if l == null {
        head := item;
      } else {
        l.next := item;
      }
      items := items + [item];
    }
  }

  ghost function Cut<T>(s: seq<Item<T>>, i: nat): (r: seq<Item<T>>)
    requires i < |s|
    ensures |r| == |s| - 1 && forall j :: 0 <= j < |r| ==> r[j] == if j < i then s[j] else s[j + 1]
  {
    s[..i] + s[i + 1..]
  }

  /** With the link in front of item `i` leading past it, the others are linked in order. */
  lemma CutLinks<T>(s: seq<Item<T>>, i: nat)
    requires i < |s| && forall j, k :: 0 <= j < k < |s| ==> s[j] != s[k]
    requires forall k :: 0 <= k < |s| && k != i ==> s[k].next == LinkTo(s, if k + 1 == i then i + 1 else k + 1)
    ensures var c := Cut(s, i);
            && (forall j, k :: 0 <= j < k < |c| ==> c[j] != c[k])
            && LinkTo(c, 0) == LinkTo(s, if i == 0 then 1 else 0)
            && forall k :: 0 <= k < |c| ==> c[k].next == LinkTo(c, k + 1)
  {
    var c := Cut(s, i);
    hide Cut;
    forall k | 0 <= k < |c| ensures c[k].next == LinkTo(c, k + 1) {
      if k < i { assert c[k] == s[k]; } else { assert c[k] == s[k + 1]; }
    }
  }

  /** In a list of distinct items the one found is the one missing afterwards. */
  lemma {:induction false} WithoutAt<T>(s: seq<Item<T>>, x: Item<T>, i: nat)
    requires i < |s| && s[i] == x && forall j, k :: 0 <= j < k < |s| ==> s[j] != s[k]
    ensures Without(s, x) == Cut(s, i)
    decreases |s|
  {
    if i == 0 {
      assert x !in s[1..];
    } else {
      assert s[0] != s[i];
      WithoutAt(s[1..], x, i - 1);
      CutTail(s, i);
    }
  }

  lemma CutTail<T>(s: seq<Item<T>>, i: nat)
    requires 0 < i < |s|
    ensures Cut(s, i) == [s[0]] + Cut(s[1..], i - 1)
  {}
}
