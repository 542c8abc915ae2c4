/** The intrusive linked list.  Its members are the links from the header to the tail; what the tail points to
    does not count, for removing a tail leaves a stale pointer in the new one. */
module List {
  import opened Sequences

  class Link {
    var next: Link?
    var id: nat

    constructor (id: nat)
      ensures this.id == id && next == null
    {
      this.id := id;
      next := null;
    }
  }

  class LinkedList {
    var count: int
    var header: Link?
    var tail: Link?
    ghost var items: seq<Link>

    ghost predicate Valid()
      reads this, items
    {
      && count == |items| && Distinct(items)
      && (if items == [] then header == null && tail == null else header == items[0] && tail == items[|items| - 1])
      && forall i :: 0 <= i < |items| - 1 ==> items[i].next == items[i + 1]
    }

    constructor ()
      ensures Valid() && items == []
    {
      count, header, tail, items := 0, null, null, [];
    }

    function GetListCount(): (n: int)
      requires Valid()
      reads this, items
      ensures n == |items|
    {
      count
    }

    /** Appends a link that is not a member, over whatever the old tail points to. */
    method AddListToTail(item: Link)
      requires Valid() && item !in items
      modifies this, item`next, items`next
      ensures Valid() && items == old(items) + [item] && item.next == null
    {
      item.next := null;
      items := items + [item];
      if header == null {
        header, tail, count := item, item, 1;
        return;
      }
      tail.next := item;
      tail := item;
      count := count + 1;
    }

    method AddListToHeader(item: Link)
      requires Valid() && item !in items
      modifies this, item`next
      ensures Valid() && items == [item] + old(items)
    {
      item.next := header;
      items := [item] + items;
      if header == null {
        header, tail, count := item, item, 1;
        return;
      }
      header := item;
      count := count + 1;
    }

    /** The links a search for `id` passes: it ends at the first link with that id, or where the pointers end. */
    ghost predicate IsWalk(path: seq<Link>, id: nat)
      reads this, path
    {
      && (if path == [] then header == null else header == path[0])
      && (forall i :: 0 <= i < |path| - 1 ==> path[i].next == path[i + 1] && path[i].id != id)
      && (path != [] ==> path[|path| - 1].id == id || path[|path| - 1].next == null)
    }

    ghost predicate Finds(path: seq<Link>, id: nat)
      reads path
    {
      path != [] && path[|path| - 1].id == id
    }

    /** The walk goes along the members first. */
    lemma {:induction false} WalkAlongItems(path: seq<Link>, id: nat, i: nat)
      requires Valid() && IsWalk(path, id) && i < |path| && i < |items|
      ensures path[i] == items[i]
    {
      if i == 0 {
      } else {
        WalkAlongItems(path, id, i - 1);
      }
    }

    /** A search for a member walks to it. */
    lemma WalkToMember(k: nat)
      requires Valid() && k < |items| && forall i :: 0 <= i < k ==> items[i].id != items[k].id
      ensures IsWalk(items[..k + 1], items[k].id) && Finds(items[..k + 1], items[k].id)
    {
    }

    /** Removes the first link with an id.  If that is a member the list is as it was without it; a link found
        behind the tail only lowers the count, so that the list is corrupt. */
    method RemoveList(id: nat, ghost path: seq<Link>) returns (r: Link?)
      requires Valid() && IsWalk(path, id)
      modifies this, items`next, path`next
      ensures r == if old(Finds(path, id)) then path[|path| - 1] else null
      ensures !old(Finds(path, id)) ==> Valid() && items == old(items)
      ensures old(Finds(path, id)) && |path| <= |old(items)| ==>
                Valid() && items == old(items)[..|path| - 1] + old(items)[|path|..]
      ensures old(Finds(path, id)) && |path| > |old(items)| ==>
                !Valid() && items == old(items) && count == |items| - 1 && header == old(header) && tail == old(tail)
      ensures |path| <= 1 || path[|path| - 1] == old(tail) ==>
                forall x :: x in path ==> x.next == old(x.next)
    {
      var previous, link := header, header;
      ghost var i := 0;
      while link != null
        invariant 0 <= i <= |path| && Valid() && IsWalk(path, id) && items == old(items)
        invariant link == if i < |path| then path[i] else null
        invariant i > 0 ==> previous == path[i - 1]
        invariant i == |path| ==> !Finds(path, id)
        invariant forall k :: 0 <= k < |path| ==> path[k].next == old(path[k].next) && path[k].id == old(path[k].id)
        decreases |path| - i
      {
        if link.id == id {
          assert i == |path| - 1;
          Unlink(previous, link, path, id);
          return link;
        }
        previous := link;
        link := link.next;
        i := i + 1;
      }
      r := null;
    }

    /** Takes the last link of the walk out. */
    method Unlink(previous: Link?, link: Link, ghost path: seq<Link>, ghost id: nat)
      requires Valid() && IsWalk(path, id) && Finds(path, id) && link == path[|path| - 1]
      requires |path| > 1 ==> previous == path[|path| - 2]
      modifies this, items`next, path`next
      ensures |path| <= |old(items)| ==> Valid() && items == old(items)[..|path| - 1] + old(items)[|path|..]
      ensures |path| > |old(items)| ==>
                !Valid() && items == old(items) && count == |items| - 1 && header == old(header) && tail == old(tail)
      ensures |path| == 1 || link == old(tail) ==> forall x :: x in path ==> x.next == old(x.next)
    {
      ghost var k := |path| - 1;
      if k < |items| {
        WalkAlongItems(path, id, k);
        if k > 0 {
          WalkAlongItems(path, id, k - 1);
        }
        items := items[..k] + items[k + 1..];
      } else {
        NotTheEnds(path, id);
      }
      if link == header && link == tail {
        header, tail := null, null;
      } else if link == header {
        header := link.next;
      } else if link == tail {
        tail := previous;
      } else {
        previous.next := link.next;
      }
      count := count - 1;
    }

    /** A link found behind the tail is neither the header nor the tail. */
    lemma NotTheEnds(path: seq<Link>, id: nat)
      requires Valid() && IsWalk(path, id) && Finds(path, id) && |path| > |items|
      ensures |path| > 1 && header != null && path[|path| - 1] != header && path[|path| - 1] != tail
    {
      var n := |items|;
      if n > 0 {
        WalkAlongItems(path, id, n - 1);
        assert path[0].id != id;
      }
    }

    method RemoveListFromHeader() returns (r: Link?)
      requires Valid()
      modifies this, items`next
      ensures Valid()
      ensures if old(items) == [] then r == null && items == []
              else r == old(items)[0] && items == old(items)[1..]
    {
      if count == 0 {
        return null;
      }
      r := RemoveList(header.id, [items[0]]);
    }

    /** Takes the tail off, provided no member before it has the tail's id. */
    method RemoveListFromTail() returns (r: Link?)
      requires Valid() && forall i :: 0 <= i < |items| - 1 ==> items[i].id != items[|items| - 1].id
      modifies this, items`next
      ensures Valid()
      ensures if old(items) == [] then r == null && items == []
              else r == old(items)[|old(items)| - 1] && items == old(items)[..|old(items)| - 1]
    {
      if count == 0 {
        return null;
      }
      r := RemoveList(tail.id, items);
    }
  }

  /** Removing the tail twice: the second removal still finds it behind the new tail, and the list then claims
      to be empty although its header is a member. */
  method RemovedTailIsFoundAgain() returns (list: LinkedList, a: Link)
    ensures fresh(list) && fresh(a) && list.header == a && list.items == [a] && list.count == 0 && !list.Valid()
  {
    a := new Link(1);
    var b := new Link(2);
    list := new LinkedList();
    list.AddListToTail(a);
    list.AddListToTail(b);
    assert list.items == [a, b];
    var first := list.RemoveList(2, [a, b]);
    assert list.items == [a];
    assert [a, b][0] == a && [a, b][1] == b && a in [a, b] && b in [a, b];
    assert list.header == list.items[0];
    var again := list.RemoveList(2, [a, b]);
  }
}
