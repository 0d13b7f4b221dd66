/** The list of lock items (clnt_fd_locks.h), updated in place under the mutex. */
module FdLockList {
  import FdLocks

  class LockItem {
    const fd: int
    ghost const id: nat
    var refs: nat
    var active: bool

    constructor (fd: int, ghost id: nat)
      ensures this.fd == fd && this.id == id && refs == 1 && !active
    {
      this.fd, this.id, refs, active := fd, id, 1, false;
    }
  }

  /** One item for a descriptor. */
  ghost predicate Distinct(list: seq<LockItem>) {
    forall i, j | 0 <= i < j < |list| :: list[i].fd != list[j].fd
  }

  lemma Without(list: seq<LockItem>, i: nat)
    requires Distinct(list) && i < |list|
    ensures var less := list[..i] + list[i + 1..];
            && Distinct(less)
            && (forall x <- less :: x in list && x.fd != list[i].fd)
            && (forall x <- list :: x == list[i] || x in less)
  {
    var less := list[..i] + list[i + 1..];
    forall x <- list ensures x == list[i] || x in less {
      var j :| 0 <= j < |list| && list[j] == x;
      assert j < i ==> less[j] == x;
      assert j > i ==> less[j - 1] == x;
    }
  }

  lemma InFront(list: seq<LockItem>, item: LockItem)
    requires Distinct(list) && forall x <- list :: x.fd != item.fd
    ensures Distinct([item] + list)
    ensures forall x :: x in [item] + list <==> x == item || x in list
  {}

  class LockList {
    var list: seq<LockItem>
    ghost var items: map<int, FdLocks.Item>
    ghost var next: nat

    /** `x` is in the table, as it is. */
    ghost predicate Shown(x: LockItem)
      reads this`items, x`refs, x`active
    {
      x.fd in items && x.refs > 0 && items[x.fd] == FdLocks.Item(x.id, x.refs, x.active)
    }

    ghost predicate Valid()
      reads this`list, this`items, list`refs, list`active
    {
      && Distinct(list)
      && (forall x <- list :: Shown(x))
      && (forall fd <- items :: exists x <- list :: x.fd == fd)
    }

    constructor ()
      ensures Valid() && items == map[] && next == 0
    {
      list, items, next := [], map[], 0;
    }

    /** The search of fd_lock_create. */
    method Find(fd: int) returns (item: LockItem?)
      requires Valid()
      ensures item == null <==> fd !in items
      ensures item != null ==> item in list && item.fd == fd
    {
      var i := 0;
      while i < |list| && list[i].fd != fd
        invariant 0 <= i <= |list|
        invariant forall j | 0 <= j < i :: list[j].fd != fd
      {
        i := i + 1;
      }
      if i < |list| {
        assert Shown(list[i]);
        return list[i];
      }
      item := null;
    }

    method Create(fd: int) returns (item: LockItem)
      requires Valid()
      modifies this`list, this`items, this`next, list`refs
      ensures Valid()
      ensures items == FdLocks.Acquire(old(items), old(next), fd) && next == old(next) + 1
      ensures item in list && item.fd == fd && item.id == items[fd].id
    {
      var found := Find(fd);
      if found == null {
        item := new LockItem(fd, next);
        InFront(list, item);
        hide Distinct;
        list := [item] + list;
        items := items[fd := FdLocks.Item(next, 1, false)];
      } else {
        item := found;
        item.refs := item.refs + 1;
        items := items[fd := items[fd].(refs := item.refs)];
      }
      next := next + 1;
    }

    /** TAILQ_REMOVE. */
    method Remove(item: LockItem)
      requires Distinct(list) && item in list
      modifies this`list
      ensures Distinct(list)
      ensures forall x <- list :: x in old(list) && x.fd != item.fd
      ensures forall x <- old(list) :: x == item || x in list
    {
      var i :| 0 <= i < |list| && list[i] == item;
      Without(list, i);
      list := list[..i] + list[i + 1..];
    }

    method Destroy(item: LockItem) returns (freed: bool)
      requires Valid() && item in list
      modifies this`list, this`items, item`refs
      ensures Valid()
      ensures items == FdLocks.Release(old(items), item.fd)
      ensures freed <==> item.fd !in items
      ensures freed <==> item !in list
    {
      assert Shown(item);
      item.refs := item.refs - 1;
      freed := item.refs <= 0;
      items := FdLocks.Release(items, item.fd);
      if freed { Remove(item); }
      hide Distinct;
    }
  }
}
