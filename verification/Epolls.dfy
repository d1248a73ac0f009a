/** `Lib_Epoll`: the count of registered descriptors and the listener's slot. */
module Epolls {
  /** Descriptors are below this in every table of the server. */
  const LIMIT: nat := 1024

  const TWO_32: nat := 0x1_0000_0000

  lemma {:induction false} FewBelow(s: set<nat>, n: nat)
    requires forall x :: x in s ==> x < n
    ensures |s| <= n
  {
    if n == 0 {
      assert s == {};
    } else {
      var r := s - {n - 1};
      FewBelow(r, n - 1);
      assert s <= r + {n - 1};
      if n - 1 in s { assert s == r + {n - 1}; } else { assert s == r; }
    }
  }

  class Epoll {
    /** `m_nums`, an unsigned int. */
    var nums: nat
    /** `m_listen` */
    var listen: int
    /** What the kernel has registered. */
    var registered: set<nat>

    constructor ()
      ensures Valid() && nums == 0 && listen == -1 && registered == {}
    {
      nums, listen, registered := 0, -1, {};
    }

    ghost predicate Valid()
      reads this
    {
      (forall fd :: fd in registered ==> fd < LIMIT) && nums == |registered|
    }

    predicate Loop()
      reads this
    {
      0 < nums
    }

    /** `epoll_ctl`: adding what is registered and removing what is not fail, and adding may be refused
        for other reasons too. */
    method SystemCtl(fd: nat, isAdd: bool, granted: bool) returns (ok: bool)
      modifies this`registered
      ensures ok == if isAdd then granted && fd !in old(registered) else fd in old(registered)
      ensures registered == if !ok then old(registered) else if isAdd then old(registered) + {fd} else old(registered) - {fd}
    {
      var known := fd in registered;
      ok := if isAdd then granted && !known else known;
      if ok {
        registered := if isAdd then registered + {fd} else registered - {fd};
      }
    }

    /** `ctl` keeps the count equal to the number of registered descriptors. Whether the kernel makes a
        new descriptor non-blocking and takes it in is `granted`. */
    method Ctl(fd: int, isAdd: bool, granted: bool) returns (ok: bool)
      requires Valid() && fd < LIMIT
      modifies this`nums, this`registered
      ensures Valid()
      ensures registered == if !ok then old(registered) else if isAdd then old(registered) + {fd} else old(registered) - {fd}
      ensures ok == (0 <= fd && if isAdd then granted && fd !in old(registered) else fd in old(registered))
    {
      if 0 > fd {
        return false;
      }
      if isAdd {
        if !granted {
          return false;
        }
      }
      FewBelow(registered, LIMIT);
      ok := SystemCtl(fd, isAdd, granted);
      if ok {
        nums := (if isAdd then nums + 1 else nums - 1 + TWO_32) % TWO_32;
      }
    }

    method Add(fd: int, isListen: bool, granted: bool) returns (ok: bool)
      requires Valid() && fd < LIMIT
      modifies this
      ensures Valid() && ok == (0 <= fd && granted && fd !in old(registered))
      ensures registered == (if ok then old(registered) + {fd} else old(registered))
      ensures listen == if ok && isListen then fd else old(listen)
    {
      ok := Ctl(fd, true, granted);
      if ok {
        if isListen {
          listen := fd;
        }
      }
    }

    /** `del` also closes the descriptor, which only matters for which one `accept` gives out next. */
    method Del(fd: int) returns (ok: bool)
      requires Valid() && fd < LIMIT
      modifies this
      ensures Valid() && ok == (fd in old(registered)) && registered == old(registered) - {fd}
      ensures listen == if ok && old(listen) == fd then -1 else old(listen)
    {
      ok := Ctl(fd, false, true);
      if ok {
        if listen == fd {
          listen := -1;
        }
      }
    }
  }
}
